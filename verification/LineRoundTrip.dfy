/**
 A frame printed as the fields of a line comes back from the line: through the
 checksum, the tokens, the hexadecimal numbers and the flags.
*/
module LineRoundTrip {
  import opened Bytes
  import opened LineProtocol
  import Padding

  predicate AllDigits(s: string) {
    forall k | 0 <= k < |s| :: Nybble(s[k]) >= 0
  }

  predicate NoStar(s: string) {
    forall k | 0 <= k < |s| :: s[k] != '*'
  }

  lemma DigitBack(n: int)
    requires 0 <= n < 16
    ensures Nybble(Digit(n)) == n && Nybble(UpperDigit(n)) == n
  {
  }

  // ------------------------------------------------------------- numbers

  lemma {:induction false} HexPrefixAppend(s: string, t: string, value: nat)
    requires AllDigits(s)
    ensures HexPrefix(s + t, value) == HexPrefix(t, HexPrefix(s, value))
    decreases |s|
  {
    if s == "" {
      assert s + t == t;
    } else {
      assert (s + t)[1..] == s[1..] + t;
      HexPrefixAppend(s[1..], t, 16 * value + Nybble(s[0]));
    }
  }

  lemma {:induction false} HexBack(n: nat)
    ensures Hex(n) != "" && AllDigits(Hex(n)) && HexPrefix(Hex(n), 0) == n
  {
    var last := [Digit(n % 16)];
    DigitBack(n % 16);
    assert last[1..] == "";
    if n >= 16 {
      HexBack(n / 16);
      HexPrefixAppend(Hex(n / 16), last, 0);
      assert HexPrefix(last, n / 16) == HexPrefix("", 16 * (n / 16) + n % 16);
    } else {
      assert HexPrefix(last, 0) == HexPrefix("", n);
    }
  }

  lemma {:induction false} ZerosInFront(zeros: nat, s: string)
    requires zeros <= 3 && AllDigits(s)
    ensures var padded := "000"[..zeros] + s; AllDigits(padded) && HexPrefix(padded, 0) == HexPrefix(s, 0)
  {
    var front := "000"[..zeros];
    if zeros == 0 {
      assert front + s == s;
    } else {
      assert (front + s)[1..] == "000"[..zeros - 1] + s;
      ZerosInFront(zeros - 1, s);
    }
  }

  lemma Hex4Back(n: nat)
    ensures Hex4(n) != "" && AllDigits(Hex4(n)) && HexPrefix(Hex4(n), 0) == n
  {
    HexBack(n);
    var zeros := if n < 0x10 then 3 else if n < 0x100 then 2 else if n < 0x1000 then 1 else 0;
    ZerosInFront(zeros, Hex(n));
    assert Hex4(n) == "000"[..zeros] + Hex(n);
  }

  lemma AddressBack(id: uint32)
    ensures Stoul16(Hex4(id)) == Some(id) && Low32(id) == id
  {
    hide Hex4, HexPrefix;
    Hex4Back(id);
    var s := Hex4(id);
    assert Nybble(s[0]) >= 0;
    assert SkipBlanks(s) == s;
    assert |s| >= 3 ==> Nybble(s[1]) >= 0;
  }

  lemma {:induction false} BytesBack(data: seq<byte>)
    ensures AllDigits(HexBytes(data)) && |HexBytes(data)| == 2 * |data| && CanBytes(HexBytes(data)) == data
  {
    if data != [] {
      DigitBack(data[0] / 16);
      DigitBack(data[0] % 16);
      BytesBack(data[1..]);
      var s := HexBytes(data);
      assert s[2..] == HexBytes(data[1..]);
    }
  }

  // ------------------------------------------------------------- checksum

  lemma {:induction false} NoLastStar(s: string)
    requires NoStar(s)
    ensures LastStar(s) == -1
  {
    if s != "" {
      NoLastStar(s[..|s| - 1]);
    }
  }

  lemma LastStarStep(s: string, c: char)
    ensures LastStar(s + [c]) == if c == '*' then |s| else LastStar(s)
  {
    assert (s + [c])[..|s|] == s;
  }

  lemma LastStarOf(s: string, high: char, low: char)
    requires high != '*' && low != '*'
    ensures LastStar(s + "*" + [high, low]) == |s|
  {
    hide LastStar;
    LastStarStep(s, '*');
    LastStarStep(s + "*", high);
    LastStarStep(s + "*" + [high], low);
    assert s + "*" + [high, low] == s + "*" + [high] + [low];
  }

  lemma TrimOne(line: string)
    requires line != "" && line[|line| - 1] != ' '
    ensures TrimRight(line + " ") == line && TrimRight(line) == line
  {
    assert (line + " ")[..|line|] == line;
  }

  /** A line is passed on with its checksum removed; without one only if none is required. */
  lemma StripBack(line: string, active: bool)
    requires line != "" && line[|line| - 1] != ' ' && NoStar(line)
    ensures Strip(WithChecksum(line, active), active) == Some(line)
    ensures Strip(WithChecksum(line, true), false) == Some(line)
    ensures Strip(line, true) == None
  {
    hide Checksum;
    var crc := Checksum(line + " ");
    var high, low := UpperDigit(crc / 16), UpperDigit(crc % 16);
    DigitBack(crc / 16);
    DigitBack(crc % 16);
    var all := line + " " + "*" + [high, low];
    assert WithChecksum(line, true) == all;
    LastStarOf(line + " ", high, low);
    TrimOne(line);
    assert all[..|line| + 1] == line + " ";
    NoLastStar(line);
  }

  /** The last star of a line, with room for two characters after it. */
  predicate LastStarAt(line: string, star: nat) {
    star + 3 <= |line| && line[star] == '*' && NoStar(line[star + 1..])
  }

  predicate TwoDigitsAt(line: string, k: nat)
    requires k + 2 <= |line|
  {
    Nybble(line[k]) >= 0 && Nybble(line[k + 1]) >= 0
  }

  /** The last star is followed by two hex digits that give the checksum of what stands before it. */
  predicate ValidChecksum(line: string) {
    exists star: nat | star < |line| :: LastStarAt(line, star) && TwoDigitsAt(line, star + 1)
      && 16 * Nybble(line[star + 1]) + Nybble(line[star + 2]) == Checksum(line[..star])
  }

  /** The last star is followed by two characters that are not both hex digits. */
  predicate StarWithoutDigits(line: string) {
    exists star: nat | star < |line| :: LastStarAt(line, star) && !TwoDigitsAt(line, star + 1)
  }

  lemma {:induction false} LastStarIs(s: string, star: nat)
    ensures star < |s| && s[star] == '*' && NoStar(s[star + 1..]) <==> LastStar(s) == star
  {
    if s != "" {
      var last := |s| - 1;
      LastStarIs(s[..last], star);
      if star < last {
        assert s[star + 1..] == s[..last][star + 1..] + [s[last]];
      }
    }
  }

  /** A line with a valid checksum is passed on without it, whether or not one is required. */
  lemma ValidIsStripped(line: string, star: nat, active: bool)
    requires ValidChecksum(line) && LastStarAt(line, star)
    ensures Strip(line, active) == Some(TrimRight(line[..star]))
  {
    hide Checksum, TrimRight, LastStar;
    var valid: nat :| valid < |line| && LastStarAt(line, valid) && TwoDigitsAt(line, valid + 1)
      && 16 * Nybble(line[valid + 1]) + Nybble(line[valid + 2]) == Checksum(line[..valid]);
    LastStarIs(line, star);
    LastStarIs(line, valid);
  }

  /**
   When checksums are required, only lines with a valid one are to be passed on. That is so
   for a line if and only if its last star is not followed by two characters that are not both
   hex digits.
  */
  lemma RequiredChecksum(line: string)
    ensures (Strip(line, true).Some? ==> ValidChecksum(line)) <==> !StarWithoutDigits(line)
  {
    hide Checksum, LastStar;
    var star := LastStar(line);
    forall k: nat | k < |line|
      ensures LastStarAt(line, k) <==> star == k && k + 3 <= |line|
    {
      LastStarIs(line, k);
    }
    if star >= 0 && star + 3 <= |line| {
      assert LastStarAt(line, star);
    }
  }

  /** Such a line, taken for a frame although checksums are required. */
  lemma LineWithoutChecksumPasses()
    ensures var line := "rcv 1 00 *zz";
      StarWithoutDigits(line) && !ValidChecksum(line) && Meant(line, true) == Received(Frame(1, [0], Default, Default))
  {
    hide Checksum, NextToken, UnderstandRcv, Understand, FlagsIn, Stoul16, CanBytes;
    var line := "rcv 1 00 *zz";
    assert line[10..] == "zz" && LastStarAt(line, 9) && !TwoDigitsAt(line, 10);
    LastStarIs(line, 9);
    assert Strip(line, true) == Some(line);
    RequiredChecksum(line);
    assert line == "rcv " + "1 00 *zz";
    UnderstandRcvLine("1 00 *zz");
    ShortFrame();
  }

  lemma ShortFrame()
    ensures UnderstandRcv("1 00 *zz") == Received(Frame(1, [0], Default, Default))
  {
    hide NextToken, FlagsIn, Stoul16, CanBytes;
    assert "1 00 *zz" == "1" + " " + "00 *zz" && "00 *zz" == "00" + " " + "*zz";
    TokenThenSpace("1", "00 *zz");
    TokenThenSpace("00", "*zz");
    OneIsOne();
    assert CanBytes("00") == [0] by {
      CanBytesAre("00");
    }
    NoFlags();
  }

  lemma NoFlags()
    ensures FlagsIn("*zz", Default, Default) == (Default, Default)
  {
    hide NextToken;
    TokenAtEnd("*zz");
    TokenAtEnd("");
    assert FlagsIn("", Default, Default) == (Default, Default);
  }

  lemma OneIsOne()
    ensures Stoul16("1") == Some(1)
  {
    assert SkipBlanks("1") == "1" && "1"[1..] == "" && HexPrefix("1", 0) == HexPrefix("", 1);
  }

  // ------------------------------------------------------------- tokens

  /** The flags without the space in front of the first. */
  function FlagWords(brs: Toggle, fd: Toggle): string {
    var b := if brs == ForceOff then "b" else if brs == ForceOn then "B" else "";
    var f := if fd == ForceOff then "f" else if fd == ForceOn then "F" else "";
    if b == "" then f else if f == "" then b else b + " " + f
  }

  lemma FlagsBack(brs: Toggle, fd: Toggle)
    ensures FlagsIn(FlagWords(brs, fd), Default, Default) == (brs, fd)
  {
    hide NextToken;
    var b := if brs == ForceOff then "b" else if brs == ForceOn then "B" else "";
    var f := if fd == ForceOff then "f" else if fd == ForceOn then "F" else "";
    TokenAtEnd("");
    TokenAtEnd(b);
    TokenAtEnd(f);
    TokenThenSpace(b, f);
    assert FlagsIn("", brs, fd) == (brs, fd);
    assert FlagsIn("", brs, Default) == (brs, Default);
    assert FlagsIn(f, brs, Default) == (brs, fd);
    if b != "" {
      assert FlagsIn(if f == "" then b else b + " " + f, Default, Default) == FlagsIn(f, brs, Default);
    }
  }

  /** The words after `rcv`, one by one. */
  lemma WordsBack(id: uint32, data: seq<byte>, brs: Toggle, fd: Toggle)
    requires |data| <= 64
    ensures UnderstandRcv(Fields(id, data, brs, fd))
         == if data == [] then Nothing else Received(Frame(id, Padding.Padded(data), brs, fd))
  {
    hide Hex4, HexBytes, NextToken, FlagsIn, FlagWords, Stoul16, CanBytes, Padding.Padded, Low32;
    var address, digits, flags := Hex4(id), HexBytes(Padding.Padded(data)), FlagWords(brs, fd);
    PaddedLength(data);
    Hex4Back(id);
    BytesBack(Padding.Padded(data));
    var rest := digits + BrsFlag(brs) + FdFlag(fd);
    assert Fields(id, data, brs, fd) == address + " " + rest;
    TokenThenSpace(address, rest);
    if data == [] {
      EmptyWord(brs, fd);
      assert rest == BrsFlag(brs) + FdFlag(fd);
    } else {
      FlagsJoin(digits, brs, fd);
      assert NextToken(rest) == (digits, flags) by {
        if flags == "" {
          TokenAtEnd(digits);
        } else {
          TokenThenSpace(digits, flags);
        }
      }
      AddressBack(id);
      FlagsBack(brs, fd);
    }
  }

  lemma FlagsJoin(digits: string, brs: Toggle, fd: Toggle)
    ensures digits + BrsFlag(brs) + FdFlag(fd) ==
      if FlagWords(brs, fd) == "" then digits else digits + " " + FlagWords(brs, fd)
  {
  }

  /** With no digits the second word is empty. */
  lemma EmptyWord(brs: Toggle, fd: Toggle)
    ensures NextToken(BrsFlag(brs) + FdFlag(fd)).0 == ""
  {
  }

  lemma PaddedLength(data: seq<byte>)
    requires |data| <= 64
    ensures |data| <= |Padding.Padded(data)| <= 64 && (data == [] ==> Padding.Padded(data) == [])
  {
    Padding.RoundsUpToLeast(|data|);
  }

  lemma FieldsPlain(words: string, id: uint32, data: seq<byte>, brs: Toggle, fd: Toggle)
    requires |data| <= 64 && data != [] && NoStar(words)
    ensures var s := words + Fields(id, data, brs, fd); NoStar(s) && s[|s| - 1] != ' '
  {
    hide Hex4, HexBytes, Padding.Padded, AllDigits, NoStar, BrsFlag, FdFlag;
    Hex4Back(id);
    PaddedLength(data);
    var digits, flags := HexBytes(Padding.Padded(data)), BrsFlag(brs) + FdFlag(fd);
    BytesBack(Padding.Padded(data));
    DigitsPlain(Hex4(id));
    DigitsPlain(digits);
    FlagsPlain(digits, brs, fd);
    PlainJoin(words, Hex4(id), " ");
    PlainJoin(words + Hex4(id) + " ", digits, flags);
    FieldsShape(words, Hex4(id), digits, BrsFlag(brs), FdFlag(fd));
  }

  lemma FieldsShape(words: string, address: string, digits: string, b: string, f: string)
    requires digits != ""
    ensures words + (address + " " + digits + b + f) == words + address + " " + digits + (b + f)
    ensures var s, tail := words + (address + " " + digits + b + f), digits + b + f;
      s[|s| - 1] == tail[|tail| - 1]
  {
    assert words + (address + " " + digits + b + f) == words + address + " " + (digits + b + f);
  }

  lemma FlagsPlain(digits: string, brs: Toggle, fd: Toggle)
    requires digits != "" && digits[|digits| - 1] != ' '
    ensures NoStar(" ") && NoStar(BrsFlag(brs) + FdFlag(fd))
    ensures var s := digits + BrsFlag(brs) + FdFlag(fd); s[|s| - 1] != ' '
  {
  }

  lemma DigitsPlain(s: string)
    requires AllDigits(s)
    ensures NoStar(s) && (s != "" ==> s[|s| - 1] != ' ')
  {
  }

  lemma PlainJoin(a: string, b: string, c: string)
    requires NoStar(a) && NoStar(b) && NoStar(c)
    ensures NoStar(a + b + c)
  {
  }

  lemma UnderstandRcvLine(words: string)
    ensures Understand("rcv " + words) == UnderstandRcv(words)
  {
    hide UnderstandRcv, NextToken;
    var line := "rcv " + words;
    assert line == "rcv" + " " + words;
    TokenThenSpace("rcv", words);
    assert line[0] == 'r' && "OK"[0] == 'O' && "ERR"[0] == 'E';
  }

  /**
   Identifier, padded payload and flags survive the line, with checksums on at both ends,
   off at both, or sent but not required.
  */
  lemma FrameBack(id: uint32, data: seq<byte>, brs: Toggle, fd: Toggle, active: bool)
    requires 0 < |data| <= 64
    ensures var line := "rcv " + Fields(id, data, brs, fd);
      var frame := Received(Frame(id, Padding.Padded(data), brs, fd));
      Meant(WithChecksum(line, active), active) == frame && Meant(WithChecksum(line, true), false) == frame
  {
    hide Fields, Understand, UnderstandRcv, Strip, WithChecksum, Frame, Padding.Padded;
    assert NoStar("rcv ");
    FieldsPlain("rcv ", id, data, brs, fd);
    StripBack("rcv " + Fields(id, data, brs, fd), active);
    UnderstandRcvLine(Fields(id, data, brs, fd));
    WordsBack(id, data, brs, fd);
  }

  /**
   The line that is sent for a frame: without its newline and its checksum, which is there if checksums
   are on, it is the two command words and then the frame's identifier, padded payload and flags, with
   bit-rate switching forced off if it is disabled.
  */
  lemma SentLineBack(frame: TxFrame, disableBrs: bool, active: bool)
    requires 0 < |frame.data| <= 64
    ensures var line := SendLine(frame, disableBrs, active);
      && line != "" && line[|line| - 1] == '\n' && (active <==> '*' in line)
      && Strip(line[..|line| - 1], active).Some?
      && var (can, afterCan) := NextToken(Strip(line[..|line| - 1], active).value);
      && var (send, words) := NextToken(afterCan);
      && can == "can" && send == "send"
      && UnderstandRcv(words) == Received(Frame(frame.id, Padding.Padded(frame.data),
                                                if disableBrs then ForceOff else frame.brs, frame.fd))
  {
    hide Fields, Understand, UnderstandRcv, Strip, Frame, Padding.Padded, NextToken, Checksum;
    var brs := if disableBrs then ForceOff else frame.brs;
    var fields := Fields(frame.id, frame.data, brs, frame.fd);
    var text := "can send " + fields;
    assert NoStar("can send ");
    FieldsPlain("can send ", frame.id, frame.data, brs, frame.fd);
    StripBack(text, active);
    var line := SendLine(frame, disableBrs, active);
    assert line == WithChecksum(text, active) + "\n";
    assert line[..|line| - 1] == WithChecksum(text, active);
    StarOfChecksum(text, active);
    CommandWords(text, fields);
    WordsBack(frame.id, frame.data, brs, frame.fd);
  }

  lemma CommandWords(text: string, fields: string)
    requires text == "can send " + fields
    ensures NextToken(text) == ("can", "send " + fields) && NextToken("send " + fields) == ("send", fields)
  {
    hide NextToken;
    assert text == "can" + " " + ("send " + fields) && "send " + fields == "send" + " " + fields;
    TokenThenSpace("can", "send " + fields);
    TokenThenSpace("send", fields);
  }

  /** A line as the adapter gets it. */
  lemma SentLine()
    ensures SendLine(TxFrame(0x8a01, [0x01, 0x00, 0x0f], ForceOn, ForceOff, true, 1), false, false)
      == "can send 8a01 01000f B f\n"
    ensures SendLine(TxFrame(0x1, [0xb2], Default, ForceOn, false, 1), true, false) == "can send 0001 b2 b F\n"
  {
    hide Hex4, HexBytes, Padding.Padded;
    Digits();
    assert Padding.Padded([0x01, 0x00, 0x0f]) == [0x01, 0x00, 0x0f] && Padding.Padded([0xb2]) == [0xb2] by {
      ShortIsPadded([0x01, 0x00, 0x0f]);
      ShortIsPadded([0xb2]);
    }
  }

  lemma ShortIsPadded(data: seq<byte>)
    requires |data| <= 8
    ensures Padding.Padded(data) == data
  {
  }

  lemma Digits()
    ensures HexBytes([0x01, 0x00, 0x0f]) == "01000f" && HexBytes([0xb2]) == "b2"
    ensures Hex4(0x8a01) == "8a01" && Hex4(0x1) == "0001"
  {
    hide Hex, Hex4, HexBytes;
    FourDigits();
    HexBytesStep(0x01, [0x00, 0x0f]);
    HexBytesStep(0x00, [0x0f]);
    HexBytesStep(0x0f, []);
    HexBytesStep(0xb2, []);
    assert [0x01] + [0x00, 0x0f] == [0x01, 0x00, 0x0f] && [0x00] + [0x0f] == [0x00, 0x0f];
    assert [0x0f] + [] == [0x0f] && [0xb2] + [] == [0xb2];
  }

  lemma FourDigits()
    ensures Hex4(0x8a01) == "8a01" && Hex4(0x1) == "0001"
  {
    hide Hex;
    HexStep(0x8, 0xa);
    HexStep(0x8a, 0x0);
    HexStep(0x8a0, 0x1);
    OneDigit();
  }

  lemma OneDigit()
    ensures Hex(0x8) == "8" && Hex(0x1) == "1"
  {
  }

  lemma HexStep(n: nat, digit: nat)
    requires n > 0 && digit < 16
    ensures Hex(16 * n + digit) == Hex(n) + [Digit(digit)]
  {
  }

  lemma HexBytesStep(b: byte, rest: seq<byte>)
    ensures HexBytes([b] + rest) == [Digit(b / 16), Digit(b % 16)] + HexBytes(rest)
    ensures HexBytes([]) == ""
  {
    assert ([b] + rest)[1..] == rest;
  }


  lemma StarOfChecksum(text: string, active: bool)
    requires NoStar(text)
    ensures active <==> '*' in WithChecksum(text, active)
  {
    hide Checksum;
    var crc := Checksum(text + " ");
    var line := text + " *" + [UpperDigit(crc / 16), UpperDigit(crc % 16)];
    assert line[|text| + 1] == '*';
  }

  /** Destination, source and prefix of a received identifier; the top bits of its two low bytes are not theirs. */
  lemma IdentifierParts(prefix: nat, source: nat, destination: nat, reply: bool, high: bool,
                        data: seq<byte>, brs: Toggle, fd: Toggle)
    requires prefix < 0x1_0000 && source < 0x80 && destination < 0x80
    ensures var id := prefix * 0x1_0000 + (if reply then 0x8000 else 0) + source * 0x100
                      + (if high then 0x80 else 0) + destination;
      id < 0x1_0000_0000 && Frame(id, data, brs, fd) == RxFrame(id, destination, source, prefix, data, brs, fd)
  {
    var low, middle := (if high then 0x80 else 0) + destination, (if reply then 0x80 else 0) + source;
    var upper := 0x100 * prefix + middle;
    var id := 0x100 * upper + low;
    SevenBits(upper, low);
    SevenBits(prefix, middle);
    SevenBits(0, destination);
    SevenBits(0, source);
    assert id / 0x1_0000 == id / 0x100 / 0x100;
  }

  /** The lowest byte, and its lower seven bits. */
  lemma SevenBits(upper: nat, low: nat)
    requires low < 0x100
    ensures (0x100 * upper + low) / 0x100 == upper
    ensures (0x100 * upper + low) % 128 == if low < 0x80 then low else low - 0x80
  {
  }

  // ------------------------------------------------------------- numbers that throw

  /** A line throws if and only if it is a frame whose address is no number. */
  lemma FailureExactly(line: string, active: bool)
    ensures Meant(line, active) == Failure <==>
      match Strip(line, active)
      case None => false
      case Some(text) =>
        var (start, words) := NextToken(text);
        var (address, rest) := NextToken(words);
        start == "rcv" && address != "" && NextToken(rest).0 != "" && Stoul16(address) == None
  {
    hide Strip, NextToken, FlagsIn, Stoul16, CanBytes, Contains;
    if Strip(line, active).Some? {
      var text := Strip(line, active).value;
      if text == "OK" || "ERR" <= text {
        FirstWord(text);
      }
    }
  }

  /** No acknowledgement and no error starts with the word of a frame. */
  lemma FirstWord(text: string)
    requires text == "OK" || "ERR" <= text
    ensures NextToken(text).0 != "rcv"
  {
    assert text[0] == "OK"[0] || text[0] == "ERR"[0];
    var word := NextToken(text).0;
    assert word != "" ==> word[0] == text[0];
    assert "rcv"[0] == 'r';
  }

  /** The two other lines that count: an acknowledgement, and errors with and without the word. */
  lemma OtherLines()
    ensures Meant("OK", false) == Ok && Meant("ERR checksum", false) == Error(true)
      && Meant("ERR x", false) == Error(false)
  {
    hide Checksum, NextToken, UnderstandRcv, LastStar, Contains;
    NoLastStar("OK");
    NoLastStar("ERR checksum");
    NoLastStar("ERR x");
    assert "ERR" <= "ERR checksum" && "ERR" <= "ERR x";
    HasWord("ERR ", "checksum");
    assert "ERR " + "checksum" == "ERR checksum";
    ShortHasNone("ERR x");
  }

  lemma {:induction false} HasWord(before: string, word: string)
    ensures Contains(before + word, word)
  {
    if before == "" {
      assert before + word == word;
    } else {
      assert (before + word)[1..] == before[1..] + word;
      HasWord(before[1..], word);
    }
  }

  lemma {:induction false} ShortHasNone(s: string)
    requires |s| < 8
    ensures !Contains(s, "checksum")
  {
    if s != "" {
      ShortHasNone(s[1..]);
    }
  }

  /** A word of hex digits is a number unless it is too large. */
  lemma DigitsAreNumber(word: string)
    requires word != "" && AllDigits(word)
    ensures Stoul16(word) == if HexPrefix(word, 0) >= ULONG then None else Some(HexPrefix(word, 0))
  {
    hide HexPrefix;
    assert Nybble(word[0]) >= 0 && SkipBlanks(word) == word;
    assert |word| >= 2 ==> Nybble(word[1]) >= 0;
  }

  /** A word that starts like no number is none. */
  lemma OtherWordsAreNoNumber(word: string)
    requires word != "" && Nybble(word[0]) < 0 && !IsBlank(word[0]) && word[0] !in "+-"
    ensures Stoul16(word) == None
  {
  }

  /** A short line of noise that throws. */
  lemma BadAddressFails()
    ensures Meant("rcv g 00", false) == Failure
  {
    hide NextToken, UnderstandRcv, FlagsIn, CanBytes, Stoul16;
    var line := "rcv g 00";
    NoLastStar(line);
    assert line == "rcv " + "g 00" && "g 00" == "g" + " " + "00";
    UnderstandRcvLine("g 00");
    TokenThenSpace("g", "00");
    TokenAtEnd("00");
    OtherWordsAreNoNumber("g");
    NoNumber("g 00");
  }

  lemma NoNumber(words: string)
    requires var (address, rest) := NextToken(words);
      address != "" && NextToken(rest).0 != "" && Stoul16(address) == None
    ensures UnderstandRcv(words) == Failure
  {
    hide NextToken, Stoul16;
  }

  /** A frame without payload is printed as a line that the reader drops. */
  lemma EmptyFrameIsDropped(id: uint32, brs: Toggle, fd: Toggle)
    ensures Understand("rcv " + Fields(id, [], brs, fd)) == Nothing
  {
    hide Fields, Understand, UnderstandRcv, Padding.Padded;
    UnderstandRcvLine(Fields(id, [], brs, fd));
    WordsBack(id, [], brs, fd);
  }
}
