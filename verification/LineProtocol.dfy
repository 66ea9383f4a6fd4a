/**
 The text lines of the serial transport: printing a frame to send
 (`CHILD_SendCanFdFrame`), and taking a received line apart (`CHILD_ProcessLine`,
 `Tokenizer`, `ParseCanData`).
*/
module LineProtocol {
  import opened Bytes
  import Crc
  import Padding

  type uint32 = n: int | 0 <= n < 0x1_0000_0000

  datatype Toggle = Default | ForceOff | ForceOn

  /** A frame as it is handed to the transport. */
  datatype TxFrame = TxFrame(id: uint32, data: seq<byte>, brs: Toggle, fd: Toggle, replyRequired: bool,
                             destination: nat)

  /** A frame as it is recovered from a line. */
  datatype RxFrame = RxFrame(id: uint32, destination: nat, source: nat, prefix: nat, data: seq<byte>, brs: Toggle,
                             fd: Toggle)

  // ------------------------------------------------------------- printing

  function Digit(n: int): char
    requires 0 <= n < 16
  {
    "0123456789abcdef"[n]
  }

  function UpperDigit(n: int): char
    requires 0 <= n < 16
  {
    "0123456789ABCDEF"[n]
  }

  /** `%x` */
  function Hex(n: nat): string {
    if n < 16 then [Digit(n)] else Hex(n / 16) + [Digit(n % 16)]
  }

  /** `%04x` */
  function Hex4(n: nat): string {
    if n < 0x10 then "000" + Hex(n)
    else if n < 0x100 then "00" + Hex(n)
    else if n < 0x1000 then "0" + Hex(n)
    else Hex(n)
  }

  /** `%02x` for each byte */
  function HexBytes(data: seq<byte>): string {
    if data == [] then "" else [Digit(data[0] / 16), Digit(data[0] % 16)] + HexBytes(data[1..])
  }

  function BrsFlag(brs: Toggle): string {
    match brs
    case Default => ""
    case ForceOff => " b"
    case ForceOn => " B"
  }

  function FdFlag(fd: Toggle): string {
    match fd
    case Default => ""
    case ForceOff => " f"
    case ForceOn => " F"
  }

  /** Address, padded payload and flags. */
  function Fields(id: uint32, data: seq<byte>, brs: Toggle, fd: Toggle): string
    requires |data| <= 64
  {
    Hex4(id) + " " + HexBytes(Padding.Padded(data)) + BrsFlag(brs) + FdFlag(fd)
  }

  function Octets(s: string): (r: seq<Crc.Octet>)
    ensures |r| == |s|
  {
    seq(|s|, k requires 0 <= k < |s| => Crc.FromInt(s[k] as int))
  }

  function Checksum(s: string): (n: int)
    ensures 0 <= n < 256
  {
    Crc.ToInt(Crc.Crc8(Crc.ZERO, Octets(s)))
  }

  /** A space and the checksum of everything before the star, when checksums are on. */
  function WithChecksum(line: string, active: bool): string {
    if active then
      var crc := Checksum(line + " ");
      line + " *" + [UpperDigit(crc / 16), UpperDigit(crc % 16)]
    else line
  }

  function SendLine(frame: TxFrame, disableBrs: bool, active: bool): string
    requires |frame.data| <= 64
  {
    var brs := if disableBrs then ForceOff else frame.brs;
    WithChecksum("can send " + Fields(frame.id, frame.data, brs, frame.fd), active) + "\n"
  }

  // ------------------------------------------------------------- tokens

  /** `strchr` also finds the terminating NUL. */
  predicate IsDelimiter(c: char) {
    c == ' ' || c == '\0'
  }

  predicate NoDelimiter(s: string) {
    forall k | 0 <= k < |s| :: !IsDelimiter(s[k])
  }

  /** The text up to the first delimiter, and the text after it. */
  function NextToken(s: string): (r: (string, string))
    ensures |r.1| <= |s| && (s != "" ==> |r.1| < |s|)
  {
    if s == "" then ("", "")
    else if IsDelimiter(s[0]) then ("", s[1..])
    else
      var (token, rest) := NextToken(s[1..]);
      ([s[0]] + token, rest)
  }

  class Tokenizer {
    const source: string
    var position: nat

    constructor (source: string)
      ensures this.source == source && Valid() && Remaining() == source
    {
      this.source, position := source, 0;
    }

    ghost predicate Valid()
      reads this
    {
      position <= |source|
    }

    ghost function Remaining(): string
      requires Valid()
      reads this
    {
      source[position..]
    }

    method Next() returns (token: string)
      requires Valid()
      modifies this
      ensures Valid() && (token, Remaining()) == NextToken(old(Remaining()))
    {
      if position == |source| {
        return "";
      }
      var start := position;
      var next := position;
      assert source[start..next] + NextToken(source[next..]).0 == NextToken(source[next..]).0;
      while next < |source| && !IsDelimiter(source[next])
        invariant start <= next <= |source|
        invariant NextToken(source[start..])
          == (source[start..next] + NextToken(source[next..]).0, NextToken(source[next..]).1)
      {
        ghost var tail := source[next..];
        assert tail[1..] == source[next + 1..];
        ghost var token' := NextToken(tail[1..]).0;
        assert source[start..next] + ([tail[0]] + token') == source[start..next + 1] + token';
        next := next + 1;
      }
      token := source[start..next];
      assert token + "" == token;
      if next < |source| {
        assert source[next..][1..] == source[next + 1..];
        position := next + 1;
      } else {
        position := next;
      }
    }
  }

  lemma {:induction false} TokenThenSpace(token: string, rest: string)
    requires NoDelimiter(token)
    ensures NextToken(token + " " + rest) == (token, rest)
  {
    var s := token + " " + rest;
    if token == "" {
      assert s[1..] == rest;
    } else {
      assert s[1..] == token[1..] + " " + rest && [token[0]] + token[1..] == token;
      TokenThenSpace(token[1..], rest);
    }
  }

  lemma {:induction false} TokenAtEnd(token: string)
    requires NoDelimiter(token)
    ensures NextToken(token) == (token, "")
  {
    if token != "" {
      assert [token[0]] + token[1..] == token;
      TokenAtEnd(token[1..]);
    }
  }

  // ------------------------------------------------------------- numbers

  function Nybble(c: char): int {
    if '0' <= c <= '9' then c as int - '0' as int
    else if 'a' <= c <= 'f' then c as int - 'a' as int + 10
    else if 'A' <= c <= 'F' then c as int - 'A' as int + 10
    else -1
  }

  /** Two hex digits as a byte; -1 stored in a byte if either is none. */
  function HexByte(a: char, b: char): byte {
    if Nybble(a) < 0 || Nybble(b) < 0 then 255 else 16 * Nybble(a) + Nybble(b)
  }

  function CanBytes(s: string): seq<byte> {
    if |s| < 2 then [] else [HexByte(s[0], s[1])] + CanBytes(s[2..])
  }

  lemma {:induction false} CanBytesAre(s: string)
    ensures |CanBytes(s)| == |s| / 2
    ensures forall k | 0 <= k < |s| / 2 :: CanBytes(s)[k] == HexByte(s[2 * k], s[2 * k + 1])
  {
    hide HexByte;
    if |s| >= 2 {
      CanBytesAre(s[2..]);
    }
  }

  /** At most 64 bytes are read; a last digit without its partner is not counted. */
  method ParseCanData(s: string) returns (data: seq<byte>)
    ensures data == CanBytes(if |s| <= 128 then s else s[..128])
  {
    hide CanBytes, HexByte;
    var toRead := if |s| <= 128 then |s| else 128;
    CanBytesAre(if |s| <= 128 then s else s[..128]);
    var out := new byte[64](_ => 0);
    var i := 0;
    while i < toRead
      invariant i % 2 == 0 && i <= toRead + 1
      invariant forall k | 0 <= k < i / 2 && k < toRead / 2 :: out[k] == HexByte(s[2 * k], s[2 * k + 1])
    {
      var second := if i + 1 < |s| then s[i + 1] else '\0';
      out[i / 2] := HexByte(s[i], second);
      i := i + 2;
    }
    data := out[..toRead / 2];
  }

  /** The hex digits at the front, as a number. */
  function HexPrefix(s: string, value: nat): nat {
    if s == "" || Nybble(s[0]) < 0 then value else HexPrefix(s[1..], 16 * value + Nybble(s[0]))
  }

  predicate IsBlank(c: char) {
    c == ' ' || '\t' <= c <= '\r'
  }

  function SkipBlanks(s: string): string {
    if s != "" && IsBlank(s[0]) then SkipBlanks(s[1..]) else s
  }

  const ULONG: int := 0x1_0000_0000_0000_0000

  /** `std::stoul(s, nullptr, 16)`; `None` where it throws. */
  function Stoul16(s: string): Option<nat> {
    var body := SkipBlanks(s);
    var negative := body != "" && body[0] == '-';
    var digits := if body != "" && (body[0] == '-' || body[0] == '+') then body[1..] else body;
    var number :=
      if |digits| >= 3 && digits[0] == '0' && (digits[1] == 'x' || digits[1] == 'X') && Nybble(digits[2]) >= 0
      then digits[2..] else digits;
    if number == "" || Nybble(number[0]) < 0 || HexPrefix(number, 0) >= ULONG then None
    else Some(if negative then (ULONG - HexPrefix(number, 0)) % ULONG else HexPrefix(number, 0))
  }

  // ------------------------------------------------------------- a received line

  /** `rfind('*')` */
  function LastStar(s: string): (k: int)
    ensures -1 <= k < |s|
  {
    if s == "" then -1 else if s[|s| - 1] == '*' then |s| - 1 else LastStar(s[..|s| - 1])
  }

  function TrimRight(s: string): string {
    if s != "" && s[|s| - 1] == ' ' then TrimRight(s[..|s| - 1]) else s
  }

  /** The line without its checksum; `None` if it is to be discarded. */
  function Strip(line: string, active: bool): Option<string> {
    var star := LastStar(line);
    if star >= 0 && star + 3 <= |line| then
      var hi, lo := Nybble(line[star + 1]), Nybble(line[star + 2]);
      if hi >= 0 && lo >= 0 then
        if 16 * hi + lo == Checksum(line[..star]) then Some(TrimRight(line[..star])) else None
      else Some(line)
    else if active then None
    else Some(line)
  }

  function Contains(s: string, word: string): bool {
    word <= s || (s != "" && Contains(s[1..], word))
  }

  /** What a line means. */
  datatype Meaning =
    | Nothing
    | Ok
    | Error(checksumWanted: bool)
    | Received(frame: RxFrame)
    | Failure   // std::stoul throws

  function FlagsIn(s: string, brs: Toggle, fd: Toggle): (Toggle, Toggle)
    decreases |s|
  {
    var (token, rest) := NextToken(s);
    if token == "" then (brs, fd)
    else if token == "b" then FlagsIn(rest, ForceOff, fd)
    else if token == "B" then FlagsIn(rest, ForceOn, fd)
    else if token == "f" then FlagsIn(rest, brs, ForceOff)
    else if token == "F" then FlagsIn(rest, brs, ForceOn)
    else FlagsIn(rest, brs, fd)
  }

  function Understand(line: string): Meaning {
    if line == "OK" then Ok
    else if "ERR" <= line then Error(Contains(line, "checksum"))
    else if NextToken(line).0 != "rcv" then Nothing
    else UnderstandRcv(NextToken(line).1)
  }

  /** The words after `rcv`: address, data, flags. */
  function UnderstandRcv(words: string): Meaning {
    var (address, afterAddress) := NextToken(words);
    var (data, afterData) := NextToken(afterAddress);
    if address == "" || data == "" then Nothing
    else if Stoul16(address) == None then Failure
    else
      var (brs, fd) := FlagsIn(afterData, Default, Default);
      Received(Frame(Low32(Stoul16(address).value), CanBytes(if |data| <= 128 then data else data[..128]), brs, fd))
  }

  /** `uint32_t arbitration_id = ...` */
  function Low32(n: nat): uint32 {
    n % 0x1_0000_0000
  }

  function Frame(id: uint32, data: seq<byte>, brs: Toggle, fd: Toggle): RxFrame {
    RxFrame(id, id % 128, id / 0x100 % 128, id / 0x1_0000, data, brs, fd)
  }

  function Meant(line: string, active: bool): Meaning {
    match Strip(line, active)
    case None => Nothing
    case Some(text) => Understand(text)
  }

  /** `CHILD_ProcessLine`, up to the point where the frame is known. */
  method ProcessLine(line: string, active: bool) returns (meaning: Meaning)
    ensures meaning == Meant(line, active)
  {
    var text := StripChecksum(line, active);
    match text
    case None =>
      meaning := Nothing;
    case Some(body) =>
      meaning := ReadLine(body);
  }

  method StripChecksum(line: string, active: bool) returns (text: Option<string>)
    ensures text == Strip(line, active)
  {
    hide Checksum;
    var star := FindLastStar(line);
    if star >= 0 && star + 3 <= |line| {
      var hi, lo := Nybble(line[star + 1]), Nybble(line[star + 2]);
      if hi >= 0 && lo >= 0 {
        var crc := Crc.ComputeCrc8(Octets(line[..star]));
        ChecksumIs(line[..star]);
        if 16 * hi + lo != Crc.ToInt(crc) {
          return None;
        }
        var body := StripSpaces(line[..star]);
        return Some(body);
      }
    } else if active {
      return None;
    }
    return Some(line);
  }

  method ReadLine(line: string) returns (meaning: Meaning)
    ensures meaning == Understand(line)
  {
    hide UnderstandRcv, NextToken, Contains;
    if line == "OK" {
      return Ok;
    }
    if |line| >= 3 && line[..3] == "ERR" {
      return Error(Contains(line, "checksum"));
    }
    var tokenizer := new Tokenizer(line);
    var start := tokenizer.Next();
    if start != "rcv" {
      return Nothing;
    }
    meaning := ReadFrame(tokenizer);
  }

  method ReadFrame(tokenizer: Tokenizer) returns (meaning: Meaning)
    requires tokenizer.Valid()
    modifies tokenizer
    ensures meaning == UnderstandRcv(old(tokenizer.Remaining()))
  {
    hide Stoul16, NextToken, FlagsIn, CanBytes, Low32, Frame;
    var address := tokenizer.Next();
    var data := tokenizer.Next();
    if address == "" || data == "" {
      return Nothing;
    }
    var number := Stoul16(address);
    if number == None {
      return Failure;
    }
    var bytes := ParseCanData(data);
    var brs, fd := ReadFlags(tokenizer);
    return Received(Frame(Low32(number.value), bytes, brs, fd));
  }

  lemma ChecksumIs(s: string)
    ensures Checksum(s) == Crc.ToInt(Crc.Crc8(Crc.ZERO, Octets(s)))
  {
  }

  method FindLastStar(s: string) returns (k: int)
    ensures k == LastStar(s)
  {
    k := |s| - 1;
    assert s[..|s|] == s;
    while k >= 0 && s[k] != '*'
      invariant -1 <= k < |s| && LastStar(s) == LastStar(s[..k + 1])
    {
      assert s[..k + 1][..k] == s[..k];
      k := k - 1;
    }
  }

  method StripSpaces(s: string) returns (r: string)
    ensures r == TrimRight(s)
  {
    r := s;
    while r != "" && r[|r| - 1] == ' '
      invariant TrimRight(r) == TrimRight(s)
      decreases |r|
    {
      r := r[..|r| - 1];
    }
  }

  method ReadFlags(tokenizer: Tokenizer) returns (brs: Toggle, fd: Toggle)
    requires tokenizer.Valid()
    modifies tokenizer
    ensures (brs, fd) == old(FlagsIn(tokenizer.Remaining(), Default, Default))
  {
    brs, fd := Default, Default;
    while true
      invariant tokenizer.Valid()
      invariant FlagsIn(tokenizer.Remaining(), brs, fd) == old(FlagsIn(tokenizer.Remaining(), Default, Default))
      decreases |tokenizer.Remaining()|
    {
      var flag := tokenizer.Next();
      if flag == "" {
        break;
      }
      if |flag| != 1 {
        continue;
      }
      if flag[0] == 'b' { brs := ForceOff; }
      if flag[0] == 'B' { brs := ForceOn; }
      if flag[0] == 'f' { fd := ForceOff; }
      if flag[0] == 'F' { fd := ForceOn; }
    }
  }
}
