/** Byte strings, fixed-width integer codecs and decimal text shared by the
    transaction log, the registry and the protocol handler. Python 2 `str`
    values are byte strings, so every payload, queue name, command line and
    response is a `seq<byte>` here. */
module Bytes {

  type byte = b: int | 0 <= b < 256

  /** The range of the struct format characters `I` (4 bytes, unsigned). */
  const U32Limit: int := 0x1_0000_0000
  type u32 = n: int | 0 <= n < U32Limit

  datatype Option<+T> = None | Some(value: T)

  const CR: byte := 13
  const LF: byte := 10
  const SP: byte := 32
  const CRLF: seq<byte> := [CR, LF]

  function Min(a: int, b: int): int { if a <= b then a else b }

  /** The bytes of a string literal whose characters are all below 256. */
  function Ascii(s: string): (r: seq<byte>)
    requires forall i | 0 <= i < |s| :: s[i] as int < 256
    ensures |r| == |s|
    ensures forall i | 0 <= i < |s| :: r[i] == s[i] as int
  {
    seq(|s|, i requires 0 <= i < |s| => s[i] as int as byte)
  }

  // ---------------------------------------------------------------------
  // 4-byte unsigned integers

  /** Little-endian `struct.pack("I", n)` (the native layout of the hosts the
      log is written on, fixed here). */
  function LE32(n: u32): (r: seq<byte>)
    ensures |r| == 4
  {
    [n % 256, n / 256 % 256, n / 256 / 256 % 256, n / 256 / 256 / 256]
  }

  function FromLE32(s: seq<byte>): (n: u32)
    requires |s| == 4
  {
    s[0] as int + 256 * (s[1] as int) + 65536 * (s[2] as int) + 16777216 * (s[3] as int)
  }

  lemma LE32RoundTrip(n: u32)
    ensures FromLE32(LE32(n)) == n
  {
    SplitByte(n);
    SplitByte(n / 256);
    SplitByte(n / 256 / 256);
  }

  /** A number is its low byte plus 256 times the rest. */
  lemma SplitByte(n: nat)
    ensures n == n % 256 + 256 * (n / 256)
  {
  }

  /** Network-order `struct.pack("!I", n)`. */
  function BE32(n: u32): (r: seq<byte>)
    ensures |r| == 4
  {
    [n / 256 / 256 / 256, n / 256 / 256 % 256, n / 256 % 256, n % 256]
  }

  function FromBE32(s: seq<byte>): (n: u32)
    requires |s| == 4
  {
    16777216 * (s[0] as int) + 65536 * (s[1] as int) + 256 * (s[2] as int) + s[3] as int
  }

  lemma BE32RoundTrip(n: u32)
    ensures FromBE32(BE32(n)) == n
  {
    SplitByte(n);
    SplitByte(n / 256);
    SplitByte(n / 256 / 256);
  }

  // ---------------------------------------------------------------------
  // Decimal text: Python's `int(digits)` and `"%d" % n`

  predicate IsDigit(b: byte) { 48 <= b <= 57 }

  predicate AllDigits(s: seq<byte>) { forall i | 0 <= i < |s| :: IsDigit(s[i]) }

  /** `int(s)` for a string of ASCII digits (leading zeros allowed). */
  function ParseNat(s: seq<byte>): nat
    requires AllDigits(s)
  {
    if s == [] then 0 else 10 * ParseNat(s[..|s| - 1]) + (s[|s| - 1] - 48)
  }

  /** `"%d" % n`: the shortest decimal text of `n`. */
  function Decimal(n: nat): (r: seq<byte>)
    ensures 0 < |r| && AllDigits(r)
    ensures |r| > 1 ==> r[0] != 48
  {
    if n < 10 then [48 + n] else Decimal(n / 10) + [48 + n % 10]
  }

  lemma {:induction false} ParseDecimal(n: nat)
    ensures ParseNat(Decimal(n)) == n
  {
    if n >= 10 {
      var d := Decimal(n);
      assert d[..|d| - 1] == Decimal(n / 10);
      ParseDecimal(n / 10);
    }
  }

  // ---------------------------------------------------------------------
  // Sequences of byte strings

  /** Summed length of the strings in `items`. */
  function TotalLength(items: seq<seq<byte>>): nat
  {
    if items == [] then 0 else |items[0]| + TotalLength(items[1..])
  }

  lemma {:induction false} TotalLengthSnoc(items: seq<seq<byte>>, x: seq<byte>)
    ensures TotalLength(items + [x]) == TotalLength(items) + |x|
  {
    if items != [] {
      assert (items + [x])[1..] == items[1..] + [x];
      TotalLengthSnoc(items[1..], x);
    }
  }

  /** The strings of `parts` written one after the other. */
  function Flatten(parts: seq<seq<byte>>): seq<byte>
  {
    if parts == [] then [] else parts[0] + Flatten(parts[1..])
  }

  lemma {:induction false} FlattenSnoc(parts: seq<seq<byte>>, x: seq<byte>)
    ensures Flatten(parts + [x]) == Flatten(parts) + x
  {
    if parts != [] {
      assert (parts + [x])[1..] == parts[1..] + [x];
      FlattenSnoc(parts[1..], x);
    }
  }
}
