/** Bytes, Buffer-style reads and the hexadecimal and decimal renderings used by the object store. */
module Bytes {

  import opened Wrappers

  /** An octet; the bitwise tests of the source are written as arithmetic on it (`b & 0x80` is `b >= 128`). */
  type byte = x: int | 0 <= x < 256

  /** `buf[i]` as the bitwise operators see it: a read beyond the end gives `undefined`, which they treat as 0. */
  function At(s: seq<byte>, i: int): byte
  {
    if 0 <= i < |s| then s[i] else 0
  }

  /** `buf.slice(a, b)` for non-negative bounds: both ends are clamped to the buffer. */
  function Slice(s: seq<byte>, a: nat, b: nat): (r: seq<byte>)
    ensures |r| <= |s| && (a <= b && b <= |s| ==> r == s[a..b])
    ensures a <= b ==> |r| <= b - a
  {
    var lo := if a <= |s| then a else |s|;
    var hi := if b <= |s| then b else |s|;
    if lo <= hi then s[lo..hi] else []
  }

  /** 256 to the power `n`. */
  function Pow256(n: nat): (p: nat)
    ensures p >= 1
  {
    if n == 0 then 1 else 256 * Pow256(n - 1)
  }

  /** The unsigned big-endian value of `bs`, below `256^|bs|`. */
  function BigEndian(bs: seq<byte>): (v: nat)
    ensures v < Pow256(|bs|)
  {
    if bs == [] then 0 else BigEndian(bs[..|bs| - 1]) * 256 + bs[|bs| - 1]
  }

  /** `buf.readUInt32BE(pos)`: throws unless four bytes are available at `pos`. */
  function ReadU32BE(s: seq<byte>, pos: nat): (r: Result<nat>)
    ensures r.Ok? <==> pos + 4 <= |s|
    ensures r.Err? ==> r.error == OutOfRange
    ensures r.Ok? ==> r.value < 0x1_0000_0000
  {
    if pos + 4 <= |s| then
      assert Pow256(4) == 0x1_0000_0000;
      Ok(BigEndian(s[pos..pos + 4]))
    else Err(OutOfRange)
  }

  /** The lower-case hexadecimal digit of `d`. */
  function HexDigit(d: nat): (c: char)
    requires d < 16
    ensures IsHexChar(c)
  {
    if d < 10 then ('0' as int + d) as char else ('a' as int + d - 10) as char
  }

  predicate IsHexChar(c: char)
  {
    '0' <= c <= '9' || 'a' <= c <= 'f'
  }

  /** The two lower-case hexadecimal digits of one byte, high nibble first. */
  function HexByte(b: byte): (h: string)
    ensures |h| == 2 && IsHexChar(h[0]) && IsHexChar(h[1])
  {
    [HexDigit(b / 16), HexDigit(b % 16)]
  }

  /** `buf.toString('hex')`. */
  function Hex(bs: seq<byte>): (h: string)
    ensures |h| == 2 * |bs|
    ensures forall k :: 0 <= k < |h| ==> IsHexChar(h[k])
  {
    if bs == [] then "" else HexByte(bs[0]) + Hex(bs[1..])
  }

  /** The decimal digit of `d`. */
  function DecimalDigit(d: nat): (c: char)
    requires d < 10
    ensures '0' <= c <= '9'
  {
    ('0' as int + d) as char
  }

  /**
   * `${n}` for a non-negative integer: its decimal digits without leading zeros. JavaScript
   * prints the same only for an exact number below 10^21.
   */
  function Decimal(n: nat): (s: string)
    ensures |s| >= 1
    ensures forall k :: 0 <= k < |s| ==> '0' <= s[k] <= '9'
  {
    if n < 10 then [DecimalDigit(n)] else Decimal(n / 10) + [DecimalDigit(n % 10)]
  }

  /** Bytes read as text, one character per byte (the model has no UTF-8 decoder). */
  function ToText(bs: seq<byte>): (t: string)
    ensures |t| == |bs| && forall k :: 0 <= k < |bs| ==> t[k] as int == bs[k]
  {
    if bs == [] then "" else [bs[0] as char] + ToText(bs[1..])
  }

  /** Text written as bytes, one byte per character; the inverse of ToText on characters below 256. */
  function FromText(t: string): (bs: seq<byte>)
    requires forall k :: 0 <= k < |t| ==> t[k] as int < 256
    ensures |bs| == |t| && forall k :: 0 <= k < |t| ==> bs[k] == t[k] as int
  {
    if t == [] then [] else [t[0] as int] + FromText(t[1..])
  }

  /** Writing two texts one after the other writes their bytes one after the other. */
  lemma {:induction false} FromTextAppend(a: string, b: string)
    requires forall k :: 0 <= k < |a| ==> a[k] as int < 256
    requires forall k :: 0 <= k < |b| ==> b[k] as int < 256
    ensures FromText(a + b) == FromText(a) + FromText(b)
  {
    if a == [] {
      assert a + b == b;
    } else {
      assert (a + b)[1..] == a[1..] + b;
      FromTextAppend(a[1..], b);
    }
  }

  /** Text written as bytes reads back as the same text, and bytes read as text write back unchanged. */
  lemma TextRoundTrip(t: string, bs: seq<byte>)
    requires forall k :: 0 <= k < |t| ==> t[k] as int < 256
    ensures ToText(FromText(t)) == t
    ensures FromText(ToText(bs)) == bs
  {
    assert forall k :: 0 <= k < |t| ==> ToText(FromText(t))[k] as int == t[k] as int;
  }
}
