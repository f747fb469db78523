/**
 * The entry header of a pack and the base reference of a deltified entry, as read from the
 * 32-byte window at the entry's offset (src/packfile.js:123-146, 188-203).
 */
module PackEntry {

  import opened Wrappers
  import opened Bytes
  import opened Delta

  /** The object type numbers of the pack format. */
  const ObjCommit: nat := 1
  const ObjTree: nat := 2
  const ObjBlob: nat := 3
  const ObjTag: nat := 4
  const ObjOfsDelta: nat := 6
  const ObjRefDelta: nat := 7

  /** How many bytes of the pack `_findByOffset` reads at an entry. */
  const HeadSize: nat := 32

  /**
   * The window read at `offset`: a zero-filled 32-byte buffer over which the file is read,
   * so bytes past the end of the pack stay 0.
   */
  function Head(pack: seq<byte>, offset: nat): (head: seq<byte>)
    ensures |head| == HeadSize
    ensures forall k :: 0 <= k < HeadSize ==> head[k] == At(pack, offset + k)
  {
    seq<byte>(HeadSize, k => At(pack, offset + k))
  }

  // ---------------------------------------------------------------- entry header

  /** The decoded header: `type`, `size` and `i`, the number of header bytes. */
  datatype Header = Header(kind: nat, size: nat, length: nat)

  /**
   * The header at the start of `head`: the first byte holds the type and the low four bits
   * of the size; its continuation bytes are read like a size field, each worth 16 times more.
   */
  function HeaderOf(head: seq<byte>): Header
  {
    var c := At(head, 0);
    var kind := c % 128 / 16;
    if c < 128 then Header(kind, c % 16, 1)
    else
      var v := VarintAt(head, 1);
      Header(kind, c % 16 + 16 * v.size, v.next)
  }

  /** The type is bits 4-6 of the first byte. */
  lemma HeaderKind(head: seq<byte>)
    ensures HeaderOf(head).kind == At(head, 0) / 16 % 8
  {
    var c := At(head, 0);
    if c >= 128 {
      assert c % 128 == c - 128;
      assert (c - 128) / 16 == c / 16 - 8;
    }
  }

  /**
   * The header runs up to and including the first byte with bit 7 clear; the size is the low
   * nibble of the first byte plus, for the `k`-th continuation byte, its low seven bits times
   * `16 * 128^(k-1)`. A read past the end of the window counts as a 0 byte, so at most one
   * byte beyond it is consumed.
   */
  lemma HeaderLayout(head: seq<byte>)
    ensures var h := HeaderOf(head);
      && 1 <= h.length <= |head| + 1
      && (forall k :: 0 <= k < h.length - 1 ==> At(head, k) >= 128)
      && At(head, h.length - 1) < 128
      && h.size == At(head, 0) % 16 + 16 * LowBits(head, 1, h.length - 1)
  {
    if At(head, 0) >= 128 {
      VarintAtCorrect(head, 1);
      VarintBound(head, 1);
    }
  }

  /** A size field starting inside `buf` ends at most one byte past its end. */
  lemma {:induction false} VarintBound(buf: seq<byte>, off: nat)
    requires off <= |buf|
    ensures VarintAt(buf, off).next <= |buf| + 1
    decreases |buf| - off
  {
    if At(buf, off) >= 128 {
      VarintBound(buf, off + 1);
    }
  }

  /** The header loop of `_findByOffset` (src/packfile.js:126-135). */
  method DecodeHeader(head: seq<byte>) returns (kind: nat, size: nat, i: nat)
    ensures Header(kind, size, i) == HeaderOf(head)
  {
    var c := At(head, 0);
    kind := c % 128 / 16;
    size := c % 16;
    var x: nat := 16;
    i := 1;
    while c >= 128
      invariant i >= 1 && c == At(head, i - 1)
      invariant i > 1 ==> At(head, 0) >= 128
      invariant forall k :: 1 <= k < i - 1 ==> At(head, k) >= 128
      invariant size == At(head, 0) % 16 + 16 * LowBits(head, 1, i - 1)
      invariant x == 16 * Pow(128, i - 1)
      decreases |head| + 1 - i
    {
      ghost var low, p := LowBits(head, 1, i - 1), Pow(128, i - 1);
      c := At(head, i);
      i := i + 1;
      assert LowBits(head, 1, i - 1) == low + (c % 128) * p;
      assert Pow(128, i - 1) == 128 * p;
      Scale16(c % 128, p);
      size := size + (c % 128) * x;
      x := x * 128;
    }
    if i > 1 {
      VarintAtCorrect(head, 1);
      VarintUnique(head, 1, Varint(LowBits(head, 1, i - 1), i), VarintAt(head, 1));
    }
  }

  lemma Scale16(a: nat, p: nat)
    ensures a * (16 * p) == 16 * (a * p)
    ensures 16 * p * 128 == 16 * (128 * p)
  {
  }

  // ---------------------------------------------------------------- OFS_DELTA distance

  /**
   * The continuation bytes of a backward distance from `j` on, the distance so far being
   * `ofs`: each one adds one, shifts by seven bits and brings in its low seven bits.
   */
  function OfsFrom(head: seq<byte>, j: nat, ofs: nat): (r: Varint)
    ensures r.next > j
    decreases |head| - j
  {
    var c := At(head, j);
    var next := (ofs + 1) * 128 + c % 128;
    if c < 128 then Varint(next, j + 1) else OfsFrom(head, j + 1, next)
  }

  /** A backward distance at `i` whose first byte contributes `first`. */
  function OfsWith(head: seq<byte>, i: nat, first: nat): (r: Varint)
    ensures r.next > i
  {
    if At(head, i) < 128 then Varint(first, i + 1) else OfsFrom(head, i + 1, first)
  }

  /** The distance as `_resolveDelta` reads it: the first byte contributes only its low three bits. */
  function OfsDistance(head: seq<byte>, i: nat): Varint
  {
    OfsWith(head, i, At(head, i) % 8)
  }

  /** The distance as the pack format defines it: the first byte contributes its low seven bits. */
  function GitOfsDistance(head: seq<byte>, i: nat): Varint
  {
    OfsWith(head, i, At(head, i) % 128)
  }

  /** A larger starting distance stays larger by the same amount, shifted seven bits per byte. */
  lemma {:induction false} OfsFromShift(head: seq<byte>, j: nat, a: nat, b: nat)
    requires a >= b
    ensures OfsFrom(head, j, a).next == OfsFrom(head, j, b).next
    ensures OfsFrom(head, j, a).size == OfsFrom(head, j, b).size + (a - b) * Pow(128, OfsFrom(head, j, a).next - j)
    decreases |head| - j
  {
    var c := At(head, j);
    var na, nb := (a + 1) * 128 + c % 128, (b + 1) * 128 + c % 128;
    assert na - nb == (a - b) * 128;
    if c >= 128 {
      OfsFromShift(head, j + 1, na, nb);
      var m := OfsFrom(head, j, a).next - j;
      assert Pow(128, m) == 128 * Pow(128, m - 1);
      calc {
        (na - nb) * Pow(128, m - 1);
        (a - b) * 128 * Pow(128, m - 1);
        (a - b) * Pow(128, m);
      }
    }
  }

  /**
   * The distance read by `_resolveDelta` falls short of the pack format's by the bits 3-6 of
   * the first byte, shifted past the continuation bytes; both read the same bytes.
   */
  lemma OfsSeedShortfall(head: seq<byte>, i: nat)
    ensures OfsDistance(head, i).next == GitOfsDistance(head, i).next
    ensures GitOfsDistance(head, i).size
      == OfsDistance(head, i).size + (At(head, i) % 128 - At(head, i) % 8) * Pow(128, OfsDistance(head, i).next - i - 1)
  {
    if At(head, i) >= 128 {
      OfsFromShift(head, i + 1, At(head, i) % 128, At(head, i) % 8);
    }
  }

  /** The two readings agree exactly when bits 3-6 of the first byte are clear. */
  lemma OfsSeedAgrees(head: seq<byte>, i: nat)
    ensures OfsDistance(head, i) == GitOfsDistance(head, i) <==> At(head, i) % 128 < 8
  {
    OfsSeedShortfall(head, i);
    var c := At(head, i);
    var ours, git := OfsDistance(head, i), GitOfsDistance(head, i);
    var p := Pow(128, ours.next - i - 1);
    assert git.size == ours.size + (c % 128 - c % 8) * p;
    if c % 128 >= 8 {
      PositiveProduct(c % 128 - c % 8, p);
      assert git.size != ours.size;
    } else {
      assert c % 128 == c % 8;
    }
  }

  lemma PositiveProduct(d: nat, p: nat)
    requires d >= 1 && p >= 1
    ensures d * p >= 1
  {
  }

  /** A one-byte distance of 100 (0x64) is read as 4. */
  lemma OfsSeedExample()
    ensures OfsDistance([0x64], 0) == Varint(4, 1)
    ensures GitOfsDistance([0x64], 0) == Varint(100, 1)
  {
  }

  /** The distance loop of `_resolveDelta` (src/packfile.js:191-197), from the byte at `i`. */
  method DecodeOfs(head: seq<byte>, i: nat) returns (ofs: nat, next: nat)
    ensures Varint(ofs, next) == OfsDistance(head, i)
  {
    next := i;
    var c := At(head, next);
    next := next + 1;
    ofs := c % 8;
    while c >= 128
      invariant next > i && c == At(head, next - 1)
      invariant OfsDistance(head, i) == if c < 128 then Varint(ofs, next) else OfsFrom(head, next, ofs)
      decreases |head| + 1 - next
    {
      ofs := ofs + 1;
      c := At(head, next);
      next := next + 1;
      ofs := ofs * 128 + c % 128;
    }
  }

  // ---------------------------------------------------------------- REF_DELTA base

  /** The id of a REF_DELTA base: the window from `i` on, at most 20 bytes of it, in hexadecimal. */
  function RefBase(head: seq<byte>, i: nat): (id: string)
    ensures |id| <= 40 && (i + 20 <= |head| ==> |id| == 40)
  {
    Hex(Slice(head, i, i + 20))
  }
}
