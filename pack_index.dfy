/**
 * The pack index reader of the pack reader: the `.idx` table decoder `_parseIdx` and the
 * prefix-aware `_binarySearch` over the decoded ids (src/packfile.js:86-121, 148-160).
 */
module PackIndex {

  import opened Wrappers
  import opened Bytes
  import opened Text

  /** One object of an index: its hexadecimal id and the offset of its entry in the pack. */
  datatype IdxEntry = IdxEntry(sha1: string, offset: nat)

  /** A decoded index: its objects in file order and the name of the pack it describes. */
  datatype Idx = Idx(objects: seq<IdxEntry>, pack: string)

  /** The first word of a version 2 index; any other first word is read as version 1. */
  const V2Magic: nat := 0xff744f63

  /** A 32-bit offset with its top bit set refers to the table of 64-bit offsets. */
  const LargeFlag: nat := 0x8000_0000

  // ---------------------------------------------------------------- layout

  /** Which of the two table layouts is being read; `n` is the object count of version 2. */
  datatype Layout = V1 | V2(n: nat)

  /** Version 2: the id of object `i` (after the 8-byte header and the 256-word fan-out). */
  function V2IdAt(i: nat): nat { 1032 + 20 * i }

  /** Version 2: the 32-bit offset word of object `i`, after the `n` ids and `n` checksums. */
  function V2Offset32At(n: nat, i: nat): nat { 1032 + 24 * n + 4 * i }

  /** Version 2: the `k`-th 8-byte entry of the table of large offsets. */
  function V2Offset64At(n: nat, k: nat): nat { 1032 + 28 * n + 8 * k }

  /** Version 1: the 24-byte record of object `i` (a 4-byte offset, then the 20-byte id), after the fan-out. */
  function V1RecordAt(i: nat): nat { 1024 + 24 * i }

  /**
   * How many of the objects before `i` have a 32-bit word with the top bit set: the loop reads
   * the large-offset table one entry after another, so that is where the entry of object `i` is.
   */
  function LargeCount(buff: seq<byte>, n: nat, i: nat): (k: nat)
    ensures k <= i
  {
    if i == 0 then 0
    else
      var w := ReadU32BE(buff, V2Offset32At(n, i - 1));
      LargeCount(buff, n, i - 1) + if w.Ok? && w.value >= LargeFlag then 1 else 0
  }

  /** The offset of object `i` of a version 2 index, reading large offsets in turn. */
  function V2Offset(buff: seq<byte>, n: nat, i: nat): (r: Result<nat>)
    ensures r.Err? ==> r.error == OutOfRange
  {
    match ReadU32BE(buff, V2Offset32At(n, i))
    case Err(e) => Err(e)
    case Ok(w) =>
      if w < LargeFlag then Ok(w)
      else
        var at := V2Offset64At(n, LargeCount(buff, n, i));
        match ReadU32BE(buff, at)
        case Err(e) => Err(e)
        case Ok(hi) =>
          match ReadU32BE(buff, at + 4)
          case Err(e) => Err(e)
          case Ok(lo) => Ok(hi * 0x1_0000_0000 + lo)
  }

  /** Object `i` of the table, or the RangeError of a word read past the end. */
  function EntryAt(buff: seq<byte>, layout: Layout, i: nat): (r: Result<IdxEntry>)
    ensures r.Err? ==> r.error == OutOfRange
  {
    var word := if layout.V2? then V2Offset(buff, layout.n, i) else ReadU32BE(buff, V1RecordAt(i));
    var id := if layout.V2? then V2IdAt(i) else V1RecordAt(i) + 4;
    match word
    case Err(e) => Err(e)
    case Ok(offset) => Ok(IdxEntry(Hex(Slice(buff, id, id + 20)), offset))
  }

  /**
   * The objects `f(0)`, ..., `f(k-1)` pushed one after another; the first that throws ends
   * the loop.
   */
  function Collect(f: nat -> Result<IdxEntry>, k: nat): (r: Result<seq<IdxEntry>>)
    ensures r.Ok? ==> |r.value| == k
  {
    if k == 0 then Ok([])
    else
      match Collect(f, k - 1)
      case Err(e) => Err(e)
      case Ok(es) =>
        match f(k - 1)
        case Err(e) => Err(e)
        case Ok(x) => Ok(es + [x])
  }

  /** The first `k` objects of the table. */
  function Entries(buff: seq<byte>, layout: Layout, k: nat): (r: Result<seq<IdxEntry>>)
  {
    Collect((i: nat) => EntryAt(buff, layout, i), k)
  }

  /** `_parseIdx`: the magic word selects the layout; the object count follows the fan-out. */
  function IdxSpec(name: string, buff: seq<byte>): (r: Result<Idx>)
    ensures r.Ok? ==> r.value.pack == name + ".pack"
  {
    match ReadU32BE(buff, 0)
    case Err(e) => Err(e)
    case Ok(magic) =>
      var count := if magic == V2Magic then ReadU32BE(buff, 1028) else ReadU32BE(buff, 1020);
      if magic == V2Magic && ReadU32BE(buff, 4).Err? then Err(OutOfRange)
      else if count.Err? then Err(count.error)
      else
        var layout := if magic == V2Magic then V2(count.value) else V1;
        match Entries(buff, layout, count.value)
        case Err(e) => Err(e)
        case Ok(objects) => Ok(Idx(objects, name + ".pack"))
  }

  /** Object `i` of a loop that ran to the end is `f(i)`. */
  lemma {:induction false} CollectAt(f: nat -> Result<IdxEntry>, k: nat, i: nat)
    requires i < k && Collect(f, k).Ok?
    ensures f(i).Ok? && Collect(f, k).value[i] == f(i).value
  {
    if i < k - 1 {
      CollectAt(f, k - 1, i);
    }
  }

  /** A loop that throws has an object that throws. */
  lemma {:induction false} CollectFailure(f: nat -> Result<IdxEntry>, k: nat) returns (i: nat)
    requires Collect(f, k).Err?
    ensures i < k && f(i).Err? && Collect(f, k) == Err(f(i).error)
  {
    if Collect(f, k - 1).Err? {
      i := CollectFailure(f, k - 1);
    } else {
      i := k - 1;
    }
  }

  /** Once an object throws, so does the loop. */
  lemma {:induction false} CollectStops(f: nat -> Result<IdxEntry>, i: nat, k: nat)
    requires i < k && f(i).Err? && Collect(f, i).Ok?
    ensures Collect(f, k) == Err(f(i).error)
    decreases k
  {
    if i < k - 1 {
      CollectStops(f, i, k - 1);
    }
  }

  /**
   * The table yields exactly `k` objects in file order, object `i` being `EntryAt(i)`, unless
   * one of them throws.
   */
  lemma EntriesLayout(buff: seq<byte>, layout: Layout, k: nat)
    ensures Entries(buff, layout, k).Ok? <==> forall i :: 0 <= i < k ==> EntryAt(buff, layout, i).Ok?
    ensures Entries(buff, layout, k).Ok? ==>
      |Entries(buff, layout, k).value| == k
      && forall i :: 0 <= i < k ==> Entries(buff, layout, k).value[i] == EntryAt(buff, layout, i).value
  {
    var f := (i: nat) => EntryAt(buff, layout, i);
    if Collect(f, k).Ok? {
      forall i | 0 <= i < k
        ensures EntryAt(buff, layout, i).Ok? && Collect(f, k).value[i] == EntryAt(buff, layout, i).value
      {
        CollectAt(f, k, i);
      }
    } else {
      var i := CollectFailure(f, k);
    }
  }

  /** Reading object `i` of a table read so far extends it by that object. */
  lemma EntriesPush(buff: seq<byte>, layout: Layout, i: nat, es: seq<IdxEntry>, x: IdxEntry)
    requires Entries(buff, layout, i) == Ok(es) && EntryAt(buff, layout, i) == Ok(x)
    ensures Entries(buff, layout, i + 1) == Ok(es + [x])
  {
  }

  /** Once object `i` of a table read so far throws, so does the table. */
  lemma EntriesFail(buff: seq<byte>, layout: Layout, i: nat, k: nat)
    requires i < k && Entries(buff, layout, i).Ok? && EntryAt(buff, layout, i).Err?
    ensures Entries(buff, layout, k) == Err(OutOfRange)
  {
    CollectStops((i: nat) => EntryAt(buff, layout, i), i, k);
  }

  /** A 32-bit word without the top bit is the offset itself. */
  lemma V2OffsetSmall(buff: seq<byte>, n: nat, i: nat, w: nat)
    requires ReadU32BE(buff, V2Offset32At(n, i)) == Ok(w) && w < LargeFlag
    ensures V2Offset(buff, n, i) == Ok(w)
  {
  }

  /** A flagged word takes the 8-byte offset at `at`, the next entry of the large-offset table. */
  lemma V2OffsetLarge(buff: seq<byte>, n: nat, i: nat, w: nat, at: nat, hi: nat, lo: nat)
    requires ReadU32BE(buff, V2Offset32At(n, i)) == Ok(w) && w >= LargeFlag
    requires at == V2Offset64At(n, LargeCount(buff, n, i))
    requires ReadU32BE(buff, at) == Ok(hi) && ReadU32BE(buff, at + 4) == Ok(lo)
    ensures V2Offset(buff, n, i) == Ok(hi * 0x1_0000_0000 + lo)
  {
  }

  /** A flagged word whose 8-byte entry lies past the end throws. */
  lemma V2OffsetLargeFails(buff: seq<byte>, n: nat, i: nat, w: nat, at: nat)
    requires ReadU32BE(buff, V2Offset32At(n, i)) == Ok(w) && w >= LargeFlag
    requires at == V2Offset64At(n, LargeCount(buff, n, i)) && at + 8 > |buff|
    ensures V2Offset(buff, n, i) == Err(OutOfRange)
  {
  }

  /** Object `i` of a version 2 table whose offset reads as `offset`. */
  lemma V2EntryIs(buff: seq<byte>, n: nat, i: nat, at: nat, offset: nat)
    requires at == V2IdAt(i) && V2Offset(buff, n, i) == Ok(offset)
    ensures EntryAt(buff, V2(n), i) == Ok(IdxEntry(Hex(Slice(buff, at, at + 20)), offset))
  {
  }

  /** Object `i` of a version 1 table whose offset word reads as `offset`. */
  lemma V1EntryIs(buff: seq<byte>, i: nat, at: nat, offset: nat)
    requires at == V1RecordAt(i) && ReadU32BE(buff, at) == Ok(offset)
    ensures EntryAt(buff, V1, i) == Ok(IdxEntry(Hex(Slice(buff, at + 4, at + 24)), offset))
  {
  }

  /** Every id is lower-case hexadecimal of at most 20 bytes, and of exactly 20 when the table holds it. */
  lemma EntryIds(buff: seq<byte>, layout: Layout, i: nat)
    requires EntryAt(buff, layout, i).Ok?
    ensures var id := EntryAt(buff, layout, i).value.sha1;
      |id| <= 40 && (forall c :: 0 <= c < |id| ==> IsHexChar(id[c]))
      && (match layout
          case V1 => V1RecordAt(i) + 24 <= |buff| ==> |id| == 40
          case V2(n) => V2IdAt(i) + 20 <= |buff| ==> |id| == 40)
  {
  }

  /**
   * Git writes the table of large offsets in the order of the objects that use it, so the
   * low 31 bits of the `k`-th flagged word are `k`, the number of flagged words before it.
   * For such a word, reading the large offsets in turn finds the same entry as following
   * its low 31 bits.
   */
  lemma SequentialLargeOffsets(buff: seq<byte>, n: nat, i: nat, w: nat, hi: nat, lo: nat)
    requires ReadU32BE(buff, V2Offset32At(n, i)) == Ok(w) && w >= LargeFlag
    requires w - LargeFlag == LargeCount(buff, n, i)
    requires ReadU32BE(buff, V2Offset64At(n, w - LargeFlag)) == Ok(hi)
    requires ReadU32BE(buff, V2Offset64At(n, w - LargeFlag) + 4) == Ok(lo)
    ensures V2Offset(buff, n, i) == Ok(hi * 0x1_0000_0000 + lo)
  {
    V2OffsetLarge(buff, n, i, w, V2Offset64At(n, w - LargeFlag), hi, lo);
  }

  /**
   * The offset of object `i` of a version 2 index (src/packfile.js:101-107), with the cursor
   * of the large-offset table before and after.
   */
  method ReadV2Offset(buff: seq<byte>, n: nat, i: nat, off32: nat, off64: nat) returns (r: Result<nat>, next64: nat)
    requires off32 == V2Offset32At(n, i) && off64 == V2Offset64At(n, LargeCount(buff, n, i))
    ensures r == V2Offset(buff, n, i)
    ensures r.Ok? ==> next64 == V2Offset64At(n, LargeCount(buff, n, i + 1))
  {
    next64 := off64;
    var word := ReadU32BE(buff, off32);
    if word.Err? {
      return Err(word.error), next64;
    }
    var offset := word.value;
    if offset >= LargeFlag {
      var hi := ReadU32BE(buff, next64);
      var lo := ReadU32BE(buff, next64 + 4);
      if hi.Err? || lo.Err? {
        V2OffsetLargeFails(buff, n, i, offset, off64);
        return Err(OutOfRange), next64;
      }
      V2OffsetLarge(buff, n, i, offset, off64, hi.value, lo.value);
      offset := hi.value * 0x1_0000_0000 + lo.value;
      next64 := next64 + 8;
    } else {
      V2OffsetSmall(buff, n, i, offset);
    }
    return Ok(offset), next64;
  }

  /** The version 2 loop (src/packfile.js:97-109): `n` ids, then their offsets. */
  method ReadV2Entries(buff: seq<byte>, n: nat) returns (r: Result<seq<IdxEntry>>)
    ensures r == Entries(buff, V2(n), n)
  {
    var objects: seq<IdxEntry> := [];
    var index := V2IdAt(0);
    var off32 := index + n * 24;
    var off64 := off32 + n * 4;
    var i := 0;
    while i < n
      invariant 0 <= i <= n
      invariant index == V2IdAt(i) && off32 == V2Offset32At(n, i)
      invariant off64 == V2Offset64At(n, LargeCount(buff, n, i))
      invariant Entries(buff, V2(n), i) == Ok(objects)
    {
      var sha1 := Hex(Slice(buff, index, index + 20));
      ghost var at := index;
      index := index + 20;
      var offset;
      offset, off64 := ReadV2Offset(buff, n, i, off32, off64);
      if offset.Err? {
        EntriesFail(buff, V2(n), i, n);
        return Err(offset.error);
      }
      off32 := off32 + 4;
      V2EntryIs(buff, n, i, at, offset.value);
      EntriesPush(buff, V2(n), i, objects, IdxEntry(sha1, offset.value));
      objects := objects + [IdxEntry(sha1, offset.value)];
      i := i + 1;
    }
    return Ok(objects);
  }

  /** The version 1 loop (src/packfile.js:111-118): `n` records of an offset and an id. */
  method ReadV1Entries(buff: seq<byte>, n: nat) returns (r: Result<seq<IdxEntry>>)
    ensures r == Entries(buff, V1, n)
  {
    var objects: seq<IdxEntry> := [];
    var index := V1RecordAt(0);
    var i := 0;
    while i < n
      invariant 0 <= i <= n
      invariant index == V1RecordAt(i)
      invariant Entries(buff, V1, i) == Ok(objects)
    {
      var word := ReadU32BE(buff, index);
      if word.Err? {
        EntriesFail(buff, V1, i, n);
        return Err(word.error);
      }
      var sha1 := Hex(Slice(buff, index + 4, index + 24));
      V1EntryIs(buff, i, index, word.value);
      index := index + 24;
      EntriesPush(buff, V1, i, objects, IdxEntry(sha1, word.value));
      objects := objects + [IdxEntry(sha1, word.value)];
      i := i + 1;
    }
    return Ok(objects);
  }

  /** `_parseIdx(name)` on the bytes of `name.idx`. */
  method ParseIdx(name: string, buff: seq<byte>) returns (r: Result<Idx>)
    ensures r == IdxSpec(name, buff)
  {
    var magic := ReadU32BE(buff, 0);
    if magic.Err? {
      return Err(magic.error);
    }
    var objects;
    if magic.value == V2Magic {
      var version := ReadU32BE(buff, 4);
      if version.Err? {
        return Err(version.error);
      }
      var count := ReadU32BE(buff, 8 + 255 * 4);
      if count.Err? {
        return Err(count.error);
      }
      objects := ReadV2Entries(buff, count.value);
    } else {
      var count := ReadU32BE(buff, 255 * 4);
      if count.Err? {
        return Err(count.error);
      }
      objects := ReadV1Entries(buff, count.value);
    }
    if objects.Err? {
      return Err(objects.error);
    }
    return Ok(Idx(objects.value, name + ".pack"));
  }

  // ---------------------------------------------------------------- binary search

  /** The ids ascend in string order (duplicates allowed), as git writes them. */
  ghost predicate SortedIds(objects: seq<IdxEntry>)
  {
    forall i, j :: 0 <= i < j < |objects| ==> !Below(objects[j].sha1, objects[i].sha1)
  }

  /**
   * `_binarySearch` on the window `[x, y]`: the first probed id that starts with `sha1` is the
   * answer; otherwise the window shrinks to the side of the probe where `sha1` sorts.
   */
  function Search(objects: seq<IdxEntry>, sha1: string, x: int, y: int): (r: Option<IdxEntry>)
    requires 0 <= x && y < |objects|
    decreases y - x
  {
    if x > y then None
    else
      var c := x + (y - x) / 2;
      var v := objects[c];
      if StartsWith(v.sha1, sha1) then Some(v)
      else if Below(sha1, v.sha1) then Search(objects, sha1, x, c - 1)
      else Search(objects, sha1, c + 1, y)
  }

  /**
   * What a search of `[x, y]` finds is an object of the window whose id starts with `sha1`;
   * in sorted ids, finding nothing means that no id of the window starts with `sha1`.
   */
  lemma {:induction false} SearchCorrect(objects: seq<IdxEntry>, sha1: string, x: int, y: int)
    requires 0 <= x && y < |objects|
    ensures var r := Search(objects, sha1, x, y);
      r.Some? ==> (exists k :: x <= k <= y && objects[k] == r.value) && StartsWith(r.value.sha1, sha1)
    ensures Search(objects, sha1, x, y).None? && SortedIds(objects) ==>
      forall k :: x <= k <= y ==> !StartsWith(objects[k].sha1, sha1)
    decreases y - x
  {
    if x <= y {
      var c := x + (y - x) / 2;
      var v := objects[c];
      if !StartsWith(v.sha1, sha1) {
        if Below(sha1, v.sha1) {
          SearchCorrect(objects, sha1, x, c - 1);
          if Search(objects, sha1, x, y).None? && SortedIds(objects) {
            forall k | c < k <= y
              ensures !StartsWith(objects[k].sha1, sha1)
            {
              if StartsWith(objects[k].sha1, sha1) {
                PrefixedBelow(objects[k].sha1, sha1, v.sha1);
              }
            }
          }
        } else {
          SearchCorrect(objects, sha1, c + 1, y);
          if Search(objects, sha1, x, y).None? && SortedIds(objects) {
            forall k | x <= k < c
              ensures !StartsWith(objects[k].sha1, sha1)
            {
              if StartsWith(objects[k].sha1, sha1) {
                PrefixedAbove(objects[k].sha1, sha1, v.sha1);
              }
            }
          }
        }
      }
    }
  }

  /**
   * `_binarySearch(objects, sha1)` returns an object whose id starts with `sha1`; when the ids
   * are sorted and one of them starts with `sha1`, it returns one.
   */
  lemma BinarySearchFinds(objects: seq<IdxEntry>, sha1: string)
    ensures var r := Search(objects, sha1, 0, |objects| - 1);
      (r.Some? ==> r.value in objects && StartsWith(r.value.sha1, sha1))
      && (SortedIds(objects) && (exists k :: 0 <= k < |objects| && StartsWith(objects[k].sha1, sha1)) ==> r.Some?)
  {
    SearchCorrect(objects, sha1, 0, |objects| - 1);
  }

  /** `_binarySearch(objects, sha1)`: narrows `[x, y]` until a probe starts with `sha1`. */
  method BinarySearch(objects: seq<IdxEntry>, sha1: string) returns (r: Option<IdxEntry>)
    ensures r == Search(objects, sha1, 0, |objects| - 1)
  {
    var x, y := 0, |objects| - 1;
    while x <= y
      invariant 0 <= x && y < |objects|
      invariant Search(objects, sha1, x, y) == Search(objects, sha1, 0, |objects| - 1)
      decreases y - x
    {
      var c := x + (y - x) / 2;
      var v := objects[c];
      if StartsWith(v.sha1, sha1) {
        return Some(v);
      }
      if Below(sha1, v.sha1) {
        y := c - 1;
      } else {
        x := c + 1;
      }
    }
    return None;
  }
}
