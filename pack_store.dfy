/**
 * The `Packfile` class of src/packfile.js: the parsed `.idx` files of a pack directory, the
 * lookup of an object id through them, the reading of an entry at its pack offset with delta
 * resolution against an OFS or REF base, and the object-file framing that `find` returns.
 */
module PackStore {

  import opened Wrappers
  import opened Bytes
  import opened Text
  import opened Delta
  import opened PackIndex
  import opened PackEntry

  /** An object as `_findByOffset` returns it: `type` (1-4), `size` and the inflated `buff`. */
  datatype PackedObject = PackedObject(kind: nat, size: nat, buff: seq<byte>)

  /** Where `_findBySha1` found an id: the pack file name and the offset in it. */
  datatype Location = Location(pack: string, offset: nat)

  /**
   * `inflatePackedObject(fd, offset, size)`: zlib-inflates the stream at `offset` of the pack
   * whose contents are given, reading a window of at least `size` bytes; it throws on a
   * corrupt stream.
   */
  type Inflater = (seq<byte>, nat, nat) -> Result<seq<byte>>

  /** The four types `_findByOffset` inflates directly and `ObjectTypeStrings` names. */
  predicate IsBaseKind(kind: nat)
  {
    ObjCommit <= kind <= ObjTag
  }

  /** `ObjectTypeStrings`. */
  function TypeName(kind: nat): (name: string)
    requires IsBaseKind(kind)
    ensures |name| >= 3 && forall k :: 0 <= k < |name| ==> 'a' <= name[k] <= 'z'
  {
    if kind == ObjCommit then "commit"
    else if kind == ObjTree then "tree"
    else if kind == ObjBlob then "blob"
    else "tag"
  }

  // ---------------------------------------------------------------- the indexes

  /**
   * The constructor's `map(name => this._parseIdx(name))` over the pack names found in the
   * directory: the first index that fails to parse makes the whole construction throw.
   */
  function IdxsOf(files: map<string, seq<byte>>, names: seq<string>): (r: Result<seq<Idx>>)
  {
    if names == [] then Ok([])
    else
      var prefix := IdxsOf(files, names[..|names| - 1]);
      var name := names[|names| - 1];
      if prefix.Err? then prefix
      else if name + ".idx" !in files then Err(MissingFile)
      else
        match IdxSpec(name, files[name + ".idx"])
        case Err(e) => Err(e)
        case Ok(idx) => Ok(prefix.value + [idx])
  }

  /** Whether the index file of `name` exists and parses. */
  predicate IdxParses(files: map<string, seq<byte>>, name: string)
  {
    name + ".idx" in files && IdxSpec(name, files[name + ".idx"]).Ok?
  }

  /** The indexes are built exactly when every named index exists and parses. */
  lemma {:induction false} IdxsOfOk(files: map<string, seq<byte>>, names: seq<string>)
    ensures IdxsOf(files, names).Ok? <==> forall k :: 0 <= k < |names| ==> IdxParses(files, names[k])
  {
    if names != [] {
      var init := names[..|names| - 1];
      IdxsOfOk(files, init);
      assert forall k :: 0 <= k < |init| ==> init[k] == names[k];
    }
  }

  /**
   * Built indexes come one per name, in order, each the parse of its own file and naming its
   * own pack.
   */
  lemma {:induction false} IdxsOfLayout(files: map<string, seq<byte>>, names: seq<string>)
    requires IdxsOf(files, names).Ok?
    ensures |IdxsOf(files, names).value| == |names|
    ensures forall k :: 0 <= k < |names| ==>
      && IdxParses(files, names[k])
      && IdxsOf(files, names).value[k] == IdxSpec(names[k], files[names[k] + ".idx"]).value
      && IdxsOf(files, names).value[k].pack == names[k] + ".pack"
  {
    if names != [] {
      var init, name := names[..|names| - 1], names[|names| - 1];
      IdxsOfLayout(files, init);
      var before := IdxsOf(files, init).value;
      var idx := IdxSpec(name, files[name + ".idx"]).value;
      var all := before + [idx];
      assert IdxsOf(files, names).value == all;
      forall k | 0 <= k < |names|
        ensures IdxParses(files, names[k]) && all[k] == IdxSpec(names[k], files[names[k] + ".idx"]).value
        ensures all[k].pack == names[k] + ".pack"
      {
        if k < |init| {
          assert init[k] == names[k] && all[k] == before[k];
        }
      }
    }
  }

  /** The parse of the index files of `names`, in order (the constructor's `map`). */
  method ParseIdxs(files: map<string, seq<byte>>, names: seq<string>) returns (r: Result<seq<Idx>>)
    ensures r == IdxsOf(files, names)
  {
    var idxs: seq<Idx> := [];
    var i := 0;
    while i < |names|
      invariant 0 <= i <= |names|
      invariant IdxsOf(files, names[..i]) == Ok(idxs)
    {
      var name := names[i];
      assert names[..i + 1][..i] == names[..i];
      if name + ".idx" !in files {
        assert IdxsOf(files, names[..i + 1]) == Err(MissingFile);
        IdxsStop(files, names, i + 1);
        return Err(MissingFile);
      }
      var idx := ParseIdx(name, files[name + ".idx"]);
      if idx.Err? {
        IdxsStop(files, names, i + 1);
        return Err(idx.error);
      }
      idxs := idxs + [idx.value];
      i := i + 1;
    }
    assert names[..i] == names;
    return Ok(idxs);
  }

  /** Once a prefix of the names fails, so does the whole list, with the same error. */
  lemma {:induction false} IdxsStop(files: map<string, seq<byte>>, names: seq<string>, i: nat)
    requires i <= |names| && IdxsOf(files, names[..i]).Err?
    ensures IdxsOf(files, names) == IdxsOf(files, names[..i])
    decreases |names| - i
  {
    if i < |names| {
      assert names[..i + 1][..i] == names[..i];
      IdxsStop(files, names, i + 1);
    } else {
      assert names[..i] == names;
    }
  }

  // ---------------------------------------------------------------- the lookup of an id

  /** `_binarySearch(idx.objects, sha1)`. */
  function Hit(idx: Idx, sha1: string): Option<IdxEntry>
  {
    Search(idx.objects, sha1, 0, |idx.objects| - 1)
  }

  /** The loop of `_findBySha1`: the first index, in order, whose search finds `sha1`. */
  function FirstHit(idxs: seq<Idx>, sha1: string): Option<Location>
  {
    if idxs == [] then None
    else
      match Hit(idxs[0], sha1)
      case Some(v) => Some(Location(idxs[0].pack, v.offset))
      case None => FirstHit(idxs[1..], sha1)
  }

  /** The first index whose search finds `sha1` wins, whatever the later ones hold. */
  lemma {:induction false} FirstHitIs(idxs: seq<Idx>, sha1: string, k: nat)
    requires k < |idxs| && Hit(idxs[k], sha1).Some?
    requires forall j :: 0 <= j < k ==> Hit(idxs[j], sha1).None?
    ensures FirstHit(idxs, sha1) == Some(Location(idxs[k].pack, Hit(idxs[k], sha1).value.offset))
  {
    if k > 0 {
      FirstHitIs(idxs[1..], sha1, k - 1);
    }
  }

  /** Nothing is found exactly when no index's search finds `sha1`. */
  lemma {:induction false} FirstHitMisses(idxs: seq<Idx>, sha1: string)
    ensures FirstHit(idxs, sha1).None? <==> forall j :: 0 <= j < |idxs| ==> Hit(idxs[j], sha1).None?
  {
    if idxs != [] {
      FirstHitMisses(idxs[1..], sha1);
      assert forall j :: 1 <= j < |idxs| ==> idxs[1..][j - 1] == idxs[j];
    }
  }

  /** A hit names the pack and offset of an index entry whose id starts with `sha1`. */
  lemma {:induction false} FirstHitSound(idxs: seq<Idx>, sha1: string)
    ensures FirstHit(idxs, sha1).Some? ==>
      exists k, e :: 0 <= k < |idxs| && e in idxs[k].objects && StartsWith(e.sha1, sha1)
        && FirstHit(idxs, sha1).value == Location(idxs[k].pack, e.offset)
  {
    if idxs != [] {
      BinarySearchFinds(idxs[0].objects, sha1);
      if Hit(idxs[0], sha1).None? && FirstHit(idxs, sha1).Some? {
        FirstHitSound(idxs[1..], sha1);
        var k, e :| 0 <= k < |idxs[1..]| && e in idxs[1..][k].objects && StartsWith(e.sha1, sha1)
          && FirstHit(idxs[1..], sha1).value == Location(idxs[1..][k].pack, e.offset);
        assert idxs[k + 1] == idxs[1..][k];
      }
    }
  }

  /** With sorted indexes, an id starting with `sha1` in any of them is always found. */
  lemma {:induction false} FirstHitComplete(idxs: seq<Idx>, sha1: string, k: nat, e: IdxEntry)
    requires forall j :: 0 <= j < |idxs| ==> SortedIds(idxs[j].objects)
    requires k < |idxs| && e in idxs[k].objects && StartsWith(e.sha1, sha1)
    ensures FirstHit(idxs, sha1).Some?
  {
    BinarySearchFinds(idxs[0].objects, sha1);
    if Hit(idxs[0], sha1).None? {
      var i :| 0 <= i < |idxs[k].objects| && idxs[k].objects[i] == e;
      assert k > 0;
      assert idxs[1..][k - 1] == idxs[k];
      FirstHitComplete(idxs[1..], sha1, k - 1, e);
    }
  }

  // ---------------------------------------------------------------- framing

  /** The header `find` writes in front of the content: the type name, the size and a NUL. */
  function FrameHeader(kind: nat, size: nat): (h: string)
    requires IsBaseKind(kind)
    ensures forall k :: 0 <= k < |h| ==> h[k] as int < 256
  {
    TypeName(kind) + " " + Decimal(size) + "\0"
  }

  /** `find`'s `Buffer.concat`: the loose-object form of a packed object. */
  function Frame(o: PackedObject): seq<byte>
    requires IsBaseKind(o.kind)
  {
    FromText(FrameHeader(o.kind, o.size)) + o.buff
  }

  /**
   * The frame is the content behind a text header whose only NUL is its last byte, and whose
   * only space separates the type name from the decimal size.
   */
  lemma FrameLayout(o: PackedObject)
    requires IsBaseKind(o.kind)
    ensures var h := FrameHeader(o.kind, o.size);
      && |h| == |TypeName(o.kind)| + |Decimal(o.size)| + 2
      && Frame(o)[..|h|] == FromText(h) && Frame(o)[|h|..] == o.buff
      && Frame(o)[|h| - 1] == 0
      && (forall k :: 0 <= k < |h| - 1 ==> Frame(o)[k] != 0)
      && Frame(o)[|TypeName(o.kind)|] == 32
      && (forall k :: 0 <= k < |h| - 1 && k != |TypeName(o.kind)| ==> Frame(o)[k] != 32)
  {
    var h := FrameHeader(o.kind, o.size);
    var name, digits := TypeName(o.kind), Decimal(o.size);
    assert h == name + [' '] + digits + ['\0'];
    assert forall k :: 0 <= k < |name| ==> h[k] == name[k];
    assert forall k :: |name| < k < |h| - 1 ==> h[k] == digits[k - |name| - 1];
  }

  // ---------------------------------------------------------------- the store

  /**
   * The end of `_resolveDelta`: the base's errors come first, then the inflater's; a missing
   * base throws; otherwise the delta is applied and the result keeps the base's type.
   */
  function Patched(base: Result<Option<PackedObject>>, delta: Result<seq<byte>>): (r: Result<Option<PackedObject>>)
    requires base.Ok? && base.value.Some? ==> IsBaseKind(base.value.value.kind)
    ensures r.Ok? ==> (base.Ok? && base.value.Some? && delta.Ok? && r.value.Some?
                       && r.value.value.kind == base.value.value.kind
                       && PatchSpec(base.value.value.buff, delta.value) == Ok(r.value.value.buff)
                       && r.value.value.size == |r.value.value.buff|)
    ensures base.Ok? && base.value.None? && delta.Ok? ==> r == Err(Undefined)
  {
    match base
    case Err(e) => Err(e)
    case Ok(src) =>
      match delta
      case Err(e) => Err(e)
      case Ok(d) =>
        if src.None? then Err(Undefined)
        else
          match PatchSpec(src.value.buff, d)
          case Err(e) => Err(e)
          case Ok(buff) => Ok(Some(PackedObject(src.value.kind, |buff|, buff)))
  }

  /**
   * A pack directory opened for reading: its parsed indexes, the contents of its files by
   * name, and the inflater used for the compressed streams in them. The recursion of delta
   * resolution is bounded by `fuel`: a chain deeper than `fuel` fails with DepthExhausted,
   * as the unbounded recursion of the original fails on a stack overflow.
   */
  class Packfile {

    const idxs: seq<Idx>
    const files: map<string, seq<byte>>
    const inflate: Inflater

    constructor Init(idxs: seq<Idx>, files: map<string, seq<byte>>, inflate: Inflater)
      ensures this.idxs == idxs && this.files == files && this.inflate == inflate
    {
      this.idxs := idxs;
      this.files := files;
      this.inflate := inflate;
    }

    /** `new Packfile(gitDir)` over a directory holding `files`, whose pack names are `names`. */
    static method Open(files: map<string, seq<byte>>, names: seq<string>, inflate: Inflater)
      returns (r: Result<Packfile>)
      ensures r.Ok? <==> IdxsOf(files, names).Ok?
      ensures r.Err? ==> r.error == IdxsOf(files, names).error
      ensures r.Ok? ==> (fresh(r.value) && r.value.idxs == IdxsOf(files, names).value
                         && r.value.files == files && r.value.inflate == inflate)
    {
      var idxs := ParseIdxs(files, names);
      if idxs.Err? {
        return Err(idxs.error);
      }
      var p := new Packfile.Init(idxs.value, files, inflate);
      return Ok(p);
    }

    /**
     * `_findByOffset`: the object at `offset` of `pack`; `None` for the header types 0 and 5,
     * which the switch leaves unhandled. Any object found is a commit, tree, blob or tag.
     */
    function ObjectAt(fuel: nat, pack: string, offset: int): (r: Result<Option<PackedObject>>)
      ensures r.Ok? && r.value.Some? ==> IsBaseKind(r.value.value.kind)
      decreases fuel, 1
    {
      if pack !in files then Err(MissingFile)
      else if offset < 0 then Err(OutOfRange)
      else
        var head := Head(files[pack], offset);
        var h := HeaderOf(head);
        if IsBaseKind(h.kind) then
          match inflate(files[pack], offset + h.length, h.size)
          case Err(e) => Err(e)
          case Ok(buff) => Ok(Some(PackedObject(h.kind, h.size, buff)))
        else if h.kind == ObjOfsDelta || h.kind == ObjRefDelta then
          DeltaObject(fuel, pack, offset, h.kind, h.size, head, h.length)
        else Ok(None)
    }

    /**
     * `_resolveDelta`: finds the base (at a backward distance in the same pack, or by id),
     * inflates the delta that follows the base reference and applies it. The result has the
     * base's type and the patched content's length as its size.
     */
    function DeltaObject(fuel: nat, pack: string, offset: nat, kind: nat, size: nat, head: seq<byte>, i: nat)
      : (r: Result<Option<PackedObject>>)
      requires pack in files
      ensures r.Ok? ==> (r.value.Some? && IsBaseKind(r.value.value.kind)
                         && r.value.value.size == |r.value.value.buff|)
      decreases fuel, 0
    {
      if fuel == 0 then Err(DepthExhausted)
      else
        var base := if kind == ObjOfsDelta then ObjectAt(fuel - 1, pack, offset - OfsDistance(head, i).size)
          else ObjectById(fuel - 1, RefBase(head, i));
        var start := if kind == ObjOfsDelta then OfsDistance(head, i).next else i + 20;
        Patched(base, inflate(files[pack], offset + start, size))
    }

    /** `_findBySha1`: the object at the first hit of `sha1`; `None` when no index has it. */
    function ObjectById(fuel: nat, sha1: string): (r: Result<Option<PackedObject>>)
      ensures r.Ok? && r.value.Some? ==> IsBaseKind(r.value.value.kind)
      decreases fuel, 2
    {
      match FirstHit(idxs, sha1)
      case None => Ok(None)
      case Some(loc) => ObjectAt(fuel, loc.pack, loc.offset)
    }

    /** `find(sha1)`: the framed object, or `None`. */
    function Found(fuel: nat, sha1: string): (r: Result<Option<seq<byte>>>)
    {
      match ObjectById(fuel, sha1)
      case Err(e) => Err(e)
      case Ok(None) => Ok(None)
      case Ok(Some(o)) => Ok(Some(Frame(o)))
    }

    /** `_findByOffset`: decodes the header in the 32-byte window and dispatches on the type. */
    method FindByOffset(fuel: nat, pack: string, offset: int) returns (r: Result<Option<PackedObject>>)
      ensures r == ObjectAt(fuel, pack, offset)
      decreases fuel, 1
    {
      if pack !in files {
        return Err(MissingFile);
      }
      if offset < 0 {
        return Err(OutOfRange);
      }
      var head := Head(files[pack], offset);
      var kind, size, i := DecodeHeader(head);
      if IsBaseKind(kind) {
        var buff := inflate(files[pack], offset + i, size);
        if buff.Err? {
          return Err(buff.error);
        }
        return Ok(Some(PackedObject(kind, size, buff.value)));
      } else if kind == ObjOfsDelta || kind == ObjRefDelta {
        r := ResolveDelta(fuel, pack, offset, kind, size, head, i);
      } else {
        return Ok(None);
      }
    }

    /** `_resolveDelta`: reads the base reference after the header, then patches the base. */
    method ResolveDelta(fuel: nat, pack: string, offset: nat, kind: nat, size: nat, head: seq<byte>, i: nat)
      returns (r: Result<Option<PackedObject>>)
      requires pack in files
      ensures r == DeltaObject(fuel, pack, offset, kind, size, head, i)
      decreases fuel, 0
    {
      if fuel == 0 {
        return Err(DepthExhausted);
      }
      var src: Result<Option<PackedObject>>;
      var start: nat;
      if kind == ObjOfsDelta {
        var ofs;
        ofs, start := DecodeOfs(head, i);
        src := FindByOffset(fuel - 1, pack, offset - ofs);
      } else {
        start := i + 20;
        src := FindBySha1(fuel - 1, RefBase(head, i));
      }
      if src.Err? {
        return Err(src.error);
      }
      var delta := inflate(files[pack], offset + start, size);
      r := ApplyDelta(src, delta);
    }

    /**
     * A delta object that resolves is its base, found at the backward distance or by id with
     * one level less depth, patched by the inflated delta after the base reference; it keeps
     * the base's type.
     */
    lemma DeltaObjectPatches(fuel: nat, pack: string, offset: nat, kind: nat, size: nat, head: seq<byte>, i: nat)
      requires pack in files
      ensures var r := DeltaObject(fuel, pack, offset, kind, size, head, i);
        r.Ok? ==> (
          && fuel >= 1
          && var base := if kind == ObjOfsDelta then ObjectAt(fuel - 1, pack, offset - OfsDistance(head, i).size)
               else ObjectById(fuel - 1, RefBase(head, i));
             var delta := inflate(files[pack], offset + (if kind == ObjOfsDelta then OfsDistance(head, i).next else i + 20), size);
             && base.Ok? && base.value.Some? && delta.Ok?
             && r.value.value.kind == base.value.value.kind
             && PatchSpec(base.value.value.buff, delta.value) == Ok(r.value.value.buff))
    {
    }

    /** The last three lines of `_resolveDelta`: inflate the delta, patch the base, wrap the result. */
    static method ApplyDelta(src: Result<Option<PackedObject>>, delta: Result<seq<byte>>)
      returns (r: Result<Option<PackedObject>>)
      requires src.Ok? && (src.value.Some? ==> IsBaseKind(src.value.value.kind))
      ensures r == Patched(src, delta)
    {
      if delta.Err? {
        return Err(delta.error);
      }
      if src.value.None? {
        return Err(Undefined);
      }
      var buff := PatchDelta(src.value.value.buff, delta.value);
      if buff.Err? {
        return Err(OutOfRange);
      }
      return Ok(Some(PackedObject(src.value.value.kind, buff.value.Length, buff.value[..])));
    }

    /** `_findBySha1`: the first index whose binary search finds `sha1` gives the pack and offset. */
    method FindBySha1(fuel: nat, sha1: string) returns (r: Result<Option<PackedObject>>)
      ensures r == ObjectById(fuel, sha1)
      decreases fuel, 2
    {
      var i := 0;
      while i < |idxs|
        invariant 0 <= i <= |idxs|
        invariant FirstHit(idxs[i..], sha1) == FirstHit(idxs, sha1)
      {
        var v := BinarySearch(idxs[i].objects, sha1);
        if v.Some? {
          r := FindByOffset(fuel, idxs[i].pack, v.value.offset);
          return;
        }
        assert idxs[i..][1..] == idxs[i + 1..];
        i := i + 1;
      }
      return Ok(None);
    }

    /** `find(sha1)`: the object behind its `"<type> <size>\0"` header. */
    method Find(fuel: nat, sha1: string) returns (r: Result<Option<seq<byte>>>)
      ensures r == Found(fuel, sha1)
    {
      var o := FindBySha1(fuel, sha1);
      if o.Err? {
        return Err(o.error);
      }
      if o.value.None? {
        return Ok(None);
      }
      return Ok(Some(Frame(o.value.value)));
    }

    /**
     * An OFS_DELTA entry whose distance reads as 0 names itself as its base, so resolving it
     * never ends, whatever the fuel. With the three-bit reading of the first distance byte this
     * happens for every one-byte distance that is a multiple of 8, such as 0x08.
     */
    lemma {:induction false} SelfBaseNeverResolves(fuel: nat, pack: string, offset: nat)
      requires pack in files
      requires HeaderOf(Head(files[pack], offset)).kind == ObjOfsDelta
      requires OfsDistance(Head(files[pack], offset), HeaderOf(Head(files[pack], offset)).length).size == 0
      ensures ObjectAt(fuel, pack, offset) == Err(DepthExhausted)
    {
      if fuel > 0 {
        SelfBaseNeverResolves(fuel - 1, pack, offset);
      }
    }
  }

  /** A one-byte distance of 8 reads as 0 here, while the pack format reads it as 8. */
  lemma SelfDistanceExample()
    ensures OfsDistance([0x60, 0x08], 1) == Varint(0, 2)
    ensures GitOfsDistance([0x60, 0x08], 1) == Varint(8, 2)
    ensures HeaderOf([0x60, 0x08]).kind == ObjOfsDelta
  {
  }
}
