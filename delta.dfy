/**
 * The delta codec of the pack reader: the base-128 size reader `readDataSize` and the
 * copy/insert instruction interpreter `patchDelta` (src/packfile.js:27-75).
 */
module Delta {

  import opened Wrappers
  import opened Bytes

  function Pow(b: nat, e: nat): (r: nat)
    requires b >= 1
    ensures r >= 1
  {
    if e == 0 then 1 else b * Pow(b, e - 1)
  }

  // ---------------------------------------------------------------- readDataSize

  /** The little-endian base-128 value of the low 7 bits of the `n` bytes at `off`. */
  function LowBits(buf: seq<byte>, off: nat, n: nat): nat
  {
    if n == 0 then 0 else LowBits(buf, off, n - 1) + (At(buf, off + n - 1) % 128) * Pow(128, n - 1)
  }

  /** What `readDataSize(buf, off)` reads: the value and the offset just past it. */
  datatype Varint = Varint(size: nat, next: nat)

  /**
   * Whether (`size`, `next`) is a correct reading of the size at `off`: the bytes from `off`
   * up to and including the first one with bit 7 clear, their low 7 bits summed little-endian.
   */
  ghost predicate IsVarintAt(buf: seq<byte>, off: nat, v: Varint)
  {
    && v.next > off
    && (forall k :: off <= k < v.next - 1 ==> At(buf, k) >= 128)
    && At(buf, v.next - 1) < 128
    && v.size == LowBits(buf, off, v.next - off)
  }

  /** The size read at `off`, as a recursive definition used by the other specifications. */
  function VarintAt(buf: seq<byte>, off: nat): Varint
    decreases |buf| - off
  {
    var b := At(buf, off);
    if b < 128 then Varint(b, off + 1)
    else
      var rest := VarintAt(buf, off + 1);
      Varint(b % 128 + 128 * rest.size, rest.next)
  }

  lemma {:induction false} LowBitsShift(buf: seq<byte>, off: nat, n: nat)
    requires n >= 1
    ensures LowBits(buf, off, n) == At(buf, off) % 128 + 128 * LowBits(buf, off + 1, n - 1)
  {
    if n > 1 {
      LowBitsShift(buf, off, n - 1);
      assert Pow(128, n - 1) == 128 * Pow(128, n - 2);
    }
  }

  /** VarintAt reads exactly the bytes and the value that the size encoding prescribes. */
  lemma {:induction false} VarintAtCorrect(buf: seq<byte>, off: nat)
    ensures IsVarintAt(buf, off, VarintAt(buf, off))
    decreases |buf| - off
  {
    var b := At(buf, off);
    if b >= 128 {
      VarintAtCorrect(buf, off + 1);
      var rest := VarintAt(buf, off + 1);
      LowBitsShift(buf, off, rest.next - off);
    }
  }

  /** The encoding is self-delimiting: at most one reading of the size at `off` is correct. */
  lemma VarintUnique(buf: seq<byte>, off: nat, v: Varint, w: Varint)
    requires IsVarintAt(buf, off, v) && IsVarintAt(buf, off, w)
    ensures v == w
  {
  }

  /** `readDataSize(buff, offset)`: a do-while loop accumulating base-128 digits. */
  method ReadDataSize(buf: seq<byte>, offset: nat) returns (size: nat, next: nat)
    ensures IsVarintAt(buf, offset, Varint(size, next))
    ensures Varint(size, next) == VarintAt(buf, offset)
  {
    next := offset;
    var cmd := At(buf, next);
    next := next + 1;
    size := cmd % 128;
    var x: nat := 128;
    while cmd >= 128
      invariant next > offset && cmd == At(buf, next - 1)
      invariant forall k :: offset <= k < next - 1 ==> At(buf, k) >= 128
      invariant size == LowBits(buf, offset, next - offset) && x == Pow(128, next - offset)
      decreases |buf| + 1 - next
    {
      cmd := At(buf, next);
      next := next + 1;
      size := size + (cmd % 128) * x;
      x := x * 128;
    }
    VarintAtCorrect(buf, offset);
    VarintUnique(buf, offset, Varint(size, next), VarintAt(buf, offset));
  }

  // ---------------------------------------------------------------- COPY operands

  /** Bit `k` of a byte, i.e. `b & (1 << k)` is non-zero. */
  predicate Bit(b: byte, k: nat)
  {
    (b / Pow(2, k)) % 2 == 1
  }

  /** The number of set bits among bits 0 .. k-1 of `b`. */
  function BitsBelow(b: byte, k: nat): nat
  {
    if k == 0 then 0 else BitsBelow(b, k - 1) + (if Bit(b, k - 1) then 1 else 0)
  }

  /**
   * The little-endian field gated by bits lo .. lo+n-1 of `cmd`: byte j of the field is present
   * when bit lo+j is set, and then it is the delta byte after as many operand bytes as there are
   * set bits below lo+j.
   */
  function Field(delta: seq<byte>, p: nat, cmd: byte, lo: nat, n: nat): nat
  {
    if n == 0 then 0
    else
      Field(delta, p, cmd, lo, n - 1)
      + (if Bit(cmd, lo + n - 1) then At(delta, p + BitsBelow(cmd, lo + n - 1)) * Pow(256, n - 1) else 0)
  }

  /** A partly assembled operand: its value so far and the delta offset of the next operand byte. */
  datatype Cursor = Cursor(value: nat, pos: nat)

  /** One `if (cmd & bit) v |= delta[deltaOffset++] << shift` step; `weight` is `1 << shift`. */
  function Gated(delta: seq<byte>, c: Cursor, present: bool, weight: nat): Cursor
  {
    if present then Cursor(c.value + At(delta, c.pos) * weight, c.pos + 1) else c
  }

  /** The offset operand, gated by bits 0-3 (src/packfile.js:53-56). */
  function OffsetOperand(delta: seq<byte>, p: nat, cmd: byte): Cursor
  {
    var c0 := Gated(delta, Cursor(0, p), cmd % 2 == 1, 1);
    var c1 := Gated(delta, c0, cmd / 2 % 2 == 1, 0x100);
    var c2 := Gated(delta, c1, cmd / 4 % 2 == 1, 0x10000);
    Gated(delta, c2, cmd / 8 % 2 == 1, 0x100_0000)
  }

  /** The size operand, gated by bits 4-6 (src/packfile.js:57-59). */
  function SizeOperand(delta: seq<byte>, p: nat, cmd: byte): Cursor
  {
    var c0 := Gated(delta, Cursor(0, p), cmd / 16 % 2 == 1, 1);
    var c1 := Gated(delta, c0, cmd / 32 % 2 == 1, 0x100);
    Gated(delta, c1, cmd / 64 % 2 == 1, 0x10000)
  }

  /**
   * Lines 53 and 57 assign the first offset byte and the first size byte with a plain `=`, not
   * `|=`: read beyond the end of the delta, the operand is `undefined`. Only a later `|=` of the
   * same operand, which reads `undefined` as 0, turns it back into a number. This is the offset
   * case: bit 0 set, its byte missing, bits 1-3 clear.
   */
  predicate OffsetUndefined(delta: seq<byte>, p: nat, cmd: byte)
  {
    cmd % 2 == 1 && p >= |delta| && cmd / 2 % 2 == 0 && cmd / 4 % 2 == 0 && cmd / 8 % 2 == 0
  }

  /** The size case, for size bytes starting at `q`: bit 4 set, its byte missing, bits 5-6 clear. */
  predicate SizeUndefined(delta: seq<byte>, q: nat, cmd: byte)
  {
    cmd / 16 % 2 == 1 && q >= |delta| && cmd / 32 % 2 == 0 && cmd / 64 % 2 == 0
  }

  /** The decoded operands of a COPY instruction, `None` where one is `undefined`, and the delta offset after them. */
  datatype CopyOp = CopyOp(offset: Option<nat>, size: Option<nat>, next: nat)

  /**
   * Operand decoding of a COPY instruction whose operand bytes start at `p`. An `undefined`
   * size is not `=== 0`, so the 0x10000 rule leaves it `undefined`.
   */
  function CopyOperands(delta: seq<byte>, p: nat, cmd: byte): (op: CopyOp)
    ensures p <= op.next <= p + 7 && (op.size.Some? ==> op.size.value >= 1)
  {
    var off := GatedRun(delta, Cursor(0, p), cmd, 0, 4);
    var size := GatedRun(delta, Cursor(0, off.pos), cmd, 4, 3);
    CopyOp(if OffsetUndefined(delta, p, cmd) then None else Some(off.value),
           if SizeUndefined(delta, off.pos, cmd) then None
           else Some(if size.value == 0 then 0x10000 else size.value),
           size.pos)
  }

  /**
   * What `src.slice(offset, offset + size)` gives: with either operand `undefined` the end is
   * `NaN`, which `slice` reads as 0, so nothing is copied.
   */
  function CopyData(src: seq<byte>, op: CopyOp): (data: seq<byte>)
    ensures op.size.Some? ==> |data| <= op.size.value
  {
    if op.offset.Some? && op.size.Some? then Slice(src, op.offset.value, op.offset.value + op.size.value) else []
  }

  /**
   * How far `dstOffset += size` moves the output cursor. An `undefined` size makes both output
   * cursors `NaN`; the operand reads have then run past the end of the delta, so the loop ends
   * without reading them again, and the model leaves them where they were.
   */
  function CopyAdvance(op: CopyOp): nat
  {
    if op.size.Some? then op.size.value else 0
  }

  /** Bits lo .. lo+n-1 of `cmd` applied in turn to a cursor. */
  function GatedRun(delta: seq<byte>, c: Cursor, cmd: byte, lo: nat, n: nat): (r: Cursor)
    ensures c.pos <= r.pos <= c.pos + n
  {
    if n == 0 then c else Gated(delta, GatedRun(delta, c, cmd, lo, n - 1), Bit(cmd, lo + n - 1), Pow(256, n - 1))
  }

  lemma {:induction false} GatedRunField(delta: seq<byte>, p: nat, cmd: byte, lo: nat, n: nat)
    ensures GatedRun(delta, Cursor(0, p + BitsBelow(cmd, lo)), cmd, lo, n)
         == Cursor(Field(delta, p, cmd, lo, n), p + BitsBelow(cmd, lo + n))
  {
    if n > 0 {
      GatedRunField(delta, p, cmd, lo, n - 1);
    }
  }

  lemma BitsOfByte(cmd: byte)
    ensures Bit(cmd, 0) == (cmd % 2 == 1) && Bit(cmd, 1) == (cmd / 2 % 2 == 1)
    ensures Bit(cmd, 2) == (cmd / 4 % 2 == 1) && Bit(cmd, 3) == (cmd / 8 % 2 == 1)
    ensures Bit(cmd, 4) == (cmd / 16 % 2 == 1) && Bit(cmd, 5) == (cmd / 32 % 2 == 1)
    ensures Bit(cmd, 6) == (cmd / 64 % 2 == 1)
  {
    assert Pow(2, 0) == 1 && Pow(2, 1) == 2 && Pow(2, 2) == 4 && Pow(2, 3) == 8;
    assert Pow(2, 4) == 16 && Pow(2, 5) == 32 && Pow(2, 6) == 64;
  }

  lemma OffsetOperandIsRun(delta: seq<byte>, p: nat, cmd: byte)
    ensures OffsetOperand(delta, p, cmd) == GatedRun(delta, Cursor(0, p), cmd, 0, 4)
  {
    BitsOfByte(cmd);
    assert Pow(256, 0) == 1 && Pow(256, 1) == 0x100 && Pow(256, 2) == 0x10000 && Pow(256, 3) == 0x100_0000;
    var r0 := GatedRun(delta, Cursor(0, p), cmd, 0, 0);
    var r1 := GatedRun(delta, Cursor(0, p), cmd, 0, 1);
    var r2 := GatedRun(delta, Cursor(0, p), cmd, 0, 2);
    var r3 := GatedRun(delta, Cursor(0, p), cmd, 0, 3);
    assert r1 == Gated(delta, Cursor(0, p), cmd % 2 == 1, 1);
  }

  lemma SizeOperandIsRun(delta: seq<byte>, p: nat, cmd: byte)
    ensures SizeOperand(delta, p, cmd) == GatedRun(delta, Cursor(0, p), cmd, 4, 3)
  {
    BitsOfByte(cmd);
    assert Pow(256, 0) == 1 && Pow(256, 1) == 0x100 && Pow(256, 2) == 0x10000;
    var r0 := GatedRun(delta, Cursor(0, p), cmd, 4, 0);
    var r1 := GatedRun(delta, Cursor(0, p), cmd, 4, 1);
    var r2 := GatedRun(delta, Cursor(0, p), cmd, 4, 2);
    assert r1 == Gated(delta, Cursor(0, p), cmd / 16 % 2 == 1, 1);
  }

  /** Counting set bits over more bits never gives fewer. */
  lemma {:induction false} BitsBelowGrows(b: byte, j: nat, k: nat)
    requires j <= k
    ensures BitsBelow(b, j) <= BitsBelow(b, k)
    decreases k - j
  {
    if j < k {
      BitsBelowGrows(b, j, k - 1);
    }
  }

  /**
   * A COPY instruction consumes one operand byte per set bit among bits 0-6, assembles the
   * offset little-endian from the bytes gated by bits 0-3 and the size from those gated by
   * bits 4-6 (a missing byte read by `|=` counts as 0), and a size of 0 stands for 0x10000.
   * An operand whose first byte is missing and not followed by an `|=` is `undefined`, and
   * then the operand bytes run past the end of the delta.
   */
  lemma CopyOperandsLayout(delta: seq<byte>, p: nat, cmd: byte)
    ensures var op := CopyOperands(delta, p, cmd);
      && op.next == p + BitsBelow(cmd, 7)
      && op.offset == (if OffsetUndefined(delta, p, cmd) then None else Some(Field(delta, p, cmd, 0, 4)))
      && op.size == (if SizeUndefined(delta, p + BitsBelow(cmd, 4), cmd) then None
                     else Some(if Field(delta, p, cmd, 4, 3) == 0 then 0x10000 else Field(delta, p, cmd, 4, 3)))
      && (op.offset.None? || op.size.None? ==> op.next > |delta|)
  {
    assert BitsBelow(cmd, 0) == 0;
    GatedRunField(delta, p, cmd, 0, 4);
    GatedRunField(delta, p, cmd, 4, 3);
    BitsOfByte(cmd);
    BitsBelowGrows(cmd, 1, 7);
    BitsBelowGrows(cmd, 5, 7);
  }

  // ---------------------------------------------------------------- patchDelta

  /** The loop state of `patchDelta`: `deltaOffset`, `dstOffset`, `dstSize` and the contents of `dst`. */
  datatype Patch = Patch(deltaOffset: nat, dstOffset: nat, dstSize: int, dst: seq<byte>)

  /** `dst` with `data` written at `at`. */
  function Write(dst: seq<byte>, at: nat, data: seq<byte>): (r: seq<byte>)
    requires at + |data| <= |dst|
    ensures |r| == |dst|
  {
    dst[..at] + data + dst[at + |data|..]
  }

  /** What one iteration of the loop does: go on from a new state, leave the loop, or throw. */
  datatype Step = Continue(next: Patch) | Stop | Fail

  /**
   * `dst.set(data, dstOffset)` followed by advancing the output cursor by `advance` and the
   * delta cursor to `next`; `set` throws a RangeError when `data` does not fit at `dstOffset`.
   */
  function Put(st: Patch, data: seq<byte>, advance: nat, next: nat): (s: Step)
    ensures !s.Stop?
  {
    if st.dstOffset + |data| > |st.dst| then Fail
    else Continue(Patch(next, st.dstOffset + advance, st.dstSize - advance, Write(st.dst, st.dstOffset, data)))
  }

  /** One iteration of the instruction loop of `patchDelta` (src/packfile.js:49-72). */
  function PatchStep(src: seq<byte>, delta: seq<byte>, st: Patch): (s: Step)
    requires st.deltaOffset < |delta|
    ensures s.Continue? ==> s.next.deltaOffset > st.deltaOffset && |s.next.dst| == |st.dst|
  {
    var cmd := delta[st.deltaOffset];
    var p := st.deltaOffset + 1;
    if cmd >= 128 then
      var op := CopyOperands(delta, p, cmd);
      Put(st, CopyData(src, op), CopyAdvance(op), op.next)
    else if cmd != 0 then
      if cmd > st.dstSize then Stop
      else Put(st, Slice(delta, p, p + cmd), cmd, p + cmd)
    else
      Continue(st.(deltaOffset := p))
  }

  /** The instruction loop run from state `st` to the end of the delta. */
  function Run(src: seq<byte>, delta: seq<byte>, st: Patch): (r: Result<seq<byte>>)
    ensures r.Ok? ==> |r.value| == |st.dst|
    ensures r.Err? ==> r.error == OutOfRange
    decreases |delta| - st.deltaOffset
  {
    if st.deltaOffset >= |delta| then Ok(st.dst)
    else
      match PatchStep(src, delta, st)
      case Stop => Ok(st.dst)
      case Fail => Err(OutOfRange)
      case Continue(next) => Run(src, delta, next)
  }

  function Zeros(n: nat): (z: seq<byte>)
    ensures |z| == n && forall k :: 0 <= k < n ==> z[k] == 0
  {
    seq(n, _ => 0)
  }

  /** The size of the result that a delta declares: its second size field. */
  function DeclaredResultSize(delta: seq<byte>): nat
  {
    VarintAt(delta, VarintAt(delta, 0).next).size
  }

  /**
   * `patchDelta(src, delta)`: the result is as long as the delta declares, whatever the
   * instructions; the declared size of `src` is read and then ignored.
   */
  function PatchSpec(src: seq<byte>, delta: seq<byte>): (r: Result<seq<byte>>)
    ensures r.Ok? ==> |r.value| == DeclaredResultSize(delta)
    ensures r.Err? ==> r.error == OutOfRange
  {
    Run(src, delta, Start(delta))
  }

  /** The state before the loop: both sizes read, the output all zeros of the declared size. */
  function Start(delta: seq<byte>): Patch
  {
    var srcSize := VarintAt(delta, 0);
    var dstSize := VarintAt(delta, srcSize.next);
    Patch(dstSize.next, 0, dstSize.size, Zeros(dstSize.size))
  }

  /**
   * A 0 instruction byte is skipped, and the declared source size is not compared with `src`:
   * a delta that claims a source of any size inserts its byte into the output.
   */
  lemma DeclaredSourceExample(src: seq<byte>, claimed: byte, c: byte)
    requires claimed < 128
    ensures PatchSpec(src, [claimed, 1, 0, 1, c]) == Ok([c])
  {
    var d: seq<byte> := [claimed, 1, 0, 1, c];
    assert VarintAt(d, 0) == Varint(claimed, 1);
    assert VarintAt(d, 1) == Varint(1, 2);
    var st0 := Patch(2, 0, 1, Zeros(1));
    ZeroStep(src, d, st0);
    var st1 := st0.(deltaOffset := 3);
    InsertStep(src, d, st1, 1, 5);
    assert Slice(d, 4, 5) == [c];
    assert Write(Zeros(1), 0, [c]) == [c];
    StepRuns(src, d, st1);
    assert Run(src, d, Patch(5, 1, 0, [c])) == Ok([c]);
  }

  /**
   * A delta whose first instruction inserts more than the declared size ends at once: the
   * result is the declared number of 0 bytes, from any source.
   */
  lemma OversizedInsertStops(src: seq<byte>, delta: seq<byte>)
    requires var body := VarintAt(delta, VarintAt(delta, 0).next);
      body.next < |delta| && 1 <= delta[body.next] < 128 && delta[body.next] > body.size
    ensures PatchSpec(src, delta) == Ok(Zeros(DeclaredResultSize(delta)))
  {
    var dstSize := VarintAt(delta, VarintAt(delta, 0).next);
    var st := Patch(dstSize.next, 0, dstSize.size, Zeros(dstSize.size));
    OversizedInsertStep(src, delta, st);
    StepRuns(src, delta, st);
  }

  // ---------------------------------------------------------------- where the loop halts

  /** Every output byte from the cursor on is still the 0 that `Buffer.alloc` put there. */
  ghost predicate ZeroTail(st: Patch)
  {
    forall k :: st.dstOffset <= k < |st.dst| ==> st.dst[k] == 0
  }

  /** `dstSize` counts the output bytes left after the cursor. */
  predicate Balanced(st: Patch)
  {
    st.dstOffset + st.dstSize == |st.dst|
  }

  /** The state in which the loop leaves: at the end of the delta, or at a `break`, or where `set` throws. */
  function Halt(src: seq<byte>, delta: seq<byte>, st: Patch): Patch
    decreases |delta| - st.deltaOffset
  {
    if st.deltaOffset >= |delta| then st
    else
      match PatchStep(src, delta, st)
      case Continue(next) => Halt(src, delta, next)
      case _ => st
  }

  /** Writing `data` changes the bytes it covers and no others. */
  lemma WriteOutside(dst: seq<byte>, at: nat, data: seq<byte>, k: nat)
    requires at + |data| <= |dst| && k < |dst|
    ensures Write(dst, at, data)[k] == if at <= k < at + |data| then data[k - at] else dst[k]
  {
  }

  /** A `Put` that moves the cursor at least past what it writes keeps the tail zero and `dstSize` in step. */
  lemma PutKeepsTail(st: Patch, data: seq<byte>, advance: nat, next: nat)
    requires |data| <= advance
    ensures var s := Put(st, data, advance, next);
      s.Continue? ==> (ZeroTail(st) ==> ZeroTail(s.next)) && (Balanced(st) ==> Balanced(s.next))
  {
    var s := Put(st, data, advance, next);
    if s.Continue? && ZeroTail(st) {
      forall k | s.next.dstOffset <= k < |s.next.dst|
        ensures s.next.dst[k] == 0
      {
        WriteOutside(st.dst, st.dstOffset, data, k);
      }
    }
  }

  /** Every instruction that lets the loop go on keeps the tail zero and `dstSize` in step. */
  lemma StepKeepsTail(src: seq<byte>, delta: seq<byte>, st: Patch)
    requires st.deltaOffset < |delta|
    ensures var s := PatchStep(src, delta, st);
      s.Continue? ==> (ZeroTail(st) ==> ZeroTail(s.next)) && (Balanced(st) ==> Balanced(s.next))
  {
    var cmd := delta[st.deltaOffset];
    var p := st.deltaOffset + 1;
    if cmd >= 128 {
      var op := CopyOperands(delta, p, cmd);
      PutKeepsTail(st, CopyData(src, op), CopyAdvance(op), op.next);
    } else if cmd != 0 && cmd <= st.dstSize {
      PutKeepsTail(st, Slice(delta, p, p + cmd), cmd, p + cmd);
    }
  }

  /**
   * The loop's result is the buffer of the state it halts in; that state keeps the tail zero
   * and `dstSize` in step when the starting state does; and when it halts before the end of
   * the delta without throwing, it halts at an INSERT asking for more than `dstSize`.
   */
  lemma {:induction false} RunHalts(src: seq<byte>, delta: seq<byte>, st: Patch)
    ensures var r := Run(src, delta, st); var h := Halt(src, delta, st);
      && (r.Ok? ==> r.value == h.dst)
      && (ZeroTail(st) ==> ZeroTail(h))
      && (Balanced(st) ==> Balanced(h))
      && (r.Ok? && h.deltaOffset < |delta| ==> 1 <= delta[h.deltaOffset] < 128 && delta[h.deltaOffset] > h.dstSize)
    decreases |delta| - st.deltaOffset
  {
    if st.deltaOffset < |delta| {
      StepKeepsTail(src, delta, st);
      var s := PatchStep(src, delta, st);
      if s.Continue? {
        RunHalts(src, delta, s.next);
      }
    }
  }

  /**
   * Wherever the loop stops, the output bytes it has not reached stay 0; and if it stops before
   * the end of the delta without throwing, it stopped at an INSERT of more bytes than fit
   * between the output cursor and the end of the output.
   */
  lemma UnwrittenTailIsZero(src: seq<byte>, delta: seq<byte>)
    ensures var r := PatchSpec(src, delta); var h := Halt(src, delta, Start(delta));
      r.Ok? ==>
        && r.value == h.dst
        && (forall k :: h.dstOffset <= k < |r.value| ==> r.value[k] == 0)
        && (h.deltaOffset < |delta| ==>
              1 <= delta[h.deltaOffset] < 128 && h.dstOffset + delta[h.deltaOffset] > |r.value|)
  {
    RunHalts(src, delta, Start(delta));
  }

  // ---------------------------------------------------------------- the source size is ignored

  /** Two deltas of one length that agree from position `m` on. */
  predicate AgreeFrom(d1: seq<byte>, d2: seq<byte>, m: nat)
  {
    |d1| == |d2| && forall k :: m <= k < |d1| ==> d1[k] == d2[k]
  }

  lemma {:induction false} VarintAgree(d1: seq<byte>, d2: seq<byte>, m: nat, off: nat)
    requires AgreeFrom(d1, d2, m) && m <= off
    ensures VarintAt(d1, off) == VarintAt(d2, off)
    decreases |d1| - off
  {
    if At(d1, off) >= 128 {
      VarintAgree(d1, d2, m, off + 1);
    }
  }

  lemma {:induction false} GatedRunAgree(d1: seq<byte>, d2: seq<byte>, m: nat, c: Cursor, cmd: byte, lo: nat, n: nat)
    requires AgreeFrom(d1, d2, m) && m <= c.pos
    ensures GatedRun(d1, c, cmd, lo, n) == GatedRun(d2, c, cmd, lo, n)
  {
    if n > 0 {
      GatedRunAgree(d1, d2, m, c, cmd, lo, n - 1);
    }
  }

  lemma CopyOperandsAgree(d1: seq<byte>, d2: seq<byte>, m: nat, p: nat, cmd: byte)
    requires AgreeFrom(d1, d2, m) && m <= p
    ensures CopyOperands(d1, p, cmd) == CopyOperands(d2, p, cmd)
  {
    GatedRunAgree(d1, d2, m, Cursor(0, p), cmd, 0, 4);
    GatedRunAgree(d1, d2, m, Cursor(0, GatedRun(d1, Cursor(0, p), cmd, 0, 4).pos), cmd, 4, 3);
  }

  lemma SliceAgree(d1: seq<byte>, d2: seq<byte>, m: nat, a: nat, b: nat)
    requires AgreeFrom(d1, d2, m) && m <= a
    ensures Slice(d1, a, b) == Slice(d2, a, b)
  {
    if a <= b && b <= |d1| {
      assert forall k :: 0 <= k < b - a ==> d1[a..b][k] == d1[a + k];
    }
  }

  lemma PatchStepAgree(src: seq<byte>, d1: seq<byte>, d2: seq<byte>, m: nat, st: Patch)
    requires AgreeFrom(d1, d2, m) && m <= st.deltaOffset < |d1|
    ensures PatchStep(src, d1, st) == PatchStep(src, d2, st)
  {
    var p := st.deltaOffset + 1;
    var cmd := d1[st.deltaOffset];
    CopyOperandsAgree(d1, d2, m, p, cmd);
    SliceAgree(d1, d2, m, p, p + cmd);
  }

  /** The loop reads the delta only at and after its cursor. */
  lemma {:induction false} RunAgree(src: seq<byte>, d1: seq<byte>, d2: seq<byte>, m: nat, st: Patch)
    requires AgreeFrom(d1, d2, m) && m <= st.deltaOffset
    ensures Run(src, d1, st) == Run(src, d2, st)
    decreases |d1| - st.deltaOffset
  {
    if st.deltaOffset < |d1| {
      PatchStepAgree(src, d1, d2, m, st);
      var s := PatchStep(src, d1, st);
      if s.Continue? {
        RunAgree(src, d1, d2, m, s.next);
      }
    }
  }

  lemma SameTail(a: seq<byte>, b: seq<byte>, rest: seq<byte>)
    requires |a| == |b|
    ensures AgreeFrom(a + rest, b + rest, |a|)
  {
    forall k | |a| <= k < |a + rest|
      ensures (a + rest)[k] == (b + rest)[k]
    {
      assert (a + rest)[k] == rest[k - |a|] == (b + rest)[k];
    }
  }

  /** A complete size field reads the same with anything after it. */
  lemma {:induction false} VarintPrefix(a: seq<byte>, rest: seq<byte>, off: nat)
    requires VarintAt(a, off).next <= |a|
    ensures VarintAt(a + rest, off) == VarintAt(a, off)
    decreases |a| - off
  {
    assert At(a + rest, off) == At(a, off);
    if At(a, off) >= 128 {
      VarintPrefix(a, rest, off + 1);
    }
  }

  /**
   * The declared source size is never compared with `src`: replacing the source-size field by
   * any other complete size field of the same length leaves the result of `patchDelta`, and
   * whether it throws, unchanged.
   */
  lemma SourceSizeIgnored(src: seq<byte>, a: seq<byte>, b: seq<byte>, rest: seq<byte>)
    requires |a| == |b| && VarintAt(a, 0).next == |a| && VarintAt(b, 0).next == |b|
    ensures PatchSpec(src, a + rest) == PatchSpec(src, b + rest)
  {
    var d1, d2 := a + rest, b + rest;
    VarintPrefix(a, rest, 0);
    VarintPrefix(b, rest, 0);
    SameTail(a, b, rest);
    VarintAgree(d1, d2, |a|, |a|);
    VarintAtCorrect(d1, |a|);
    RunAgree(src, d1, d2, |a|, Start(d1));
  }

  /**
   * The offset reads of a COPY instruction (src/packfile.js:53-56), straight-line as written;
   * `defined` is false while the offset holds the `undefined` of a read past the end.
   */
  method ReadOffsetOperand(delta: seq<byte>, p: nat, cmd: byte) returns (offset: nat, defined: bool, next: nat)
    ensures Cursor(offset, next) == OffsetOperand(delta, p, cmd)
    ensures defined == !OffsetUndefined(delta, p, cmd)
  {
    next := p;
    offset := 0;
    defined := true;
    ghost var c := Cursor(0, p);
    if cmd % 2 == 1 { offset := At(delta, next); defined := next < |delta|; next := next + 1; }
    assert Cursor(offset, next) == Gated(delta, c, cmd % 2 == 1, 1);
    c := Cursor(offset, next);
    if cmd / 2 % 2 == 1 { offset := offset + At(delta, next) * 0x100; defined := true; next := next + 1; }
    assert Cursor(offset, next) == Gated(delta, c, cmd / 2 % 2 == 1, 0x100);
    c := Cursor(offset, next);
    if cmd / 4 % 2 == 1 { offset := offset + At(delta, next) * 0x10000; defined := true; next := next + 1; }
    assert Cursor(offset, next) == Gated(delta, c, cmd / 4 % 2 == 1, 0x10000);
    c := Cursor(offset, next);
    if cmd / 8 % 2 == 1 { offset := offset + At(delta, next) * 0x100_0000; defined := true; next := next + 1; }
    assert Cursor(offset, next) == Gated(delta, c, cmd / 8 % 2 == 1, 0x100_0000);
  }

  /** The size reads of a COPY instruction (src/packfile.js:57-59), before the 0x10000 rule. */
  method ReadSizeOperand(delta: seq<byte>, p: nat, cmd: byte) returns (size: nat, defined: bool, next: nat)
    ensures Cursor(size, next) == SizeOperand(delta, p, cmd)
    ensures defined == !SizeUndefined(delta, p, cmd)
  {
    next := p;
    size := 0;
    defined := true;
    ghost var c := Cursor(0, p);
    if cmd / 16 % 2 == 1 { size := At(delta, next); defined := next < |delta|; next := next + 1; }
    assert Cursor(size, next) == Gated(delta, c, cmd / 16 % 2 == 1, 1);
    c := Cursor(size, next);
    if cmd / 32 % 2 == 1 { size := size + At(delta, next) * 0x100; defined := true; next := next + 1; }
    assert Cursor(size, next) == Gated(delta, c, cmd / 32 % 2 == 1, 0x100);
    c := Cursor(size, next);
    if cmd / 64 % 2 == 1 { size := size + At(delta, next) * 0x10000; defined := true; next := next + 1; }
    assert Cursor(size, next) == Gated(delta, c, cmd / 64 % 2 == 1, 0x10000);
  }

  /** The operand reads of a COPY instruction (src/packfile.js:51-60). */
  method ReadCopyOperands(delta: seq<byte>, p: nat, cmd: byte) returns (op: CopyOp)
    ensures op == CopyOperands(delta, p, cmd)
  {
    var offset, offsetDefined, q := ReadOffsetOperand(delta, p, cmd);
    var size, sizeDefined, next := ReadSizeOperand(delta, q, cmd);
    OffsetOperandIsRun(delta, p, cmd);
    SizeOperandIsRun(delta, q, cmd);
    if sizeDefined && size == 0 { size := 0x10000; }
    op := CopyOp(if offsetDefined then Some(offset) else None, if sizeDefined then Some(size) else None, next);
  }

  /** `dst.set(data, at)` once the caller has checked that `data` fits. */
  method Blit(dst: array<byte>, at: nat, data: seq<byte>)
    requires at + |data| <= dst.Length
    modifies dst
    ensures dst[..] == Write(old(dst[..]), at, data)
  {
    forall k | 0 <= k < |data| {
      dst[at + k] := data[k];
    }
  }

  /** The `Put` of one instruction, carried out on the output buffer. */
  method Apply(dst: array<byte>, st: Patch, data: seq<byte>, advance: nat, next: nat) returns (step: Step)
    requires dst[..] == st.dst
    modifies dst
    ensures step == Put(st, data, advance, next)
    ensures step.Continue? ==> dst[..] == step.next.dst
  {
    if st.dstOffset + |data| > dst.Length {
      return Fail;
    }
    Blit(dst, st.dstOffset, data);
    return Continue(Patch(next, st.dstOffset + advance, st.dstSize - advance, dst[..]));
  }

  /** A COPY byte writes `src[offset .. offset+size)` at the output cursor and advances it by `size`. */
  lemma CopyStep(src: seq<byte>, delta: seq<byte>, st: Patch, offset: nat, size: nat, next: nat)
    requires st.deltaOffset < |delta| && delta[st.deltaOffset] >= 128
    requires CopyOp(Some(offset), Some(size), next) == CopyOperands(delta, st.deltaOffset + 1, delta[st.deltaOffset])
    ensures PatchStep(src, delta, st) == Put(st, Slice(src, offset, offset + size), size, next)
  {
  }

  /** Writing nothing leaves the buffer as it was. */
  lemma WriteNothing(dst: seq<byte>, at: nat)
    requires at <= |dst|
    ensures Write(dst, at, []) == dst
  {
    assert dst[..at] + [] + dst[at..] == dst;
  }

  /**
   * A COPY instruction with an `undefined` operand copies nothing, and as its operand reads ran
   * past the end of the delta, the loop ends: the result is the buffer as it stands, unless the
   * output cursor has already passed its end, when `set` throws.
   */
  lemma UndefinedCopyEnds(src: seq<byte>, delta: seq<byte>, st: Patch)
    requires st.deltaOffset < |delta| && delta[st.deltaOffset] >= 128
    requires var op := CopyOperands(delta, st.deltaOffset + 1, delta[st.deltaOffset]);
      op.offset.None? || op.size.None?
    ensures Run(src, delta, st) == if st.dstOffset <= |st.dst| then Ok(st.dst) else Err(OutOfRange)
  {
    CopyOperandsLayout(delta, st.deltaOffset + 1, delta[st.deltaOffset]);
    if st.dstOffset <= |st.dst| {
      WriteNothing(st.dst, st.dstOffset);
    }
  }

  /**
   * A truncated COPY leaves the output as allocated: `[1, 1, 0x90]` declares one output byte and
   * then asks for a size byte that is not there, as `[1, 1, 0x81]` does for an offset byte.
   */
  lemma UndefinedCopyExample(src: seq<byte>)
    ensures PatchSpec(src, [1, 1, 0x90]) == Ok([0])
    ensures PatchSpec(src, [1, 1, 0x81]) == Ok([0])
  {
    TruncatedCopy(src, 0x90);
    TruncatedCopy(src, 0x81);
  }

  lemma TruncatedCopy(src: seq<byte>, cmd: byte)
    requires cmd == 0x90 || cmd == 0x81
    ensures PatchSpec(src, [1, 1, cmd]) == Ok([0])
  {
    var d: seq<byte> := [1, 1, cmd];
    assert VarintAt(d, 0) == Varint(1, 1);
    assert VarintAt(d, 1) == Varint(1, 2);
    assert Zeros(1) == [0];
    var st := Patch(2, 0, 1, [0]);
    assert PatchSpec(src, d) == Run(src, d, st);
    BitsOfByte(cmd);
    assert BitsBelow(cmd, 4) == cmd % 2;
    CopyOperandsLayout(d, 3, cmd);
    UndefinedCopyEnds(src, d, st);
  }

  /** An INSERT byte `cmd` no larger than what remains writes the next `cmd` delta bytes verbatim. */
  lemma InsertStep(src: seq<byte>, delta: seq<byte>, st: Patch, cmd: byte, next: nat)
    requires st.deltaOffset < |delta| && cmd == delta[st.deltaOffset] && 1 <= cmd < 128 && cmd <= st.dstSize
    requires next == st.deltaOffset + 1 + cmd
    ensures PatchStep(src, delta, st) == Put(st, Slice(delta, st.deltaOffset + 1, next), cmd, next)
  {
  }

  /** An INSERT byte larger than what remains ends the loop. */
  lemma OversizedInsertStep(src: seq<byte>, delta: seq<byte>, st: Patch)
    requires st.deltaOffset < |delta| && 1 <= delta[st.deltaOffset] < 128 && delta[st.deltaOffset] > st.dstSize
    ensures PatchStep(src, delta, st) == Stop
  {
  }

  /** A 0 instruction byte writes nothing: only the delta cursor moves, by one. */
  lemma ZeroStep(src: seq<byte>, delta: seq<byte>, st: Patch)
    requires st.deltaOffset < |delta| && delta[st.deltaOffset] == 0
    ensures PatchStep(src, delta, st) == Continue(st.(deltaOffset := st.deltaOffset + 1))
    ensures Run(src, delta, st) == Run(src, delta, st.(deltaOffset := st.deltaOffset + 1))
  {
  }

  /** Run takes one step and goes on from where the step leaves it. */
  lemma StepRuns(src: seq<byte>, delta: seq<byte>, st: Patch)
    requires st.deltaOffset < |delta|
    ensures PatchStep(src, delta, st).Fail? ==> Run(src, delta, st) == Err(OutOfRange)
    ensures PatchStep(src, delta, st).Stop? ==> Run(src, delta, st) == Ok(st.dst)
    ensures PatchStep(src, delta, st).Continue? ==> Run(src, delta, st) == Run(src, delta, PatchStep(src, delta, st).next)
  {
  }

  /** A COPY instruction (src/packfile.js:50-64): reads its operands and copies from `src`. */
  method CopyInstruction(src: seq<byte>, delta: seq<byte>, dst: array<byte>, st: Patch) returns (step: Step)
    requires st.deltaOffset < |delta| && delta[st.deltaOffset] >= 128 && dst[..] == st.dst
    modifies dst
    ensures step == PatchStep(src, delta, st)
    ensures step.Continue? ==> dst[..] == step.next.dst
  {
    var op := ReadCopyOperands(delta, st.deltaOffset + 1, delta[st.deltaOffset]);
    step := Apply(dst, st, CopyData(src, op), CopyAdvance(op), op.next);
  }

  /** An INSERT instruction (src/packfile.js:65-71) that fits: copies the next `cmd` delta bytes. */
  method InsertInstruction(src: seq<byte>, delta: seq<byte>, dst: array<byte>, st: Patch) returns (step: Step)
    requires st.deltaOffset < |delta| && 1 <= delta[st.deltaOffset] < 128 && delta[st.deltaOffset] <= st.dstSize
    requires dst[..] == st.dst
    modifies dst
    ensures step == PatchStep(src, delta, st)
    ensures step.Continue? ==> dst[..] == step.next.dst
  {
    var cmd := delta[st.deltaOffset];
    var next := st.deltaOffset + 1 + cmd;
    InsertStep(src, delta, st, cmd, next);
    step := Apply(dst, st, Slice(delta, st.deltaOffset + 1, next), cmd, next);
  }

  /**
   * The body of the instruction loop (src/packfile.js:49-72): decodes the instruction at
   * `st.deltaOffset` and applies it to `dst`, which holds `st.dst`.
   */
  method PatchInstruction(src: seq<byte>, delta: seq<byte>, dst: array<byte>, st: Patch)
    returns (step: Step)
    requires st.deltaOffset < |delta| && dst[..] == st.dst
    modifies dst
    ensures step == PatchStep(src, delta, st)
    ensures step.Continue? ==> dst[..] == step.next.dst
    ensures step.Stop? ==> dst[..] == st.dst
  {
    var cmd := delta[st.deltaOffset];
    if cmd >= 128 {
      step := CopyInstruction(src, delta, dst, st);
    } else if cmd != 0 && cmd > st.dstSize {
      OversizedInsertStep(src, delta, st);
      return Stop;
    } else if cmd != 0 {
      step := InsertInstruction(src, delta, dst, st);
    } else {
      ZeroStep(src, delta, st);
      return Continue(st.(deltaOffset := st.deltaOffset + 1));
    }
  }

  /** `patchDelta` as written: fills a zeroed buffer of the declared size in a loop. */
  method PatchDelta(src: seq<byte>, delta: seq<byte>) returns (r: Result<array<byte>>)
    ensures r.Ok? <==> PatchSpec(src, delta).Ok?
    ensures r.Ok? ==> fresh(r.value) && r.value[..] == PatchSpec(src, delta).value
  {
    var srcSize, deltaOffset := ReadDataSize(delta, 0);
    var dstSize: int, next := ReadDataSize(delta, deltaOffset);
    deltaOffset := next;
    var dstOffset: nat := 0;
    var dst := new byte[dstSize](_ => 0);
    assert dst[..] == Zeros(dstSize);
    while deltaOffset < |delta|
      invariant Run(src, delta, Patch(deltaOffset, dstOffset, dstSize, dst[..])) == PatchSpec(src, delta)
      decreases |delta| - deltaOffset
    {
      var st := Patch(deltaOffset, dstOffset, dstSize, dst[..]);
      var step := PatchInstruction(src, delta, dst, st);
      StepRuns(src, delta, st);
      match step {
        case Fail => return Err(OutOfRange);
        case Stop => return Ok(dst);
        case Continue(n) =>
          deltaOffset, dstOffset, dstSize := n.deltaOffset, n.dstOffset, n.dstSize;
      }
    }
    return Ok(dst);
  }
}
