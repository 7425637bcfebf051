/** Runs of the frame allocator's calls: frames are only ever handed out. */
module FrameRuns {
  import opened Words
  import opened Pmm

  /** The free frames, those handed out so far in order, and the number of frames there are. */
  datatype Frames = Frames(free: set<nat>, out: seq<nat>, total: nat) {
    predicate Ok() {
      total <= FRAME_LIMIT && forall f <- free :: 1 <= f < total
    }
  }

  datatype FrameOp = Take | Give(addr: word)

  /** The calls that return: an allocation with a frame left, and the release of a frame that is free already. */
  predicate Completes(s: Frames, op: FrameOp) {
    match op
    case Take => s.free != {}
    case Give(addr) => FreePasses(s.free, s.total, addr)
  }

  ghost function Apply(s: Frames, op: FrameOp): Frames
    requires Completes(s, op)
  {
    match op
    case Take => Frames(s.free - {Lowest(s.free)}, s.out + [Lowest(s.free)], s.total)
    case Give(_) => s
  }

  /** A call of the code is a step of the run: it returns exactly when the step completes, with the step's effect. */
  method Perform(frames: FrameAllocator, op: FrameOp, ghost out: seq<nat>) returns (r: Outcome<word>)
    requires frames.Valid()
    modifies frames.bitmap
    ensures var s := Frames(old(frames.Free()), out, frames.totalPages);
            && s.Ok() && (r.Done? <==> Completes(s, op))
            && (r.Done? ==> frames.Free() == Apply(s, op).free)
            && (r.Done? && op.Take? ==> Apply(s, op).out == out + [r.value / PAGE_SIZE])
            && (r.Panic? ==> frames.Free() == s.free)
  {
    match op {
      case Take =>
        r := frames.AllocFrame();
      case Give(addr) =>
        var freed := frames.FreeFrame(addr);
        r := if freed.Done? then Done(addr) else Panic;
    }
  }

  ghost predicate Runs(s: Frames, ops: seq<FrameOp>)
    decreases |ops|
  {
    ops == [] || (Completes(s, ops[0]) && Runs(Apply(s, ops[0]), ops[1..]))
  }

  ghost function Final(s: Frames, ops: seq<FrameOp>): Frames
    requires Runs(s, ops)
    decreases |ops|
  {
    if ops == [] then s else Final(Apply(s, ops[0]), ops[1..])
  }

  function Takes(ops: seq<FrameOp>): nat {
    if ops == [] then 0 else (if ops[0].Take? then 1 else 0) + Takes(ops[1..])
  }

  function Elements(s: seq<nat>): set<nat> {
    set f | f in s
  }

  /** The frames handed out ascend, and every free frame lies above them. */
  predicate Ascending(s: Frames) {
    && (forall i, j | 0 <= i < j < |s.out| :: s.out[i] < s.out[j])
    && (forall i, f | 0 <= i < |s.out| && f in s.free :: s.out[i] < f)
  }

  lemma TakeStep(s: Frames)
    requires s.Ok() && Ascending(s) && s.free != {}
    ensures var t := Apply(s, Take);
            && t.Ok() && Ascending(t) && |t.free| == |s.free| - 1
            && t.free + Elements(t.out) == s.free + Elements(s.out)
  {
    var f, t := Lowest(s.free), Apply(s, Take);
    hide Lowest;
    assert Elements(t.out) == Elements(s.out) + {f};
  }

  /** Over every run, frames are handed out in ascending order, so none twice; the free set loses exactly the lowest
      frame with each allocation and never gains one, so no more allocations return than frames were free at first. */
  lemma {:induction false} FramesOnlyGoOut(s: Frames, ops: seq<FrameOp>)
    requires s.Ok() && Ascending(s) && Runs(s, ops)
    ensures var t := Final(s, ops);
            && t.Ok() && Ascending(t) && t.free <= s.free && s.out <= t.out
            && |t.out| == |s.out| + Takes(ops) && |t.free| == |s.free| - Takes(ops)
            && t.free + Elements(t.out) == s.free + Elements(s.out)
    decreases |ops|
  {
    hide Ascending, Elements;
    if ops != [] {
      match ops[0] {
        case Take => TakeStep(s);
        case Give(_) =>
      }
      FramesOnlyGoOut(Apply(s, ops[0]), ops[1..]);
    }
  }

  /** No call ever gives a frame back: every frame handed out since boot is refused. */
  lemma HandedOutIsRefused(s: Frames, ops: seq<FrameOp>, i: nat)
    requires s.Ok() && s.out == [] && Runs(s, ops) && i < |Final(s, ops).out|
    ensures var f := Final(s, ops).out[i];
            f in s.free && f < FRAME_LIMIT && !Completes(Final(s, ops), Give(f * PAGE_SIZE))
  {
    FramesOnlyGoOut(s, ops);
    var t := Final(s, ops);
    var f := t.out[i];
    assert f in Elements(t.out) && f !in t.free;
    assert f * PAGE_SIZE / PAGE_SIZE == f;
  }
}
