/** The physical frame allocator (kernel_api/common/src/mem.rs:184-308): a lazy walk over the usable memory
    descriptors in steps of a page, and `swap_map`, which replaces the walk in the middle of a run. */
module Frames {
  import opened Bytes

  datatype MemoryType =
    | Reserved | LoaderCode | LoaderData | BootServicesCode | BootServicesData
    | RuntimeServicesCode | RuntimeServicesData
    | Conventional | OtherMemory

  datatype Descriptor = Descriptor(memoryType: MemoryType, address: nat, pages: nat)

  predicate IsUsable(d: Descriptor) {
    d.memoryType.BootServicesCode? || d.memoryType.Conventional?
  }

  function End(d: Descriptor): nat {
    d.address + d.pages * 4096
  }

  /** `PhysFrame::containing_address`: a frame is known by its start. */
  function Frame(address: nat): (f: nat)
    ensures f <= address < f + 4096 && f % 4096 == 0
  {
    address - address % 4096
  }

  /** `(from..to).step_by(4096)`, as frames. */
  function RangeFrames(from: nat, to: nat): (frames: seq<nat>)
    decreases if from < to then to - from else 0
  {
    if from >= to then [] else [Frame(from)] + RangeFrames(from + 4096, to)
  }

  /** `usable_frames`. */
  function UsableFrames(descriptors: seq<Descriptor>): seq<nat> {
    if descriptors == [] then []
    else
      (if IsUsable(descriptors[0]) then RangeFrames(descriptors[0].address, End(descriptors[0])) else [])
      + UsableFrames(descriptors[1..])
  }

  // ---------------------------------------------------------------- the allocator

  /** What `swap_map` leaves of the new map: the descriptors behind the first usable one that starts at or after
      the frame. That one is passed over as well. There may be none. */
  function SkipTo(descriptors: seq<Descriptor>, frame: nat): Option<seq<Descriptor>> {
    if descriptors == [] then None
    else if IsUsable(descriptors[0]) && descriptors[0].address >= frame then Some(descriptors[1..])
    else SkipTo(descriptors[1..], frame)
  }

  class FrameAllocator {
    const memoryMap: seq<Descriptor>
    /** The range being walked, empty when `next` is not below `end`, and the descriptors behind it. */
    var next: nat
    var end: nat
    var rest: seq<Descriptor>

    /** The frames still to come. */
    ghost function Pending(): seq<nat>
      reads this
    {
      RangeFrames(next, end) + UsableFrames(rest)
    }

    constructor (descriptors: seq<Descriptor>)
      ensures memoryMap == descriptors && Pending() == UsableFrames(descriptors)
    {
      memoryMap := descriptors;
      next, end, rest := 0, 0, descriptors;
    }

    method AllocateFrame() returns (frame: Option<nat>)
      modifies this
      ensures old(Pending()) == [] ==> frame == None && Pending() == []
      ensures old(Pending()) != [] ==> frame == Some(old(Pending())[0]) && Pending() == old(Pending())[1..]
    {
      while next >= end && rest != []
        invariant Pending() == old(Pending())
        decreases |rest|
      {
        if IsUsable(rest[0]) {
          next, end := rest[0].address, End(rest[0]);
        }
        rest := rest[1..];
      }
      if next >= end {
        return None;
      }
      frame := Some(Frame(next));
      next := next + 4096;
    }

    /** The source panics where `ok` is false. */
    method SwapMap(descriptors: seq<Descriptor>) returns (ok: bool)
      modifies this
      ensures ok <==> old(Pending()) != [] && SkipTo(descriptors, old(Pending())[0]).Some?
      ensures ok ==> Pending() == UsableFrames(SkipTo(descriptors, old(Pending())[0]).value)
    {
      var current := AllocateFrame();
      if current.None? {
        return false;
      }
      var left := descriptors;
      while left != [] && !(IsUsable(left[0]) && left[0].address >= current.value)
        invariant SkipTo(descriptors, current.value) == SkipTo(left, current.value)
        decreases |left|
      {
        left := left[1..];
      }
      if left == [] {
        return false;
      }
      next, end, rest := 0, 0, left[1..];
      return true;
    }

    /** `allocate_size`: the first of `size / 4096` frames, and their number; none of them when they run out. */
    method AllocateSize(size: nat) returns (r: Option<(nat, nat)>)
      modifies this
      ensures var n := size / 4096;
        if n <= |old(Pending())| then
          && r == Some((if n == 0 then 0 else old(Pending())[0], n))
          && Pending() == old(Pending())[n..]
        else r == None && Pending() == []
    {
      var n := size / 4096;
      var first := 0;
      ghost var was := Pending();
      for i := 0 to n
        invariant i <= |was| && Pending() == was[i..]
        invariant first == if i == 0 then 0 else was[0]
      {
        var f := AllocateFrame();
        if f.None? {
          return None;
        }
        if i == 0 {
          first := f.value;
        }
      }
      return Some((first, n));
    }
  }

  // ---------------------------------------------------------------- which frames these are

  /** Page `f` begins in a usable descriptor. */
  ghost predicate InUsable(descriptors: seq<Descriptor>, f: nat) {
    exists d :: d in descriptors && IsUsable(d) && d.address <= f < End(d)
  }

  ghost predicate PageAligned(descriptors: seq<Descriptor>) {
    forall i :: 0 <= i < |descriptors| && IsUsable(descriptors[i]) ==> descriptors[i].address % 4096 == 0
  }

  lemma {:induction false} RangeFramesAre(from: nat, to: nat, f: nat)
    requires from % 4096 == 0
    ensures f in RangeFrames(from, to) <==> from <= f < to && f % 4096 == 0
    decreases if from < to then to - from else 0
  {
    if from < to {
      RangeFramesAre(from + 4096, to, f);
    }
  }

  lemma {:induction false} RangeFramesCount(from: nat, pages: nat)
    ensures |RangeFrames(from, from + pages * 4096)| == pages
    decreases pages
  {
    if pages > 0 {
      RangeFramesCount(from + 4096, pages - 1);
      assert from + 4096 + (pages - 1) * 4096 == from + pages * 4096;
    }
  }

  /** With page-aligned descriptors the frames are exactly the pages of the usable ones. */
  lemma {:induction false} UsableFramesAre(descriptors: seq<Descriptor>, f: nat)
    requires PageAligned(descriptors)
    ensures f in UsableFrames(descriptors) <==> InUsable(descriptors, f) && f % 4096 == 0
  {
    if descriptors != [] {
      var d := descriptors[0];
      assert forall i :: 0 <= i < |descriptors| - 1 ==> descriptors[1..][i] == descriptors[i + 1];
      UsableFramesAre(descriptors[1..], f);
      if IsUsable(d) {
        RangeFramesAre(d.address, End(d), f);
      }
      assert InUsable(descriptors, f) <==> (IsUsable(d) && d.address <= f < End(d)) || InUsable(descriptors[1..], f);
    }
  }

  /** Frames come from conventional memory and from the code of the boot services only. */
  lemma FramesAreFree(descriptors: seq<Descriptor>, f: nat)
    requires PageAligned(descriptors)
    ensures f in UsableFrames(descriptors) <==>
      f % 4096 == 0
      && exists d :: d in descriptors && (d.memoryType == Conventional || d.memoryType == BootServicesCode)
                     && d.address <= f < d.address + d.pages * 4096
  {
    UsableFramesAre(descriptors, f);
    if InUsable(descriptors, f) {
      var d :| d in descriptors && IsUsable(d) && d.address <= f < End(d);
      assert d.memoryType == Conventional || d.memoryType == BootServicesCode;
    }
  }

  function UsablePages(descriptors: seq<Descriptor>): nat {
    if descriptors == [] then 0
    else (if IsUsable(descriptors[0]) then descriptors[0].pages else 0) + UsablePages(descriptors[1..])
  }

  /** As many frames are handed out as the usable descriptors have pages. */
  lemma {:induction false} UsableFramesCount(descriptors: seq<Descriptor>)
    ensures |UsableFrames(descriptors)| == UsablePages(descriptors)
  {
    if descriptors != [] {
      RangeFramesCount(descriptors[0].address, descriptors[0].pages);
      UsableFramesCount(descriptors[1..]);
    }
  }

  // ---------------------------------------------------------------- no frame twice

  /** The usable descriptors do not overlap and come in ascending order. */
  ghost predicate Ordered(descriptors: seq<Descriptor>) {
    forall i, j :: 0 <= i < j < |descriptors| && IsUsable(descriptors[i]) && IsUsable(descriptors[j]) ==>
      End(descriptors[i]) <= descriptors[j].address
  }

  /** Strictly ascending, and nothing below `low`. */
  ghost predicate AscendingFrom(frames: seq<nat>, low: nat) {
    && (forall i :: 0 <= i < |frames| ==> low <= frames[i])
    && (forall i, j :: 0 <= i < j < |frames| ==> frames[i] < frames[j])
  }

  lemma {:induction false} RangeAscends(from: nat, to: nat)
    ensures AscendingFrom(RangeFrames(from, to), Frame(from))
    ensures forall f :: f in RangeFrames(from, to) ==> f < to
    decreases if from < to then to - from else 0
  {
    if from < to {
      RangeAscends(from + 4096, to);
      assert Frame(from + 4096) > Frame(from);
    }
  }

  /** The frames of an ordered map ascend, aligned or not, and start no lower than any bound of its descriptors. */
  lemma {:induction false} OrderedAscends(descriptors: seq<Descriptor>, low: nat)
    requires Ordered(descriptors)
    requires forall i :: 0 <= i < |descriptors| && IsUsable(descriptors[i]) ==> low <= descriptors[i].address
    ensures AscendingFrom(UsableFrames(descriptors), Frame(low))
    decreases |descriptors|
  {
    if descriptors != [] {
      var d := descriptors[0];
      assert forall i :: 0 <= i < |descriptors| - 1 ==> descriptors[1..][i] == descriptors[i + 1];
      if IsUsable(d) {
        OrderedAscends(descriptors[1..], End(d));
        RangeAscends(d.address, End(d));
        RangeBelowEnd(d.address, d.pages, End(d));
        assert Frame(End(d)) >= Frame(d.address) >= Frame(low);
        AscendingJoin(RangeFrames(d.address, End(d)), UsableFrames(descriptors[1..]), Frame(low), Frame(End(d)));
      } else {
        OrderedAscends(descriptors[1..], low);
      }
    }
  }

  lemma AscendingJoin(a: seq<nat>, b: seq<nat>, low: nat, middle: nat)
    requires low <= middle && AscendingFrom(a, low) && AscendingFrom(b, middle) && forall f :: f in a ==> f < middle
    ensures AscendingFrom(a + b, low)
  {
    assert forall i :: 0 <= i < |a| ==> a[i] in a;
  }

  /** All frames of a descriptor lie below the frame of its end. */
  lemma {:induction false} RangeBelowEnd(from: nat, pages: nat, to: nat)
    requires to == from + pages * 4096
    ensures forall f :: f in RangeFrames(from, to) ==> f < Frame(to)
    decreases pages
  {
    if pages > 0 {
      RangeBelowEnd(from + 4096, pages - 1, to);
    }
  }

  /** What is left after a swap is not below the frame at which it happened. */
  lemma {:induction false} SkipToAscends(descriptors: seq<Descriptor>, frame: nat)
    requires Ordered(descriptors) && SkipTo(descriptors, frame).Some? && frame % 4096 == 0
    ensures AscendingFrom(UsableFrames(SkipTo(descriptors, frame).value), frame)
    decreases |descriptors|
  {
    assert forall i :: 0 <= i < |descriptors| - 1 ==> descriptors[1..][i] == descriptors[i + 1];
    if IsUsable(descriptors[0]) && descriptors[0].address >= frame {
      OrderedAscends(descriptors[1..], frame);
    } else {
      SkipToAscends(descriptors[1..], frame);
    }
  }

  datatype Op = Allocate | Swap(descriptors: seq<Descriptor>)

  /** The frames handed to callers by a run from a walk with the frames `pending` to come; a swap that panics
      ends it. */
  function Run(pending: seq<nat>, ops: seq<Op>): seq<nat>
    decreases |ops|
  {
    if ops == [] then []
    else
      match ops[0]
      case Allocate => if pending == [] then Run([], ops[1..]) else [pending[0]] + Run(pending[1..], ops[1..])
      case Swap(descriptors) =>
        if pending == [] || SkipTo(descriptors, pending[0]).None? then []
        else Run(UsableFrames(SkipTo(descriptors, pending[0]).value), ops[1..])
  }

  /** The run on an allocator itself. */
  method Execute(a: FrameAllocator, ops: seq<Op>) returns (frames: seq<nat>)
    modifies a
    ensures frames == Run(old(a.Pending()), ops)
  {
    hide FrameAllocator.Pending, UsableFrames, SkipTo;
    frames := [];
    assert ops[0..] == ops;
    for k := 0 to |ops|
      invariant Run(old(a.Pending()), ops) == frames + Run(a.Pending(), ops[k..])
    {
      assert ops[k..][1..] == ops[k + 1..];
      match ops[k] {
        case Allocate =>
          var frame := a.AllocateFrame();
          if frame.Some? {
            frames := frames + [frame.value];
          }
        case Swap(descriptors) =>
          var ok := a.SwapMap(descriptors);
          if !ok {
            return;
          }
      }
    }
  }

  /** Without swaps, the k-th allocation gives the k-th usable frame, and nothing once they are used up. */
  lemma {:induction false} AllocationsInOrder(pending: seq<nat>, ops: seq<Op>)
    requires forall i :: 0 <= i < |ops| ==> ops[i] == Allocate
    ensures Run(pending, ops) == if |ops| <= |pending| then pending[..|ops|] else pending
    decreases |ops|
  {
    if ops != [] {
      assert forall i :: 0 <= i < |ops| - 1 ==> ops[1..][i] == ops[i + 1];
      AllocationsInOrder(if pending == [] then [] else pending[1..], ops[1..]);
    }
  }

  /** No frame is ever handed out twice: over any run, across any number of swaps to ordered maps, every frame is
      strictly above all that were handed out before. */
  lemma {:induction false} RunAscends(pending: seq<nat>, ops: seq<Op>, low: nat)
    requires AscendingFrom(pending, low) && forall i :: 0 <= i < |pending| ==> pending[i] % 4096 == 0
    requires forall i :: 0 <= i < |ops| && ops[i].Swap? ==> Ordered(ops[i].descriptors)
    ensures AscendingFrom(Run(pending, ops), low)
    decreases |ops|
  {
    hide UsableFrames, SkipTo, Ordered;
    if ops != [] {
      assert forall i :: 0 <= i < |ops| - 1 ==> ops[1..][i] == ops[i + 1];
      match ops[0] {
        case Allocate =>
          if pending == [] {
            RunAscends([], ops[1..], low);
          } else {
            RunAscends(pending[1..], ops[1..], pending[0] + 1);
          }
        case Swap(descriptors) =>
          if pending != [] && SkipTo(descriptors, pending[0]).Some? {
            var next := UsableFrames(SkipTo(descriptors, pending[0]).value);
            SkipToAscends(descriptors, pending[0]);
            FramesAligned(SkipTo(descriptors, pending[0]).value);
            RunAscends(next, ops[1..], low);
          }
      }
    }
  }

  lemma {:induction false} FramesAligned(descriptors: seq<Descriptor>)
    ensures forall i :: 0 <= i < |UsableFrames(descriptors)| ==> UsableFrames(descriptors)[i] % 4096 == 0
  {
    if descriptors != [] {
      FramesAligned(descriptors[1..]);
      RangeAligned(descriptors[0].address, End(descriptors[0]));
    }
  }

  lemma {:induction false} RangeAligned(from: nat, to: nat)
    ensures forall i :: 0 <= i < |RangeFrames(from, to)| ==> RangeFrames(from, to)[i] % 4096 == 0
    decreases if from < to then to - from else 0
  {
    if from < to {
      RangeAligned(from + 4096, to);
    }
  }

  /** The same from a fresh allocator. */
  lemma FreshRunAscends(descriptors: seq<Descriptor>, ops: seq<Op>)
    requires Ordered(descriptors) && forall i :: 0 <= i < |ops| && ops[i].Swap? ==> Ordered(ops[i].descriptors)
    ensures AscendingFrom(Run(UsableFrames(descriptors), ops), 0)
  {
    OrderedAscends(descriptors, 0);
    FramesAligned(descriptors);
    RunAscends(UsableFrames(descriptors), ops, 0);
  }

  // ---------------------------------------------------------------- exactly which maps are safe

  /** All swaps of the run are to maps of the set. */
  ghost predicate SwapsIn(ops: seq<Op>, maps: set<seq<Descriptor>>) {
    forall i :: 0 <= i < |ops| && ops[i].Swap? ==> ops[i].descriptors in maps
  }

  ghost predicate Regular(descriptors: seq<Descriptor>) {
    && PageAligned(descriptors)
    && forall i :: 0 <= i < |descriptors| && IsUsable(descriptors[i]) ==> descriptors[i].pages > 0
  }

  ghost predicate AlwaysAscends(maps: set<seq<Descriptor>>) {
    forall start, ops :: start in maps && SwapsIn(ops, maps) ==> AscendingFrom(Run(UsableFrames(start), ops), 0)
  }

  /** Every run from any of these maps, with swaps among them, ascends exactly when all of them are ordered. */
  lemma AlwaysAscendsExactlyWhen(maps: set<seq<Descriptor>>)
    requires forall m :: m in maps ==> Regular(m)
    ensures AlwaysAscends(maps) <==> forall m :: m in maps ==> Ordered(m)
  {
    hide UsableFrames, Run, Ordered, Regular, AscendingFrom;
    if forall m :: m in maps ==> Ordered(m) {
      forall start, ops | start in maps && SwapsIn(ops, maps)
        ensures AscendingFrom(Run(UsableFrames(start), ops), 0)
      {
        FreshRunAscends(start, ops);
      }
    }
    if AlwaysAscends(maps) {
      forall m | m in maps
        ensures Ordered(m)
      {
        var ops := Allocations(|UsableFrames(m)|);
        assert SwapsIn(ops, maps);
        AllocationsInOrder(UsableFrames(m), ops);
        assert UsableFrames(m)[..|ops|] == UsableFrames(m);
        AscendingIsOrdered(m);
      }
    }
  }

  function Allocations(n: nat): (ops: seq<Op>)
    ensures |ops| == n && forall i :: 0 <= i < n ==> ops[i] == Allocate
  {
    seq(n, _ => Allocate)
  }

  lemma {:induction false} AscendingIsOrdered(descriptors: seq<Descriptor>)
    requires Regular(descriptors) && AscendingFrom(UsableFrames(descriptors), 0)
    ensures Ordered(descriptors)
    decreases |descriptors|
  {
    hide UsableFrames;
    if descriptors != [] {
      var d, rest := descriptors[0], descriptors[1..];
      assert forall i :: 0 <= i < |rest| ==> rest[i] == descriptors[i + 1];
      FramesBehind(descriptors, 1);
      AscendingRest(UsableFrames(descriptors), FirstOf(descriptors, 1));
      AscendingIsOrdered(rest);
      forall j | 0 < j < |descriptors| && IsUsable(d) && IsUsable(descriptors[j])
        ensures End(d) <= descriptors[j].address
      {
        FirstIsBelow(descriptors, j);
      }
    }
  }

  lemma AscendingRest(frames: seq<nat>, n: nat)
    requires n <= |frames| && AscendingFrom(frames, 0)
    ensures AscendingFrom(frames[n..], 0)
  {
  }

  /** The last page of the first descriptor and the first page of a later one. */
  lemma FirstIsBelow(descriptors: seq<Descriptor>, j: nat)
    requires Regular(descriptors) && AscendingFrom(UsableFrames(descriptors), 0)
    requires 0 < j < |descriptors| && IsUsable(descriptors[0]) && IsUsable(descriptors[j])
    ensures End(descriptors[0]) <= descriptors[j].address
  {
    hide UsableFrames, FirstOf;
    FrameOf(descriptors, 0, descriptors[0].pages - 1);
    FrameOf(descriptors, j, 0);
    FirstOfNext(descriptors, 0);
    FirstOfGrows(descriptors, 1, j);
  }

  ghost predicate Distinct(frames: seq<nat>) {
    forall i, j :: 0 <= i < j < |frames| ==> frames[i] != frames[j]
  }

  ghost predicate NeverTwice(descriptors: seq<Descriptor>) {
    forall ops :: SwapsIn(ops, {descriptors}) ==> Distinct(Run(UsableFrames(descriptors), ops))
  }

  /** The usable descriptors do not overlap. */
  ghost predicate Disjoint(descriptors: seq<Descriptor>) {
    forall i, j :: 0 <= i < j < |descriptors| && IsUsable(descriptors[i]) && IsUsable(descriptors[j]) ==>
      End(descriptors[i]) <= descriptors[j].address || End(descriptors[j]) <= descriptors[i].address
  }

  /** Only a single page may lie below a usable descriptor ahead of it, and only below the one right ahead. */
  ghost predicate NoWayBack(descriptors: seq<Descriptor>) {
    forall i, j :: 0 <= i < j < |descriptors| && Inverted(descriptors, i, j) ==>
      descriptors[j].pages == 1 && NoneBetween(descriptors, i, j)
  }

  ghost predicate Inverted(descriptors: seq<Descriptor>, i: nat, j: nat)
    requires i < j < |descriptors|
  {
    && IsUsable(descriptors[i]) && IsUsable(descriptors[j])
    && descriptors[i].address > descriptors[j].address
  }

  ghost predicate NoneBetween(descriptors: seq<Descriptor>, i: nat, j: nat)
    requires i < j < |descriptors|
  {
    forall m :: i < m < j ==> !IsUsable(descriptors[m])
  }

  lemma {:induction false} UsableFramesConcat(a: seq<Descriptor>, b: seq<Descriptor>)
    ensures UsableFrames(a + b) == UsableFrames(a) + UsableFrames(b)
  {
    hide RangeFrames;
    if a == [] {
      assert a + b == b;
    } else {
      assert (a + b)[1..] == a[1..] + b;
      UsableFramesConcat(a[1..], b);
    }
  }

  /** Number of the first frame of the k-th descriptor. */
  function FirstOf(descriptors: seq<Descriptor>, k: nat): nat
    requires k <= |descriptors|
  {
    |UsableFrames(descriptors[..k])|
  }

  /** What is behind the first `k` descriptors is a rest of all the frames. */
  lemma FramesBehind(descriptors: seq<Descriptor>, k: nat)
    requires k <= |descriptors|
    ensures var all := UsableFrames(descriptors);
      FirstOf(descriptors, k) <= |all| && UsableFrames(descriptors[k..]) == all[FirstOf(descriptors, k)..]
  {
    assert descriptors == descriptors[..k] + descriptors[k..];
    UsableFramesConcat(descriptors[..k], descriptors[k..]);
  }

  lemma FirstOfNext(descriptors: seq<Descriptor>, k: nat)
    requires k < |descriptors|
    ensures FirstOf(descriptors, k + 1)
      == FirstOf(descriptors, k) + if IsUsable(descriptors[k]) then descriptors[k].pages else 0
  {
    UsableFramesConcat(descriptors[..k], [descriptors[k]]);
    assert descriptors[..k + 1] == descriptors[..k] + [descriptors[k]];
    UsableFramesCount([descriptors[k]]);
    assert UsablePages([descriptors[k]][1..]) == 0;
  }

  lemma {:induction false} FirstOfGrows(descriptors: seq<Descriptor>, j: nat, k: nat)
    requires j <= k <= |descriptors|
    ensures FirstOf(descriptors, j) <= FirstOf(descriptors, k)
    ensures (forall m :: j <= m < k ==> !IsUsable(descriptors[m])) ==>
      FirstOf(descriptors, j) == FirstOf(descriptors, k)
    decreases k
  {
    hide FirstOf;
    if j < k {
      FirstOfGrows(descriptors, j, k - 1);
      FirstOfNext(descriptors, k - 1);
    }
  }

  lemma {:induction false} RangeFrameAt(from: nat, pages: nat, o: nat)
    requires from % 4096 == 0 && o < pages
    ensures |RangeFrames(from, from + pages * 4096)| == pages
    ensures RangeFrames(from, from + pages * 4096)[o] == from + o * 4096
    decreases pages
  {
    RangeFramesCount(from, pages);
    RangeFramesCount(from + 4096, pages - 1);
    assert from + 4096 + (pages - 1) * 4096 == from + pages * 4096;
    if o > 0 {
      RangeFrameAt(from + 4096, pages - 1, o - 1);
    }
  }

  /** Page `o` of the j-th descriptor is the frame with that number. */
  lemma FrameOf(descriptors: seq<Descriptor>, j: nat, o: nat)
    requires PageAligned(descriptors) && j < |descriptors| && IsUsable(descriptors[j]) && o < descriptors[j].pages
    ensures var k := FirstOf(descriptors, j) + o;
      k < |UsableFrames(descriptors)| && UsableFrames(descriptors)[k] == descriptors[j].address + o * 4096
  {
    hide RangeFrames, FirstOf;
    FramesBehind(descriptors, j);
    var d := descriptors[j];
    assert descriptors[j..][0] == d;
    RangeFrameAt(d.address, d.pages, o);
    assert UsableFrames(descriptors[j..])[o] == RangeFrames(d.address, End(d))[o];
  }

  /** Every frame is a page of a usable descriptor. */
  lemma {:induction false} WhichFrame(descriptors: seq<Descriptor>, n: nat, k: nat) returns (j: nat, o: nat)
    requires PageAligned(descriptors) && n <= |descriptors| && k < FirstOf(descriptors, n)
    ensures j < n && IsUsable(descriptors[j]) && o < descriptors[j].pages && k == FirstOf(descriptors, j) + o
    ensures k < |UsableFrames(descriptors)| && UsableFrames(descriptors)[k] == descriptors[j].address + o * 4096
    decreases n
  {
    if n == 0 {
      assert false;
    } else {
      FirstOfNext(descriptors, n - 1);
      if k < FirstOf(descriptors, n - 1) {
        j, o := WhichFrame(descriptors, n - 1, k);
      } else {
        j, o := n - 1, k - FirstOf(descriptors, n - 1);
        FrameOf(descriptors, j, o);
      }
    }
  }

  /** The descriptor at which a swap stops. */
  lemma {:induction false} WhereSkipStops(descriptors: seq<Descriptor>, frame: nat) returns (i: nat)
    requires SkipTo(descriptors, frame).Some?
    ensures i < |descriptors| && IsUsable(descriptors[i]) && frame <= descriptors[i].address
    ensures forall m :: 0 <= m < i && IsUsable(descriptors[m]) ==> descriptors[m].address < frame
    ensures SkipTo(descriptors, frame).value == descriptors[i + 1..]
  {
    if IsUsable(descriptors[0]) && descriptors[0].address >= frame {
      i := 0;
    } else {
      i := WhereSkipStops(descriptors[1..], frame);
      assert forall m :: 0 < m < |descriptors| ==> descriptors[m] == descriptors[1..][m - 1];
      assert descriptors[1..][i + 1..] == descriptors[i + 2..];
      i := i + 1;
    }
  }

  lemma {:induction false} SkipFinds(descriptors: seq<Descriptor>, frame: nat, i: nat)
    requires i < |descriptors| && IsUsable(descriptors[i]) && frame <= descriptors[i].address
    ensures SkipTo(descriptors, frame).Some?
  {
    if i > 0 {
      SkipFinds(descriptors[1..], frame, i - 1);
    }
  }

  /** A swap when frame `k` is next never goes back to frames before it. */
  ghost predicate Forward(descriptors: seq<Descriptor>) {
    forall k :: 0 <= k < |UsableFrames(descriptors)| ==> ForwardAt(descriptors, k)
  }

  ghost predicate ForwardAt(descriptors: seq<Descriptor>, k: nat)
    requires k < |UsableFrames(descriptors)|
  {
    var all := UsableFrames(descriptors);
    SkipTo(descriptors, all[k]).Some? ==> |UsableFrames(SkipTo(descriptors, all[k]).value)| <= |all| - k
  }

  /** After a swap the frames to come are a rest of all frames. */
  lemma RestAfterSwap(descriptors: seq<Descriptor>, frame: nat)
    requires SkipTo(descriptors, frame).Some?
    ensures var all, rest := UsableFrames(descriptors), UsableFrames(SkipTo(descriptors, frame).value);
      |rest| <= |all| && rest == all[|all| - |rest|..]
  {
    hide UsableFrames;
    var i := WhereSkipStops(descriptors, frame);
    FramesBehind(descriptors, i + 1);
  }

  ghost predicate Among(run: seq<nat>, frames: seq<nat>, k: nat) {
    forall i :: 0 <= i < |run| ==> FoundFrom(run[i], frames, k)
  }

  ghost predicate FoundFrom(f: nat, frames: seq<nat>, k: nat) {
    exists j :: k <= j < |frames| && frames[j] == f
  }

  lemma OneMore(all: seq<nat>, k: nat, run: seq<nat>)
    requires k < |all| && Distinct(all) && Distinct(run) && Among(run, all, k + 1)
    ensures Distinct([all[k]] + run) && Among([all[k]] + run, all, k)
  {
  }

  lemma NoMore(all: seq<nat>, k: nat)
    ensures Distinct([]) && Among([], all, k)
  {
  }

  lemma AmongMore(run: seq<nat>, frames: seq<nat>, k: nat, m: nat)
    requires Among(run, frames, m) && k <= m
    ensures Among(run, frames, k)
  {
    forall i | 0 <= i < |run|
      ensures FoundFrom(run[i], frames, k)
    {
      assert FoundFrom(run[i], frames, m);
    }
  }

  lemma NothingRun(pending: seq<nat>, ops: seq<Op>)
    requires ops == []
    ensures Run(pending, ops) == []
  {
  }

  lemma RunUnfolds(all: seq<nat>, k: nat, ops: seq<Op>)
    requires k <= |all| && ops != []
    ensures k == |all| && ops[0].Allocate? ==> Run(all[k..], ops) == Run(all[k..], ops[1..])
    ensures k < |all| && ops[0].Allocate? ==> Run(all[k..], ops) == [all[k]] + Run(all[k + 1..], ops[1..])
    ensures ops[0].Swap? ==>
      Run(all[k..], ops) == (if k == |all| || SkipTo(ops[0].descriptors, all[k]).None? then []
                             else Run(UsableFrames(SkipTo(ops[0].descriptors, all[k]).value), ops[1..]))
  {
    hide SkipTo, UsableFrames;
    assert k < |all| ==> all[k..][1..] == all[k + 1..] && all[k..][0] == all[k];
  }

  /** As long as swaps go forward, all frames handed out are distinct and among those that were to come. */
  lemma {:induction false} ForwardRuns(descriptors: seq<Descriptor>, k: nat, ops: seq<Op>)
    requires Distinct(UsableFrames(descriptors)) && Forward(descriptors) && SwapsIn(ops, {descriptors})
    requires k <= |UsableFrames(descriptors)|
    ensures var all := UsableFrames(descriptors);
      var run := Run(all[k..], ops);
      Distinct(run) && Among(run, all, k)
    decreases |ops|
  {
    hide UsableFrames, SkipTo, Distinct, Run, Among;
    var all := UsableFrames(descriptors);
    NoMore(all, k);
    if ops == [] {
      NothingRun(all[k..], ops);
      return;
    }
    RunUnfolds(all, k, ops);
    assert SwapsIn(ops[1..], {descriptors});
    if ops[0].Allocate? {
      if k == |all| {
        ForwardRuns(descriptors, k, ops[1..]);
      } else {
        ForwardRuns(descriptors, k + 1, ops[1..]);
        OneMore(all, k, Run(all[k + 1..], ops[1..]));
      }
    } else if k < |all| && SkipTo(descriptors, all[k]).Some? {
      assert ForwardAt(descriptors, k);
      RestAfterSwap(descriptors, all[k]);
      var m := |all| - |UsableFrames(SkipTo(descriptors, all[k]).value)|;
      ForwardRuns(descriptors, m, ops[1..]);
      AmongMore(Run(all[m..], ops[1..]), all, k, m);
    }
  }

  lemma {:induction false} AllocateFirst(pending: seq<nat>, k: nat, ops: seq<Op>)
    requires k <= |pending|
    ensures Run(pending, Allocations(k) + ops) == pending[..k] + Run(pending[k..], ops)
    decreases k
  {
    hide SkipTo, UsableFrames;
    if k == 0 {
      assert Allocations(0) + ops == ops && pending[0..] == pending && pending[..0] == [];
    } else {
      assert (Allocations(k) + ops)[1..] == Allocations(k - 1) + ops;
      AllocateFirst(pending[1..], k - 1, ops);
      assert pending[1..][k - 1..] == pending[k..] && [pending[0]] + pending[1..][..k - 1] == pending[..k];
    }
  }

  /** A swap that goes back: all frames up to it, the swap, and one more allocation. */
  lemma BackwardRepeats(descriptors: seq<Descriptor>, k: nat)
    requires k < |UsableFrames(descriptors)| && !ForwardAt(descriptors, k)
    ensures !NeverTwice(descriptors)
  {
    hide SkipTo, UsableFrames;
    var all := UsableFrames(descriptors);
    var rest := UsableFrames(SkipTo(descriptors, all[k]).value);
    var swap: seq<Op> := [Swap(descriptors), Allocate];
    RestAfterSwap(descriptors, all[k]);
    AllocateFirst(all, k, swap);
    var run := Run(all, Allocations(k) + swap);
    assert swap[1..] == [Allocate] && [Allocate][1..] == [];
    assert Run(rest, [Allocate]) == [rest[0]] + Run(rest[1..], []);
    assert run == all[..k] + [all[|all| - |rest|]];
    assert run[|all| - |rest|] == run[k];
    assert SwapsIn(Allocations(k) + swap, {descriptors});
  }

  lemma DistinctIsDisjoint(descriptors: seq<Descriptor>)
    requires Regular(descriptors)
    ensures Distinct(UsableFrames(descriptors)) <==> Disjoint(descriptors)
  {
    hide UsableFrames, FirstOf;
    var all := UsableFrames(descriptors);
    if Distinct(all) {
      forall i, j | 0 <= i < j < |descriptors| && IsUsable(descriptors[i]) && IsUsable(descriptors[j])
        ensures End(descriptors[i]) <= descriptors[j].address || End(descriptors[j]) <= descriptors[i].address
      {
        DistinctApart(descriptors, i, j);
      }
    }
    if Disjoint(descriptors) {
      forall k, l | 0 <= k < l < |all|
        ensures all[k] != all[l]
      {
        WholeMap(descriptors);
        var i, o := WhichFrame(descriptors, |descriptors|, k);
        var j, q := WhichFrame(descriptors, |descriptors|, l);
        assert i == j ==> o != q;
      }
    }
  }

  lemma WholeMap(descriptors: seq<Descriptor>)
    ensures FirstOf(descriptors, |descriptors|) == |UsableFrames(descriptors)|
  {
    assert descriptors[..|descriptors|] == descriptors;
  }

  lemma DistinctApart(descriptors: seq<Descriptor>, i: nat, j: nat)
    requires Regular(descriptors) && Distinct(UsableFrames(descriptors))
    requires i < j < |descriptors| && IsUsable(descriptors[i]) && IsUsable(descriptors[j])
    ensures End(descriptors[i]) <= descriptors[j].address || End(descriptors[j]) <= descriptors[i].address
  {
    hide UsableFrames, FirstOf;
    var a, b := descriptors[i], descriptors[j];
    if a.address < End(b) && b.address < End(a) {
      var f := if a.address < b.address then b.address else a.address;
      var o: nat, q: nat := (f - a.address) / 4096, (f - b.address) / 4096;
      FrameOf(descriptors, i, o);
      FrameOf(descriptors, j, q);
      FirstOfNext(descriptors, i);
      FirstOfGrows(descriptors, i + 1, j);
    }
  }

  lemma ForwardIsNoWayBack(descriptors: seq<Descriptor>)
    requires Regular(descriptors) && Disjoint(descriptors)
    ensures Forward(descriptors) <==> NoWayBack(descriptors)
  {
    hide UsableFrames, FirstOf, Regular, Disjoint, Inverted, NoneBetween, ForwardAt;
    if NoWayBack(descriptors) {
      forall k | 0 <= k < |UsableFrames(descriptors)|
        ensures ForwardAt(descriptors, k)
      {
        NoWayBackAt(descriptors, k);
      }
    }
    if Forward(descriptors) {
      forall i, j | 0 <= i < j < |descriptors| && Inverted(descriptors, i, j)
        ensures descriptors[j].pages == 1 && NoneBetween(descriptors, i, j)
      {
        ForwardPair(descriptors, i, j);
      }
    }
  }

  lemma NoWayBackAt(descriptors: seq<Descriptor>, k: nat)
    requires Regular(descriptors) && Disjoint(descriptors) && NoWayBack(descriptors)
    requires k < |UsableFrames(descriptors)|
    ensures ForwardAt(descriptors, k)
  {
    hide UsableFrames, FirstOf, SkipTo;
    var f := UsableFrames(descriptors)[k];
    if SkipTo(descriptors, f).Some? {
      WholeMap(descriptors);
      var j, o := WhichFrame(descriptors, |descriptors|, k);
      var i := WhereSkipStops(descriptors, f);
      FramesBehind(descriptors, i + 1);
      FirstOfNext(descriptors, j);
      if i >= j {
        FirstOfGrows(descriptors, j + 1, i + 1);
      } else {
        assert Inverted(descriptors, i, j);
        assert NoneBetween(descriptors, i, j);
        FirstOfGrows(descriptors, i + 1, j);
      }
    }
  }

  lemma ForwardPair(descriptors: seq<Descriptor>, i: nat, j: nat)
    requires Regular(descriptors) && Disjoint(descriptors) && Forward(descriptors)
    requires i < j < |descriptors| && Inverted(descriptors, i, j)
    ensures descriptors[j].pages == 1 && NoneBetween(descriptors, i, j)
  {
    hide UsableFrames, FirstOf, SkipTo;
    FirstOfGrows(descriptors, i + 1, j);
    if descriptors[j].pages > 1 {
      NotForward(descriptors, i, j, 1);
    }
    forall m | i < m < j
      ensures !IsUsable(descriptors[m])
    {
      if IsUsable(descriptors[m]) {
        FirstOfNext(descriptors, m);
        FirstOfGrows(descriptors, i + 1, m);
        FirstOfGrows(descriptors, m + 1, j);
        NotForward(descriptors, i, j, 0);
      }
    }
  }

  /** From page `o` of a descriptor a swap stops at or ahead of a higher one before it. */
  lemma NotForward(descriptors: seq<Descriptor>, i: nat, j: nat, o: nat)
    requires PageAligned(descriptors) && Forward(descriptors)
    requires i < j < |descriptors| && IsUsable(descriptors[i]) && IsUsable(descriptors[j]) && o < descriptors[j].pages
    requires descriptors[j].address + o * 4096 <= descriptors[i].address
    ensures FirstOf(descriptors, i + 1) >= FirstOf(descriptors, j) + o
  {
    hide UsableFrames, FirstOf, SkipTo;
    var k, f := FirstOf(descriptors, j) + o, descriptors[j].address + o * 4096;
    FrameOf(descriptors, j, o);
    assert ForwardAt(descriptors, k);
    SkipFinds(descriptors, f, i);
    var stop := WhereSkipStops(descriptors, f);
    FramesBehind(descriptors, stop + 1);
    FirstOfGrows(descriptors, stop + 1, i + 1);
  }

  /** No run from a map, with swaps to the same map, hands a frame out twice, exactly when the usable descriptors do
      not overlap and are in order, but that a single page may follow right behind one above it. */
  lemma NeverTwiceExactlyWhen(descriptors: seq<Descriptor>)
    requires Regular(descriptors)
    ensures NeverTwice(descriptors) <==> Disjoint(descriptors) && NoWayBack(descriptors)
  {
    hide UsableFrames, SkipTo, Disjoint, NoWayBack, Regular, Distinct, Run, ForwardAt;
    var all := UsableFrames(descriptors);
    DistinctIsDisjoint(descriptors);
    if Disjoint(descriptors) {
      ForwardIsNoWayBack(descriptors);
    }
    if Disjoint(descriptors) && Forward(descriptors) {
      forall ops | SwapsIn(ops, {descriptors})
        ensures Distinct(Run(all, ops))
      {
        ForwardRuns(descriptors, 0, ops);
        assert all[0..] == all;
      }
    } else if Disjoint(descriptors) {
      var k :| 0 <= k < |all| && !ForwardAt(descriptors, k);
      BackwardRepeats(descriptors, k);
    } else {
      var ops := Allocations(|all|);
      AllocationsInOrder(all, ops);
      assert all[..|ops|] == all && SwapsIn(ops, {descriptors});
    }
  }

  /** Two descriptors the wrong way round. */
  const WRONG_WAY: seq<Descriptor> := [Descriptor(Conventional, 0x5000, 1), Descriptor(Conventional, 0x1000, 2)]

  lemma WrongWayFrames()
    ensures UsableFrames(WRONG_WAY) == [0x5000, 0x1000, 0x2000]
    ensures SkipTo(WRONG_WAY, 0x2000).Some? && UsableFrames(SkipTo(WRONG_WAY, 0x2000).value) == [0x1000, 0x2000]
  {
    var tail := [Descriptor(Conventional, 0x1000, 2)];
    assert WRONG_WAY[1..] == tail && tail[1..] == [];
    assert RangeFrames(0x6000, 0x6000) == [] && RangeFrames(0x3000, 0x3000) == [];
    assert RangeFrames(0x2000, 0x3000) == [0x2000];
    assert UsableFrames(tail) == [0x1000, 0x2000];
  }

  /** Without the order this fails: a swap to the very same map. */
  lemma UnorderedRunRepeats()
    ensures Run(UsableFrames(WRONG_WAY), [Allocate, Allocate, Swap(WRONG_WAY), Allocate]) == [0x5000, 0x1000, 0x1000]
  {
    hide UsableFrames, SkipTo, RangeFrames, WRONG_WAY;
    WrongWayFrames();
    var ops := [Allocate, Allocate, Swap(WRONG_WAY), Allocate];
    assert ops[1..] == [Allocate, Swap(WRONG_WAY), Allocate] && ops[1..][1..] == [Swap(WRONG_WAY), Allocate];
    assert ops[1..][1..][1..] == [Allocate] && ops[1..][1..][1..][1..] == [];
    assert Run([0x1000, 0x2000], [Allocate]) == [0x1000] + Run([0x2000], []);
    assert Run([0x2000], [Swap(WRONG_WAY), Allocate]) == [0x1000];
    assert Run([0x1000, 0x2000], [Allocate, Swap(WRONG_WAY), Allocate]) == [0x1000, 0x1000];
  }
}
