/** Loading all segments of an ELF image (kernel_api/common/src/process.rs:161-232, and the same loop at 388-463): the
    frames come from the allocator of mem.rs, which the mapper draws on as well. */
module ElfLoader {
  import opened Bytes
  import opened Frames
  import opened Image
  import opened ElfSegments

  /** There is a page of memory behind every frame. */
  ghost predicate Roomy(frames: seq<nat>, size: nat) {
    forall i :: 0 <= i < |frames| ==> frames[i] + 8192 <= size
  }

  // ---------------------------------------------------------------- frames picked out of those to come

  /** Ascending positions below `n`. */
  ghost predicate Picks(picks: seq<nat>, n: nat) {
    && (forall i :: 0 <= i < |picks| ==> picks[i] < n)
    && (forall i, j :: 0 <= i < j < |picks| ==> picks[i] < picks[j])
  }

  ghost function Picked(frames: seq<nat>, picks: seq<nat>): (r: seq<nat>)
    requires Picks(picks, |frames|)
    ensures |r| == |picks| && forall i :: 0 <= i < |picks| ==> r[i] == frames[picks[i]]
  {
    seq(|picks|, i requires 0 <= i < |picks| => frames[picks[i]])
  }

  lemma PickMore(frames: seq<nat>, picks: seq<nat>, n: nat)
    requires Picks(picks, n) && n < |frames|
    ensures Picks(picks + [n], n + 1) && Picked(frames, picks + [n]) == Picked(frames, picks) + [frames[n]]
  {
  }

  /** Picked frames are as good as all, and those behind the last one lie above it. */
  lemma PickedIsGood(frames: seq<nat>, picks: seq<nat>, used: nat, low: nat)
    requires GoodFrames(frames, low) && Picks(picks, used) && used <= |frames|
    ensures GoodFrames(Picked(frames, picks), low)
    ensures picks != [] ==> GoodFrames(frames[used..], Picked(frames, picks)[|picks| - 1] + 4096)
    ensures picks != [] ==> low <= Picked(frames, picks)[0]
  {
    var mine := Picked(frames, picks);
    if picks != [] {
      var last := mine[|picks| - 1];
      forall i | 0 <= i < |frames| - used
        ensures last + 4096 <= frames[used..][i]
      {
        assert frames[used..][i] == frames[used + i];
      }
    }
  }

  lemma PickedInFrames(frames: seq<nat>, picks: seq<nat>, used: nat, was: seq<byte>, now: seq<byte>)
    requires Picks(picks, used) && used <= |frames| && OnlyFrames(was, now, Picked(frames, picks), |picks|)
    ensures OnlyFrames(was, now, frames, used)
  {
    var mine := Picked(frames, picks);
    forall a: nat | At(now, a) != At(was, a)
      ensures InFrames(a, frames, used)
    {
      assert InFrames(a, mine, |picks|);
      var j :| 0 <= j < |picks| && j < |mine| && mine[j] <= a < mine[j] + 4096;
      assert frames[picks[j]] <= a < frames[picks[j]] + 4096;
    }
  }

  lemma {:induction false} CopyPiecesSame(mem: seq<byte>, data: seq<byte>, offset: nat, frames: seq<nat>,
                                          more: seq<nat>, n: nat)
    requires data != [] && n <= |frames|
    ensures CopyPieces(mem, data, offset, frames + more, n) == CopyPieces(mem, data, offset, frames, n)
  {
    hide Overwrite, Piece;
    if n > 0 {
      CopyPiecesSame(mem, data, offset, frames, more, n - 1);
    }
  }

  lemma {:induction false} MapPagesSame(pages: map<nat, nat>, first: nat, frames: seq<nat>, more: seq<nat>, n: nat)
    requires n <= |frames|
    ensures MapPages(pages, first, frames + more, n) == MapPages(pages, first, frames, n)
  {
    if n > 0 {
      MapPagesSame(pages, first, frames, more, n - 1);
    }
  }

  /** One page more: its piece is copied, and it is mapped if it was not. */
  lemma PageStep(mem: seq<byte>, data: seq<byte>, offset: nat, pages: map<nat, nat>, first: nat, mine: seq<nat>,
                 frame: nat)
    requires data != []
    ensures var j, mine' := |mine|, mine + [frame];
      && CopyPieces(mem, data, offset, mine', j + 1)
        == Overwrite(CopyPieces(mem, data, offset, mine, j), frame + offset, Piece(data, j))
      && var before := MapPages(pages, first, mine, j);
        MapPages(pages, first, mine', j + 1) == if first + j in before then before else before[first + j := frame]
  {
    hide Overwrite, Piece, CopyPieces;
    var j, mine' := |mine|, mine + [frame];
    CopyPiecesSame(mem, data, offset, mine, [frame], j);
    CopyPiecesStep(mem, data, offset, mine', j);
    MapPagesSame(pages, first, mine, [frame], j);
  }

  // ---------------------------------------------------------------- the loader

  class Loader {
    const mem: array<byte>
    const allocator: FrameAllocator
    var pages: map<nat, nat>

    constructor (mem: array<byte>, allocator: FrameAllocator, pages: map<nat, nat>)
      ensures this.mem == mem && this.allocator == allocator && this.pages == pages
    {
      this.mem, this.allocator, this.pages := mem, allocator, pages;
    }

    /** `copy_from_slice` into physical memory. */
    method CopyIn(to: nat, data: seq<byte>)
      requires to + |data| <= mem.Length
      modifies mem
      ensures mem[..] == Overwrite(old(mem[..]), to, data)
    {
      for i := 0 to |data|
        invariant forall k :: 0 <= k < mem.Length ==> mem[k] == if to <= k < to + i then data[k - to] else old(mem[k])
      {
        mem[to + i] := data[i];
      }
      assert mem[..] == old(mem[..])[..to] + data + old(mem[..])[to + |data|..];
      OverwriteInside(old(mem[..]), to, data);
    }

    /** The mapper takes as many frames for its own tables as it needs, which may be any number. */
    method TakeTables() returns (ok: bool, ghost taken: nat)
      modifies allocator
      ensures taken <= |old(allocator.Pending())| && allocator.Pending() == old(allocator.Pending())[taken..]
      ensures !ok ==> allocator.Pending() == []
    {
      hide FrameAllocator.Pending;
      var need: nat :| need >= 0;
      taken := 0;
      for i := 0 to need
        invariant taken <= |old(allocator.Pending())| && allocator.Pending() == old(allocator.Pending())[taken..]
      {
        var frame := allocator.AllocateFrame();
        if frame.None? {
          return false, taken;
        }
        taken := taken + 1;
      }
      ok := true;
    }

    /** `map_to`, whose error for a page that is mapped already is ignored. */
    method MapTo(page: nat, frame: nat)
      modifies `pages
      ensures pages == if page in old(pages) then old(pages) else old(pages)[page := frame]
    {
      if page !in pages {
        pages := pages[page := frame];
      }
    }

    /** One page of a segment: a frame for it, the tables to reach the frame, the copy, the tables for the page, the
        mapping. */
    method LoadPage(page: nat, offset: nat, piece: seq<byte>) returns (ok: bool, ghost taken: nat)
      requires offset < 4096 && |piece| <= 4096 && Roomy(allocator.Pending(), mem.Length)
      modifies `pages, mem, allocator
      ensures taken <= |old(allocator.Pending())| && allocator.Pending() == old(allocator.Pending())[taken..]
      ensures !ok ==> allocator.Pending() == []
      ensures ok ==>
        && 0 < taken && mem[..] == Overwrite(old(mem[..]), old(allocator.Pending())[0] + offset, piece)
        && pages == if page in old(pages) then old(pages) else old(pages)[page := old(allocator.Pending())[0]]
    {
      hide FrameAllocator.Pending, Overwrite;
      ghost var more: nat;
      taken := 0;
      var frame := allocator.AllocateFrame();
      if frame.None? {
        return false, taken;
      }
      taken := 1;
      ok, more := TakeTables();
      taken := taken + more;
      if !ok {
        return false, taken;
      }
      CopyIn(frame.value + offset, piece);
      ok, more := TakeTables();
      taken := taken + more;
      if ok {
        MapTo(page, frame.value);
      }
    }

    /** One segment with file data. Where `ok` is false the frames ran out: the source panics then, or faults, or, in
        the mapping of the very last page, leaves that page out. */
    method LoadSegment(h: ProgramHeader, data: seq<byte>) returns (ok: bool, ghost picks: seq<nat>, ghost used: nat)
      requires data != [] && |data| == h.fileSize && Roomy(allocator.Pending(), mem.Length)
      modifies `pages, mem, allocator
      ensures used <= |old(allocator.Pending())| && allocator.Pending() == old(allocator.Pending())[used..]
      ensures !ok ==> allocator.Pending() == []
      ensures ok ==> Picks(picks, used)
      ensures ok ==> |picks| == PageCount(h) == (h.address + h.memSize) / 4096 - h.address / 4096 + 1
      ensures ok ==>
        var mine := Picked(old(allocator.Pending()), picks);
        && mem[..] == CopyPieces(old(mem[..]), data, h.address % 4096, mine, PageCount(h))
        && pages == MapPages(old(pages), FirstPage(h), mine, PageCount(h))
    {
      hide PageCount, FirstPage, PieceStart, MapPages, CopyPieces, Overwrite, FrameAllocator.Pending;
      var first, count, offset := FirstPage(h), PageCount(h), h.address % 4096;
      ghost var frames := allocator.Pending();
      var fileSize: nat := h.fileSize;
      picks, used := [], 0;
      LoopStart(h, Picked(frames, picks), pages, first, mem[..], data);
      for j := 0 to count
        invariant used <= |frames| && allocator.Pending() == frames[used..]
        invariant |picks| == j && Picks(picks, used)
        invariant fileSize == h.fileSize - PieceStart(h.fileSize, j)
        invariant mem[..] == CopyPieces(old(mem[..]), data, offset, Picked(frames, picks), j)
        invariant pages == MapPages(old(pages), first, Picked(frames, picks), j)
      {
        ghost var taken: nat;
        var start := h.fileSize - fileSize;
        var length := if fileSize < 4096 then fileSize else 4096;
        RoomyRest(frames, used, mem.Length);
        ok, taken := LoadPage(first + j, offset, data[start..start + length]);
        if !ok {
          used := used + taken;
          return;
        }
        PageStep(old(mem[..]), data, offset, old(pages), first, Picked(frames, picks), frames[used]);
        PickMore(frames, picks, used);
        picks, used := picks + [used], used + taken;
        PieceStep(h.fileSize, j);
        if fileSize > 4096 {
          fileSize := fileSize - 4096;
        }
      }
      PageCountIs(h);
      ok := true;
    }

    /** The loop over the program headers; the other headers are skipped. `given` are the frames of each segment's
        pages. Exactly the pages of the load segments with file data are mapped in the end, those that were free to
        frames of their own. Every segment that can be loaded is, whatever happens to the others: see `Promised`. */
    method LoadSegments(elf: seq<byte>, headers: seq<ProgramHeader>, ghost low: nat)
      returns (ok: bool, ghost given: seq<seq<nat>>, ghost used: nat)
      requires GoodFrames(allocator.Pending(), low) && Roomy(allocator.Pending(), mem.Length)
      modifies `pages, mem, allocator
      ensures !ok ==> allocator.Pending() == [] || exists k :: 0 <= k < |headers| && Truncated(elf, headers[k])
      ensures used <= |old(allocator.Pending())| && allocator.Pending() == old(allocator.Pending())[used..]
      ensures ok ==> |given| == |headers| && Granted(headers, given, |headers|, old(allocator.Pending())[..used], low)
      ensures ok ==> forall k :: 0 <= k < |headers| && Promised(headers, old(pages), given, k) ==>
        SegmentLoaded(mem[..], pages, elf, headers[k])
      ensures ok ==> MappedExactly(old(pages), pages, headers, |headers|)
      ensures ok ==> OwnFrames(old(pages), pages, old(allocator.Pending())[..used])
      ensures ok && AllStay(headers) ==> OnlyFrames(old(mem[..]), mem[..], old(allocator.Pending()), used)
    {
      hide FrameAllocator.Pending, Roomy, Underway, CopyPieces, MapPages, PageCount, GoodFrames, HasData, Granted,
           OnlyFrames, MappedExactly, OwnFrames, AllStay, Promised;
      ghost var frames, bound, before := allocator.Pending(), low, pages;
      given, used := [], 0;
      NothingLoaded(mem[..], frames, pages, elf, headers, low);
      for k := 0 to |headers|
        invariant used <= |frames| && allocator.Pending() == frames[used..]
        invariant Underway(old(mem[..]), mem[..], before, pages, elf, headers, given, k, frames, used, bound, low)
      {
        var h := headers[k];
        HasDataIs(h);
        if h.isLoad && h.fileSize > 0 {
          if h.offset + h.fileSize > |elf| {
            assert Truncated(elf, headers[k]);
            return false, given, used;
          }
          var data := elf[h.offset..h.offset + h.fileSize];
          ghost var mem0, pages0, picks, taken := mem[..], pages, [], 0;
          RoomyRest(frames, used, mem.Length);
          ok, picks, taken := LoadSegment(h, data);
          if !ok {
            used := used + taken;
            return;
          }
          SegmentDone(old(mem[..]), mem0, before, pages0, elf, headers, given, k, frames, used, picks, taken, bound,
                      low);
          ghost var mine := Picked(frames[used..], picks);
          bound, given, used := mine[|mine| - 1] + 4096, given + [mine], used + taken;
        } else {
          HeaderSkipped(old(mem[..]), mem[..], before, pages, elf, headers, given, k, frames, used, bound, low);
          given := given + [[]];
        }
      }
      RunEnds(old(mem[..]), mem[..], before, pages, elf, headers, given, frames, used, bound, low);
      ok := true;
    }
  }

  /** No copy of any segment leaves its frame. */
  ghost predicate AllStay(headers: seq<ProgramHeader>) {
    forall k :: 0 <= k < |headers| && HasData(headers[k]) ==> StaysInFrames(headers[k])
  }

  /** What holds when `k` headers are done. */
  ghost predicate Underway(was: seq<byte>, mem: seq<byte>, before: map<nat, nat>, pages: map<nat, nat>, elf: seq<byte>,
                           headers: seq<ProgramHeader>, given: seq<seq<nat>>, k: nat, frames: seq<nat>, used: nat,
                           bound: nat, low: nat)
    requires k <= |headers| && used <= |frames|
  {
    && GoodFrames(frames, low) && GoodFrames(frames[used..], bound)
    && Granted(headers, given, k, frames[..used], low)
    && AllLoaded(mem, pages, elf, headers, before, given, k, bound)
    && PagesFrom(before, pages, headers, k) && MappedExactly(before, pages, headers, k)
    && OwnFrames(before, pages, frames[..used]) && MappedBelow(before, pages, bound)
    && (AllStay(headers) ==> OnlyFrames(was, mem, frames, used))
  }

  lemma SegmentDone(was: seq<byte>, mem: seq<byte>, before: map<nat, nat>, pages: map<nat, nat>, elf: seq<byte>,
                headers: seq<ProgramHeader>, given: seq<seq<nat>>, k: nat, frames: seq<nat>, used: nat, picks: seq<nat>,
                taken: nat, bound: nat, low: nat)
    requires k < |headers| && HasData(headers[k]) && headers[k].offset + headers[k].fileSize <= |elf|
    requires used + taken <= |frames| && Picks(picks, taken) && |picks| == PageCount(headers[k])
    requires Underway(was, mem, before, pages, elf, headers, given, k, frames, used, bound, low)
    ensures
      var h, mine := headers[k], Picked(frames[used..], picks);
      Underway(was, MemoryAfter(mem, elf, h, mine), before, PagesAfter(pages, h, mine), elf, headers, given + [mine],
               k + 1, frames, used + taken, mine[|mine| - 1] + 4096, low)
  {
    hide PageCount, FirstPage, CopyPieces, MapPages, Granted, HasData, GoodFrames, AllLoaded, PagesFrom, MappedExactly,
         OwnFrames, MappedBelow, OnlyFrames, StaysInFrames;
    SegmentStep(mem, before, pages, elf, headers, given, k, frames, used, picks, taken, bound, low);
    FramesStep(was, mem, elf, headers, k, frames, used, picks, taken);
    PagesStep(before, pages, headers, k, frames, used, picks, taken, bound);
  }

  lemma HeaderSkipped(was: seq<byte>, mem: seq<byte>, before: map<nat, nat>, pages: map<nat, nat>, elf: seq<byte>,
                   headers: seq<ProgramHeader>, given: seq<seq<nat>>, k: nat, frames: seq<nat>, used: nat, bound: nat,
                   low: nat)
    requires k < |headers| && !HasData(headers[k]) && used <= |frames|
    requires Underway(was, mem, before, pages, elf, headers, given, k, frames, used, bound, low)
    ensures Underway(was, mem, before, pages, elf, headers, given + [[]], k + 1, frames, used, bound, low)
  {
    hide Granted, HasData, GoodFrames, AllLoaded, PagesFrom, MappedExactly, OwnFrames, MappedBelow, OnlyFrames, AllStay;
    SegmentSkipped(mem, before, pages, elf, headers, given, k, bound, frames[..used], low);
    PagesSkipped(before, pages, headers, k);
  }

  lemma RunEnds(was: seq<byte>, mem: seq<byte>, before: map<nat, nat>, pages: map<nat, nat>, elf: seq<byte>,
                headers: seq<ProgramHeader>, given: seq<seq<nat>>, frames: seq<nat>, used: nat, bound: nat, low: nat)
    requires used <= |frames|
    requires Underway(was, mem, before, pages, elf, headers, given, |headers|, frames, used, bound, low)
    ensures |given| == |headers| && Granted(headers, given, |headers|, frames[..used], low)
    ensures forall k :: 0 <= k < |headers| && Promised(headers, before, given, k) ==>
      SegmentLoaded(mem, pages, elf, headers[k])
    ensures MappedExactly(before, pages, headers, |headers|) && OwnFrames(before, pages, frames[..used])
    ensures AllStay(headers) ==> OnlyFrames(was, mem, frames, used)
  {
    hide Promised, SegmentLoaded, GoodFrames, PagesFrom, MappedExactly, OwnFrames, MappedBelow, OnlyFrames, AllStay;
    GrantedLength(headers, given, |headers|, frames[..used], low);
  }

  lemma HasDataIs(h: ProgramHeader)
    ensures HasData(h) <==> h.isLoad && h.fileSize > 0
  {
  }

  /** The file ends inside the segment; the source panics. */
  predicate Truncated(elf: seq<byte>, h: ProgramHeader) {
    HasData(h) && h.offset + h.fileSize > |elf|
  }

  lemma OverwriteInside(mem: seq<byte>, to: nat, data: seq<byte>)
    requires to + |data| <= |mem|
    ensures Overwrite(mem, to, data) == mem[..to] + data + mem[to + |data|..]
  {
  }

  lemma LoopStart(h: ProgramHeader, frames: seq<nat>, pages: map<nat, nat>, first: nat, mem: seq<byte>, data: seq<byte>)
    requires h.fileSize > 0 && data != []
    ensures PieceStart(h.fileSize, 0) == 0 && MapPages(pages, first, frames, 0) == pages
    ensures CopyPieces(mem, data, h.address % 4096, frames, 0) == mem
  {
  }

  lemma RoomyRest(frames: seq<nat>, used: nat, size: nat)
    requires Roomy(frames, size) && used <= |frames|
    ensures Roomy(frames[used..], size)
  {
  }

  // ---------------------------------------------------------------- what the whole run achieves

  /** Every one of the first `k` segments with data has one frame a page, out of `frames`. */
  ghost predicate Granted(headers: seq<ProgramHeader>, given: seq<seq<nat>>, k: nat, frames: seq<nat>, low: nat)
    requires k <= |headers|
  {
    && |given| == k
    && forall i :: 0 <= i < k && HasData(headers[i]) ==>
      |given[i]| == PageCount(headers[i]) && GoodFrames(given[i], low) && forall f :: f in given[i] ==> f in frames
  }

  /** The segment is not shorter in memory than in the file, no page of its data was mapped before or belongs to an
      earlier segment, and it starts on a page boundary or the frames of its data follow each other. */
  ghost predicate Promised(headers: seq<ProgramHeader>, before: map<nat, nat>, given: seq<seq<nat>>, k: nat)
    requires k < |headers|
  {
    var h := headers[k];
    && HasData(h) && h.fileSize <= h.memSize && FreshPages(before, h)
    && (forall i, p :: 0 <= i < k && HasData(headers[i]) && HasPage(headers[i], p) ==> !HasDataPage(h, p))
    && (h.address % 4096 == 0
        || (k < |given| && DataPages(h) <= |given[k]| && Consecutive(given[k], DataPages(h))))
  }

  /** A page that is mapped was so before, or belongs to one of the first `k` segments. */
  ghost predicate PagesFrom(before: map<nat, nat>, pages: map<nat, nat>, headers: seq<ProgramHeader>, k: nat)
    requires k <= |headers|
  {
    forall p :: p in pages ==> p in before || exists i :: 0 <= i < k && HasData(headers[i]) && HasPage(headers[i], p)
  }

  /** A page that the header asks for: up to the one of the address behind the segment. */
  ghost predicate Covers(h: ProgramHeader, p: nat) {
    h.isLoad && h.fileSize > 0 && h.address / 4096 <= p <= (h.address + h.memSize) / 4096
  }

  /** Of the first `k` headers every page is mapped, and no other that was not; what was mapped stays as it was. */
  ghost predicate MappedExactly(before: map<nat, nat>, pages: map<nat, nat>, headers: seq<ProgramHeader>, k: nat)
    requires k <= |headers|
  {
    && (forall p :: p in pages <==> p in before || exists i :: 0 <= i < k && Covers(headers[i], p))
    && (forall p :: p in before ==> pages[p] == before[p])
  }

  /** The new pages are on frames out of `frames`, no two of them on the same. */
  ghost predicate OwnFrames(before: map<nat, nat>, pages: map<nat, nat>, frames: seq<nat>) {
    && (forall p :: p in pages && p !in before ==> pages[p] in frames)
    && (forall p, q :: p in pages && q in pages && p !in before && q !in before && p != q ==> pages[p] != pages[q])
  }

  ghost predicate MappedBelow(before: map<nat, nat>, pages: map<nat, nat>, bound: nat) {
    forall p :: p in pages && p !in before ==> pages[p] < bound
  }

  lemma PageCountIs(h: ProgramHeader)
    ensures PageCount(h) == (h.address + h.memSize) / 4096 - h.address / 4096 + 1
    ensures FirstPage(h) == h.address / 4096
  {
  }

  lemma PagesSkipped(before: map<nat, nat>, pages: map<nat, nat>, headers: seq<ProgramHeader>, k: nat)
    requires k < |headers| && !HasData(headers[k]) && MappedExactly(before, pages, headers, k)
    ensures MappedExactly(before, pages, headers, k + 1)
  {
  }

  lemma MappedKept(before: map<nat, nat>, pages: map<nat, nat>, headers: seq<ProgramHeader>, k: nat)
    requires k <= |headers| && MappedExactly(before, pages, headers, k)
    ensures forall p :: p in before ==> p in pages
  {
  }

  lemma MappedMore(before: map<nat, nat>, pages: map<nat, nat>, headers: seq<ProgramHeader>, k: nat, mine: seq<nat>)
    requires k < |headers| && HasData(headers[k]) && |mine| == PageCount(headers[k])
    requires MappedExactly(before, pages, headers, k)
    ensures MappedExactly(before, PagesAfter(pages, headers[k], mine), headers, k + 1)
  {
    hide PageCount, FirstPage, MapPages;
    var h := headers[k];
    PageCountIs(h);
    MapPagesMaps(pages, FirstPage(h), mine, PageCount(h));
    assert forall p: nat :: Covers(h, p) <==> FirstPage(h) <= p < FirstPage(h) + PageCount(h);
  }

  /** The pages of one segment more. */
  lemma PagesStep(before: map<nat, nat>, pages: map<nat, nat>, headers: seq<ProgramHeader>, k: nat, frames: seq<nat>,
                  used: nat, picks: seq<nat>, taken: nat, bound: nat)
    requires k < |headers| && HasData(headers[k]) && used + taken <= |frames|
    requires Picks(picks, taken) && |picks| == PageCount(headers[k]) && GoodFrames(frames[used..], bound)
    requires MappedExactly(before, pages, headers, k) && OwnFrames(before, pages, frames[..used])
    requires MappedBelow(before, pages, bound)
    ensures
      var mine := Picked(frames[used..], picks);
      var pages' := PagesAfter(pages, headers[k], mine);
      && MappedExactly(before, pages', headers, k + 1) && OwnFrames(before, pages', frames[..used + taken])
      && MappedBelow(before, pages', mine[|mine| - 1] + 4096)
  {
    hide PageCount, FirstPage, MapPages, MappedExactly, OwnFrames, MappedBelow, GoodFrames;
    var h, mine := headers[k], Picked(frames[used..], picks);
    PickedIsGood(frames[used..], picks, taken, bound);
    PickedIsAmong(frames, used, picks, taken);
    MappedMore(before, pages, headers, k, mine);
    MappedKept(before, pages, headers, k);
    assert frames[..used] <= frames[..used + taken];
    OwnMore(before, pages, FirstPage(h), mine, frames[..used], frames[..used + taken], bound);
  }

  lemma OwnMore(before: map<nat, nat>, pages: map<nat, nat>, first: nat, mine: seq<nat>, frames: seq<nat>,
                frames': seq<nat>, bound: nat)
    requires mine != [] && GoodFrames(mine, bound) && frames <= frames' && forall f :: f in mine ==> f in frames'
    requires OwnFrames(before, pages, frames) && MappedBelow(before, pages, bound)
    requires forall p :: p in before ==> p in pages
    ensures var pages' := MapPages(pages, first, mine, |mine|);
      OwnFrames(before, pages', frames') && MappedBelow(before, pages', mine[|mine| - 1] + 4096)
  {
    hide MapPages;
    var pages' := MapPages(pages, first, mine, |mine|);
    MapPagesMaps(pages, first, mine, |mine|);
    forall p | p in pages' && p !in pages
      ensures bound <= pages'[p] <= mine[|mine| - 1] && pages'[p] in mine
    {
      assert pages'[p] == mine[p - first];
    }
    forall p | p in pages && p !in before
      ensures pages'[p] == pages[p] < bound && pages'[p] in frames'
    {
    }
  }

  /** The segment is loaded, into frames below `bound`. */
  ghost predicate LoadedBelow(mem: seq<byte>, pages: map<nat, nat>, elf: seq<byte>, h: ProgramHeader, bound: nat) {
    && HasData(h) && h.fileSize <= h.memSize && SegmentLoaded(mem, pages, elf, h)
    && forall p :: HasDataPage(h, p) && p in pages ==> pages[p] + 4096 <= bound
  }

  ghost predicate AllLoaded(mem: seq<byte>, pages: map<nat, nat>, elf: seq<byte>, headers: seq<ProgramHeader>,
                            before: map<nat, nat>, given: seq<seq<nat>>, k: nat, bound: nat)
    requires k <= |headers|
  {
    forall i :: 0 <= i < k && Promised(headers, before, given, i) ==> LoadedBelow(mem, pages, elf, headers[i], bound)
  }

  lemma NothingLoaded(mem: seq<byte>, frames: seq<nat>, pages: map<nat, nat>, elf: seq<byte>,
                      headers: seq<ProgramHeader>, low: nat)
    requires GoodFrames(frames, low)
    ensures frames[0..] == frames && Underway(mem, mem, pages, pages, elf, headers, [], 0, frames, 0, low, low)
  {
  }

  /** What is promised does not depend on the segments behind. */
  lemma PromisedSame(headers: seq<ProgramHeader>, before: map<nat, nat>, given: seq<seq<nat>>, more: seq<nat>, i: nat)
    requires i < |given| && i < |headers|
    ensures Promised(headers, before, given + [more], i) <==> Promised(headers, before, given, i)
  {
  }

  lemma GrantedMore(headers: seq<ProgramHeader>, given: seq<seq<nat>>, mine: seq<nat>, k: nat, frames: seq<nat>,
                    frames': seq<nat>, low: nat)
    requires k < |headers| && Granted(headers, given, k, frames, low) && frames <= frames'
    requires HasData(headers[k]) ==>
      |mine| == PageCount(headers[k]) && GoodFrames(mine, low) && forall f :: f in mine ==> f in frames'
    ensures Granted(headers, given + [mine], k + 1, frames', low)
  {
    hide PageCount, GoodFrames, HasData;
  }

  lemma SegmentSkipped(mem: seq<byte>, before: map<nat, nat>, pages: map<nat, nat>, elf: seq<byte>,
                       headers: seq<ProgramHeader>, given: seq<seq<nat>>, k: nat, bound: nat, frames: seq<nat>,
                       low: nat)
    requires k < |headers| && !HasData(headers[k]) && PagesFrom(before, pages, headers, k)
    requires Granted(headers, given, k, frames, low) && AllLoaded(mem, pages, elf, headers, before, given, k, bound)
    ensures PagesFrom(before, pages, headers, k + 1) && Granted(headers, given + [[]], k + 1, frames, low)
    ensures AllLoaded(mem, pages, elf, headers, before, given + [[]], k + 1, bound)
  {
    hide LoadedBelow, Promised;
    GrantedMore(headers, given, [], k, frames, frames, low);
    forall i | 0 <= i < k + 1 && Promised(headers, before, given + [[]], i)
      ensures LoadedBelow(mem, pages, elf, headers[i], bound)
    {
      PromisedHasData(headers, before, given + [[]], i);
      PromisedSame(headers, before, given, [], i);
    }
  }

  lemma PromisedHasData(headers: seq<ProgramHeader>, before: map<nat, nat>, given: seq<seq<nat>>, i: nat)
    requires i < |headers| && Promised(headers, before, given, i)
    ensures HasData(headers[i])
  {
  }

  /** Nothing below the first frame is written. */
  lemma {:induction false} PiecesAbove(mem: seq<byte>, data: seq<byte>, offset: nat, frames: seq<nat>, n: nat, low: nat,
                                       at: nat)
    requires data != [] && n <= |frames| && GoodFrames(frames, low) && at < low
    ensures At(CopyPieces(mem, data, offset, frames, n), at) == At(mem, at)
  {
    hide Overwrite, Piece;
    if n > 0 {
      PiecesAbove(mem, data, offset, frames, n - 1, low, at);
      OverwriteFrame(CopyPieces(mem, data, offset, frames, n - 1), frames[n - 1] + offset, Piece(data, n - 1));
    }
  }

  /** What was loaded before stays: its frames lie below the new ones, its pages stay mapped. */
  lemma StillLoaded(mem: seq<byte>, mem': seq<byte>, pages: map<nat, nat>, pages': map<nat, nat>, elf: seq<byte>,
                    h: ProgramHeader, bound: nat, bound': nat)
    requires LoadedBelow(mem, pages, elf, h, bound) && bound <= bound'
    requires forall a: nat :: a < bound ==> At(mem', a) == At(mem, a)
    requires forall p :: p in pages ==> p in pages' && pages'[p] == pages[p]
    ensures LoadedBelow(mem', pages', elf, h, bound')
  {
    hide DataPages, FirstPage, PageCount;
    forall i: nat | i < h.fileSize
      ensures ByteLoaded(mem', pages', elf, h, i)
    {
      assert ByteLoaded(mem, pages, elf, h, i);
      DataByteOnDataPage(h, i);
    }
    forall p | HasDataPage(h, p) && p in pages'
      ensures pages'[p] + 4096 <= bound'
    {
      var i := DataPageHasByte(h, p);
      assert ByteLoaded(mem, pages, elf, h, i);
    }
  }

  lemma DataPageHasByte(h: ProgramHeader, p: nat) returns (i: nat)
    requires HasData(h) && HasDataPage(h, p)
    ensures i < h.fileSize && (h.address + i) / 4096 == p
  {
    i := if p == FirstPage(h) then 0 else p * 4096 - h.address;
  }

  /** The new segment, when it can be loaded. */
  lemma NewIsLoaded(mem: seq<byte>, before: map<nat, nat>, pages: map<nat, nat>, elf: seq<byte>,
                    headers: seq<ProgramHeader>, given: seq<seq<nat>>, k: nat, low: nat)
    requires k < |headers| && k < |given| && Promised(headers, before, given, k)
    requires PagesFrom(before, pages, headers, k) && Loadable(elf, headers[k], given[k], low)
    ensures LoadedBelow(MemoryAfter(mem, elf, headers[k], given[k]), PagesAfter(pages, headers[k], given[k]), elf,
                        headers[k], given[k][PageCount(headers[k]) - 1] + 4096)
  {
    hide MapPages, CopyPieces, PageCount, FirstPage, DataPages, Consecutive, MemoryAfter;
    var h, mine := headers[k], given[k];
    assert FreshPages(pages, h);
    SegmentIsLoaded(mem, pages, elf, h, mine, low);
    MapPagesMaps(pages, FirstPage(h), mine, PageCount(h));
    DataPagesBound(h);
  }

  /** One segment more. */
  lemma SegmentStep(mem: seq<byte>, before: map<nat, nat>, pages: map<nat, nat>, elf: seq<byte>,
                    headers: seq<ProgramHeader>, given: seq<seq<nat>>, k: nat, frames: seq<nat>, used: nat,
                    picks: seq<nat>, taken: nat, bound: nat, low: nat)
    requires k < |headers| && HasData(headers[k]) && PagesFrom(before, pages, headers, k)
    requires headers[k].offset + headers[k].fileSize <= |elf|
    requires used + taken <= |frames| && Picks(picks, taken) && |picks| == PageCount(headers[k])
    requires GoodFrames(frames, low) && GoodFrames(frames[used..], bound)
    requires Granted(headers, given, k, frames[..used], low)
    requires AllLoaded(mem, pages, elf, headers, before, given, k, bound)
    ensures
      var h, mine := headers[k], Picked(frames[used..], picks);
      var mem', pages', bound' := MemoryAfter(mem, elf, h, mine), PagesAfter(pages, h, mine), mine[|mine| - 1] + 4096;
      && GoodFrames(frames[used + taken..], bound') && PagesFrom(before, pages', headers, k + 1)
      && Granted(headers, given + [mine], k + 1, frames[..used + taken], low)
      && AllLoaded(mem', pages', elf, headers, before, given + [mine], k + 1, bound')
  {
    hide PageCount, FirstPage, CopyPieces, MapPages, LoadedBelow, Promised, Granted, HasData, Loadable;
    var h, mine := headers[k], Picked(frames[used..], picks);
    var mem', pages', bound' := MemoryAfter(mem, elf, h, mine), PagesAfter(pages, h, mine), mine[|mine| - 1] + 4096;
    GrantedLength(headers, given, k, frames[..used], low);
    PickedIsGood(frames[used..], picks, taken, bound);
    PickedIsGranted(frames, used, picks, taken, low);
    assert frames[used..][taken..] == frames[used + taken..];
    GrantedMore(headers, given, mine, k, frames[..used], frames[..used + taken], low);
    MapPagesMaps(pages, FirstPage(h), mine, PageCount(h));
    forall a: nat | a < bound
      ensures At(mem', a) == At(mem, a)
    {
      PiecesAbove(mem, DataOf(elf, h), h.address % 4096, mine, PageCount(h), bound, a);
    }
    forall i | 0 <= i < k + 1 && Promised(headers, before, given + [mine], i)
      ensures LoadedBelow(mem', pages', elf, headers[i], bound')
    {
      if i < k {
        PromisedSame(headers, before, given, mine, i);
        StillLoaded(mem, mem', pages, pages', elf, headers[i], bound, bound');
      } else {
        PromisedFits(headers, before, given + [mine], k, elf, mine, bound);
        NewIsLoaded(mem, before, pages, elf, headers, given + [mine], k, bound);
      }
    }
  }

  lemma GrantedLength(headers: seq<ProgramHeader>, given: seq<seq<nat>>, k: nat, frames: seq<nat>, low: nat)
    requires k <= |headers| && Granted(headers, given, k, frames, low)
    ensures |given| == k
  {
  }

  lemma PromisedFits(headers: seq<ProgramHeader>, before: map<nat, nat>, given: seq<seq<nat>>, k: nat, elf: seq<byte>,
                     mine: seq<nat>, low: nat)
    requires k < |headers| && Promised(headers, before, given, k)
    requires headers[k].offset + headers[k].fileSize <= |elf| && PageCount(headers[k]) <= |mine|
    requires GoodFrames(mine, low)
    ensures Loadable(elf, headers[k], mine, low)
  {
  }

  lemma PickedIsGranted(frames: seq<nat>, used: nat, picks: seq<nat>, taken: nat, low: nat)
    requires used + taken <= |frames| && Picks(picks, taken) && GoodFrames(frames, low)
    ensures var mine := Picked(frames[used..], picks);
      GoodFrames(mine, low) && forall f :: f in mine ==> f in frames[..used + taken]
  {
    var mine := Picked(frames[used..], picks);
    PickedIsAmong(frames, used, picks, taken);
    assert forall i :: 0 <= i < |mine| ==> mine[i] == frames[used + picks[i]];
  }

  lemma PickedIsAmong(frames: seq<nat>, used: nat, picks: seq<nat>, taken: nat)
    requires used + taken <= |frames| && Picks(picks, taken)
    ensures forall f :: f in Picked(frames[used..], picks) ==> f in frames[..used + taken]
  {
    var mine := Picked(frames[used..], picks);
    forall i | 0 <= i < |mine|
      ensures mine[i] in frames[..used + taken]
    {
      assert frames[..used + taken][used + picks[i]] == mine[i];
    }
  }

  /** Copies that stay in their frames keep to the frames taken so far. */
  lemma FramesStep(was: seq<byte>, mem: seq<byte>, elf: seq<byte>, headers: seq<ProgramHeader>, k: nat,
                   frames: seq<nat>, used: nat, picks: seq<nat>, taken: nat)
    requires k < |headers| && HasData(headers[k]) && headers[k].offset + headers[k].fileSize <= |elf|
    requires used + taken <= |frames| && Picks(picks, taken) && |picks| == PageCount(headers[k])
    ensures var h, mine := headers[k], Picked(frames[used..], picks);
      StaysInFrames(h) && OnlyFrames(was, mem, frames, used) ==>
        OnlyFrames(was, MemoryAfter(mem, elf, h, mine), frames, used + taken)
  {
    hide PageCount, CopyPieces, OnlyFrames, StaysInFrames;
    var h, mine := headers[k], Picked(frames[used..], picks);
    if StaysInFrames(h) && OnlyFrames(was, mem, frames, used) {
      var mem' := MemoryAfter(mem, elf, h, mine);
      StaysInFramesExactly(h);
      PiecesTouch(mem, DataOf(elf, h), h.address % 4096, mine, PageCount(h));
      PickedInFrames(frames[used..], picks, taken, mem, mem');
      OnlyFramesJoin(was, mem, mem', frames, used, taken);
    }
  }

  lemma OnlyFramesJoin(a: seq<byte>, b: seq<byte>, c: seq<byte>, frames: seq<nat>, used: nat, n: nat)
    requires used + n <= |frames| && OnlyFrames(a, b, frames, used) && OnlyFrames(b, c, frames[used..], n)
    ensures OnlyFrames(a, c, frames, used + n)
  {
    forall x: nat | At(c, x) != At(a, x)
      ensures InFrames(x, frames, used + n)
    {
      if At(b, x) != At(a, x) {
        assert InFrames(x, frames, used);
      } else {
        assert InFrames(x, frames[used..], n);
        var j :| 0 <= j < n && j < |frames[used..]| && frames[used..][j] <= x < frames[used..][j] + 4096;
        assert frames[used + j] == frames[used..][j];
      }
    }
  }
}
