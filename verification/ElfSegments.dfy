/** What the loader makes of one segment of an ELF image (kernel_api/common/src/process.rs:161-232, and the same loop at
    388-463). Physical memory is a sequence of bytes, a page table a map from page numbers to the starts of frames. */
module ElfSegments {
  import opened Bytes
  import opened Frames
  import opened Image

  datatype ProgramHeader = ProgramHeader(isLoad: bool, offset: nat, address: nat, fileSize: nat, memSize: nat)

  predicate HasData(h: ProgramHeader) {
    h.isLoad && h.fileSize > 0
  }

  /** First page of a segment, and the number of its pages: the page of the address behind it counts. */
  function FirstPage(h: ProgramHeader): nat {
    h.address / 4096
  }

  function PageCount(h: ProgramHeader): (n: nat)
    ensures n > 0
  {
    (h.address + h.memSize) / 4096 - h.address / 4096 + 1
  }

  /** Offset and length of what is copied to the j-th page: after the last piece of the file data that piece is
      copied again to every further page. */
  function PieceStart(fileSize: nat, j: nat): nat
    requires fileSize > 0
  {
    var last := (fileSize - 1) / 4096;
    (if j < last then j else last) * 4096
  }

  function PieceLength(fileSize: nat, j: nat): (n: nat)
    requires fileSize > 0
    ensures PieceStart(fileSize, j) + n <= fileSize && n <= 4096
  {
    var left := fileSize - PieceStart(fileSize, j);
    if left < 4096 then left else 4096
  }

  /** The loop's own way to get there: what is left shrinks by a page as long as it is more than one. */
  lemma PieceStep(fileSize: nat, j: nat)
    requires fileSize > 0
    ensures var left := fileSize - PieceStart(fileSize, j);
      PieceStart(fileSize, j + 1) == fileSize - (if left > 4096 then left - 4096 else left)
  {
  }

  /** Every copy stays inside the frame of its page. */
  predicate StaysInFrames(h: ProgramHeader) {
    h.address % 4096 == 0 || h.address % 4096 + h.fileSize <= 4096
  }

  /** That condition is exact. */
  lemma StaysInFramesExactly(h: ProgramHeader)
    requires h.fileSize > 0
    ensures StaysInFrames(h) <==>
      forall j: nat :: j < PageCount(h) ==> h.address % 4096 + PieceLength(h.fileSize, j) <= 4096
  {
    if !StaysInFrames(h) {
      assert h.address % 4096 + PieceLength(h.fileSize, 0) > 4096;
    } else {
      forall j: nat | j < PageCount(h)
        ensures h.address % 4096 + PieceLength(h.fileSize, j) <= 4096
      {
        if h.address % 4096 != 0 {
          assert PieceStart(h.fileSize, j) == 0;
        }
      }
    }
  }

  /** The j-th piece of the file data. */
  function Piece(data: seq<byte>, j: nat): (piece: seq<byte>)
    requires data != []
    ensures |piece| == PieceLength(|data|, j)
  {
    data[PieceStart(|data|, j)..PieceStart(|data|, j) + PieceLength(|data|, j)]
  }

  /** Memory after the pieces for the first `n` pages have been copied to `offset` in their frames. */
  function CopyPieces(mem: seq<byte>, data: seq<byte>, offset: nat, frames: seq<nat>, n: nat): seq<byte>
    requires data != [] && n <= |frames|
  {
    if n == 0 then mem
    else Overwrite(CopyPieces(mem, data, offset, frames, n - 1), frames[n - 1] + offset, Piece(data, n - 1))
  }

  /** Frames as the allocator hands them out: ascending from `low` on, on page boundaries. */
  ghost predicate GoodFrames(frames: seq<nat>, low: nat) {
    AscendingFrom(frames, low) && forall i :: 0 <= i < |frames| ==> frames[i] % 4096 == 0
  }

  /** Every page below `n` has its piece. */
  ghost predicate PiecesAt(mem: seq<byte>, data: seq<byte>, offset: nat, frames: seq<nat>, n: nat)
    requires data != [] && n <= |frames|
  {
    forall j :: 0 <= j < n ==> Holds(mem, frames[j] + offset, Piece(data, j))
  }

  /** Copies that stay in their frames do not disturb each other, and touch nothing below the first frame and
      nothing behind the last. */
  lemma {:induction false} PiecesHold(mem: seq<byte>, data: seq<byte>, offset: nat, frames: seq<nat>, n: nat, low: nat)
    requires data != [] && 0 < n <= |frames| && GoodFrames(frames, low)
    requires forall j: nat :: j < n ==> offset + PieceLength(|data|, j) <= 4096
    ensures var r := CopyPieces(mem, data, offset, frames, n);
      PiecesAt(r, data, offset, frames, n) && SameOutside(mem, r, low, frames[n - 1] + 4096)
  {
    hide CopyPieces, Overwrite, Piece, Holds, SameOutside, PieceStart, PieceLength;
    CopyPiecesStep(mem, data, offset, frames, n - 1);
    var r, before := CopyPieces(mem, data, offset, frames, n), CopyPieces(mem, data, offset, frames, n - 1);
    var to, piece := frames[n - 1] + offset, Piece(data, n - 1);
    OverwriteFrame(before, to, piece);
    if n == 1 {
      NoPieces(mem, data, offset, frames, low);
    } else {
      PiecesHold(mem, data, offset, frames, n - 1, low);
      forall j | 0 <= j < n - 1
        ensures Holds(r, frames[j] + offset, Piece(data, j))
      {
        assert frames[j] + 4096 <= frames[n - 1];
        HoldsKept(before, r, to, to + |piece|, frames[j] + offset, Piece(data, j));
      }
      assert frames[n - 2] + 4096 <= frames[n - 1];
      SameOutsideMore(mem, before, low, frames[n - 2] + 4096, frames[n - 1] + 4096);
    }
    SameOutsideTwice(mem, before, r, low, frames[n - 1] + 4096, to, to + |piece|);
  }

  lemma SameOutsideMore(a: seq<byte>, b: seq<byte>, lo: nat, hi: nat, hi': nat)
    requires SameOutside(a, b, lo, hi) && hi <= hi'
    ensures SameOutside(a, b, lo, hi')
  {
  }

  lemma NoPieces(mem: seq<byte>, data: seq<byte>, offset: nat, frames: seq<nat>, low: nat)
    requires data != []
    ensures CopyPieces(mem, data, offset, frames, 0) == mem
    ensures forall hi: nat {:trigger SameOutside(mem, mem, low, hi)} :: SameOutside(mem, mem, low, hi)
  {
  }

  lemma CopyPiecesStep(mem: seq<byte>, data: seq<byte>, offset: nat, frames: seq<nat>, n: nat)
    requires data != [] && n < |frames|
    ensures CopyPieces(mem, data, offset, frames, n + 1)
      == Overwrite(CopyPieces(mem, data, offset, frames, n), frames[n] + offset, Piece(data, n))
  {
    hide Overwrite, Piece;
  }

  /** On consecutive frames the copies may spill from each frame into the next: the data still comes out whole. */
  lemma {:induction false} ConsecutiveFramesHold(mem: seq<byte>, data: seq<byte>, offset: nat, frames: seq<nat>, n: nat)
    requires data != [] && 0 < n <= |frames|
    requires forall j :: 0 <= j < n ==> frames[j] == frames[0] + j * 4096
    ensures PieceStart(|data|, n - 1) + PieceLength(|data|, n - 1) <= |data|
    ensures Holds(CopyPieces(mem, data, offset, frames, n), frames[0] + offset,
                  data[..PieceStart(|data|, n - 1) + PieceLength(|data|, n - 1)])
  {
    hide CopyPieces, Overwrite, Holds, PieceStart, SameOutside;
    var r, before := CopyPieces(mem, data, offset, frames, n), CopyPieces(mem, data, offset, frames, n - 1);
    var base, to, start := frames[0] + offset, frames[n - 1] + offset, PieceStart(|data|, n - 1);
    var piece := Piece(data, n - 1);
    CopyPiecesStep(mem, data, offset, frames, n - 1);
    OverwriteFrame(before, to, piece);
    FirstPiece(|data|);
    if n == 1 {
      assert data[..|piece|] == piece;
    } else {
      ConsecutiveFramesHold(mem, data, offset, frames, n - 1);
      PieceNext(|data|, n - 2);
      var done := PieceStart(|data|, n - 2) + PieceLength(|data|, n - 2);
      if done < |data| {
        OverwriteAppends(before, base, data[..done], piece);
        assert data[..done] + piece == data[..start + |piece|];
      } else {
        HoldsKept(before, r, to, to + |piece|, base, data[..done]);
      }
    }
  }

  lemma FirstPiece(fileSize: nat)
    requires fileSize > 0
    ensures PieceStart(fileSize, 0) == 0
  {
  }

  /** A piece ends where the next one starts, until the data is used up. */
  lemma PieceNext(fileSize: nat, j: nat)
    requires fileSize > 0
    ensures var done := PieceStart(fileSize, j) + PieceLength(fileSize, j);
      if done < fileSize then PieceStart(fileSize, j + 1) == done == (j + 1) * 4096
      else PieceStart(fileSize, j + 1) + PieceLength(fileSize, j + 1) == fileSize <= (j + 1) * 4096
  {
  }

  /** Pages from `first` on mapped to the frames, where they were not mapped before. */
  function MapPages(pages: map<nat, nat>, first: nat, frames: seq<nat>, n: nat): (r: map<nat, nat>)
    requires n <= |frames|
  {
    if n == 0 then pages
    else
      var before := MapPages(pages, first, frames, n - 1);
      if first + n - 1 in before then before else before[first + n - 1 := frames[n - 1]]
  }

  /** A page that was mapped stays as it was, any other gets its frame. */
  lemma {:induction false} MapPagesMaps(pages: map<nat, nat>, first: nat, frames: seq<nat>, n: nat)
    requires n <= |frames|
    ensures var r := MapPages(pages, first, frames, n);
      && (forall p :: p in r <==> p in pages || first <= p < first + n)
      && (forall p :: p in pages ==> r[p] == pages[p])
      && (forall p :: first <= p < first + n && p !in pages ==> r[p] == frames[p - first])
  {
    if n > 0 {
      MapPagesMaps(pages, first, frames, n - 1);
    }
  }

  // ---------------------------------------------------------------- what loading achieves

  /** Through the page table, the byte `b` is found at the virtual address. */
  ghost predicate ByteMapped(mem: seq<byte>, pages: map<nat, nat>, address: nat, b: byte) {
    address / 4096 in pages && At(mem, pages[address / 4096] + address % 4096) == b
  }

  /** Byte `i` of the segment's file data is found at its virtual address. */
  ghost predicate ByteLoaded(mem: seq<byte>, pages: map<nat, nat>, elf: seq<byte>, h: ProgramHeader, i: nat) {
    h.offset + i < |elf| && ByteMapped(mem, pages, h.address + i, elf[h.offset + i])
  }

  ghost predicate SegmentLoaded(mem: seq<byte>, pages: map<nat, nat>, elf: seq<byte>, h: ProgramHeader) {
    forall i: nat :: i < h.fileSize ==> ByteLoaded(mem, pages, elf, h, i)
  }

  ghost predicate InFrames(a: nat, frames: seq<nat>, n: nat) {
    exists j :: 0 <= j < n && j < |frames| && frames[j] <= a < frames[j] + 4096
  }

  /** Only bytes in the first `n` frames may differ. */
  ghost predicate OnlyFrames(was: seq<byte>, now: seq<byte>, frames: seq<nat>, n: nat) {
    forall a: nat :: At(now, a) != At(was, a) ==> InFrames(a, frames, n)
  }

  ghost predicate HasPage(h: ProgramHeader, p: nat) {
    FirstPage(h) <= p < FirstPage(h) + PageCount(h)
  }

  /** Pieces that stay in their frames are written to these frames only. */
  lemma {:induction false} PiecesTouch(mem: seq<byte>, data: seq<byte>, offset: nat, frames: seq<nat>, n: nat)
    requires data != [] && n <= |frames|
    requires forall j: nat :: j < n ==> offset + PieceLength(|data|, j) <= 4096
    ensures OnlyFrames(mem, CopyPieces(mem, data, offset, frames, n), frames, n)
  {
    hide Overwrite, Piece;
    if n > 0 {
      PiecesTouch(mem, data, offset, frames, n - 1);
      var before, r := CopyPieces(mem, data, offset, frames, n - 1), CopyPieces(mem, data, offset, frames, n);
      var to, piece := frames[n - 1] + offset, Piece(data, n - 1);
      OverwriteFrame(before, to, piece);
      forall x: nat | At(r, x) != At(mem, x)
        ensures InFrames(x, frames, n)
      {
        if At(before, x) != At(mem, x) {
          assert InFrames(x, frames, n - 1);
        } else {
          assert to <= x < to + |piece|;
          assert frames[n - 1] <= x < frames[n - 1] + 4096;
        }
      }
    }
  }

  /** Where a byte of the segment is looked for: page and offset of its address. */
  lemma AddressParts(h: ProgramHeader, i: nat)
    requires i < h.fileSize <= h.memSize
    ensures var at := h.address % 4096 + i;
      && (h.address + i) / 4096 == FirstPage(h) + at / 4096 && (h.address + i) % 4096 == at % 4096
      && at / 4096 < PageCount(h)
  {
  }

  /** Byte `i` of the data is in the piece of the page of its address. */
  lemma PieceByte(data: seq<byte>, offset: nat, i: nat)
    requires i < |data| && (offset == 0 || offset + |data| <= 4096)
    ensures var j, k := (offset + i) / 4096, (offset + i) % 4096 - offset;
      0 <= k < PieceLength(|data|, j) && Piece(data, j)[k] == data[i]
  {
    var j := (offset + i) / 4096;
    assert PieceStart(|data|, j) == j * 4096;
  }

  /** Pages that hold file data: the first ones of the segment. */
  function DataPages(h: ProgramHeader): (n: nat)
    requires HasData(h)
    ensures n > 0
  {
    (h.address % 4096 + h.fileSize - 1) / 4096 + 1
  }

  ghost predicate HasDataPage(h: ProgramHeader, p: nat)
    requires HasData(h)
  {
    FirstPage(h) <= p < FirstPage(h) + DataPages(h)
  }

  /** The first `n` frames follow each other in memory. */
  ghost predicate Consecutive(frames: seq<nat>, n: nat)
    requires n <= |frames|
  {
    forall j :: 0 < j < n ==> frames[j] == frames[j - 1] + 4096
  }

  lemma {:induction false} ConsecutiveFrom(frames: seq<nat>, n: nat, j: nat)
    requires n <= |frames| && Consecutive(frames, n) && j < n
    ensures frames[j] == frames[0] + j * 4096
  {
    if j > 0 {
      ConsecutiveFrom(frames, n, j - 1);
    }
  }

  lemma DataPagesBound(h: ProgramHeader)
    requires HasData(h) && h.fileSize <= h.memSize
    ensures DataPages(h) <= PageCount(h)
    ensures var n := DataPages(h); PieceStart(h.fileSize, n - 1) + PieceLength(h.fileSize, n - 1) == h.fileSize
    ensures h.address % 4096 + h.fileSize <= DataPages(h) * 4096
  {
  }

  lemma DataPageOf(h: ProgramHeader, i: nat)
    requires HasData(h) && i < h.fileSize
    ensures (h.address % 4096 + i) / 4096 < DataPages(h)
    ensures h.address % 4096 + i < DataPages(h) * 4096
  {
  }

  /** Copies to frames behind the data do not reach it. */
  lemma {:induction false} LaterPiecesMiss(mem: seq<byte>, data: seq<byte>, offset: nat, frames: seq<nat>, m: nat,
                                           n: nat, low: nat, at: nat)
    requires data != [] && 0 < m <= n <= |frames| && GoodFrames(frames, low) && at < frames[m - 1] + 4096
    ensures At(CopyPieces(mem, data, offset, frames, n), at) == At(CopyPieces(mem, data, offset, frames, m), at)
    decreases n
  {
    hide CopyPieces, Overwrite, Piece;
    if m < n {
      CopyPiecesStep(mem, data, offset, frames, n - 1);
      OverwriteFrame(CopyPieces(mem, data, offset, frames, n - 1), frames[n - 1] + offset, Piece(data, n - 1));
      assert frames[m - 1] + 4096 <= frames[n - 1];
      LaterPiecesMiss(mem, data, offset, frames, m, n - 1, low, at);
    }
  }

  /** The segment is not shorter in memory than in the file, which holds it; and there are frames for its pages. */
  ghost predicate Loadable(elf: seq<byte>, h: ProgramHeader, frames: seq<nat>, low: nat) {
    && HasData(h) && h.fileSize <= h.memSize && h.offset + h.fileSize <= |elf|
    && PageCount(h) <= |frames| && GoodFrames(frames, low)
  }

  function DataOf(elf: seq<byte>, h: ProgramHeader): (data: seq<byte>)
    requires HasData(h) && h.offset + h.fileSize <= |elf|
    ensures |data| == h.fileSize && data != []
  {
    elf[h.offset..h.offset + h.fileSize]
  }

  /** Memory and page table after the segment was loaded. */
  function MemoryAfter(mem: seq<byte>, elf: seq<byte>, h: ProgramHeader, frames: seq<nat>): seq<byte>
    requires HasData(h) && h.offset + h.fileSize <= |elf| && PageCount(h) <= |frames|
  {
    CopyPieces(mem, DataOf(elf, h), h.address % 4096, frames, PageCount(h))
  }

  function PagesAfter(pages: map<nat, nat>, h: ProgramHeader, frames: seq<nat>): map<nat, nat>
    requires PageCount(h) <= |frames|
  {
    MapPages(pages, FirstPage(h), frames, PageCount(h))
  }

  /** The segment is loaded when memory was `mem` before. */
  ghost predicate LoadedFrom(mem: seq<byte>, pages: map<nat, nat>, elf: seq<byte>, h: ProgramHeader, frames: seq<nat>)
    requires HasData(h) && h.offset + h.fileSize <= |elf| && PageCount(h) <= |frames|
  {
    SegmentLoaded(MemoryAfter(mem, elf, h, frames), PagesAfter(pages, h, frames), elf, h)
  }

  /** None of the pages with file data is mapped yet. */
  ghost predicate FreshPages(pages: map<nat, nat>, h: ProgramHeader)
    requires HasData(h)
  {
    forall p :: HasDataPage(h, p) ==> p !in pages
  }

  /** Byte `i` is where its page is looked up: in the frame of the page's number, if the page was not mapped before. */
  lemma OwnByte(mem: seq<byte>, pages: map<nat, nat>, elf: seq<byte>, h: ProgramHeader, frames: seq<nat>, low: nat,
                i: nat)
    requires Loadable(elf, h, frames, low) && i < h.fileSize && (h.address + i) / 4096 !in pages
    ensures var at := h.address % 4096 + i;
      && at / 4096 < DataPages(h) <= PageCount(h) && HasDataPage(h, (h.address + i) / 4096)
      && (ByteLoaded(MemoryAfter(mem, elf, h, frames), PagesAfter(pages, h, frames), elf, h, i) <==>
          At(MemoryAfter(mem, elf, h, frames), frames[at / 4096] + at % 4096) == DataOf(elf, h)[i])
  {
    hide MapPages, PageCount, FirstPage, MemoryAfter, GoodFrames, DataPages;
    AddressParts(h, i);
    DataPagesBound(h);
    DataPageOf(h, i);
    MapPagesMaps(pages, FirstPage(h), frames, PageCount(h));
  }

  /** A byte is there when the copies stay in their frames and its page was not mapped before. */
  lemma StayingByte(mem: seq<byte>, pages: map<nat, nat>, elf: seq<byte>, h: ProgramHeader, frames: seq<nat>, low: nat,
                    i: nat)
    requires Loadable(elf, h, frames, low) && i < h.fileSize && (h.address + i) / 4096 !in pages && StaysInFrames(h)
    ensures ByteLoaded(MemoryAfter(mem, elf, h, frames), PagesAfter(pages, h, frames), elf, h, i)
  {
    hide MapPages, PageCount, FirstPage, CopyPieces, Piece, PieceStart, PieceLength, GoodFrames, DataPages, SameOutside,
         HasDataPage, ByteLoaded;
    var data, offset := DataOf(elf, h), h.address % 4096;
    StaysInFramesExactly(h);
    PiecesHold(mem, data, offset, frames, PageCount(h), low);
    OwnByte(mem, pages, elf, h, frames, low, i);
    var j := (offset + i) / 4096;
    var at := frames[j] + (offset + i) % 4096;
    PieceByte(data, offset, i);
    assert Holds(MemoryAfter(mem, elf, h, frames), frames[j] + offset, Piece(data, j));
    assert At(MemoryAfter(mem, elf, h, frames), at) == Piece(data, j)[at - (frames[j] + offset)];
  }

  /** On consecutive frames a byte is there whatever the alignment. */
  lemma ConsecutiveByte(mem: seq<byte>, pages: map<nat, nat>, elf: seq<byte>, h: ProgramHeader, frames: seq<nat>,
                        low: nat, i: nat)
    requires Loadable(elf, h, frames, low) && i < h.fileSize && (h.address + i) / 4096 !in pages
    requires DataPages(h) <= |frames| && Consecutive(frames, DataPages(h))
    ensures ByteLoaded(MemoryAfter(mem, elf, h, frames), PagesAfter(pages, h, frames), elf, h, i)
  {
    hide MapPages, PageCount, FirstPage, CopyPieces, PieceStart, PieceLength, DataPages, GoodFrames, HasDataPage,
         ByteLoaded, Consecutive;
    var data, n, m, offset := DataOf(elf, h), PageCount(h), DataPages(h), h.address % 4096;
    DataPagesBound(h);
    OwnByte(mem, pages, elf, h, frames, low, i);
    DataPageOf(h, i);
    forall j | 0 <= j < m
      ensures frames[j] == frames[0] + j * 4096
    {
      ConsecutiveFrom(frames, m, j);
    }
    ConsecutiveFramesHold(mem, data, offset, frames, m);
    assert data[..|data|] == data;
    var at := frames[0] + offset + i;
    assert at == frames[(offset + i) / 4096] + (offset + i) % 4096;
    assert At(CopyPieces(mem, data, offset, frames, m), at) == data[at - (frames[0] + offset)];
    LaterPiecesMiss(mem, data, offset, frames, m, n, low, at);
  }

  /** With all pages of the data free, the segment is loaded if it starts on a page boundary or the frames that get its
      data follow each other. */
  lemma SegmentIsLoaded(mem: seq<byte>, pages: map<nat, nat>, elf: seq<byte>, h: ProgramHeader, frames: seq<nat>,
                        low: nat)
    requires Loadable(elf, h, frames, low) && FreshPages(pages, h)
    requires h.address % 4096 == 0 || (DataPages(h) <= |frames| && Consecutive(frames, DataPages(h)))
    ensures LoadedFrom(mem, pages, elf, h, frames)
  {
    hide MemoryAfter, PagesAfter, PageCount, DataPages, GoodFrames, ByteLoaded, Consecutive, FirstPage;
    forall i: nat | i < h.fileSize
      ensures ByteLoaded(MemoryAfter(mem, elf, h, frames), PagesAfter(pages, h, frames), elf, h, i)
    {
      DataByteOnDataPage(h, i);
      if h.address % 4096 == 0 {
        StayingByte(mem, pages, elf, h, frames, low, i);
      } else {
        ConsecutiveByte(mem, pages, elf, h, frames, low, i);
      }
    }
  }

  lemma DataByteOnDataPage(h: ProgramHeader, i: nat)
    requires HasData(h) && i < h.fileSize <= h.memSize
    ensures HasDataPage(h, (h.address + i) / 4096)
  {
    hide PageCount, FirstPage, DataPages;
    AddressParts(h, i);
    DataPageOf(h, i);
  }

  /** Behind a gap between two frames the first byte is never written, if the copies do not start on page boundaries. */
  lemma {:induction false} GapUntouched(mem: seq<byte>, data: seq<byte>, offset: nat, frames: seq<nat>, n: nat,
                                        j: nat, low: nat)
    requires data != [] && 0 < j < |frames| && n <= |frames| && GoodFrames(frames, low)
    requires 0 < offset < 4096 && frames[j] != frames[j - 1] + 4096
    ensures At(CopyPieces(mem, data, offset, frames, n), frames[j]) == At(mem, frames[j])
    decreases n
  {
    hide CopyPieces, Overwrite, Piece, PieceLength;
    if n == 0 {
      NoPieces(mem, data, offset, frames, low);
    } else {
      var k := n - 1;
      CopyPiecesStep(mem, data, offset, frames, k);
      OverwriteFrame(CopyPieces(mem, data, offset, frames, k), frames[k] + offset, Piece(data, k));
      GapUntouched(mem, data, offset, frames, k, j, low);
      assert k < j ==> frames[k] <= frames[j - 1] <= frames[j] - 8192;
    }
  }

  lemma GapBreaksSegment(mem: seq<byte>, pages: map<nat, nat>, elf: seq<byte>, h: ProgramHeader, frames: seq<nat>,
                         low: nat, j: nat)
    requires Loadable(elf, h, frames, low) && FreshPages(pages, h)
    requires h.address % 4096 != 0 && 0 < j < DataPages(h) && j < |frames| && frames[j] != frames[j - 1] + 4096
    requires j * 4096 - h.address % 4096 + h.offset < |elf|
    requires At(mem, frames[j]) != elf[h.offset + j * 4096 - h.address % 4096]
    ensures !LoadedFrom(mem, pages, elf, h, frames)
  {
    hide MapPages, FirstPage, CopyPieces, ByteLoaded, PageCount, GoodFrames;
    var i: nat := j * 4096 - h.address % 4096;
    SpillIsInside(h, j);
    DataByteOnDataPage(h, i);
    OwnByte(mem, pages, elf, h, frames, low, i);
    GapUntouched(mem, DataOf(elf, h), h.address % 4096, frames, PageCount(h), j, low);
    assert !ByteLoaded(MemoryAfter(mem, elf, h, frames), PagesAfter(pages, h, frames), elf, h, i);
  }

  /** A segment whose pages are free is loaded, whatever was in memory before, exactly when it starts on a page boundary
      or the frames that get its data follow each other. */
  lemma LoadedExactlyWhen(pages: map<nat, nat>, elf: seq<byte>, h: ProgramHeader, frames: seq<nat>, low: nat)
    requires Loadable(elf, h, frames, low) && FreshPages(pages, h)
    ensures DataPages(h) <= |frames|
    ensures (forall mem: seq<byte> :: LoadedFrom(mem, pages, elf, h, frames)) <==>
      h.address % 4096 == 0 || Consecutive(frames, DataPages(h))
  {
    hide LoadedFrom, PageCount, DataPages, GoodFrames, FreshPages;
    DataPagesBound(h);
    if h.address % 4096 == 0 || Consecutive(frames, DataPages(h)) {
      forall mem: seq<byte>
        ensures LoadedFrom(mem, pages, elf, h, frames)
      {
        SegmentIsLoaded(mem, pages, elf, h, frames, low);
      }
    } else {
      var j :| 0 < j < DataPages(h) && frames[j] != frames[j - 1] + 4096;
      SpillIsInside(h, j);
      var b := elf[h.offset + j * 4096 - h.address % 4096];
      var mem := Overwrite([], frames[j], [if b == 0 then 1 else 0]);
      GapBreaksSegment(mem, pages, elf, h, frames, low, j);
    }
  }

  lemma SpillIsInside(h: ProgramHeader, j: nat)
    requires HasData(h) && 0 < j < DataPages(h)
    ensures 0 <= j * 4096 - h.address % 4096 < h.fileSize
  {
  }

  // ---------------------------------------------------------------- the memory behind the data

  /** In the frame of the j-th page only the j-th copy is seen. */
  lemma {:induction false} OwnCopy(mem: seq<byte>, data: seq<byte>, frames: seq<nat>, n: nat, low: nat, j: nat, i: nat)
    requires data != [] && j < n <= |frames| && GoodFrames(frames, low) && i < 4096
    ensures At(CopyPieces(mem, data, 0, frames, n), frames[j] + i)
      == if i < PieceLength(|data|, j) then Piece(data, j)[i] else At(mem, frames[j] + i)
    decreases n
  {
    hide CopyPieces, Overwrite, Piece, PieceLength, PieceStart;
    var at, k := frames[j] + i, n - 1;
    CopyPiecesStep(mem, data, 0, frames, k);
    OverwriteFrame(CopyPieces(mem, data, 0, frames, k), frames[k] + 0, Piece(data, k));
    if j < k {
      OwnCopy(mem, data, frames, k, low, j, i);
      assert frames[j] + 4096 <= frames[k];
    } else {
      EarlierCopiesMiss(mem, data, frames, k, low, j, at);
      assert i < |Piece(data, k)| ==>
          At(CopyPieces(mem, data, 0, frames, n), at) == Piece(data, k)[at - (frames[k] + 0)];
    }
  }

  lemma {:induction false} EarlierCopiesMiss(mem: seq<byte>, data: seq<byte>, frames: seq<nat>, n: nat, low: nat,
                                             j: nat, at: nat)
    requires data != [] && n <= j < |frames| && GoodFrames(frames, low) && frames[j] <= at
    ensures At(CopyPieces(mem, data, 0, frames, n), at) == At(mem, at)
    decreases n
  {
    hide CopyPieces, Overwrite, Piece, PieceLength, PieceStart;
    if n == 0 {
      NoPieces(mem, data, 0, frames, low);
    } else {
      CopyPiecesStep(mem, data, 0, frames, n - 1);
      OverwriteFrame(CopyPieces(mem, data, 0, frames, n - 1), frames[n - 1] + 0, Piece(data, n - 1));
      EarlierCopiesMiss(mem, data, frames, n - 1, low, j, at);
      assert frames[n - 1] + 4096 <= frames[j];
    }
  }

  /** The loader does not clear memory. From the last page with data on, every page of an aligned segment has the last
      piece of the data at its start, and behind it what memory held before. */
  lemma MemoryBehindData(mem: seq<byte>, elf: seq<byte>, h: ProgramHeader, frames: seq<nat>, low: nat, j: nat, i: nat)
    requires Loadable(elf, h, frames, low) && h.address % 4096 == 0
    requires (h.fileSize - 1) / 4096 <= j <= (h.address + h.memSize) / 4096 - h.address / 4096 && i < 4096
    ensures j < |frames|
    ensures var last := (h.fileSize - 1) / 4096 * 4096;
      At(MemoryAfter(mem, elf, h, frames), frames[j] + i)
      == if last + i < h.fileSize then elf[h.offset + last + i] else At(mem, frames[j] + i)
  {
    hide CopyPieces, Piece, GoodFrames;
    OwnCopy(mem, DataOf(elf, h), frames, PageCount(h), low, j, i);
    LastPiece(DataOf(elf, h), j);
  }

  lemma LastPiece(data: seq<byte>, j: nat)
    requires data != [] && (|data| - 1) / 4096 <= j
    ensures var last: nat := (|data| - 1) / 4096 * 4096; Piece(data, j) == data[last..]
  {
  }

  // ---------------------------------------------------------------- segments that share a page

  /** No page of the segment that is mapped already is on one of the new frames. */
  ghost predicate Apart(pages: map<nat, nat>, h: ProgramHeader, frames: seq<nat>) {
    forall p, a: nat :: HasPage(h, p) && p in pages && pages[p] <= a < pages[p] + 4096 ==>
      !InFrames(a, frames, PageCount(h))
  }

  /** The error for a page that is mapped already is ignored, and the copy goes to a frame that nobody sees. So the
      segment is loaded exactly when every byte of it on such a page was there before. */
  lemma SharedPagesExactly(mem: seq<byte>, pages: map<nat, nat>, elf: seq<byte>, h: ProgramHeader, frames: seq<nat>,
                           low: nat)
    requires Loadable(elf, h, frames, low) && StaysInFrames(h) && Apart(pages, h, frames)
    ensures LoadedFrom(mem, pages, elf, h, frames) <==>
      forall i: nat :: i < h.fileSize && (h.address + i) / 4096 in pages ==> ByteLoaded(mem, pages, elf, h, i)
  {
    hide MemoryAfter, PagesAfter, PageCount, GoodFrames, ByteLoaded, StaysInFrames, Apart;
    forall i: nat | i < h.fileSize
      ensures ByteLoaded(MemoryAfter(mem, elf, h, frames), PagesAfter(pages, h, frames), elf, h, i) <==>
        ((h.address + i) / 4096 in pages ==> ByteLoaded(mem, pages, elf, h, i))
    {
      if (h.address + i) / 4096 in pages {
        SharedByte(mem, pages, elf, h, frames, low, i);
      } else {
        StayingByte(mem, pages, elf, h, frames, low, i);
      }
    }
  }

  lemma SharedByte(mem: seq<byte>, pages: map<nat, nat>, elf: seq<byte>, h: ProgramHeader, frames: seq<nat>, low: nat,
                   i: nat)
    requires Loadable(elf, h, frames, low) && StaysInFrames(h) && Apart(pages, h, frames)
    requires i < h.fileSize && (h.address + i) / 4096 in pages
    ensures ByteLoaded(MemoryAfter(mem, elf, h, frames), PagesAfter(pages, h, frames), elf, h, i)
      <==> ByteLoaded(mem, pages, elf, h, i)
  {
    hide MapPages, CopyPieces, PageCount, FirstPage, GoodFrames, InFrames;
    var p, now := (h.address + i) / 4096, MemoryAfter(mem, elf, h, frames);
    var a := pages[p] + (h.address + i) % 4096;
    AddressParts(h, i);
    StaysInFramesExactly(h);
    PiecesTouch(mem, DataOf(elf, h), h.address % 4096, frames, PageCount(h));
    MapPagesMaps(pages, FirstPage(h), frames, PageCount(h));
    assert HasPage(h, p) && !InFrames(a, frames, PageCount(h));
    assert At(now, a) == At(mem, a);
  }

  /** Two whole pages, the second segment right behind the first. The page behind a segment counts as the segment's, and
      gets the last piece of its data once more: the second segment is loaded exactly when it has the same content. */
  lemma AdjacentSegments(mem: seq<byte>, pages: map<nat, nat>, elf: seq<byte>, page: nat, first: nat, second: nat,
                         frames: seq<nat>, more: seq<nat>, low: nat)
    requires first + 4096 <= |elf| && second + 4096 <= |elf|
    requires |frames| == |more| == 2 && GoodFrames(frames + more, low)
    requires page !in pages && page + 1 !in pages && page + 2 !in pages
    ensures
      var a := ProgramHeader(true, first, page * 4096, 4096, 4096);
      var b := ProgramHeader(true, second, page * 4096 + 4096, 4096, 4096);
      && PageCount(a) == PageCount(b) == 2
      && (LoadedFrom(MemoryAfter(mem, elf, a, frames), PagesAfter(pages, a, frames), elf, b, more)
          <==> elf[first..first + 4096] == elf[second..second + 4096])
  {
    hide MapPages, CopyPieces, LoadedFrom, Apart, Piece, ByteLoaded, SameOutside;
    var a := ProgramHeader(true, first, page * 4096, 4096, 4096);
    var b := ProgramHeader(true, second, page * 4096 + 4096, 4096, 4096);
    AdjacentPages(a, b, page);
    GoodHalves(frames, more, low);
    var now, data := MemoryAfter(mem, elf, a, frames), DataOf(elf, a);
    MapPagesMaps(pages, page, frames, 2);
    StaysInFramesExactly(a);
    PiecesHold(mem, data, 0, frames, 2, low);
    assert Holds(now, frames[1] + 0, Piece(data, 1));
    WholePiece(data);
    AdjacentApart(PagesAfter(pages, a, frames), b, frames, more);
    SharedPagesExactly(now, PagesAfter(pages, a, frames), elf, b, more, low);
    SameContent(now, PagesAfter(pages, a, frames), elf, b, frames[1], first);
  }

  lemma AdjacentPages(a: ProgramHeader, b: ProgramHeader, page: nat)
    requires a.address == page * 4096 && b.address == page * 4096 + 4096 && a.memSize == b.memSize == 4096
    ensures PageCount(a) == PageCount(b) == 2 && FirstPage(a) == page && FirstPage(b) == page + 1
    ensures a.address % 4096 == 0 && b.address % 4096 == 0
  {
  }

  lemma WholePiece(data: seq<byte>)
    requires |data| == 4096
    ensures Piece(data, 1) == data
  {
  }

  lemma GoodHalves(frames: seq<nat>, more: seq<nat>, low: nat)
    requires GoodFrames(frames + more, low) && |frames| == |more| == 2
    ensures GoodFrames(frames, low) && GoodFrames(more, low) && frames[1] + 4096 <= more[0] && more[0] + 4096 <= more[1]
  {
    var all := frames + more;
    assert all[0] == frames[0] && all[1] == frames[1] && all[2] == more[0] && all[3] == more[1];
  }

  lemma AdjacentApart(pages: map<nat, nat>, b: ProgramHeader, frames: seq<nat>, more: seq<nat>)
    requires PageCount(b) == 2 && |frames| == |more| == 2 && frames[1] + 4096 <= more[0] <= more[1]
    requires FirstPage(b) in pages && pages[FirstPage(b)] == frames[1] && FirstPage(b) + 1 !in pages
    ensures Apart(pages, b, more)
  {
    hide FirstPage, PageCount;
  }

  lemma SameContent(mem: seq<byte>, pages: map<nat, nat>, elf: seq<byte>, b: ProgramHeader, frame: nat, first: nat)
    requires b.fileSize == 4096 && b.address % 4096 == 0 && first + 4096 <= |elf| && b.offset + 4096 <= |elf|
    requires b.address / 4096 in pages && pages[b.address / 4096] == frame
    requires Holds(mem, frame, elf[first..first + 4096])
    ensures (forall i: nat :: i < b.fileSize && (b.address + i) / 4096 in pages ==> ByteLoaded(mem, pages, elf, b, i))
      <==> elf[first..first + 4096] == elf[b.offset..b.offset + 4096]
  {
    var x, y := elf[first..first + 4096], elf[b.offset..b.offset + 4096];
    forall i: nat | i < 4096
      ensures (b.address + i) / 4096 == b.address / 4096 && (ByteLoaded(mem, pages, elf, b, i) <==> x[i] == y[i])
    {
      var at := frame + i;
      assert At(mem, at) == x[at - frame];
    }
    if forall i: nat :: i < b.fileSize && (b.address + i) / 4096 in pages ==> ByteLoaded(mem, pages, elf, b, i) {
      forall i | 0 <= i < 4096
        ensures x[i] == y[i]
      {
        assert ByteLoaded(mem, pages, elf, b, i);
      }
    }
  }
}
