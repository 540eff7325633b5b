/** Writing the file contents (directory_entry.rs:416-428, file_entry.rs:172-198): children first, then the
    directory's own files, each at the blocks reserved for it in the opposite order. */
module Files {
  import opened Bytes
  import opened Image
  import opened Packing
  import opened DirectoryTree
  import opened Layout

  /** The content fits the blocks reserved for the recorded size. */
  predicate FileFits(f: File) {
    |f.data| <= FileBlocks(f) * 2048
  }

  ghost predicate FilesFit(fs: seq<File>)
    decreases |fs|
  {
    fs == [] || (FileFits(fs[0]) && FilesFit(fs[1..]))
  }

  ghost predicate ForestFilesFit(ds: seq<Dir>)
    decreases ds
  {
    ds == [] || (FilesFit(ds[0].files) && ForestFilesFit(ds[0].dirs) && ForestFilesFit(ds[1..]))
  }

  /** A content of the recorded size fits exactly when the 32-bit sum does not wrap, and then with at least one
      byte to spare. */
  lemma ReservationHoldsContent(f: File)
    requires |f.data| == f.size
    ensures FileFits(f) <==> f.size < 0x1_0000_0000 - 2048
    ensures FileFits(f) ==> f.size < FileBlocks(f) * 2048 <= f.size + 2048
  {
    if f.size < 0x1_0000_0000 {
      assert f.size >= 0x1_0000_0000 - 2048 ==> U32(f.size + 2048) == f.size + 2048 - 0x1_0000_0000;
    }
  }

  /** The smallest file that does not fit: no block at all is reserved for it. */
  lemma HugeFileFails(name: Name)
    ensures var f := File(name, 0xFFFF_F800, 0, Zeros(0xFFFF_F800)); FileBlocks(f) == 0 && !FileFits(f)
  {
    var f := File(name, 0xFFFF_F800, 0, Zeros(0xFFFF_F800));
    ReservationHoldsContent(f);
  }

  /** The reserved blocks of a file: its content, then zeros. */
  function FileBytes(f: File): (bytes: seq<byte>)
    requires FileFits(f)
    ensures |bytes| == FileBlocks(f) * 2048
  {
    f.data + Zeros(FileBlocks(f) * 2048 - |f.data|)
  }

  function FilesBytes(fs: seq<File>): (bytes: seq<byte>)
    requires FilesFit(fs)
    ensures |bytes| == FilesBlocks(fs) * 2048
    decreases |fs|
  {
    if fs == [] then [] else FileBytes(fs[0]) + FilesBytes(fs[1..])
  }

  /** The files of a forest in the order in which their blocks were reserved. */
  function ForestFileBytes(ds: seq<Dir>): (bytes: seq<byte>)
    requires ForestFilesFit(ds)
    ensures |bytes| == ForestFileBlocks(ds) * 2048
    decreases ds
  {
    if ds == [] then []
    else FilesBytes(ds[0].files) + ForestFileBytes(ds[0].dirs) + ForestFileBytes(ds[1..])
  }

  // ---------------------------------------------------------------- how far the contents reach

  function Max(a: nat, b: nat): nat {
    if a >= b then a else b
  }

  /** End of the last byte of any non-empty file. */
  function FilesReach(fs: seq<File>): nat
    decreases |fs|
  {
    if fs == [] then 0
    else Max(if fs[0].data == [] then 0 else fs[0].lba * 2048 + |fs[0].data|, FilesReach(fs[1..]))
  }

  function ForestReach(ds: seq<Dir>): nat
    decreases ds
  {
    if ds == [] then 0 else Max(FilesReach(ds[0].files), Max(ForestReach(ds[0].dirs), ForestReach(ds[1..])))
  }

  // ---------------------------------------------------------------- writing

  /** `write_content`. */
  method WriteContent(w: Writer, f: File)
    requires w.Valid() && FileFits(f) && (f.lba + FileBlocks(f)) * 2048 < 0x1_0000_0000
    requires Blank(w.data, f.lba * 2048, (f.lba + FileBlocks(f)) * 2048)
    modifies w
    ensures w.Valid() && w.pos == old(w.pos)
    ensures SameOutside(old(w.data), w.data, f.lba * 2048, (f.lba + FileBlocks(f)) * 2048)
    ensures Holds(w.data, f.lba * 2048, FileBytes(f))
    ensures |w.data| >= |old(w.data)| && (f.data == [] || |w.data| >= f.lba * 2048 + |f.data|)
    ensures WholeSectors(old(w.data)) ==> WholeSectors(w.data)
  {
    hide Overwrite, FileBlocks, Holds, Blank, SameOutside, Padding, FileBytes;
    var oldPos := w.pos;
    w.SeekTo(U32(f.lba * 2048));
    w.WriteAll(f.data);
    assert w.run == f.data;
    PadSector(w);
    w.SeekTo(oldPos);
    ContentWritten(old(w.data), f);
  }

  lemma ContentWritten(data: seq<byte>, f: File)
    requires FileFits(f) && Blank(data, f.lba * 2048, (f.lba + FileBlocks(f)) * 2048)
    ensures
      var start := f.lba * 2048;
      var data' := Overwrite(Overwrite(data, start, f.data), start + |f.data|, Padding(start + |f.data|));
      && SameOutside(data, data', start, (f.lba + FileBlocks(f)) * 2048) && Holds(data', start, FileBytes(f))
      && |data'| >= |data| && (f.data == [] || |data'| >= start + |f.data|)
      && (WholeSectors(data) ==> WholeSectors(data'))
  {
    hide Overwrite, FileBlocks;
    var pos := f.lba * 2048 + |f.data|;
    assert AlignUp(pos) <= (f.lba + FileBlocks(f)) * 2048;
  }

  lemma FilesStep(fs: seq<File>, k: nat, lba: nat)
    requires k < |fs| && FilesLaid(fs[k..], lba) && FilesFit(fs[k..])
    ensures fs[k].lba == lba && FilesLaid(fs[k + 1..], lba + FileBlocks(fs[k]))
    ensures FileFits(fs[k]) && FilesFit(fs[k + 1..])
    ensures FilesBlocks(fs[k..]) == FileBlocks(fs[k]) + FilesBlocks(fs[k + 1..])
    ensures FilesBytes(fs[k..]) == FileBytes(fs[k]) + FilesBytes(fs[k + 1..])
    ensures FilesReach(fs[k..])
      == Max(if fs[k].data == [] then 0 else lba * 2048 + |fs[k].data|, FilesReach(fs[k + 1..]))
  {
    hide FileBlocks, FileBytes, FileFits;
    assert fs[k..][1..] == fs[k + 1..];
  }

  lemma NoFiles(fs: seq<File>)
    requires fs == []
    ensures FilesFit(fs) && FilesBlocks(fs) == 0 && FilesBytes(fs) == [] && FilesReach(fs) == 0
  {
  }

  /** Bytes written so far from block `lba` on, the rest up to block `end` still blank, nothing else touched. */
  ghost predicate Filled(before: seq<byte>, data: seq<byte>, lba: nat, done: seq<byte>, cursor: nat, end: nat) {
    && lba * 2048 + |done| == cursor * 2048 && cursor <= end
    && Holds(data, lba * 2048, done)
    && Blank(data, cursor * 2048, end * 2048)
    && SameOutside(before, data, lba * 2048, end * 2048)
    && |data| >= |before|
  }

  /** A write into the next blocks of the blank part. */
  lemma FilledStep(before: seq<byte>, data: seq<byte>, data': seq<byte>, lba: nat, done: seq<byte>, cursor: nat,
                   end: nat, bytes: seq<byte>, cursor': nat)
    requires Filled(before, data, lba, done, cursor, end)
    requires cursor * 2048 + |bytes| == cursor' * 2048 && cursor' <= end && |data'| >= |data|
    requires SameOutside(data, data', cursor * 2048, cursor' * 2048) && Holds(data', cursor * 2048, bytes)
    ensures Filled(before, data', lba, done + bytes, cursor', end)
  {
    hide Holds, Blank, SameOutside;
    var lo, hi := cursor * 2048, cursor' * 2048;
    HoldsKept(data, data', lo, hi, lba * 2048, done);
    HoldsBoth(data', lba * 2048, done, bytes);
    BlankPart(data, lo, end * 2048, hi, end * 2048);
    BlankKept(data, data', lo, hi, hi, end * 2048);
    SameOutsideTwice(before, data, data', lba * 2048, end * 2048, lo, hi);
  }

  lemma FilledStart(data: seq<byte>, lba: nat, end: nat)
    requires Blank(data, lba * 2048, end * 2048) && lba <= end
    ensures Filled(data, data, lba, [], lba, end)
  {
  }

  lemma FilledBlank(before: seq<byte>, data: seq<byte>, lba: nat, done: seq<byte>, cursor: nat, end: nat, next: nat)
    requires Filled(before, data, lba, done, cursor, end) && next <= end
    ensures Blank(data, cursor * 2048, next * 2048)
  {
    hide Holds, SameOutside;
  }

  /** The files of one directory. */
  method WriteOwnFiles(w: Writer, fs: seq<File>, ghost lba: nat)
    requires w.Valid() && FilesLaid(fs, lba) && FilesFit(fs) && (lba + FilesBlocks(fs)) * 2048 < 0x1_0000_0000
    requires Blank(w.data, lba * 2048, (lba + FilesBlocks(fs)) * 2048)
    modifies w
    ensures w.Valid() && w.pos == old(w.pos)
    ensures SameOutside(old(w.data), w.data, lba * 2048, (lba + FilesBlocks(fs)) * 2048)
    ensures Holds(w.data, lba * 2048, FilesBytes(fs))
    ensures |w.data| >= Max(|old(w.data)|, FilesReach(fs)) && (WholeSectors(old(w.data)) ==> WholeSectors(w.data))
  {
    hide Holds, Blank, SameOutside, FileBlocks, FilesBlocks, FileBytes, FilesBytes, FilesLaid, FilesFit, FilesReach,
         FileFits;
    ghost var before, end := w.data, lba + FilesBlocks(fs);
    ghost var done: seq<byte>, cursor: nat := [], lba;
    FilledStart(before, lba, end);
    assert fs[0..] == fs;
    for k := 0 to |fs|
      invariant w.Valid() && w.pos == old(w.pos)
      invariant Filled(before, w.data, lba, done, cursor, end)
      invariant FilesLaid(fs[k..], cursor) && FilesFit(fs[k..]) && end == cursor + FilesBlocks(fs[k..])
      invariant done + FilesBytes(fs[k..]) == FilesBytes(fs)
      invariant Max(|w.data|, FilesReach(fs[k..])) >= FilesReach(fs)
      invariant WholeSectors(before) ==> WholeSectors(w.data)
    {
      ghost var data := w.data;
      FilesStep(fs, k, cursor);
      FilledBlank(before, data, lba, done, cursor, end, cursor + FileBlocks(fs[k]));
      WriteContent(w, fs[k]);
      ghost var bytes := FileBytes(fs[k]);
      FilledStep(before, data, w.data, lba, done, cursor, end, bytes, cursor + FileBlocks(fs[k]));
      assert done + (bytes + FilesBytes(fs[k + 1..])) == done + bytes + FilesBytes(fs[k + 1..]);
      done, cursor := done + bytes, cursor + FileBlocks(fs[k]);
    }
    NoFiles(fs[|fs|..]);
    assert done + [] == done;
  }

  // ---------------------------------------------------------------- a directory with all that is below it

  function TreeFileBlocks(d: Dir): nat {
    FilesBlocks(d.files) + ForestFileBlocks(d.dirs)
  }

  ghost predicate TreeFilesFit(d: Dir) {
    FilesFit(d.files) && ForestFilesFit(d.dirs)
  }

  ghost predicate TreeFilesLaid(d: Dir, lba: nat) {
    FilesLaid(d.files, lba) && ForestFilesLaid(d.dirs, lba + FilesBlocks(d.files))
  }

  function TreeFileBytes(d: Dir): (bytes: seq<byte>)
    requires TreeFilesFit(d)
    ensures |bytes| == TreeFileBlocks(d) * 2048
  {
    FilesBytes(d.files) + ForestFileBytes(d.dirs)
  }

  function TreeReach(d: Dir): nat {
    Max(FilesReach(d.files), ForestReach(d.dirs))
  }

  lemma ForestStep(ds: seq<Dir>, k: nat, lba: nat)
    requires k < |ds| && ForestFilesLaid(ds[k..], lba) && ForestFilesFit(ds[k..])
    ensures TreeFilesLaid(ds[k], lba) && TreeFilesFit(ds[k])
    ensures ForestFilesLaid(ds[k + 1..], lba + TreeFileBlocks(ds[k])) && ForestFilesFit(ds[k + 1..])
    ensures ForestFileBlocks(ds[k..]) == TreeFileBlocks(ds[k]) + ForestFileBlocks(ds[k + 1..])
    ensures ForestFileBytes(ds[k..]) == TreeFileBytes(ds[k]) + ForestFileBytes(ds[k + 1..])
    ensures ForestReach(ds[k..]) == Max(TreeReach(ds[k]), ForestReach(ds[k + 1..]))
  {
    hide FilesLaid, FilesFit, FilesBlocks, FilesBytes, FilesReach;
    assert ds[k..][1..] == ds[k + 1..];
  }

  lemma NoTrees(ds: seq<Dir>)
    requires ds == []
    ensures ForestFilesFit(ds) && ForestFileBlocks(ds) == 0 && ForestFileBytes(ds) == [] && ForestReach(ds) == 0
  {
  }

  /** `write_files`. Whatever the order of writing, the contents end up one behind the other as reserved. */
  method WriteFiles(w: Writer, d: Dir, ghost lba: nat)
    requires w.Valid() && TreeFilesLaid(d, lba) && TreeFilesFit(d) && (lba + TreeFileBlocks(d)) * 2048 < 0x1_0000_0000
    requires Blank(w.data, lba * 2048, (lba + TreeFileBlocks(d)) * 2048)
    modifies w
    ensures w.Valid() && w.pos == old(w.pos)
    ensures SameOutside(old(w.data), w.data, lba * 2048, (lba + TreeFileBlocks(d)) * 2048)
    ensures Holds(w.data, lba * 2048, TreeFileBytes(d))
    ensures |w.data| >= Max(|old(w.data)|, TreeReach(d)) && (WholeSectors(old(w.data)) ==> WholeSectors(w.data))
    decreases d
  {
    hide Holds, Blank, SameOutside, FilesBlocks, FilesBytes, FilesLaid, FilesFit, FilesReach,
         ForestFilesLaid, ForestFilesFit, ForestFileBlocks, ForestFileBytes, ForestReach;
    ghost var before, own, end := w.data, lba + FilesBlocks(d.files), lba + TreeFileBlocks(d);
    ghost var done: seq<byte>, cursor: nat := [], own;
    WholeIsBlank(before, lba, own, end);
    assert d.dirs[0..] == d.dirs;
    for k := 0 to |d.dirs|
      invariant w.Valid() && w.pos == old(w.pos)
      invariant Filled(before, w.data, own, done, cursor, end)
      invariant ForestFilesLaid(d.dirs[k..], cursor) && ForestFilesFit(d.dirs[k..])
      invariant end == cursor + ForestFileBlocks(d.dirs[k..])
      invariant done + ForestFileBytes(d.dirs[k..]) == ForestFileBytes(d.dirs)
      invariant Max(|w.data|, ForestReach(d.dirs[k..])) >= ForestReach(d.dirs)
      invariant WholeSectors(before) ==> WholeSectors(w.data)
    {
      ghost var data, next := w.data, cursor + TreeFileBlocks(d.dirs[k]);
      ForestStep(d.dirs, k, cursor);
      FilledBlank(before, data, own, done, cursor, end, next);
      WriteFiles(w, d.dirs[k], cursor);
      ghost var bytes := TreeFileBytes(d.dirs[k]);
      FilledStep(before, data, w.data, own, done, cursor, end, bytes, next);
      assert done + (bytes + ForestFileBytes(d.dirs[k + 1..])) == done + bytes + ForestFileBytes(d.dirs[k + 1..]);
      done, cursor := done + bytes, next;
    }
    NoTrees(d.dirs[|d.dirs|..]);
    assert done + [] == done;
    ghost var data := w.data;
    OwnIsBlank(before, data, lba, own, end);
    WriteOwnFiles(w, d.files, lba);
    OwnAndBelow(before, data, w.data, d, lba);
  }

  lemma WholeIsBlank(data: seq<byte>, lba: nat, own: nat, end: nat)
    requires Blank(data, lba * 2048, end * 2048) && lba <= own <= end
    ensures Filled(data, data, own, [], own, end)
  {
    BlankPart(data, lba * 2048, end * 2048, own * 2048, end * 2048);
  }

  lemma OwnIsBlank(before: seq<byte>, data: seq<byte>, lba: nat, own: nat, end: nat)
    requires Blank(before, lba * 2048, end * 2048) && lba <= own <= end
    requires SameOutside(before, data, own * 2048, end * 2048)
    ensures Blank(data, lba * 2048, own * 2048)
  {
    BlankPart(before, lba * 2048, end * 2048, lba * 2048, own * 2048);
    BlankKept(before, data, own * 2048, end * 2048, lba * 2048, own * 2048);
  }

  lemma OwnAndBelow(before: seq<byte>, data: seq<byte>, data': seq<byte>, d: Dir, lba: nat)
    requires TreeFilesFit(d)
    requires
      var own, end := lba + FilesBlocks(d.files), lba + TreeFileBlocks(d);
      && SameOutside(before, data, own * 2048, end * 2048) && Holds(data, own * 2048, ForestFileBytes(d.dirs))
      && SameOutside(data, data', lba * 2048, own * 2048) && Holds(data', lba * 2048, FilesBytes(d.files))
    ensures Holds(data', lba * 2048, TreeFileBytes(d))
    ensures SameOutside(before, data', lba * 2048, (lba + TreeFileBlocks(d)) * 2048)
  {
    hide Holds, FilesBlocks, ForestFileBlocks, FilesBytes, ForestFileBytes;
    var own, end := lba + FilesBlocks(d.files), lba + TreeFileBlocks(d);
    HoldsKept(data, data', lba * 2048, own * 2048, own * 2048, ForestFileBytes(d.dirs));
    HoldsBoth(data', lba * 2048, FilesBytes(d.files), ForestFileBytes(d.dirs));
  }

  // ---------------------------------------------------------------- reading a file back

  /** A file anywhere in the tree. */
  ghost predicate FileIn(f: File, ds: seq<Dir>)
    decreases ds
  {
    ds != [] && (f in ds[0].files || FileIn(f, ds[0].dirs) || FileIn(f, ds[1..]))
  }

  lemma {:induction false} FileHeld(data: seq<byte>, fs: seq<File>, lba: nat, f: File)
    requires FilesLaid(fs, lba) && FilesFit(fs) && Holds(data, lba * 2048, FilesBytes(fs)) && f in fs
    ensures Holds(data, f.lba * 2048, f.data)
    ensures f.data != [] ==> f.lba * 2048 + |f.data| <= FilesReach(fs)
    decreases |fs|
  {
    hide Holds, FileBlocks;
    HoldsBoth(data, lba * 2048, FileBytes(fs[0]), FilesBytes(fs[1..]));
    if f == fs[0] {
      HoldsBoth(data, lba * 2048, f.data, Zeros(FileBlocks(f) * 2048 - |f.data|));
    } else {
      FileHeld(data, fs[1..], lba + FileBlocks(fs[0]), f);
    }
  }

  lemma {:induction false} ForestFileHeld(data: seq<byte>, ds: seq<Dir>, lba: nat, f: File)
    requires ForestFilesLaid(ds, lba) && ForestFilesFit(ds) && FileIn(f, ds)
    requires Holds(data, lba * 2048, ForestFileBytes(ds))
    ensures Holds(data, f.lba * 2048, f.data)
    ensures f.data != [] ==> f.lba * 2048 + |f.data| <= ForestReach(ds)
    decreases ds
  {
    hide Holds, FilesLaid, FilesFit, FilesBlocks, FilesBytes, FilesReach;
    var d := ds[0];
    HoldsBoth(data, lba * 2048, FilesBytes(d.files) + ForestFileBytes(d.dirs), ForestFileBytes(ds[1..]));
    HoldsBoth(data, lba * 2048, FilesBytes(d.files), ForestFileBytes(d.dirs));
    if f in d.files {
      FileHeld(data, d.files, lba, f);
    } else if FileIn(f, d.dirs) {
      ForestFileHeld(data, d.dirs, lba + FilesBlocks(d.files), f);
    } else {
      ForestFileHeld(data, ds[1..], lba + FilesBlocks(d.files) + ForestFileBlocks(d.dirs), f);
    }
  }

  /** Every file of the tree is found at its own block. */
  lemma TreeFileHeld(data: seq<byte>, d: Dir, lba: nat, f: File)
    requires TreeFilesLaid(d, lba) && TreeFilesFit(d) && Holds(data, lba * 2048, TreeFileBytes(d))
    requires f in d.files || FileIn(f, d.dirs)
    requires |data| >= TreeReach(d)
    ensures f.lba * 2048 + |f.data| <= |data| || f.data == []
    ensures f.data != [] ==> data[f.lba * 2048..f.lba * 2048 + |f.data|] == f.data
  {
    hide FilesLaid, FilesFit, FilesBlocks, FilesBytes, FilesReach, ForestFileBytes, ForestReach, FileIn,
         ForestFilesLaid;
    HoldsBoth(data, lba * 2048, FilesBytes(d.files), ForestFileBytes(d.dirs));
    if f in d.files {
      FileHeld(data, d.files, lba, f);
    } else {
      ForestFileHeld(data, d.dirs, lba + FilesBlocks(d.files), f);
    }
    if f.data != [] {
      HoldsSlice(data, f.lba * 2048, f.data);
    }
  }
}
