/** Numbering of the directories and reservation of blocks (disk_image_generator/src/iso/mod.rs:23-65).

    A list of sibling directories with all that is below them is a forest. The functions follow the two
    recursive passes of the source with the counters threaded through; `Laid` and `FilesLaid` say what
    the passes establish. */
module Layout {
  import opened Bytes
  import opened DirectoryTree

  // ---------------------------------------------------------------- assign_directory_identifiers

  /** A forest after the pass, and the counters `last_index` and `last_lba`. */
  datatype Assigned = Assigned(dirs: seq<Dir>, lastIndex: nat, lastLba: nat)

  /** The block reserved for a continuation area, ahead of the extent. */
  function ContinuationBlocks(d: Dir): nat {
    if d.continuation.Some? then 1 else 0
  }

  /** Directories whose indices, `first` and up, were handed out by their parent: each gets its extent,
      hands out indices to its own children and goes down into them. */
  function AssignForest(ds: seq<Dir>, first: nat, parent: nat, lastIndex: nat, lastLba: nat): (r: Assigned)
    ensures |r.dirs| == |ds|
    decreases ds
  {
    if ds == [] then Assigned([], lastIndex, lastLba)
    else
      var d := ds[0];
      var lba := lastLba + ContinuationBlocks(d);
      var kids := AssignForest(d.dirs, lastIndex + 1, first, lastIndex + |d.dirs|, lba + ExtentBlocks(d));
      var rest := AssignForest(ds[1..], first + 1, parent, kids.lastIndex, kids.lastLba);
      Assigned([d.(index := first, parentIndex := parent, lba := lba, dirs := kids.dirs)] + rest.dirs,
               rest.lastIndex, rest.lastLba)
  }

  /** The pass on one directory as it is called: the first one, with `lastIndex` 0, is the root, which takes
      number 1 itself and keeps its block for later. */
  function AssignNode(t: Dir, lastIndex: nat, lastLba: nat): (Dir, nat, nat) {
    var lba := lastLba + ContinuationBlocks(t);
    var own := if lastIndex == 0 then t.(parentIndex := 0, index := 1) else t.(lba := lba);
    var last := if lastIndex == 0 then 1 else lastIndex;
    var kids := AssignForest(t.dirs, last + 1, own.index, last + |t.dirs|, lba + ExtentBlocks(t));
    (own.(dirs := kids.dirs), kids.lastIndex, kids.lastLba)
  }

  lemma NodeCounters(t: Dir, lastIndex: nat, lastLba: nat)
    ensures 0 < AssignNode(t, lastIndex, lastLba).1
  {
    hide ExtentBlocks;
    var last := if lastIndex == 0 then 1 else lastIndex;
    var lba := lastLba + ContinuationBlocks(t) + ExtentBlocks(t);
    CountersGrow(t.dirs, last + 1, if lastIndex == 0 then 1 else t.index, last + |t.dirs|, lba);
  }

  lemma {:induction false} CountersGrow(ds: seq<Dir>, first: nat, parent: nat, lastIndex: nat, lastLba: nat)
    ensures AssignForest(ds, first, parent, lastIndex, lastLba).lastIndex >= lastIndex
    decreases ds
  {
    hide ExtentBlocks;
    if ds != [] {
      var d := ds[0];
      var lba := lastLba + ContinuationBlocks(d);
      var kids := AssignForest(d.dirs, lastIndex + 1, first, lastIndex + |d.dirs|, lba + ExtentBlocks(d));
      CountersGrow(d.dirs, lastIndex + 1, first, lastIndex + |d.dirs|, lba + ExtentBlocks(d));
      CountersGrow(ds[1..], first + 1, parent, kids.lastIndex, kids.lastLba);
    }
  }

  /** In a forest the pass treats one directory after the other. */
  lemma AssignForestNode(ds: seq<Dir>, k: nat, first: nat, parent: nat, lastIndex: nat, lastLba: nat)
    requires k < |ds| && 0 < lastIndex
    ensures
      var (d, last, lba) := AssignNode(ds[k].(parentIndex := parent, index := first), lastIndex, lastLba);
      var rest := AssignForest(ds[k + 1..], first + 1, parent, last, lba);
      AssignForest(ds[k..], first, parent, lastIndex, lastLba)
        == Assigned([d] + rest.dirs, rest.lastIndex, rest.lastLba)
  {
    hide ExtentBlocks;
    SameChildSizes(ds[k], ds[k].(parentIndex := parent, index := first));
    assert ds[k..][1..] == ds[k + 1..];
  }

  /** The pass over the whole tree, with the root's own block and parent number set after it
      (mod.rs:341-343). */
  function AssignRoot(root: Dir, lba: nat): (r: (Dir, nat)) {
    var kids := AssignForest(root.dirs, 2, 1, 1 + |root.dirs|, lba + ContinuationBlocks(root) + ExtentBlocks(root));
    (root.(index := 1, parentIndex := 1, lba := lba, dirs := kids.dirs), kids.lastLba)
  }

  // ---------------------------------------------------------------- reserve_file_space

  /** `((size as u32) + 0x800) / 0x800`. */
  function FileBlocks(f: File): nat {
    U32(U32(f.size) + 2048) / 2048
  }

  function ReserveFiles(fs: seq<File>, lba: nat): (r: (seq<File>, nat))
    ensures |r.0| == |fs|
    decreases |fs|
  {
    if fs == [] then ([], lba)
    else
      var rest := ReserveFiles(fs[1..], lba + FileBlocks(fs[0]));
      ([fs[0].(lba := lba)] + rest.0, rest.1)
  }

  function ReserveForest(ds: seq<Dir>, lba: nat): (r: (seq<Dir>, nat))
    ensures |r.0| == |ds|
    decreases ds
  {
    if ds == [] then ([], lba)
    else
      var own := ReserveFiles(ds[0].files, lba);
      var kids := ReserveForest(ds[0].dirs, own.1);
      var rest := ReserveForest(ds[1..], kids.1);
      ([ds[0].(files := own.0, dirs := kids.0)] + rest.0, rest.1)
  }

  function ReserveNode(root: Dir, lba: nat): (Dir, nat) {
    var own := ReserveFiles(root.files, lba);
    var kids := ReserveForest(root.dirs, own.1);
    (root.(files := own.0, dirs := kids.0), kids.1)
  }

  // ---------------------------------------------------------------- what a laid-out tree looks like

  /** Directories strictly below those of a forest. */
  function Below(ds: seq<Dir>): nat
    decreases ds
  {
    if ds == [] then 0 else |ds[0].dirs| + Below(ds[0].dirs) + Below(ds[1..])
  }

  /** Blocks of all the extents of a forest. */
  function ForestBlocks(ds: seq<Dir>): nat
    decreases ds
  {
    if ds == [] then 0 else ExtentBlocks(ds[0]) + ForestBlocks(ds[0].dirs) + ForestBlocks(ds[1..])
  }

  /** Blocks of all the files of a list, and of a forest. */
  function FilesBlocks(fs: seq<File>): nat
    decreases |fs|
  {
    if fs == [] then 0 else FileBlocks(fs[0]) + FilesBlocks(fs[1..])
  }

  function ForestFileBlocks(ds: seq<Dir>): nat
    decreases ds
  {
    if ds == [] then 0 else FilesBlocks(ds[0].files) + ForestFileBlocks(ds[0].dirs) + ForestFileBlocks(ds[1..])
  }

  /** No directory of the forest has a continuation area: only the root is given one. */
  ghost predicate Plain(ds: seq<Dir>)
    decreases ds
  {
    ds == [] || (ds[0].continuation.None? && Plain(ds[0].dirs) && Plain(ds[1..]))
  }

  /** Siblings numbered from `first` on, the directories below them from `lastIndex` + 1 on, and the extents
      of all of them one behind the other from block `lba` on, each directory right before what is below it. */
  ghost predicate Laid(ds: seq<Dir>, first: nat, parent: nat, lastIndex: nat, lba: nat)
    decreases ds
  {
    ds == [] ||
    (var d := ds[0];
     && d.index == first && d.parentIndex == parent && d.lba == lba && d.continuation.None?
     && Laid(d.dirs, lastIndex + 1, first, lastIndex + |d.dirs|, lba + ExtentBlocks(d))
     && Laid(ds[1..], first + 1, parent, lastIndex + |d.dirs| + Below(d.dirs),
             lba + ExtentBlocks(d) + ForestBlocks(d.dirs)))
  }

  ghost predicate FilesLaid(fs: seq<File>, lba: nat)
    decreases |fs|
  {
    fs == [] || (fs[0].lba == lba && FilesLaid(fs[1..], lba + FileBlocks(fs[0])))
  }

  ghost predicate ForestFilesLaid(ds: seq<Dir>, lba: nat)
    decreases ds
  {
    ds == [] ||
    (var d := ds[0];
     && FilesLaid(d.files, lba)
     && ForestFilesLaid(d.dirs, lba + FilesBlocks(d.files))
     && ForestFilesLaid(ds[1..], lba + FilesBlocks(d.files) + ForestFileBlocks(d.dirs)))
  }

  /** A root with its extent at `lba`, its continuation area right behind it, then all other extents. */
  ghost predicate RootLaid(root: Dir, lba: nat) {
    && root.index == 1 && root.parentIndex == 1 && root.lba == lba && root.continuation.Some?
    && Laid(root.dirs, 2, 1, 1 + |root.dirs|, lba + ExtentBlocks(root) + 1)
  }

  /** The block behind the last extent: the first one for files. */
  function ExtentsEnd(root: Dir): nat {
    root.lba + ExtentBlocks(root) + 1 + ForestBlocks(root.dirs)
  }

  ghost predicate RootFilesLaid(root: Dir) {
    && FilesLaid(root.files, ExtentsEnd(root))
    && ForestFilesLaid(root.dirs, ExtentsEnd(root) + FilesBlocks(root.files))
  }

  /** The block behind the last file. */
  function ImageEnd(root: Dir): nat {
    ExtentsEnd(root) + FilesBlocks(root.files) + ForestFileBlocks(root.dirs)
  }

  // ---------------------------------------------------------------- the passes establish it

  /** Record sizes depend on the names only. */
  lemma SameChildSizes(d: Dir, e: Dir)
    requires |d.dirs| == |e.dirs| && forall i :: 0 <= i < |d.dirs| ==> d.dirs[i].name == e.dirs[i].name
    requires |d.files| == |e.files| && forall i :: 0 <= i < |d.files| ==> d.files[i].name == e.files[i].name
    ensures ChildSizes(d) == ChildSizes(e) && ExtentBlocks(d) == ExtentBlocks(e)
  {
    assert DirSizes(d.dirs) == DirSizes(e.dirs);
    assert FileSizes(d.files) == FileSizes(e.files);
  }

  lemma AssignForestStep(ds: seq<Dir>, first: nat, parent: nat, lastIndex: nat, lastLba: nat)
    requires ds != [] && ds[0].continuation.None?
    ensures
      var d := ds[0];
      var r := AssignForest(ds, first, parent, lastIndex, lastLba);
      var kids := AssignForest(d.dirs, lastIndex + 1, first, lastIndex + |d.dirs|, lastLba + ExtentBlocks(d));
      var rest := AssignForest(ds[1..], first + 1, parent, kids.lastIndex, kids.lastLba);
      && r.dirs[0] == d.(index := first, parentIndex := parent, lba := lastLba, dirs := kids.dirs)
      && r.dirs[1..] == rest.dirs && r.lastIndex == rest.lastIndex && r.lastLba == rest.lastLba
  {
    hide ExtentBlocks;
  }

  lemma EmptyForest(first: nat, parent: nat, lastIndex: nat, lastLba: nat)
    ensures AssignForest([], first, parent, lastIndex, lastLba) == Assigned([], lastIndex, lastLba)
    ensures Below([]) == ForestBlocks([]) == ForestFileBlocks([]) == 0
    ensures Laid([], first, parent, lastIndex, lastLba)
  {
  }

  lemma CountsStep(ds: seq<Dir>)
    requires ds != []
    ensures Below(ds) == |ds[0].dirs| + Below(ds[0].dirs) + Below(ds[1..])
    ensures ForestBlocks(ds) == ExtentBlocks(ds[0]) + ForestBlocks(ds[0].dirs) + ForestBlocks(ds[1..])
    ensures ForestFileBlocks(ds) == FilesBlocks(ds[0].files) + ForestFileBlocks(ds[0].dirs) + ForestFileBlocks(ds[1..])
  {
    hide ExtentBlocks, FilesBlocks;
  }

  lemma PlainStep(ds: seq<Dir>)
    requires ds != [] && Plain(ds)
    ensures ds[0].continuation.None? && Plain(ds[0].dirs) && Plain(ds[1..])
  {
  }

  lemma LaidStep(ds: seq<Dir>, first: nat, parent: nat, lastIndex: nat, lba: nat)
    requires ds != []
    ensures var d := ds[0];
      Laid(ds, first, parent, lastIndex, lba) <==>
      && d.index == first && d.parentIndex == parent && d.lba == lba && d.continuation.None?
      && Laid(d.dirs, lastIndex + 1, first, lastIndex + |d.dirs|, lba + ExtentBlocks(d))
      && Laid(ds[1..], first + 1, parent, lastIndex + |d.dirs| + Below(d.dirs),
              lba + ExtentBlocks(d) + ForestBlocks(d.dirs))
  {
    hide ExtentBlocks, ForestBlocks, Below;
  }

  /** The pass keeps the shape of the forest: names, files, and all counts. */
  lemma {:induction false} AssignForestShape(ds: seq<Dir>, first: nat, parent: nat, lastIndex: nat, lastLba: nat)
    requires Plain(ds)
    ensures var r := AssignForest(ds, first, parent, lastIndex, lastLba);
      && (forall i :: 0 <= i < |ds| ==> r.dirs[i].name == ds[i].name && r.dirs[i].files == ds[i].files)
      && Below(r.dirs) == Below(ds) && ForestBlocks(r.dirs) == ForestBlocks(ds)
      && ForestFileBlocks(r.dirs) == ForestFileBlocks(ds)
    decreases ds
  {
    hide ExtentBlocks, FilesBlocks, AssignForest, Below, ForestBlocks, ForestFileBlocks, Plain;
    EmptyForest(first, parent, lastIndex, lastLba);
    if ds == [] {
      return;
    }
    PlainStep(ds);
    var d := ds[0];
    var r := AssignForest(ds, first, parent, lastIndex, lastLba);
    var kids := AssignForest(d.dirs, lastIndex + 1, first, lastIndex + |d.dirs|, lastLba + ExtentBlocks(d));
    AssignForestStep(ds, first, parent, lastIndex, lastLba);
    AssignForestShape(d.dirs, lastIndex + 1, first, lastIndex + |d.dirs|, lastLba + ExtentBlocks(d));
    AssignForestShape(ds[1..], first + 1, parent, kids.lastIndex, kids.lastLba);
    SameChildSizes(d, r.dirs[0]);
    CountsStep(ds);
    CountsStep(r.dirs);
    forall i | 0 < i < |ds|
      ensures r.dirs[i].name == ds[i].name && r.dirs[i].files == ds[i].files
    {
      assert r.dirs[i] == r.dirs[1..][i - 1] && ds[i] == ds[1..][i - 1];
    }
  }

  /** The pass lays the forest out, and leaves the counters behind the last directory and the last block. */
  lemma {:induction false} AssignForestLays(ds: seq<Dir>, first: nat, parent: nat, lastIndex: nat, lastLba: nat)
    requires Plain(ds)
    ensures var r := AssignForest(ds, first, parent, lastIndex, lastLba);
      && Laid(r.dirs, first, parent, lastIndex, lastLba)
      && r.lastIndex == lastIndex + Below(ds) && r.lastLba == lastLba + ForestBlocks(ds)
    decreases ds
  {
    hide ExtentBlocks, FilesBlocks, AssignForest, Laid, Below, ForestBlocks, ForestFileBlocks, Plain;
    EmptyForest(first, parent, lastIndex, lastLba);
    if ds == [] {
      return;
    }
    PlainStep(ds);
    var d := ds[0];
    var r := AssignForest(ds, first, parent, lastIndex, lastLba);
    var kids := AssignForest(d.dirs, lastIndex + 1, first, lastIndex + |d.dirs|, lastLba + ExtentBlocks(d));
    AssignForestStep(ds, first, parent, lastIndex, lastLba);
    AssignForestShape(d.dirs, lastIndex + 1, first, lastIndex + |d.dirs|, lastLba + ExtentBlocks(d));
    AssignForestLays(d.dirs, lastIndex + 1, first, lastIndex + |d.dirs|, lastLba + ExtentBlocks(d));
    AssignForestLays(ds[1..], first + 1, parent, kids.lastIndex, kids.lastLba);
    SameChildSizes(d, r.dirs[0]);
    CountsStep(ds);
    LaidStep(r.dirs, first, parent, lastIndex, lastLba);
  }

  lemma {:induction false} ReserveFilesLays(fs: seq<File>, lba: nat)
    ensures var r := ReserveFiles(fs, lba);
      && FilesLaid(r.0, lba) && r.1 == lba + FilesBlocks(fs) && FilesBlocks(r.0) == FilesBlocks(fs)
      && forall i :: 0 <= i < |fs| ==> r.0[i] == fs[i].(lba := r.0[i].lba)
    decreases |fs|
  {
    if fs != [] {
      ReserveFilesLays(fs[1..], lba + FileBlocks(fs[0]));
      var r := ReserveFiles(fs, lba);
      assert r.0[1..] == ReserveFiles(fs[1..], lba + FileBlocks(fs[0])).0;
      assert FileBlocks(r.0[0]) == FileBlocks(fs[0]);
    }
  }

  lemma ReserveForestStep(ds: seq<Dir>, lba: nat)
    requires ds != []
    ensures
      var own := ReserveFiles(ds[0].files, lba);
      var kids := ReserveForest(ds[0].dirs, own.1);
      var rest := ReserveForest(ds[1..], kids.1);
      var r := ReserveForest(ds, lba);
      r.0[0] == ds[0].(files := own.0, dirs := kids.0) && r.0[1..] == rest.0 && r.1 == rest.1
  {
    hide ReserveFiles;
  }

  lemma EmptyForestFiles(lba: nat)
    ensures ReserveForest([], lba) == ([], lba) && ForestFilesLaid([], lba)
  {
  }

  lemma FilesLaidStep(ds: seq<Dir>, lba: nat)
    requires ds != []
    ensures var d := ds[0];
      ForestFilesLaid(ds, lba) <==>
      && FilesLaid(d.files, lba)
      && ForestFilesLaid(d.dirs, lba + FilesBlocks(d.files))
      && ForestFilesLaid(ds[1..], lba + FilesBlocks(d.files) + ForestFileBlocks(d.dirs))
  {
    hide FilesBlocks, FilesLaid, ForestFileBlocks;
  }

  lemma ReserveFilesStep(fs: seq<File>, k: nat, lba: nat)
    requires k < |fs|
    ensures var rest := ReserveFiles(fs[k + 1..], lba + FileBlocks(fs[k]));
      ReserveFiles(fs[k..], lba) == ([fs[k].(lba := lba)] + rest.0, rest.1)
  {
    hide FileBlocks;
    assert fs[k..][1..] == fs[k + 1..];
  }

  /** In a forest the pass treats one directory after the other. */
  lemma ReserveForestNode(ds: seq<Dir>, k: nat, lba: nat)
    requires k < |ds|
    ensures
      var (d, next) := ReserveNode(ds[k], lba);
      var rest := ReserveForest(ds[k + 1..], next);
      ReserveForest(ds[k..], lba) == ([d] + rest.0, rest.1)
  {
    hide ReserveFiles;
    assert ds[k..][1..] == ds[k + 1..];
  }

  /** Reserving the files changes their blocks and nothing else of the forest. */
  lemma {:induction false} ReserveForestShape(ds: seq<Dir>, lba: nat)
    ensures var r := ReserveForest(ds, lba);
      && (forall i :: 0 <= i < |ds| ==>
            r.0[i].name == ds[i].name && ExtentBlocks(r.0[i]) == ExtentBlocks(ds[i]))
      && Below(r.0) == Below(ds) && ForestBlocks(r.0) == ForestBlocks(ds)
      && ForestFileBlocks(r.0) == ForestFileBlocks(ds)
    decreases ds
  {
    hide ExtentBlocks, FilesBlocks, ReserveForest, ReserveFiles, Below, ForestBlocks, ForestFileBlocks;
    EmptyForest(0, 0, 0, 0);
    EmptyForestFiles(lba);
    if ds != [] {
      var d := ds[0];
      var r := ReserveForest(ds, lba);
      var own := ReserveFiles(d.files, lba);
      var kids := ReserveForest(d.dirs, own.1);
      ReserveForestStep(ds, lba);
      ReserveFilesLays(d.files, lba);
      ReserveForestShape(d.dirs, own.1);
      ReserveForestShape(ds[1..], kids.1);
      SameChildSizes(d, r.0[0]);
      CountsStep(ds);
      CountsStep(r.0);
      forall i | 0 < i < |ds|
        ensures r.0[i].name == ds[i].name && ExtentBlocks(r.0[i]) == ExtentBlocks(ds[i])
      {
        assert r.0[i] == r.0[1..][i - 1] && ds[i] == ds[1..][i - 1];
      }
    }
  }

  /** A forest that is laid out stays so. */
  lemma {:induction false} ReserveForestKeepsLaid(ds: seq<Dir>, fileLba: nat, first: nat, parent: nat, lastIndex: nat,
                                                  lba: nat)
    requires Laid(ds, first, parent, lastIndex, lba)
    ensures Laid(ReserveForest(ds, fileLba).0, first, parent, lastIndex, lba)
    decreases ds
  {
    hide ExtentBlocks, FilesBlocks, ReserveForest, ReserveFiles, Below, ForestBlocks, Laid;
    EmptyForest(first, parent, lastIndex, lba);
    EmptyForestFiles(fileLba);
    if ds != [] {
      var d := ds[0];
      var r := ReserveForest(ds, fileLba);
      var own := ReserveFiles(d.files, fileLba);
      var kids := ReserveForest(d.dirs, own.1);
      ReserveForestStep(ds, fileLba);
      ReserveForestShape(ds, fileLba);
      ReserveForestShape(d.dirs, own.1);
      LaidStep(ds, first, parent, lastIndex, lba);
      LaidStep(r.0, first, parent, lastIndex, lba);
      ReserveForestKeepsLaid(d.dirs, own.1, lastIndex + 1, first, lastIndex + |d.dirs|, lba + ExtentBlocks(d));
      ReserveForestKeepsLaid(ds[1..], kids.1, first + 1, parent, lastIndex + |d.dirs| + Below(d.dirs),
                             lba + ExtentBlocks(d) + ForestBlocks(d.dirs));
    }
  }

  lemma {:induction false} ReserveForestLays(ds: seq<Dir>, lba: nat)
    ensures var r := ReserveForest(ds, lba); ForestFilesLaid(r.0, lba) && r.1 == lba + ForestFileBlocks(ds)
    decreases ds
  {
    hide ExtentBlocks, FilesBlocks, FilesLaid, ReserveForest, ReserveFiles, Below, ForestBlocks, ForestFileBlocks,
         ForestFilesLaid;
    EmptyForest(0, 0, 0, 0);
    EmptyForestFiles(lba);
    if ds != [] {
      var d := ds[0];
      var own := ReserveFiles(d.files, lba);
      var kids := ReserveForest(d.dirs, own.1);
      ReserveForestStep(ds, lba);
      ReserveFilesLays(d.files, lba);
      ReserveForestShape(d.dirs, own.1);
      ReserveForestLays(d.dirs, own.1);
      ReserveForestLays(ds[1..], kids.1);
      CountsStep(ds);
      FilesLaidStep(ReserveForest(ds, lba).0, lba);
    }
  }

  // ---------------------------------------------------------------- what the passes leave alone

  function EraseFiles(fs: seq<File>): (r: seq<File>)
    ensures |r| == |fs| && forall i :: 0 <= i < |fs| ==> r[i] == fs[i].(lba := 0)
  {
    seq(|fs|, i requires 0 <= i < |fs| => fs[i].(lba := 0))
  }

  /** A forest without numbers and blocks: names, structure, sizes and contents. */
  function EraseForest(ds: seq<Dir>): (r: seq<Dir>)
    ensures |r| == |ds|
    decreases ds
  {
    if ds == [] then []
    else [EraseOne(ds[0], EraseForest(ds[0].dirs))] + EraseForest(ds[1..])
  }

  function EraseOne(d: Dir, dirs: seq<Dir>): Dir {
    Dir(d.name, 0, 0, 0, dirs, EraseFiles(d.files), None)
  }

  function Erase(d: Dir): Dir {
    EraseOne(d, EraseForest(d.dirs))
  }

  lemma EraseStep(ds: seq<Dir>)
    requires ds != []
    ensures EraseForest(ds) == [EraseOne(ds[0], EraseForest(ds[0].dirs))] + EraseForest(ds[1..])
  {
    hide EraseOne;
  }

  lemma EraseNone(ds: seq<Dir>)
    requires ds == []
    ensures EraseForest(ds) == []
  {
  }

  /** Numbering changes numbers and blocks and nothing else, at any depth. */
  lemma {:induction false} AssignKeepsTree(ds: seq<Dir>, first: nat, parent: nat, lastIndex: nat, lastLba: nat)
    ensures EraseForest(AssignForest(ds, first, parent, lastIndex, lastLba).dirs) == EraseForest(ds)
    decreases ds
  {
    hide ExtentBlocks, EraseForest;
    var r := AssignForest(ds, first, parent, lastIndex, lastLba);
    EraseNone([]);
    if ds != [] {
      var d := ds[0];
      var lba := lastLba + ContinuationBlocks(d);
      var kids := AssignForest(d.dirs, lastIndex + 1, first, lastIndex + |d.dirs|, lba + ExtentBlocks(d));
      AssignKeepsTree(d.dirs, lastIndex + 1, first, lastIndex + |d.dirs|, lba + ExtentBlocks(d));
      AssignKeepsTree(ds[1..], first + 1, parent, kids.lastIndex, kids.lastLba);
      EraseStep(ds);
      EraseStep(r.dirs);
    }
  }

  lemma FilesKept(fs: seq<File>, lba: nat)
    ensures EraseFiles(ReserveFiles(fs, lba).0) == EraseFiles(fs)
  {
    hide ReserveFiles, FilesLaid, FilesBlocks;
    ReserveFilesLays(fs, lba);
  }

  /** Reserving blocks for files changes their blocks and nothing else, at any depth. */
  lemma {:induction false} ReserveKeepsTree(ds: seq<Dir>, lba: nat)
    ensures EraseForest(ReserveForest(ds, lba).0) == EraseForest(ds)
    decreases ds
  {
    hide EraseForest, EraseFiles, ReserveFiles;
    EraseNone([]);
    if ds != [] {
      var own := ReserveFiles(ds[0].files, lba);
      var kids := ReserveForest(ds[0].dirs, own.1);
      FilesKept(ds[0].files, lba);
      ReserveKeepsTree(ds[0].dirs, own.1);
      ReserveKeepsTree(ds[1..], kids.1);
      EraseStep(ds);
      EraseStep(ReserveForest(ds, lba).0);
    }
  }

  /** Both passes over a whole tree. */
  lemma PassesKeepTree(root: Dir, lba: nat)
    ensures var numbered := AssignRoot(root, lba); Erase(ReserveNode(numbered.0, numbered.1).0) == Erase(root)
  {
    hide ExtentBlocks, EraseForest, EraseFiles, ReserveFiles, ReserveForest, AssignForest;
    var numbered := AssignRoot(root, lba);
    var start := lba + ContinuationBlocks(root) + ExtentBlocks(root);
    AssignKeepsTree(root.dirs, 2, 1, 1 + |root.dirs|, start);
    FilesKept(root.files, numbered.1);
    ReserveKeepsTree(numbered.0.dirs, ReserveFiles(root.files, numbered.1).1);
  }

  /** The two passes over a whole tree: numbered directories, extents from `lba` on, the files behind them,
      and the second counter at the end of the image. */
  lemma PassesLayRoot(root: Dir, lba: nat)
    requires Plain(root.dirs) && root.continuation.Some?
    ensures
      var numbered := AssignRoot(root, lba);
      var reserved := ReserveNode(numbered.0, numbered.1);
      && RootLaid(reserved.0, lba) && RootFilesLaid(reserved.0)
      && numbered.1 == ExtentsEnd(reserved.0) && reserved.1 == ImageEnd(reserved.0)
  {
    hide ExtentBlocks, FilesBlocks, FilesLaid, ReserveForest, ReserveFiles, Below, ForestBlocks, ForestFileBlocks,
         ForestFilesLaid, Laid, AssignForest;
    var numbered := AssignRoot(root, lba);
    var reserved := ReserveNode(numbered.0, numbered.1);
    var start := lba + 1 + ExtentBlocks(root);
    AssignForestShape(root.dirs, 2, 1, 1 + |root.dirs|, start);
    AssignForestLays(root.dirs, 2, 1, 1 + |root.dirs|, start);
    SameChildSizes(root, numbered.0);
    var own := ReserveFiles(numbered.0.files, numbered.1);
    ReserveFilesLays(numbered.0.files, numbered.1);
    ReserveForestShape(numbered.0.dirs, own.1);
    ReserveForestLays(numbered.0.dirs, own.1);
    ReserveForestKeepsLaid(numbered.0.dirs, own.1, 2, 1, 1 + |root.dirs|, start);
    SameChildSizes(numbered.0, reserved.0);
  }
}
