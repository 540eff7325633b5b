/** The blocks handed out by the layout passes: nothing overlaps, nothing is left over. */
module Tiling {
  import opened Packing
  import opened DirectoryTree
  import opened Layout

  datatype Region = Region(start: nat, blocks: nat)

  /** The regions follow each other from block `lo` to block `hi`, none of them empty. */
  ghost predicate Tiles(rs: seq<Region>, lo: nat, hi: nat)
    decreases |rs|
  {
    if rs == [] then lo == hi
    else rs[0].start == lo && rs[0].blocks > 0 && Tiles(rs[1..], lo + rs[0].blocks, hi)
  }

  lemma {:induction false} TilesJoin(a: seq<Region>, b: seq<Region>, lo: nat, mid: nat, hi: nat)
    requires Tiles(a, lo, mid) && Tiles(b, mid, hi)
    ensures Tiles(a + b, lo, hi)
    decreases |a|
  {
    if a == [] {
      assert a + b == b;
    } else {
      assert (a + b)[1..] == a[1..] + b;
      TilesJoin(a[1..], b, lo + a[0].blocks, mid, hi);
    }
  }

  /** The i-th region lies within the range, and ends before the j-th begins. */
  lemma {:induction false} TilesAreDisjoint(rs: seq<Region>, lo: nat, hi: nat, i: nat, j: nat)
    requires Tiles(rs, lo, hi) && i < j < |rs|
    ensures lo <= rs[i].start && rs[i].start + rs[i].blocks <= rs[j].start && rs[j].start + rs[j].blocks <= hi
    decreases |rs|
  {
    TilesInside(rs[1..], lo + rs[0].blocks, hi, j - 1);
    if i > 0 {
      TilesAreDisjoint(rs[1..], lo + rs[0].blocks, hi, i - 1, j - 1);
    }
  }

  lemma {:induction false} TilesInside(rs: seq<Region>, lo: nat, hi: nat, i: nat)
    requires Tiles(rs, lo, hi) && i < |rs|
    ensures lo <= rs[i].start && rs[i].start + rs[i].blocks <= hi
    decreases |rs|
  {
    if i > 0 {
      TilesInside(rs[1..], lo + rs[0].blocks, hi, i - 1);
    } else {
      TilesForward(rs[1..], lo + rs[0].blocks, hi);
    }
  }

  lemma {:induction false} TilesForward(rs: seq<Region>, lo: nat, hi: nat)
    requires Tiles(rs, lo, hi)
    ensures lo <= hi
    decreases |rs|
  {
    if rs != [] {
      TilesForward(rs[1..], lo + rs[0].blocks, hi);
    }
  }

  /** Every block of the range is in some region. */
  lemma {:induction false} TilesCover(rs: seq<Region>, lo: nat, hi: nat, block: nat) returns (i: nat)
    requires Tiles(rs, lo, hi) && lo <= block < hi
    ensures i < |rs| && rs[i].start <= block < rs[i].start + rs[i].blocks
    decreases |rs|
  {
    if block < lo + rs[0].blocks {
      i := 0;
    } else {
      i := TilesCover(rs[1..], lo + rs[0].blocks, hi, block);
      i := i + 1;
    }
  }

  // ---------------------------------------------------------------- the regions of a tree

  function ExtentRegions(ds: seq<Dir>): seq<Region>
    decreases ds
  {
    if ds == [] then []
    else [Region(ds[0].lba, ExtentBlocks(ds[0]))] + ExtentRegions(ds[0].dirs) + ExtentRegions(ds[1..])
  }

  function FileRegions(fs: seq<File>): seq<Region> {
    if fs == [] then [] else [Region(fs[0].lba, FileBlocks(fs[0]))] + FileRegions(fs[1..])
  }

  function ForestFileRegions(ds: seq<Dir>): seq<Region>
    decreases ds
  {
    if ds == [] then [] else FileRegions(ds[0].files) + ForestFileRegions(ds[0].dirs) + ForestFileRegions(ds[1..])
  }

  /** Root extent, continuation area, the other extents, the files. */
  function Regions(root: Dir): seq<Region> {
    [Region(root.lba, ExtentBlocks(root)), Region(root.lba + ExtentBlocks(root), 1)]
    + ExtentRegions(root.dirs) + FileRegions(root.files) + ForestFileRegions(root.dirs)
  }

  lemma {:induction false} EstimatePositive(start: nat, sizes: seq<nat>, k: nat)
    requires k <= |sizes|
    ensures Estimate(start, sizes, k).count >= 1
  {
    hide AlignUp;
    if k > 0 {
      EstimatePositive(start, sizes, k - 1);
    }
  }

  lemma ExtentBlocksPositive(d: Dir)
    ensures ExtentBlocks(d) >= 1
  {
    EstimatePositive(ROOT_DOTS, ChildSizes(d), |ChildSizes(d)|);
  }

  lemma {:induction false} ExtentsTile(ds: seq<Dir>, first: nat, parent: nat, lastIndex: nat, lba: nat)
    requires Laid(ds, first, parent, lastIndex, lba)
    ensures Tiles(ExtentRegions(ds), lba, lba + ForestBlocks(ds))
    decreases ds
  {
    hide ExtentBlocks;
    if ds != [] {
      var d := ds[0];
      var kids, rest := lba + ExtentBlocks(d), lba + ExtentBlocks(d) + ForestBlocks(d.dirs);
      ExtentBlocksPositive(d);
      ExtentsTile(d.dirs, lastIndex + 1, first, lastIndex + |d.dirs|, kids);
      ExtentsTile(ds[1..], first + 1, parent, lastIndex + |d.dirs| + Below(d.dirs), rest);
      var own := [Region(lba, ExtentBlocks(d))];
      assert Tiles(own[1..], kids, kids);
      TilesJoin(own, ExtentRegions(d.dirs), lba, kids, rest);
      TilesJoin(own + ExtentRegions(d.dirs), ExtentRegions(ds[1..]), lba, rest, lba + ForestBlocks(ds));
    }
  }

  /** The 32-bit sum in the block count of a file does not wrap. */
  ghost predicate Moderate(fs: seq<File>) {
    forall i :: 0 <= i < |fs| ==> fs[i].size < 0x1_0000_0000 - 2048
  }

  ghost predicate ForestModerate(ds: seq<Dir>)
    decreases ds
  {
    ds == [] || (Moderate(ds[0].files) && ForestModerate(ds[0].dirs) && ForestModerate(ds[1..]))
  }

  lemma {:induction false} FilesTile(fs: seq<File>, lba: nat)
    requires FilesLaid(fs, lba) && Moderate(fs)
    ensures Tiles(FileRegions(fs), lba, lba + FilesBlocks(fs))
    decreases |fs|
  {
    if fs != [] {
      assert FileBlocks(fs[0]) > 0;
      hide FileBlocks;
      assert forall i :: 0 <= i < |fs| - 1 ==> fs[1..][i] == fs[i + 1];
      FilesTile(fs[1..], lba + FileBlocks(fs[0]));
    }
  }

  lemma {:induction false} ForestFilesTile(ds: seq<Dir>, lba: nat)
    requires ForestFilesLaid(ds, lba) && ForestModerate(ds)
    ensures Tiles(ForestFileRegions(ds), lba, lba + ForestFileBlocks(ds))
    decreases ds
  {
    hide FilesLaid, FilesBlocks, FileRegions, Moderate, Tiles;
    if ds == [] {
      NoRegions(ForestFileRegions(ds), lba);
    } else {
      var d := ds[0];
      var kids := lba + FilesBlocks(d.files);
      var rest := kids + ForestFileBlocks(d.dirs);
      FilesTile(d.files, lba);
      ForestFilesTile(d.dirs, kids);
      ForestFilesTile(ds[1..], rest);
      TilesJoin(FileRegions(d.files), ForestFileRegions(d.dirs), lba, kids, rest);
      TilesJoin(FileRegions(d.files) + ForestFileRegions(d.dirs), ForestFileRegions(ds[1..]), lba, rest,
                lba + ForestFileBlocks(ds));
    }
  }

  lemma TwoRegions(lo: nat, a: nat, b: nat)
    requires a > 0 && b > 0
    ensures Tiles([Region(lo, a), Region(lo + a, b)], lo, lo + a + b)
  {
    var rs := [Region(lo, a), Region(lo + a, b)];
    assert rs[1..] == [Region(lo + a, b)] && rs[1..][1..] == [];
  }

  lemma NoRegions(rs: seq<Region>, lo: nat)
    requires rs == []
    ensures Tiles(rs, lo, lo)
  {
  }

  /** All reservations of a laid-out tree tile the blocks from its first extent to the end of the image. */
  lemma RegionsTile(root: Dir, lba: nat)
    requires RootLaid(root, lba) && RootFilesLaid(root) && Moderate(root.files) && ForestModerate(root.dirs)
    ensures Tiles(Regions(root), lba, ImageEnd(root))
  {
    hide ExtentBlocks, FilesLaid, FilesBlocks, FileRegions, Moderate, ForestFilesLaid, ForestFileRegions, Laid,
         ExtentRegions, ForestBlocks, ForestFileBlocks;
    var kids, files := lba + ExtentBlocks(root) + 1, ExtentsEnd(root);
    var below := files + FilesBlocks(root.files);
    ExtentBlocksPositive(root);
    ExtentsTile(root.dirs, 2, 1, 1 + |root.dirs|, kids);
    FilesTile(root.files, files);
    ForestFilesTile(root.dirs, below);
    var own := [Region(root.lba, ExtentBlocks(root)), Region(root.lba + ExtentBlocks(root), 1)];
    TwoRegions(lba, ExtentBlocks(root), 1);
    TilesJoin(own, ExtentRegions(root.dirs), lba, kids, files);
    TilesJoin(own + ExtentRegions(root.dirs), FileRegions(root.files), lba, files, below);
    TilesJoin(own + ExtentRegions(root.dirs) + FileRegions(root.files), ForestFileRegions(root.dirs), lba, below,
              ImageEnd(root));
  }
}
