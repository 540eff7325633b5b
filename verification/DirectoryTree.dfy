/** Directory and file entries of the ISO 9660 writer, and the sizes computed from them
    (disk_image_generator/src/iso/directory_entry.rs, file_entry.rs, utils.rs). */
module DirectoryTree {
  import opened Bytes
  import opened Packing

  /** File and directory names, one byte a character. The source panics on names of more than 251 bytes. */
  type Name = s: seq<byte> | |s| <= 251

  /** A file: `size` is the length known when space is reserved, `data` what is written in the end. */
  datatype File = File(name: Name, size: nat, lba: nat, data: seq<byte>)

  datatype Dir = Dir(
    name: Name,
    index: nat,
    parentIndex: nat,
    lba: nat,
    dirs: seq<Dir>,
    files: seq<File>,
    continuation: Option<seq<byte>>)

  // ---------------------------------------------------------------- names

  /** `str::split` on one separator byte: never empty. */
  function Split(value: seq<byte>, separator: byte): (parts: seq<seq<byte>>)
    ensures |parts| > 0
    ensures forall i :: 0 <= i < |parts| ==> |parts[i]| <= |value|
  {
    if value == [] then [[]]
    else
      var rest := Split(value[1..], separator);
      if value[0] == separator then [[]] + rest
      else [[value[0]] + rest[0]] + rest[1..]
  }

  const DOT: byte := 0x2E
  const SLASH: byte := 0x2F

  /** The identifier recorded for a name: at most eight bytes of stem and three of extension. */
  function ConvertName(value: Name): (r: seq<byte>)
    ensures |r| <= 12
  {
    var parts := Split(value, DOT);
    var stem := parts[0];
    var extension := if |parts| > 1 then parts[1] else [];
    var shortStem := if |stem| >= 8 then stem[..8] else stem;
    var shortExtension := if |extension| > 3 then extension[..3] else extension;
    if shortExtension != [] then shortStem + [DOT] + shortExtension else shortStem
  }

  function Cut(s: seq<byte>, n: nat): (r: seq<byte>)
    ensures |r| <= n && r <= s && (|s| <= n ==> r == s)
  {
    if |s| <= n then s else s[..n]
  }

  lemma {:induction false} SplitWithoutSeparator(value: seq<byte>, separator: byte)
    requires separator !in value
    ensures Split(value, separator) == [value]
  {
    if value != [] {
      SplitWithoutSeparator(value[1..], separator);
      assert [value[0]] + value[1..] == value;
    }
  }

  lemma {:induction false} SplitAtSeparator(head: seq<byte>, separator: byte, tail: seq<byte>)
    requires separator !in head
    ensures Split(head + [separator] + tail, separator) == [head] + Split(tail, separator)
  {
    var value := head + [separator] + tail;
    if head == [] {
      assert value[1..] == tail;
    } else {
      assert value[1..] == head[1..] + [separator] + tail;
      SplitAtSeparator(head[1..], separator, tail);
      assert [head[0]] + head[1..] == head;
    }
  }

  /** A name without a dot is cut to eight bytes. Of any other the eight first bytes before the first dot are kept,
      and up to three of those between it and the next dot; what follows a second dot is lost. */
  lemma ConvertNameCuts(stem: seq<byte>, extension: seq<byte>, more: seq<byte>)
    requires DOT !in stem && DOT !in extension && |stem| + |extension| + |more| <= 249
    ensures ConvertName(stem) == Cut(stem, 8)
    ensures
      var id := Cut(stem, 8) + if extension == [] then [] else [DOT] + Cut(extension, 3);
      && ConvertName(stem + [DOT] + extension) == id
      && ConvertName(stem + [DOT] + (extension + [DOT] + more)) == id
  {
    hide Split;
    SplitWithoutSeparator(stem, DOT);
    SplitWithoutSeparator(extension, DOT);
    SplitAtSeparator(stem, DOT, extension);
    SplitAtSeparator(extension, DOT, more);
    SplitAtSeparator(stem, DOT, extension + [DOT] + more);
    assert Cut(stem, 8) + [DOT] + Cut(extension, 3) == Cut(stem, 8) + ([DOT] + Cut(extension, 3));
  }

  // ---------------------------------------------------------------- record sizes

  /** The identifier of a directory record by kind of record: 1 and 3 are ".", 2 is "..", 5 is the root
      record of the volume descriptor. */
  function DirIdentifier(name: Name, kind: nat): (r: seq<byte>)
    ensures |r| <= 12
  {
    if kind == 1 || kind == 3 || kind == 5 then [0]
    else if kind == 2 then [1]
    else ConvertName(name)
  }

  /** `utils::get_entry_size`. */
  function EntrySize(base: nat, name: Name, kind: nat, padding: nat): nat {
    var length := |DirIdentifier(name, kind)|;
    var padded := if length % 2 != padding then length + 1 else length;
    var px := if kind < 5 then 0x2c else 0;
    var nm := if kind == 0 then 0x5 + |name| else 0;
    var susp := if kind == 3 then 0x7 + 0x1c else 0;
    base + padded + px + nm + susp
  }

  function DirEntrySize(d: Dir, kind: nat): nat {
    EntrySize(0x21, d.name, kind, 1)
  }

  function FileEntrySize(f: File): nat {
    EntrySize(0x21 + 2, f.name, 0, 1)
  }

  /** Sizes of the records of the children, directories first, in the order they are written. */
  function DirSizes(ds: seq<Dir>): (sizes: seq<nat>)
    ensures |sizes| == |ds| && forall i :: 0 <= i < |ds| ==> sizes[i] == DirEntrySize(ds[i], 0)
    ensures Small(sizes)
  {
    seq(|ds|, i requires 0 <= i < |ds| => DirEntrySize(ds[i], 0))
  }

  function FileSizes(fs: seq<File>): (sizes: seq<nat>)
    ensures |sizes| == |fs| && forall i :: 0 <= i < |fs| ==> sizes[i] == FileEntrySize(fs[i])
    ensures Small(sizes)
  {
    seq(|fs|, i requires 0 <= i < |fs| => FileEntrySize(fs[i]))
  }

  function ChildSizes(d: Dir): (sizes: seq<nat>)
    ensures Small(sizes)
  {
    DirSizes(d.dirs) + FileSizes(d.files)
  }

  /** Bytes of the "." and ".." records that start an extent: the estimator takes the root's for every directory. */
  const ROOT_DOTS: nat := 113 + 78
  const CHILD_DOTS: nat := 78 + 78

  /** `get_extent_size_in_lb`: the sectors reserved for the records of a directory. */
  function ExtentBlocks(d: Dir): nat {
    Estimate(ROOT_DOTS, ChildSizes(d), |ChildSizes(d)|).count
  }

  lemma EstimateStart(d: Dir)
    ensures Estimate(ROOT_DOTS, ChildSizes(d), 0) == Tally(DirEntrySize(d, 3) + DirEntrySize(d, 2), 1)
  {
  }

  // ---------------------------------------------------------------- the estimate against the real packing

  /** Position after the records of a directory, counted from the start of its extent. */
  function RecordsEnd(d: Dir, isRoot: bool): nat {
    PackTo(if isRoot then ROOT_DOTS else CHILD_DOTS, ChildSizes(d), |ChildSizes(d)|)
  }

  /** Sectors that the records of a directory really take. */
  function UsedSectors(d: Dir, isRoot: bool): nat {
    Sectors(RecordsEnd(d, isRoot))
  }

  /** The children whose record the estimator reaches with a full sector. */
  function Undercount(d: Dir): nat {
    ExactFills(ROOT_DOTS, ChildSizes(d), |ChildSizes(d)|)
  }

  /** The root takes exactly one sector more than reserved for every exact fill. */
  lemma RootSectors(d: Dir)
    ensures UsedSectors(d, true) == ExtentBlocks(d) + Undercount(d)
  {
    EstimateCountsSectors(ROOT_DOTS, ChildSizes(d), |ChildSizes(d)|);
  }

  /** The sectors of any other directory, whose "." is shorter: what the estimator would count from there, and one more
      for every exact fill from there. That is never more than the same for the root. */
  lemma OtherSectors(d: Dir)
    ensures UsedSectors(d, false) == CountFrom(d, CHILD_DOTS)
    ensures UsedSectors(d, false) <= ExtentBlocks(d) + Undercount(d) == CountFrom(d, ROOT_DOTS)
  {
    RootSectors(d);
    EstimateCountsSectors(CHILD_DOTS, ChildSizes(d), |ChildSizes(d)|);
    PackMonotone(CHILD_DOTS, ROOT_DOTS, ChildSizes(d), |ChildSizes(d)|);
  }

  /** The estimate and the exact fills when "." and ".." take `dots` bytes. */
  function CountFrom(d: Dir, dots: nat): nat {
    Estimate(dots, ChildSizes(d), |ChildSizes(d)|).count + ExactFills(dots, ChildSizes(d), |ChildSizes(d)|)
  }

  /** The root's records stay in the reservation exactly when no child is reached with a full sector. Any other
      directory's do whenever that holds, and exactly when the count from its own start is at most the estimate. */
  lemma ReservationSuffices(d: Dir)
    ensures UsedSectors(d, true) <= ExtentBlocks(d) <==> Undercount(d) == 0
    ensures UsedSectors(d, false) <= ExtentBlocks(d) <==> CountFrom(d, CHILD_DOTS) <= ExtentBlocks(d)
    ensures Undercount(d) == 0 ==> UsedSectors(d, false) <= ExtentBlocks(d)
  {
    RootSectors(d);
    OtherSectors(d);
  }

  // ---------------------------------------------------------------- a directory that is undercounted

  /** A directory name of `n` letters, starting with a letter of its own. */
  function LongName(first: byte, n: nat): (r: Name)
    requires 8 <= n <= 251 && first != DOT
    ensures |r| == n
  {
    [first] + seq(n - 1, _ => 0x61)
  }

  function EmptyDir(name: Name): Dir {
    Dir(name, 0, 0, 0, [], [], None)
  }

  lemma LongNameSize(first: byte, n: nat)
    requires 8 <= n <= 251 && first != DOT
    ensures DirEntrySize(EmptyDir(LongName(first, n)), 0) == 91 + n
  {
    SplitWithoutSeparator(LongName(first, n), DOT);
  }

  /** Nine sibling directories with names of 141 letters, but for the eighth. */
  function Siblings(eighth: nat): Dir
    requires 8 <= eighth <= 251
  {
    EmptyDir([0x72]).(dirs := seq(9, i requires 0 <= i < 9 =>
      EmptyDir(LongName(U8(0x41 + i), if i == 7 then eighth else 141))))
  }

  lemma SiblingSizes(eighth: nat)
    requires 8 <= eighth <= 251
    ensures ChildSizes(Siblings(eighth)) == [232, 232, 232, 232, 232, 232, 232, 91 + eighth, 232]
  {
    hide DirEntrySize, FileEntrySize, LongName;
    var d := Siblings(eighth);
    forall i | 0 <= i < 9
      ensures ChildSizes(d)[i] == if i == 7 then 91 + eighth else 232
    {
      LongNameSize(U8(0x41 + i), if i == 7 then eighth else 141);
    }
    assert |ChildSizes(d)| == 9;
  }

  /** When the eighth has one letter more than the others, the first eight fill the first sector to the last byte and
      the ninth goes to a second sector that is not reserved, in the root and in any other directory. */
  lemma OverfullOverruns(isRoot: bool)
    ensures UsedSectors(Siblings(142), isRoot) == 2 && ExtentBlocks(Siblings(142)) == 1
  {
    hide PackTo, ExactFills, Estimate, ChildSizes, Siblings;
    SiblingSizes(142);
    NinePacked(ChildSizes(Siblings(142)), 233);
    EstimateCountsSectors(ROOT_DOTS, ChildSizes(Siblings(142)), 9);
    assert Sectors(2280) == 2;
  }

  /** When all have the same number of letters, the second sector is reserved. */
  lemma TwoSectorRoot()
    ensures ExtentBlocks(Siblings(141)) == 2
  {
    hide PackTo, ExactFills, Estimate, ChildSizes, Siblings;
    SiblingSizes(141);
    NinePacked(ChildSizes(Siblings(141)), 232);
    EstimateCountsSectors(ROOT_DOTS, ChildSizes(Siblings(141)), 9);
    assert Sectors(2280) == 2;
  }

  lemma PlaceInside(pos: nat, size: nat)
    requires 0 < pos && pos + size <= 2048
    ensures Place(pos, size) == pos + size
  {
  }

  lemma NinePacked(s: seq<nat>, e: nat)
    requires s == [232, 232, 232, 232, 232, 232, 232, e, 232] && 232 <= e <= 233
    ensures ExactFills(ROOT_DOTS, s, 9) == e - 232
    ensures PackTo(ROOT_DOTS, s, 9) == 2280 && PackTo(CHILD_DOTS, s, 9) == 2280
  {
    hide Place, ExactFills, PackTo;
    NothingPacked(s);
    for k := 0 to 8
      invariant PackTo(ROOT_DOTS, s, k) == ROOT_DOTS + 232 * k + (if k == 8 then e - 232 else 0)
      invariant PackTo(CHILD_DOTS, s, k) == CHILD_DOTS + 232 * k + (if k == 8 then e - 232 else 0)
      invariant ExactFills(ROOT_DOTS, s, k) == 0
    {
      PackToStep(ROOT_DOTS, s, k);
      PackToStep(CHILD_DOTS, s, k);
      ExactFillsStep(ROOT_DOTS, s, k);
      PlaceInside(PackTo(ROOT_DOTS, s, k), s[k]);
      PlaceInside(PackTo(CHILD_DOTS, s, k), s[k]);
    }
    PackToStep(ROOT_DOTS, s, 8);
    PackToStep(CHILD_DOTS, s, 8);
    ExactFillsStep(ROOT_DOTS, s, 8);
    PlaceBeyond(PackTo(ROOT_DOTS, s, 8));
    PlaceBeyond(PackTo(CHILD_DOTS, s, 8));
  }

  lemma NothingPacked(s: seq<nat>)
    ensures PackTo(ROOT_DOTS, s, 0) == ROOT_DOTS && PackTo(CHILD_DOTS, s, 0) == CHILD_DOTS
    ensures ExactFills(ROOT_DOTS, s, 0) == 0
  {
  }

  lemma PlaceBeyond(pos: nat)
    requires 1816 < pos <= 2048
    ensures Place(pos, 232) == 2280
  {
  }
}
