/** The El Torito boot catalog (mod.rs:79-153): a file of the root directory that is empty when blocks are
    reserved and gets its 64 bytes, with the block of the boot image in them, afterwards. */
module BootCatalog {
  import opened Bytes
  import opened Image
  import opened Reading
  import opened DirectoryTree
  import opened Layout
  import opened Merge

  /** "boot.catalog" */
  const CATALOG_NAME: seq<byte> :=
    [0x62, 0x6F, 0x6F, 0x74, 0x2E, 0x63, 0x61, 0x74, 0x61, 0x6C, 0x6F, 0x67]

  datatype BootOptions = BootOptions(path: seq<byte>, sectorCount: nat, noBoot: bool)

  /** `create_boot_catalog` adds this file. */
  const EMPTY_CATALOG: File := File(CATALOG_NAME, 0, 0, [])

  /** The validation entry and the initial entry. */
  function CatalogBytes(options: BootOptions, lba: nat): (bytes: seq<byte>)
    ensures |bytes| == 64
  {
    ([0x1, 0xEF] + Le16(0) + Zeros(0x16) + Le32(0x66AA_0000) + [0x55, 0xAA])
    + ([if options.noBoot then 0x0 else 0x88, 0x0] + Le16(0) + [0x0, 0x0] + Le16(options.sectorCount) + Le32(lba)
       + Zeros(0x14))
  }

  /** Sum of the first `n` little-endian 16-bit words. */
  function WordSum(bytes: seq<byte>, n: nat): nat
    requires 2 * n <= |bytes|
  {
    if n == 0 then 0
    else WordSum(bytes, n - 1) + Decode16(LittleEndian, bytes[2 * n - 2], bytes[2 * n - 1])
  }

  /** The fixed checksum is right: the words of the validation entry, for platform 0xEF, add up to 0 modulo 2^16, and
      its key bytes are in place. The initial entry is for no emulation, with the default load segment and system type
      0, and holds the number of sectors and the block of the boot image. Everything else is zero. */
  lemma CatalogIsValid(options: BootOptions, lba: nat, data: seq<byte>, o: nat)
    requires Holds(data, o, CatalogBytes(options, lba))
    ensures WordSum(CatalogBytes(options, lba), 16) % 0x1_0000 == 0
    ensures At(data, o + 30) == 0x55 && At(data, o + 31) == 0xAA
    ensures At(data, o) == 1 && At(data, o + 1) == 0xEF && Blank(data, o + 2, o + 28)
    ensures At(data, o + 32) == (if options.noBoot then 0 else 0x88)
    ensures Blank(data, o + 33, o + 38) && Blank(data, o + 44, o + 64)
    ensures Read16(LittleEndian, data, o + 38) == U16(options.sectorCount)
    ensures Read32(LittleEndian, data, o + 40) == U32(lba)
  {
    var bytes := CatalogBytes(options, lba);
    var validation := [0x1, 0xEF] + Le16(0) + Zeros(0x16) + Le32(0x66AA_0000) + [0x55, 0xAA];
    var start := [if options.noBoot then 0x0 else 0x88, 0x0] + Le16(0) + [0x0, 0x0];
    ValidationSum(bytes, validation);
    HoldsFields(data, o, validation, start, Le16(options.sectorCount), Le32(lba), Zeros(0x14));
    Read16Held(LittleEndian, data, o + 38, options.sectorCount);
    Read32Held(LittleEndian, data, o + 40, lba);
    hide Holds;
    ValidationRead(data, o, validation);
    StartRead(data, o + 32, start, if options.noBoot then 0x0 else 0x88);
    BlankIsZeros(data, o + 44, o + 64);
  }

  lemma ValidationRead(data: seq<byte>, o: nat, validation: seq<byte>)
    requires validation == [0x1, 0xEF] + Le16(0) + Zeros(0x16) + Le32(0x66AA_0000) + [0x55, 0xAA]
    requires Holds(data, o, validation)
    ensures At(data, o) == 1 && At(data, o + 1) == 0xEF && Blank(data, o + 2, o + 28)
    ensures At(data, o + 30) == 0x55 && At(data, o + 31) == 0xAA
  {
    assert forall j: nat :: o <= j < o + 32 ==> At(data, j) == validation[j - o];
    assert validation[0] == 0x1 && validation[1] == 0xEF && validation[30] == 0x55 && validation[31] == 0xAA;
    assert forall i :: 2 <= i < 28 ==> validation[i] == 0;
    assert At(data, o + 1) == validation[1] && At(data, o + 30) == validation[30] && At(data, o + 31) == validation[31];
  }

  lemma StartRead(data: seq<byte>, o: nat, start: seq<byte>, indicator: byte)
    requires start == [indicator, 0x0] + Le16(0) + [0x0, 0x0] && Holds(data, o, start)
    ensures At(data, o) == indicator && Blank(data, o + 1, o + 6)
  {
    assert forall j: nat :: o <= j < o + 6 ==> At(data, j) == start[j - o];
  }

  lemma HoldsFields(data: seq<byte>, o: nat, validation: seq<byte>, start: seq<byte>, count: seq<byte>,
                    block: seq<byte>, rest: seq<byte>)
    requires |validation| == 32 && |start| == 6 && |count| == 2 && |block| == 4
    requires Holds(data, o, validation + (start + count + block + rest))
    ensures Holds(data, o, validation) && Holds(data, o + 32, start)
    ensures Holds(data, o + 38, count) && Holds(data, o + 40, block) && Holds(data, o + 44, rest)
  {
    hide Holds;
    HoldsBoth(data, o, validation, start + count + block + rest);
    HoldsBoth(data, o + 32, start + count + block, rest);
    HoldsBoth(data, o + 32, start + count, block);
    HoldsBoth(data, o + 32, start, count);
  }

  lemma ValidationSum(bytes: seq<byte>, validation: seq<byte>)
    requires validation == [0x1, 0xEF] + Le16(0) + Zeros(0x16) + Le32(0x66AA_0000) + [0x55, 0xAA]
    requires |bytes| >= 32 && bytes[..32] == validation
    ensures WordSum(bytes, 16) == 0x2_0000
  {
    assert forall i :: 0 <= i < 32 ==> bytes[i] == bytes[..32][i];
    assert validation[0] == 0x1 && validation[1] == 0xEF;
    assert forall i :: 2 <= i < 28 ==> validation[i] == 0;
    assert validation[28] == 0xAA && validation[29] == 0x66 && validation[30] == 0x55 && validation[31] == 0xAA;
    assert WordSum(bytes, 1) == 0xEF01;
    ZeroWords(bytes, 14);
    assert WordSum(bytes, 15) == 0xEF01 + 0x66AA;
  }

  lemma {:induction false} ZeroWords(bytes: seq<byte>, n: nat)
    requires 1 <= n <= 14 && |bytes| >= 32 && forall i :: 2 <= i < 28 ==> bytes[i] == 0
    ensures WordSum(bytes, n) == WordSum(bytes, 1)
  {
    if n > 1 {
      ZeroWords(bytes, n - 1);
    }
  }

  // ---------------------------------------------------------------- filling it

  /** Position of the first file with the name. */
  function FileIndex(fs: seq<File>, name: seq<byte>): (r: Option<nat>)
    ensures r.Some? <==> FindFile(fs, name).Some?
    ensures r.Some? ==> r.value < |fs| && FindFile(fs, name) == Some(fs[r.value]) && fs[r.value].name == name
  {
    if fs == [] then None
    else if fs[0].name == name then Some(0)
    else match FileIndex(fs[1..], name)
         case None => None
         case Some(i) => Some(i + 1)
  }

  /** `fill_boot_catalog`: fails when the boot image or the catalog is not in the tree. */
  function FillCatalog(root: Dir, options: BootOptions): Option<Dir> {
    match (GetFile(root, options.path), FileIndex(root.files, CATALOG_NAME))
    case (Some(image), Some(i)) =>
      var bytes := CatalogBytes(options, image.lba);
      Some(root.(files := root.files[i := root.files[i].(data := bytes, size := |bytes|)]))
    case _ => None
  }

  /** The filled catalog takes the one block that was reserved for it while it was empty. */
  lemma CatalogKeepsBlocks(f: File, bytes: seq<byte>)
    requires FileBlocks(f) == 1 && |bytes| == 64
    ensures FileBlocks(f.(data := bytes, size := 64)) == 1
  {
  }

  /** A file replaced by one of the same block and number of blocks leaves the layout as it is. */
  lemma {:induction false} FilesLaidUpdate(fs: seq<File>, i: nat, f: File, lba: nat)
    requires i < |fs| && f.lba == fs[i].lba && FileBlocks(f) == FileBlocks(fs[i])
    ensures FilesBlocks(fs[i := f]) == FilesBlocks(fs)
    ensures FilesLaid(fs, lba) ==> FilesLaid(fs[i := f], lba)
    decreases |fs|
  {
    hide FileBlocks;
    if i > 0 {
      assert fs[i := f][1..] == fs[1..][i - 1 := f];
      FilesLaidUpdate(fs[1..], i - 1, f, lba + FileBlocks(fs[0]));
    } else {
      assert fs[i := f][1..] == fs[1..];
    }
  }

  /** Filling the catalog keeps the whole layout. */
  lemma FillKeepsLayout(root: Dir, options: BootOptions, lba: nat)
    requires RootLaid(root, lba) && RootFilesLaid(root) && FillCatalog(root, options).Some?
    requires FileIndex(root.files, CATALOG_NAME).Some? ==>
      FileBlocks(root.files[FileIndex(root.files, CATALOG_NAME).value]) == 1
    ensures var r := FillCatalog(root, options).value;
      RootLaid(r, lba) && RootFilesLaid(r) && ImageEnd(r) == ImageEnd(root) && ChildSizes(r) == ChildSizes(root)
  {
    hide Laid, FilesLaid, ForestFilesLaid, CatalogBytes, FileBlocks, GetFile, ExtentBlocks, ChildSizes, FileIndex;
    var i := FileIndex(root.files, CATALOG_NAME).value;
    var r := FillCatalog(root, options).value;
    CatalogKeepsBlocks(root.files[i], r.files[i].data);
    SameChildSizes(root, r);
    FilesLaidUpdate(root.files, i, r.files[i], ExtentsEnd(root));
  }
}
