/** Cylinder-head-sector addresses in the protective partition table (disk_image_generator/src/iso/utils.rs:90-118). */
module Partition {
  import opened Bytes
  import opened Image

  datatype Geometry = Geometry(heads: nat, sectors: nat)

  /** Geometries whose numbers fit the three bytes. */
  predicate Usable(g: Geometry) {
    1 <= g.heads <= 256 && 1 <= g.sectors <= 63
  }

  function Cylinder(lba: nat, g: Geometry): nat
    requires Usable(g)
  {
    var track: nat := lba / g.sectors;
    track / g.heads
  }

  /** Head, sector with the two high bits of the cylinder, low bits of the cylinder. A sector number of at most 63
      leaves those two bits free. */
  function ChsBytes(lba: nat, g: Geometry): (bytes: seq<byte>)
    requires Usable(g)
    ensures |bytes| == 3
  {
    var track, cylinder := lba / g.sectors, Cylinder(lba, g);
    var clipped := cylinder > 0x400;
    var head := if clipped then g.heads else track % g.heads;
    var sector := if clipped then g.sectors else lba % g.sectors + 1;
    var number := if clipped then 0x3FF else cylinder;
    [U8(head), U8(sector + 64 * (number / 256 % 4)), U8(number)]
  }

  /** The address that a partition table entry with these bytes stands for. */
  function Decode(bytes: seq<byte>, g: Geometry): int
    requires |bytes| == 3
  {
    var cylinder := bytes[1] as int / 64 * 256 + bytes[2] as int;
    (cylinder * g.heads + bytes[0] as int) * g.sectors + bytes[1] as int % 64 - 1
  }

  /** `write_lba_to_cls`. */
  method WriteLbaToCls(w: Writer, lba: nat, g: Geometry)
    requires w.Valid() && Usable(g)
    modifies w
    ensures w.Wrote(ChsBytes(lba, g))
  {
    w.Mark();
    var sectorNumber := lba % g.sectors + 1;
    var tmp := lba / g.sectors;
    var headNumber := tmp % g.heads;
    var cylinderNumber := tmp / g.heads;
    if cylinderNumber > 0x400 {
      cylinderNumber, headNumber, sectorNumber := 0x3FF, g.heads, g.sectors;
    }
    sectorNumber := sectorNumber + 64 * (cylinderNumber / 256 % 4);
    cylinderNumber := cylinderNumber % 256;
    w.WriteU8(U8(headNumber));
    w.WriteU8(U8(sectorNumber));
    w.WriteU8(U8(cylinderNumber));
    assert w.run == ChsBytes(lba, g);
  }

  /** Packing and taking apart again: a cylinder of ten bits comes out, the 11-bit 1024 comes out as 0. */
  lemma Unpack(head: nat, sector: nat, number: nat)
    requires 1 <= sector <= 63 && number <= 0x400
    ensures var middle := U8(sector + 64 * (number / 256 % 4)) as int;
      && middle % 64 == sector
      && middle / 64 * 256 + U8(number) as int == number % 0x400
  {
    var q := number / 256;
    assert q == 0 || q == 1 || q == 2 || q == 3 || q == 4;
  }

  lemma DecodeInside(lba: nat, g: Geometry)
    requires Usable(g) && Cylinder(lba, g) <= 0x400
    ensures Decode(ChsBytes(lba, g), g) ==
      (Cylinder(lba, g) % 0x400 * g.heads + lba / g.sectors % g.heads) * g.sectors + lba % g.sectors
  {
    hide U8, Cylinder;
    var track := lba / g.sectors;
    Unpack(track % g.heads, lba % g.sectors + 1, Cylinder(lba, g));
    SmallHead(track % g.heads);
  }

  lemma ClippedIs(lba: nat, g: Geometry)
    requires Usable(g) && Cylinder(lba, g) > 0x400
    ensures ChsBytes(lba, g) == [U8(g.heads), U8(g.sectors + 0xC0), 0xFF]
  {
    hide Cylinder;
  }

  lemma DecodeClipped(lba: nat, g: Geometry)
    requires Usable(g) && Cylinder(lba, g) > 0x400
    ensures Decode(ChsBytes(lba, g), g) == (0x3FF * g.heads + U8(g.heads) as int) * g.sectors + g.sectors - 1
    ensures U8(g.heads) as int <= g.heads
  {
    hide U8, Cylinder;
    Unpack(g.heads, g.sectors, 0x3FF);
    SmallHead(g.heads);
  }

  /** A head and a sector that the disk has. */
  predicate WellFormed(bytes: seq<byte>, g: Geometry)
    requires |bytes| == 3
  {
    (bytes[0] as int) < g.heads && 1 <= bytes[1] as int % 64 <= g.sectors
  }

  lemma InsideIsWellFormed(lba: nat, g: Geometry)
    requires Usable(g) && Cylinder(lba, g) <= 0x400
    ensures WellFormed(ChsBytes(lba, g), g)
  {
    hide U8, Cylinder;
    Unpack(lba / g.sectors % g.heads, lba % g.sectors + 1, Cylinder(lba, g));
    SmallHead(lba / g.sectors % g.heads);
  }

  /** The three bytes stand for the address exactly up to cylinder 1023, and then name a head and a sector of the disk:
      1024 is
      not caught by the clipping and comes out as cylinder 0; from 1025 on the three bytes are always the same. */
  lemma ChsRoundTrip(lba: nat, g: Geometry)
    requires Usable(g)
    ensures Decode(ChsBytes(lba, g), g) == lba <==> Cylinder(lba, g) <= 1023
    ensures Cylinder(lba, g) <= 1023 ==> WellFormed(ChsBytes(lba, g), g)
    ensures Cylinder(lba, g) == 1024 ==>
      Decode(ChsBytes(lba, g), g) == lba / g.sectors % g.heads * g.sectors + lba % g.sectors
    ensures Cylinder(lba, g) > 1024 ==> ChsBytes(lba, g) == [U8(g.heads), U8(g.sectors + 0xC0), 0xFF]
  {
    hide Decode, ChsBytes, U8, WellFormed;
    if Cylinder(lba, g) <= 1023 {
      InsideIsWellFormed(lba, g);
    }
    if Cylinder(lba, g) > 1024 {
      ClippedIs(lba, g);
    }
    var track, rest := lba / g.sectors, lba % g.sectors;
    var cylinder, head := Cylinder(lba, g), track % g.heads;
    assert lba == track * g.sectors + rest;
    assert track == cylinder * g.heads + head;
    if cylinder <= 0x400 {
      DecodeInside(lba, g);
      if cylinder == 0x400 {
        FirstTrack(cylinder, g.heads, head);
        Less(head, track, g.sectors, rest);
      }
    } else {
      DecodeClipped(lba, g);
      var wrong := 0x3FF * g.heads + U8(g.heads) as int;
      LaterTrack(cylinder, g.heads, head, wrong);
      Less(wrong, track, g.sectors, g.sectors - 1);
    }
  }

  /** The first block of cylinder 1024 comes back as block 0. */
  lemma Cylinder1024Fails()
    ensures var g := Geometry(64, 32);
      Usable(g) && Cylinder(2097152, g) == 1024 && Decode(ChsBytes(2097152, g), g) == 0
  {
    hide ChsBytes, Decode, U8;
    DecodeInside(2097152, Geometry(64, 32));
  }

  lemma SmallHead(head: nat)
    requires head <= 256
    ensures U8(head) as int == if head == 256 then 0 else head
  {
  }

  lemma FirstTrack(cylinder: nat, heads: nat, head: nat)
    requires cylinder == 0x400 && head < heads
    ensures head < cylinder * heads + head
  {
  }

  lemma LaterTrack(cylinder: nat, heads: nat, head: nat, wrong: nat)
    requires cylinder > 0x400 && 0 < heads && wrong <= 0x400 * heads
    ensures wrong < cylinder * heads + head
  {
    assert 0x401 * heads <= cylinder * heads;
  }

  lemma Less(a: nat, b: nat, m: nat, r: nat)
    requires a < b && r < m
    ensures a * m + r < b * m
  {
    assert (a + 1) * m <= b * m;
  }
}
