/** The output file of the image writers: bytes, and a position that can be moved anywhere. */
module Image {
  import opened Bytes
  import opened Packing

  /** Byte `i` of a file. A hole and the part past the end read as zero. */
  function At(data: seq<byte>, i: nat): byte {
    if i < |data| then data[i] else 0
  }

  /** The bytes `bytes` are found in `data` from offset `offset` on. */
  ghost predicate Holds(data: seq<byte>, offset: nat, bytes: seq<byte>) {
    forall j: nat :: offset <= j < offset + |bytes| ==> At(data, j) == bytes[j - offset]
  }

  /** `data` reads as zero on [lo, hi). */
  ghost predicate Blank(data: seq<byte>, lo: nat, hi: nat) {
    forall j: nat :: lo <= j < hi ==> At(data, j) == 0
  }

  /** `before` and `after` read the same everywhere but on [lo, hi). */
  ghost predicate SameOutside(before: seq<byte>, after: seq<byte>, lo: nat, hi: nat) {
    forall j: nat :: j < lo || hi <= j ==> At(after, j) == At(before, j)
  }

  /** The file after `bytes` is written at `pos`: a gap past the end is filled with zeros, what lies after
      the written bytes stays, and writing nothing changes nothing. */
  function Overwrite(data: seq<byte>, pos: nat, bytes: seq<byte>): (r: seq<byte>)
    ensures |r| == if bytes == [] || pos + |bytes| <= |data| then |data| else pos + |bytes|
    ensures bytes == [] ==> r == data
    ensures forall j: nat :: At(r, j) == if pos <= j < pos + |bytes| then bytes[j - pos] else At(data, j)
  {
    if bytes == [] then data
    else
      var full := if |data| < pos then data + Zeros(pos - |data|) else data;
      full[..pos] + bytes + (if pos + |bytes| <= |full| then full[pos + |bytes|..] else [])
  }

  predicate WholeSectors(data: seq<byte>) {
    |data| % 2048 == 0
  }

  /** The file has whole sectors, or ends where the last write ended. */
  predicate EndsAt(data: seq<byte>, pos: nat) {
    |data| >= pos && (WholeSectors(data) || |data| == pos)
  }

  lemma EndsAfter(data: seq<byte>, pos: nat, bytes: seq<byte>)
    requires bytes != [] && (WholeSectors(data) || |data| <= pos)
    ensures EndsAt(Overwrite(data, pos, bytes), pos + |bytes|)
  {
    hide Overwrite;
  }

  lemma SameBytes(a: seq<byte>, b: seq<byte>)
    requires |a| == |b|
    requires forall j: nat :: At(a, j) == At(b, j)
    ensures a == b
  {
    assert forall j :: 0 <= j < |a| ==> At(a, j) == a[j] && At(b, j) == b[j];
  }

  lemma OverwriteFrame(data: seq<byte>, pos: nat, bytes: seq<byte>)
    ensures SameOutside(data, Overwrite(data, pos, bytes), pos, pos + |bytes|)
    ensures Holds(Overwrite(data, pos, bytes), pos, bytes)
  {
  }

  /** Appending to bytes that are there. */
  lemma OverwriteAppends(data: seq<byte>, offset: nat, bytes: seq<byte>, more: seq<byte>)
    requires Holds(data, offset, bytes)
    ensures Holds(Overwrite(data, offset + |bytes|, more), offset, bytes + more)
  {
  }

  lemma HoldsKept(before: seq<byte>, after: seq<byte>, lo: nat, hi: nat, offset: nat, bytes: seq<byte>)
    requires SameOutside(before, after, lo, hi) && Holds(before, offset, bytes)
    requires offset + |bytes| <= lo || hi <= offset
    ensures Holds(after, offset, bytes)
  {
  }

  lemma BlankKept(before: seq<byte>, after: seq<byte>, lo: nat, hi: nat, from: nat, to: nat)
    requires SameOutside(before, after, lo, hi) && Blank(before, from, to)
    requires to <= lo || hi <= from
    ensures Blank(after, from, to)
  {
  }

  lemma SameOutsideTwice(a: seq<byte>, b: seq<byte>, c: seq<byte>, lo: nat, hi: nat, from: nat, to: nat)
    requires SameOutside(a, b, lo, hi) && SameOutside(b, c, from, to) && lo <= from && to <= hi
    ensures SameOutside(a, c, lo, hi)
  {
  }

  lemma BlankPart(data: seq<byte>, lo: nat, hi: nat, from: nat, to: nat)
    requires Blank(data, lo, hi) && lo <= from && to <= hi
    ensures Blank(data, from, to)
  {
  }

  lemma BlankIsZeros(data: seq<byte>, lo: nat, hi: nat)
    requires lo <= hi
    ensures Blank(data, lo, hi) <==> Holds(data, lo, Zeros(hi - lo))
  {
  }

  lemma HoldsSlice(data: seq<byte>, offset: nat, bytes: seq<byte>)
    requires Holds(data, offset, bytes) && offset + |bytes| <= |data|
    ensures data[offset..offset + |bytes|] == bytes
  {
    assert forall j: nat :: offset <= j < offset + |bytes| ==> At(data, j) == data[j];
  }

  lemma HoldsPart(data: seq<byte>, offset: nat, bytes: seq<byte>, lo: nat, hi: nat)
    requires Holds(data, offset, bytes) && lo <= hi <= |bytes|
    ensures Holds(data, offset + lo, bytes[lo..hi])
  {
  }

  lemma HoldsBoth(data: seq<byte>, offset: nat, first: seq<byte>, second: seq<byte>)
    ensures Holds(data, offset, first + second) <==> Holds(data, offset, first) && Holds(data, offset + |first|, second)
  {
    var both := first + second;
    if Holds(data, offset, both) {
      assert both[0..|first|] == first && both[|first|..|both|] == second;
      HoldsPart(data, offset, both, 0, |first|);
      HoldsPart(data, offset, both, |first|, |both|);
    }
  }

  /** Two writes, the second where the first ended, are one write. */
  lemma OverwriteTwice(data: seq<byte>, pos: nat, first: seq<byte>, second: seq<byte>)
    ensures Overwrite(Overwrite(data, pos, first), pos + |first|, second) == Overwrite(data, pos, first + second)
  {
    hide Overwrite;
    if first == [] {
      assert first + second == second;
    } else if second == [] {
      assert first + second == first;
    } else {
      SameBytes(Overwrite(Overwrite(data, pos, first), pos + |first|, second),
                Overwrite(data, pos, first + second));
    }
  }

  /** A seekable writer. The ghost fields tell what was written since the last seek or mark: `base` is the
      file then, `start` the position, `run` the bytes written from there. */
  class Writer {
    var data: seq<byte>
    var pos: nat
    ghost var base: seq<byte>
    ghost var start: nat
    ghost var run: seq<byte>

    ghost predicate Valid()
      reads this
    {
      data == Overwrite(base, start, run) && pos == start + |run|
    }

    /** Since the old state `bytes` were written at the position, which moved behind them. */
    twostate predicate Wrote(bytes: seq<byte>)
      reads this
    {
      Valid() && data == Overwrite(old(data), old(pos), bytes) && pos == old(pos) + |bytes|
    }

    /** The same write, seen as more of the current run. */
    twostate predicate Appended(bytes: seq<byte>)
      reads this
    {
      Valid() && base == old(base) && start == old(start) && run == old(run) + bytes
    }

    constructor (initial: seq<byte>)
      ensures Valid() && data == initial && pos == |initial|
    {
      data, pos := initial, |initial|;
      base, start, run := initial, |initial|, [];
    }

    ghost method Mark()
      modifies `base, `start, `run
      ensures Valid() && base == data && start == pos && run == []
    {
      base, start, run := data, pos, [];
    }

    method SeekTo(p: nat)
      modifies this
      ensures Valid() && data == old(data) && pos == p && run == []
    {
      pos := p;
      Mark();
    }

    method WriteAll(bytes: seq<byte>)
      requires Valid()
      modifies this
      ensures Appended(bytes)
    {
      OverwriteTwice(base, start, run, bytes);
      data := Overwrite(data, pos, bytes);
      pos := pos + |bytes|;
      run := run + bytes;
    }

    method WriteU8(b: byte)
      requires Valid()
      modifies this
      ensures Appended([b])
    {
      WriteAll([b]);
    }

    method WriteU16(order: Order, v: nat)
      requires Valid()
      modifies this
      ensures Appended(Ordered16(order, v))
    {
      WriteAll(Ordered16(order, v));
    }

    method WriteU32(order: Order, v: nat)
      requires Valid()
      modifies this
      ensures Appended(Ordered32(order, v))
    {
      WriteAll(Ordered32(order, v));
    }

    /** `write_bothendian!` on 32 bits. */
    method WriteBoth32(v: nat)
      requires Valid()
      modifies this
      ensures Appended(Both32(v))
    {
      WriteU32(LittleEndian, v);
      WriteU32(BigEndian, v);
      assert run == old(run) + Both32(v);
    }

    /** `write_bothendian!` on 16 bits. */
    method WriteBoth16(v: nat)
      requires Valid()
      modifies this
      ensures Appended(Both16(v))
    {
      WriteU16(LittleEndian, v);
      WriteU16(BigEndian, v);
      assert run == old(run) + Both16(v);
    }
  }

  /** Zeros after `pos` that complete a sector, as written behind tables, extents and files. */
  function Padding(pos: nat): (zeros: seq<byte>)
    ensures (pos + |zeros|) % 2048 == 0 && |zeros| < 2048
    ensures forall i :: 0 <= i < |zeros| ==> zeros[i] == 0
  {
    Zeros(AlignUp(pos) - pos)
  }

  lemma PaddingEnds(data: seq<byte>, pos: nat)
    requires EndsAt(data, pos)
    ensures WholeSectors(Overwrite(data, pos, Padding(pos)))
  {
    hide Overwrite;
  }

  /** The padding that ends tables, extents and files: `diff_size` is what the last sector already holds. */
  method PadSector(w: Writer)
    requires w.Valid()
    modifies w
    ensures w.Wrote(Padding(old(w.pos)))
  {
    w.Mark();
    var diffSize := w.pos - (w.pos - w.pos % 2048);
    if diffSize != 0 {
      w.WriteAll(Zeros(2048 - diffSize));
    }
    assert w.run == Padding(w.start);
  }
}

/** Reading numbers and byte strings back from an image. */
module Reading {
  import opened Bytes
  import opened Image

  function Read32(order: Order, data: seq<byte>, o: nat): nat {
    Decode32(order, At(data, o), At(data, o + 1), At(data, o + 2), At(data, o + 3))
  }

  /** The bytes [o, o + n) of the image. */
  function ReadBytes(data: seq<byte>, o: nat, n: nat): (bytes: seq<byte>)
    ensures |bytes| == n
    ensures forall i :: 0 <= i < n ==> bytes[i] == At(data, o + i)
  {
    seq(n, i requires 0 <= i < n => At(data, o + i))
  }

  function Read16(order: Order, data: seq<byte>, o: nat): nat {
    Decode16(order, At(data, o), At(data, o + 1))
  }

  lemma Read32Held(order: Order, data: seq<byte>, o: nat, v: nat)
    requires Holds(data, o, Ordered32(order, v))
    ensures Read32(order, data, o) == U32(v)
  {
    Decode32Encoded(order, v);
    var s := Ordered32(order, v);
    assert At(data, o) == s[0] && At(data, o + 1) == s[1] && At(data, o + 2) == s[2] && At(data, o + 3) == s[3];
  }

  lemma ReadBoth32Held(data: seq<byte>, o: nat, v: nat)
    requires Holds(data, o, Both32(v))
    ensures Read32(LittleEndian, data, o) == U32(v) && Read32(BigEndian, data, o + 4) == U32(v)
  {
    HoldsBoth(data, o, Le32(v), Be32(v));
    Read32Held(LittleEndian, data, o, v);
    Read32Held(BigEndian, data, o + 4, v);
  }

  lemma ReadBytesHeld(data: seq<byte>, o: nat, bytes: seq<byte>)
    requires Holds(data, o, bytes)
    ensures ReadBytes(data, o, |bytes|) == bytes
  {
    forall i | 0 <= i < |bytes|
      ensures At(data, o + i) == bytes[i]
    {
      var j := o + i;
      assert At(data, j) == bytes[j - o];
    }
  }

  lemma Read16Held(order: Order, data: seq<byte>, o: nat, v: nat)
    requires Holds(data, o, Ordered16(order, v))
    ensures Read16(order, data, o) == U16(v)
  {
    Decode16Encoded(order, v);
    var s := Ordered16(order, v);
    assert At(data, o) == s[0] && At(data, o + 1) == s[1];
  }

  lemma HoldsFirst(data: seq<byte>, o: nat, bytes: seq<byte>)
    requires Holds(data, o, bytes) && bytes != []
    ensures At(data, o) == bytes[0]
  {
  }
}
