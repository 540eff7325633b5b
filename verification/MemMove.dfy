/** `memmove` and its primitive `memcpy` (kernel_api/common/src/util.rs:27-92), over one flat memory of bytes
    addressed by absolute indices; source and destination may overlap in any way. */
module MemMove {
  import opened Bytes

  // ---------------------------------------------------------------- memcpy

  /** Memory after `rep movsb` has moved `n` bytes in ascending order: a byte is read when its turn comes. */
  function Ascending(mem: seq<byte>, dst: nat, src: nat, n: nat): (r: seq<byte>)
    requires dst + n <= |mem| && src + n <= |mem|
    ensures |r| == |mem|
  {
    if n == 0 then mem
    else
      var before := Ascending(mem, dst, src, n - 1);
      before[dst + n - 1 := before[src + n - 1]]
  }

  /** Memory after the bytes of the source, as they were, have been put at the destination. */
  function Moved(mem: seq<byte>, dst: nat, src: nat, n: nat): (r: seq<byte>)
    requires dst + n <= |mem| && src + n <= |mem|
    ensures |r| == |mem|
  {
    mem[..dst] + mem[src..src + n] + mem[dst + n..]
  }

  /** Ascending copying moves the bytes when the destination starts first or lies behind the source. */
  lemma {:induction false} AscendingMoves(mem: seq<byte>, dst: nat, src: nat, n: nat)
    requires dst + n <= |mem| && src + n <= |mem|
    requires dst <= src || src + n <= dst
    ensures Ascending(mem, dst, src, n) == Moved(mem, dst, src, n)
  {
    if n > 0 {
      AscendingMoves(mem, dst, src, n - 1);
    }
  }

  lemma {:induction false} AscendingFrame(mem: seq<byte>, dst: nat, src: nat, n: nat)
    requires dst + n <= |mem| && src + n <= |mem|
    ensures forall i :: 0 <= i < |mem| && !(dst <= i < dst + n) ==> Ascending(mem, dst, src, n)[i] == mem[i]
  {
    if n > 0 {
      AscendingFrame(mem, dst, src, n - 1);
    }
  }

  /** When the destination starts inside the source, the bytes ahead of it are repeated over and over. */
  lemma {:induction false} AscendingRepeats(mem: seq<byte>, dst: nat, src: nat, n: nat, i: nat)
    requires dst + n <= |mem| && src < dst <= i < dst + n
    ensures Ascending(mem, dst, src, n)[i] == Ascending(mem, dst, src, n)[i - (dst - src)]
  {
    if i < dst + n - 1 {
      AscendingRepeats(mem, dst, src, n - 1, i);
    }
  }

  /** The source repeats itself at the distance of the destination. */
  ghost predicate HasPeriod(mem: seq<byte>, dst: nat, src: nat, n: nat)
    requires dst + n <= |mem| && src < dst
  {
    forall i :: dst <= i < src + n ==> mem[i] == mem[i - (dst - src)]
  }

  /** So it moves the bytes exactly when the source has that period already. */
  lemma {:induction false} AscendingMovesExactlyWhen(mem: seq<byte>, dst: nat, src: nat, n: nat)
    requires dst + n <= |mem| && src < dst < src + n
    ensures Ascending(mem, dst, src, n) == Moved(mem, dst, src, n) <==> HasPeriod(mem, dst, src, n)
  {
    hide Ascending;
    var r, m, overhang := Ascending(mem, dst, src, n), Moved(mem, dst, src, n), dst - src;
    AscendingFrame(mem, dst, src, n);
    assert forall i :: dst <= i < dst + n ==> m[i] == mem[i - overhang];
    if r == m {
      forall i | dst <= i < src + n
        ensures mem[i] == mem[i - overhang]
      {
        var j := i + overhang;
        assert j - overhang == i && m[j] == mem[j - overhang];
        AscendingRepeats(mem, dst, src, n, j);
      }
    }
    if HasPeriod(mem, dst, src, n) {
      for k := 0 to n
        invariant forall i :: dst <= i < dst + k ==> r[i] == m[i]
      {
        var i := dst + k;
        AscendingRepeats(mem, dst, src, n, i);
        if k >= overhang {
          assert r[i - overhang] == m[i - overhang] == mem[i - overhang - overhang];
        }
      }
      assert r == m;
    }
  }

  /** `memcpy`. */
  method MemCpy(mem: array<byte>, dst: nat, src: nat, n: nat)
    requires dst + n <= mem.Length && src + n <= mem.Length
    modifies mem
    ensures mem[..] == Ascending(old(mem[..]), dst, src, n)
  {
    for i := 0 to n
      invariant mem[..] == Ascending(old(mem[..]), dst, src, i)
    {
      mem[dst + i] := mem[src + i];
    }
  }

  // ---------------------------------------------------------------- memmove

  /** A store of eight bytes, which needs an aligned address. */
  method WriteU64(mem: array<byte>, address: nat, val: seq<byte>)
    requires |val| == 8 && address + 8 <= mem.Length
    requires address % 8 == 0
    modifies mem
    ensures mem[..] == old(mem[..])[..address] + val + old(mem[..])[address + 8..]
  {
    for i := 0 to 8
      invariant mem[..] == old(mem[..])[..address] + val[..i] + old(mem[..])[address + i..]
    {
      mem[address + i] := val[i];
    }
  }

  /** The upper part of the bytes, from offset `n` to `whole`, has been moved; the lower part of the source is
      still as it was. */
  ghost predicate UpperMoved(was: seq<byte>, now: seq<byte>, dst: nat, src: nat, n: nat, whole: nat) {
    && |now| == |was| && n <= whole && src <= dst && dst + whole <= |was|
    && (forall i :: 0 <= i < |was| && !(dst + n <= i < dst + whole) ==> now[i] == was[i])
    && (forall i :: dst + n <= i < dst + whole ==> now[i] == was[i - (dst - src)])
  }

  /** Moving a further piece right below keeps it so. */
  lemma PieceMoved(was: seq<byte>, now: seq<byte>, next: seq<byte>, dst: nat, src: nat, n: nat, whole: nat, m: nat)
    requires UpperMoved(was, now, dst, src, n, whole) && m <= n
    requires next == Moved(now, dst + m, src + m, n - m)
    ensures UpperMoved(was, next, dst, src, m, whole)
  {
    forall i | dst + m <= i < dst + n
      ensures next[i] == was[i - (dst - src)]
    {
      assert next[i] == now[i - (dst - src)];
    }
  }

  lemma WordMoved(now: seq<byte>, dst: nat, src: nat)
    requires dst + 8 <= |now| && src + 8 <= |now|
    ensures Moved(now, dst, src, 8) == now[..dst] + now[src..src + 8] + now[dst + 8..]
  {
  }

  lemma NothingMoved(was: seq<byte>, dst: nat, src: nat, whole: nat)
    requires dst + whole <= |was|
    ensures src <= dst ==> UpperMoved(was, was, dst, src, whole, whole)
  {
  }

  lemma AllMoved(was: seq<byte>, now: seq<byte>, dst: nat, src: nat, whole: nat)
    requires UpperMoved(was, now, dst, src, 0, whole)
    ensures now == Moved(was, dst, src, whole)
  {
  }

  /** The bytes below offset `n`, one at a time from the top, down to offset `low` or to an aligned end. */
  method MoveBytes(mem: array<byte>, dst: nat, src: nat, n: nat, toAlignment: bool, ghost was: seq<byte>,
                   ghost whole: nat)
    returns (n': nat)
    requires UpperMoved(was, mem[..], dst, src, n, whole)
    modifies mem
    ensures UpperMoved(was, mem[..], dst, src, n', whole) && n' <= n
    ensures if toAlignment then n' == 0 || (dst + n') % 8 == 0 else n' == 0
  {
    n' := n;
    while n' != 0 && (!toAlignment || (dst + n') % 8 != 0)
      invariant n' <= n && UpperMoved(was, mem[..], dst, src, n', whole)
    {
      ghost var now := mem[..];
      n' := n' - 1;
      mem[dst + n'] := mem[src + n'];
      PieceMoved(was, now, mem[..], dst, src, n' + 1, whole, n');
    }
  }

  /** One load and one aligned store of eight bytes. */
  method MoveWord(mem: array<byte>, dst: nat, src: nat)
    requires dst + 8 <= mem.Length && src + 8 <= mem.Length && dst % 8 == 0
    modifies mem
    ensures mem[..] == Moved(old(mem[..]), dst, src, 8)
  {
    hide Moved;
    WordMoved(mem[..], dst, src);
    var val := mem[src..src + 8];
    WriteU64(mem, dst, val);
  }

  /** The strategy for a small overhang: bytes down to an aligned end, eight bytes at a time, the bytes left. */
  method MoveWords(mem: array<byte>, dst: nat, src: nat, whole: nat)
    requires src <= dst && dst + whole <= mem.Length
    modifies mem
    ensures mem[..] == Moved(old(mem[..]), dst, src, whole)
  {
    hide UpperMoved, Moved;
    ghost var was := mem[..];
    NothingMoved(was, dst, src, whole);
    var n: nat := MoveBytes(mem, dst, src, whole, true, was, whole);
    while n >= 8
      invariant UpperMoved(was, mem[..], dst, src, n, whole) && n <= whole && (n == 0 || (dst + n) % 8 == 0)
    {
      ghost var now := mem[..];
      n := n - 8;
      MoveWord(mem, dst + n, src + n);
      PieceMoved(was, now, mem[..], dst, src, n + 8, whole, n);
    }
    n := MoveBytes(mem, dst, src, n, false, was, whole);
    AllMoved(was, mem[..], dst, src, whole);
  }

  /** `memmove`: whatever the overlap, afterwards the destination holds the bytes the source held, and all other
      memory is unchanged. */
  method MemMove(mem: array<byte>, dst: nat, src: nat, whole: nat) returns (result: nat)
    requires dst + whole <= mem.Length && src + whole <= mem.Length
    modifies mem
    ensures mem[..] == Moved(old(mem[..]), dst, src, whole)
    ensures forall i :: dst <= i < dst + whole ==> mem[i] == old(mem[i - dst + src])
    ensures forall i :: 0 <= i < mem.Length && !(dst <= i < dst + whole) ==> mem[i] == old(mem[i])
    ensures result == dst
  {
    hide Ascending, UpperMoved, Moved;
    ghost var was := mem[..];
    NothingMoved(was, dst, src, whole);
    var n: nat := whole;
    if dst > src && src + n > dst {
      var overhang := dst - src;
      if overhang < 64 {
        MoveWords(mem, dst, src, n);
        MovedIs(was, mem[..], dst, src, whole);
        return dst;
      }
      while n >= overhang
        invariant n <= whole && UpperMoved(was, mem[..], dst, src, n, whole)
      {
        ghost var now := mem[..];
        n := n - overhang;
        // Source and destination of this chunk touch, and do not overlap.
        assert (src + n) + overhang <= dst + n;
        AscendingMoves(now, dst + n, src + n, overhang);
        MemCpy(mem, dst + n, src + n, overhang);
        PieceMoved(was, now, mem[..], dst, src, n + overhang, whole, n);
      }
      if n == 0 {
        AllMoved(was, mem[..], dst, src, whole);
        MovedIs(was, mem[..], dst, src, whole);
        return dst;
      }
      PieceMoved(was, mem[..], Moved(mem[..], dst, src, n), dst, src, n, whole, 0);
      AllMoved(was, Moved(mem[..], dst, src, n), dst, src, whole);
    }
    AscendingMoves(mem[..], dst, src, n);
    MemCpy(mem, dst, src, n);
    MovedIs(was, mem[..], dst, src, whole);
    return dst;
  }

  /** Byte by byte, without a name for the result. */
  lemma MovedIs(was: seq<byte>, now: seq<byte>, dst: nat, src: nat, n: nat)
    requires dst + n <= |was| && src + n <= |was| && now == Moved(was, dst, src, n)
    ensures |now| == |was|
    ensures forall i :: dst <= i < dst + n ==> now[i] == was[i - dst + src]
    ensures forall i :: 0 <= i < |was| && !(dst <= i < dst + n) ==> now[i] == was[i]
  {
  }
}
