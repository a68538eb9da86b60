/** The byte-copying routines of lib/mylib/string/string.c. */
module MemOps {
  import opened Bytes

  /** memcpy (lines 5-10) from memory that does not overlap the destination. */
  method Memcpy(a: array<byte>, dest: int, d: seq<byte>)
    requires 0 <= dest && dest + |d| <= a.Length
    modifies a
    ensures a[..] == Overwrite(old(a[..]), dest, d)
  {
    var k := 0;
    while k < |d|
      invariant 0 <= k <= |d|
      invariant forall i {:trigger a[i]} ::
        0 <= i < a.Length ==> a[i] == if dest <= i < dest + k then d[i - dest] else old(a[i])
    {
      a[dest + k] := d[k];
      k := k + 1;
    }
  }

  /** memset (lines 12-16). */
  method Memset(a: array<byte>, dest: int, c: byte, n: nat)
    requires 0 <= dest && dest + n <= a.Length
    modifies a
    ensures a[..] == Overwrite(old(a[..]), dest, seq(n, i => c))
  {
    var k := 0;
    while k < n
      invariant 0 <= k <= n
      invariant forall i {:trigger a[i]} :: 0 <= i < a.Length ==> a[i] == if dest <= i < dest + k then c else old(a[i])
    {
      a[dest + k] := c;
      k := k + 1;
    }
  }

  /** The bytes of b from dest on are those that a had from src on. */
  lemma Moved(a: seq<byte>, b: seq<byte>, dest: int, src: int, n: nat)
    requires |a| == |b| && 0 <= dest && dest + n <= |a| && 0 <= src && src + n <= |a|
    requires forall i {:trigger b[i]} ::
      0 <= i < |b| ==> b[i] == if dest <= i < dest + n then a[src + (i - dest)] else a[i]
    ensures b == Overwrite(a, dest, a[src..src + n])
  {
    var c := Overwrite(a, dest, a[src..src + n]);
    forall i | 0 <= i < |b|
      ensures b[i] == c[i]
    {
      OverwriteAt(a, dest, a[src..src + n], i);
    }
  }

  method MoveDown(a: array<byte>, dest: int, src: int, n: nat)
    requires 0 <= dest < src && src + n <= a.Length
    modifies a
    ensures a[..] == Overwrite(old(a[..]), dest, old(a[..])[src..src + n])
  {
    ghost var was := a[..];
    var k := 0;
    while k < n
      invariant 0 <= k <= n
      invariant forall i {:trigger a[i]} ::
        0 <= i < a.Length ==> a[i] == if dest <= i < dest + k then was[src + (i - dest)] else was[i]
    {
      a[dest + k] := a[src + k];
      k := k + 1;
    }
    Moved(was, a[..], dest, src, n);
  }

  method MoveUp(a: array<byte>, dest: int, src: int, n: nat)
    requires 0 <= src <= dest && dest + n <= a.Length
    modifies a
    ensures a[..] == Overwrite(old(a[..]), dest, old(a[..])[src..src + n])
  {
    ghost var was := a[..];
    var k := n;
    while k > 0
      invariant 0 <= k <= n
      invariant forall i {:trigger a[i]} ::
        0 <= i < a.Length ==> a[i] == if dest + k <= i < dest + n then was[src + (i - dest)] else was[i]
    {
      k := k - 1;
      a[dest + k] := a[src + k];
    }
    Moved(was, a[..], dest, src, n);
  }

  /** memmove (lines 18-28): from the front when the destination is lower, from
      the back otherwise, so that overlapping regions are copied as they were. */
  method Memmove(a: array<byte>, dest: int, src: int, n: nat)
    requires 0 <= dest && dest + n <= a.Length && 0 <= src && src + n <= a.Length
    modifies a
    ensures a[..] == Overwrite(old(a[..]), dest, old(a[..])[src..src + n])
  {
    if dest < src {
      MoveDown(a, dest, src, n);
    } else {
      MoveUp(a, dest, src, n);
    }
  }
}
