/** Byte sequences: big-endian words, 4-byte alignment, overwriting. */
module Bytes {

  type byte = x: int | 0 <= x < 256

  const U32 := 0x1_0000_0000

  /** FDT_TAGALIGN */
  function Align4(x: int): int { (x + 3) - (x + 3) % 4 }

  /** fdt32_to_cpu of the word at o. */
  function Get32(s: seq<byte>, o: int): (w: int)
    requires 0 <= o && o + 4 <= |s|
    ensures 0 <= w < U32
  {
    (s[o] as int) * 0x100_0000 + (s[o + 1] as int) * 0x1_0000 + (s[o + 2] as int) * 0x100 + (s[o + 3] as int)
  }

  /** cpu_to_fdt32 */
  function Word(w: int): (b: seq<byte>)
    requires 0 <= w < U32
    ensures |b| == 4
  {
    [w / 0x100_0000, w / 0x1_0000 % 0x100, w / 0x100 % 0x100, w % 0x100]
  }

  lemma WordReads(w: int)
    requires 0 <= w < U32
    ensures Get32(Word(w), 0) == w
  {
    assert w == w / 0x100 * 0x100 + w % 0x100;
    var x := w / 0x100;
    assert x == x / 0x100 * 0x100 + x % 0x100;
    assert w / 0x1_0000 == x / 0x100;
    var y := x / 0x100;
    assert y == y / 0x100 * 0x100 + y % 0x100;
    assert w / 0x100_0000 == y / 0x100 && y < 0x1_0000;
  }

  /** s with the bytes of d in place from o on. */
  function Overwrite(s: seq<byte>, o: int, d: seq<byte>): (r: seq<byte>)
    requires 0 <= o && o + |d| <= |s|
    ensures |r| == |s|
  {
    s[..o] + d + s[o + |d|..]
  }

  lemma OverwriteAt(s: seq<byte>, o: int, d: seq<byte>, k: int)
    requires 0 <= o && o + |d| <= |s| && 0 <= k < |s|
    ensures Overwrite(s, o, d)[k] == if o <= k < o + |d| then d[k - o] else s[k]
  {
  }

  /** A slice on either side of the overwritten part. */
  lemma OverwriteOutside(s: seq<byte>, o: int, d: seq<byte>, a: int, b: int)
    requires 0 <= o && o + |d| <= |s| && 0 <= a <= b <= |s| && (b <= o || o + |d| <= a)
    ensures Overwrite(s, o, d)[a..b] == s[a..b]
  {
  }

  lemma OverwriteInside(s: seq<byte>, o: int, d: seq<byte>)
    requires 0 <= o && o + |d| <= |s|
    ensures Overwrite(s, o, d)[o..o + |d|] == d
  {
  }

  lemma OverwriteAll(s: seq<byte>, d: seq<byte>)
    requires |s| == |d|
    ensures Overwrite(s, 0, d) == d
  {
  }

  lemma OverwriteMore(s: seq<byte>, o: int, d: seq<byte>, e: seq<byte>)
    requires 0 <= o && o + |d| + |e| <= |s|
    ensures Overwrite(Overwrite(s, o, d), o + |d|, e) == Overwrite(s, o, d + e)
  {
  }

  lemma OverwriteWithin(s: seq<byte>, o: int, d: seq<byte>, k: int, e: seq<byte>)
    requires 0 <= o && o + |d| <= |s| && 0 <= k && k + |e| <= |d|
    ensures Overwrite(Overwrite(s, o, d), o + k, e) == Overwrite(s, o, Overwrite(d, k, e))
  {
  }

  /** Overwriting inside a slice. */
  lemma OverwriteSlice(s: seq<byte>, a: int, n: int, o: int, d: seq<byte>)
    requires 0 <= a && 0 <= o && o + |d| <= n && a + n <= |s|
    ensures Overwrite(s, a + o, d)[a..a + n] == Overwrite(s[a..a + n], o, d)
  {
    var l, r := Overwrite(s, a + o, d)[a..a + n], Overwrite(s[a..a + n], o, d);
    forall k | 0 <= k < n
      ensures l[k] == r[k]
    {
      OverwriteAt(s, a + o, d, a + k);
      OverwriteAt(s[a..a + n], o, d, k);
    }
  }

  /** Words depend on their four bytes. */
  lemma SameWord(s: seq<byte>, t: seq<byte>, o: int, p: int)
    requires 0 <= o && o + 4 <= |s| && 0 <= p && p + 4 <= |t| && s[o..o + 4] == t[p..p + 4]
    ensures Get32(s, o) == Get32(t, p)
  {
    assert s[o..o + 4][0] == s[o] && s[o..o + 4][1] == s[o + 1] && s[o..o + 4][2] == s[o + 2]
    && s[o..o + 4][3] == s[o + 3];
    assert t[p..p + 4][0] == t[p] && t[p..p + 4][1] == t[p + 1] && t[p..p + 4][2] == t[p + 2]
    && t[p..p + 4][3] == t[p + 3];
  }

  lemma SliceOfSlice(s: seq<byte>, o: int, n: int, x: int, y: int)
    requires 0 <= x <= y <= n && 0 <= o && o + n <= |s|
    ensures s[o..o + n][x..y] == s[o + x..o + y]
  {
    var l, r := s[o..o + n][x..y], s[o + x..o + y];
    forall k | 0 <= k < |l|
      ensures l[k] == r[k]
    {
      assert l[k] == s[o..o + n][x + k];
    }
  }
}
