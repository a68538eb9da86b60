/** The header word of a heap block: a size that is a multiple of 8 shares one
    32-bit word with three flag bits (include/kernel/mm/simple_mm.h). */
module SizeFlag {

  const MIN_BLOCK_SIZE := 8
  const MAGIC := 0xDEADBEEF

  function Bit(b: bool, weight: int): int {
    if b then weight else 0
  }

  /** The word that holds `size` together with the three flags. */
  function Pack(size: int, free: bool, prevFree: bool, poisoned: bool): int {
    size + Bit(free, 1) + Bit(prevFree, 2) + Bit(poisoned, 4)
  }

  function ExtractSize(w: int): int { w - w % 8 }

  function ExtractFlag(w: int): int { w % 8 }

  predicate IsFree(w: int) { w % 2 == 1 }

  predicate IsPrevFree(w: int) { (w / 2) % 2 == 1 }

  predicate IsPoisoned(w: int) { (w / 4) % 2 == 1 }

  function SetFree(w: int): int { if IsFree(w) then w else w + 1 }

  function ClrFree(w: int): int { if IsFree(w) then w - 1 else w }

  function SetPrevFree(w: int): int { if IsPrevFree(w) then w else w + 2 }

  function ClrPrevFree(w: int): int { if IsPrevFree(w) then w - 2 else w }

  function ClrPoisoned(w: int): int { if IsPoisoned(w) then w - 4 else w }

  lemma DivMod2(x: int, q: int, r: int)
    requires x == 2 * q + r && 0 <= r < 2
    ensures x / 2 == q && x % 2 == r
  {
  }

  lemma DivMod4(x: int, q: int, r: int)
    requires x == 4 * q + r && 0 <= r < 4
    ensures x / 4 == q && x % 4 == r
  {
  }

  lemma DivMod8(x: int, q: int, r: int)
    requires x == 8 * q + r && 0 <= r < 8
    ensures x / 8 == q && x % 8 == r
  {
  }

  /** Reading a packed word gives back what was packed. */
  lemma PackReads(size: int, f: bool, p: bool, q: bool)
    requires size % 8 == 0
    ensures var w := Pack(size, f, p, q);
      && ExtractSize(w) == size
      && IsFree(w) == f && IsPrevFree(w) == p && IsPoisoned(w) == q
      && ExtractFlag(w) == Pack(0, f, p, q)
  {
    var k := size / 8;
    var w := Pack(size, f, p, q);
    assert size == 8 * k;
    DivMod8(w, k, Bit(f, 1) + Bit(p, 2) + Bit(q, 4));
    DivMod2(w, 4 * k + Bit(p, 1) + Bit(q, 2), Bit(f, 1));
    DivMod2(w / 2, 2 * k + Bit(q, 1), Bit(p, 1));
    DivMod4(w, 2 * k + Bit(q, 1), Bit(f, 1) + Bit(p, 2));
    DivMod2(w / 4, k, Bit(q, 1));
  }

  /** Each bit update of the C macros changes its own flag and nothing else. */
  lemma PackUpdates(size: int, f: bool, p: bool, q: bool)
    requires size % 8 == 0
    ensures var w := Pack(size, f, p, q);
      && SetFree(w) == Pack(size, true, p, q)
      && ClrFree(w) == Pack(size, false, p, q)
      && SetPrevFree(w) == Pack(size, f, true, q)
      && ClrPrevFree(w) == Pack(size, f, false, q)
      && ClrPoisoned(w) == Pack(size, f, p, false)
  {
    PackReads(size, f, p, q);
  }

  lemma PackClrFree(size: int, f: bool, p: bool, q: bool)
    requires size % 8 == 0
    ensures ClrFree(Pack(size, f, p, q)) == Pack(size, false, p, q)
  {
    PackUpdates(size, f, p, q);
  }

  lemma PackSetFree(size: int, f: bool, p: bool, q: bool)
    requires size % 8 == 0
    ensures SetFree(Pack(size, f, p, q)) == Pack(size, true, p, q)
  {
    PackUpdates(size, f, p, q);
  }

  lemma PackClrPrevFree(size: int, f: bool, p: bool, q: bool)
    requires size % 8 == 0
    ensures ClrPrevFree(Pack(size, f, p, q)) == Pack(size, f, false, q)
  {
    PackUpdates(size, f, p, q);
  }

  lemma PackSetPrevFree(size: int, f: bool, p: bool, q: bool)
    requires size % 8 == 0
    ensures SetPrevFree(Pack(size, f, p, q)) == Pack(size, f, true, q)
  {
    PackUpdates(size, f, p, q);
  }

  /** Multiples of 8 add up to multiples of 8. */
  lemma Multiples(a: int, b: int)
    requires a % 8 == 0 && b % 8 == 0
    ensures (a + b) % 8 == 0 && (a - b) % 8 == 0
  {
  }
}
