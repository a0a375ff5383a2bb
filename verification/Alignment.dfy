/** Rounding of addresses to multiples of a positive unit, and 64-bit unsigned subtraction. */
module Alignment {

  const PAGE_SIZE: nat := 4096

  function FloorTo(x: nat, unit: nat): nat
    requires 0 < unit
  {
    x / unit * unit
  }

  /** The number of units that x takes up. */
  function UnitsFor(x: nat, unit: nat): nat
    requires 0 < unit
  {
    (x + unit - 1) / unit
  }

  lemma NoUnits(x: nat, unit: nat)
    requires 0 < unit
    ensures UnitsFor(x, unit) == 0 <==> x == 0
  {
  }

  function CeilTo(x: nat, unit: nat): nat
    requires 0 < unit
  {
    UnitsFor(x, unit) * unit
  }

  predicate Multiple(k: nat, unit: nat, x: nat) {
    k * unit == x
  }

  ghost predicate Aligned(x: nat, unit: nat) {
    exists k: nat :: Multiple(k, unit, x)
  }

  lemma MultipleIsAligned(k: nat, unit: nat)
    ensures Aligned(k * unit, unit)
  {
    assert Multiple(k, unit, k * unit);
  }

  lemma FloorFacts(x: nat, unit: nat)
    requires 0 < unit
    ensures Aligned(FloorTo(x, unit), unit)
    ensures FloorTo(x, unit) <= x < FloorTo(x, unit) + unit
  {
    MultipleIsAligned(x / unit, unit);
  }

  lemma CeilFacts(x: nat, unit: nat)
    requires 0 < unit
    ensures Aligned(CeilTo(x, unit), unit)
    ensures x <= CeilTo(x, unit) < x + unit
  {
    MultipleIsAligned(UnitsFor(x, unit), unit);
  }

  lemma Distribute(i: int, j: int, unit: int)
    ensures (i + j) * unit == i * unit + j * unit
    ensures (i - j) * unit == i * unit - j * unit
  {
  }

  lemma PositiveFactor(d: int, unit: int)
    requires 0 < unit && 0 < d * unit
    ensures 0 < d && unit <= d * unit
  {
    Distribute(d - 1, 1, unit);
  }

  /** Distinct aligned addresses are at least one unit apart. */
  lemma AlignedGap(a: nat, b: nat, unit: nat)
    requires 0 < unit && Aligned(a, unit) && Aligned(b, unit) && a < b
    ensures a + unit <= b && Aligned(b - a, unit)
  {
    var i: nat :| Multiple(i, unit, a);
    var j: nat :| Multiple(j, unit, b);
    Distribute(j, i, unit);
    PositiveFactor(j - i, unit);
    MultipleIsAligned(j - i, unit);
  }

  lemma AlignedSum(a: nat, b: nat, unit: nat)
    requires Aligned(a, unit) && Aligned(b, unit)
    ensures Aligned(a + b, unit)
  {
    var i: nat :| Multiple(i, unit, a);
    var j: nat :| Multiple(j, unit, b);
    Distribute(i, j, unit);
    MultipleIsAligned(i + j, unit);
  }

  /** n addresses from r on contain a whole aligned page. */
  ghost predicate HoldsPage(r: nat, n: nat, page: nat) {
    exists p: nat :: Aligned(p, page) && r <= p && p + page <= r + n
  }

  /**
   The pages of a run are those between the rounded ends; the rounded ends of a run cross only
   when it is shorter than a page by at least two.
   */
  lemma WholePages(r: nat, n: nat, page: nat)
    requires 0 < page
    ensures HoldsPage(r, n, page) <==> CeilTo(r, page) < FloorTo(r + n, page)
    ensures page <= n + 1 ==> CeilTo(r, page) <= FloorTo(r + n, page)
  {
    var first, last := CeilTo(r, page), FloorTo(r + n, page);
    CeilFacts(r, page);
    FloorFacts(r + n, page);
    if first < last {
      AlignedGap(first, last, page);
    }
    if last < first {
      AlignedGap(last, first, page);
    }
    if p: nat :| Aligned(p, page) && r <= p && p + page <= r + n {
      if p < first {
        AlignedGap(p, first, page);
      }
      MultipleIsAligned(1, page);
      AlignedSum(p, page, page);
      if last < p + page {
        AlignedGap(last, p + page, page);
      }
    }
  }

  /** Unsigned subtraction modulo the size of the address space. */
  function WrapSub(a: nat, b: nat, modulus: nat): (d: nat)
    requires a < modulus && b < modulus
    ensures d < modulus && (d + b == a || d + b == a + modulus)
  {
    if b <= a then a - b else a + modulus - b
  }

  lemma Rounding(n: nat, unit: nat)
    requires 0 < unit
    ensures (n * unit + unit - 1) / unit == n
  {
    var q := (n * unit + unit - 1) / unit;
    FloorFacts(n * unit + unit - 1, unit);
    Distribute(q, n, unit);
    Distribute(n, q, unit);
    if 0 < (q - n) * unit {
      PositiveFactor(q - n, unit);
    } else if 0 < (n - q) * unit {
      PositiveFactor(n - q, unit);
    } else {
      NoFactor(q - n, unit);
    }
  }

  lemma NoFactor(d: int, unit: int)
    requires 0 < unit && d * unit == 0
    ensures d == 0
  {
  }
}
