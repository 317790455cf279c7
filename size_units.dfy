/**
 The unit choice of `human_readable_size`: a byte count is divided by 1024
 until it falls below 1024, and the unit is the one reached, or PB once all five
 units B to TB are passed.

 The source divides a float. A float division by 1024 is exact for every byte
 count below 2^53, and every count of at least 1024^5 = 2^50 ends in PB however
 it rounds, so Dafny's exact `real` division gives the same comparisons.
 */
module SizeUnits {
  import opened Records

  datatype Unit = B | KB | MB | GB | TB | PB

  /** The units tried in order before falling through to PB. */
  const Units: seq<Unit> := [B, KB, MB, GB, TB]

  /** The scaled number and its unit: what the source renders as `f"{value:.2f} {unit}"`. */
  datatype Scaled = Scaled(value: real, unit: Unit)

  function Pow1024(k: nat): (r: nat)
    ensures r >= 1
  {
    if k == 0 then 1 else 1024 * Pow1024(k - 1)
  }

  function UnitIndex(u: Unit): (k: nat)
    ensures k <= 5
    ensures k < 5 ==> Units[k] == u
  {
    match u
    case B => 0
    case KB => 1
    case MB => 2
    case GB => 3
    case TB => 4
    case PB => 5
  }

  /** 1024^(j+1): the first size that no longer fits unit number `j`. */
  function Limit(j: nat): (r: nat)
    ensures r >= 1024
  {
    1024 * Pow1024(j)
  }

  /** Unit number `k` is the right one for `size`: `size` reaches the limit of
      every earlier unit, and stays below the limit of unit `k` unless `k` is PB. */
  ghost predicate IsUnitFor(size: int, k: nat)
  {
    && k <= 5
    && (forall j :: 0 <= j < k ==> Limit(j) <= size)
    && (k < 5 ==> size < Limit(k))
  }

  lemma {:induction false} Pow1024Monotone(i: nat, j: nat)
    requires i <= j
    ensures Pow1024(i) <= Pow1024(j)
    decreases j
  {
    if i < j {
      Pow1024Monotone(i, j - 1);
    }
  }

  /** Multiplying both sides by a positive factor keeps a strict comparison. */
  lemma ScaleCompare(a: real, b: real, p: real)
    requires p > 0.0
    ensures a < b <==> a * p < b * p
  {
  }

  /** With `scaled` standing for `size / 1024^k`, it is below 1024 exactly when
      `size` is below the limit of unit `k`. */
  lemma ScaledBelow(size: int, k: nat, scaled: real)
    requires scaled * Pow1024(k) as real == size as real
    ensures scaled < 1024.0 <==> size < Limit(k)
  {
    var p := Pow1024(k) as real;
    ScaleCompare(scaled, 1024.0, p);
    assert Limit(k) as real == 1024.0 * p;
  }

  /** One more division by 1024 stands for `size / 1024^(k+1)`. */
  lemma ScaleStep(size: int, k: nat, scaled: real)
    requires scaled * Pow1024(k) as real == size as real
    ensures (scaled / 1024.0) * Pow1024(k + 1) as real == size as real
  {
  }

  /** `human_readable_size`: `None` stays `None`; otherwise the count is rescaled in
      place, unit by unit; the shown number times 1024^k is the byte count. */
  method HumanReadableSize(sizeInBytes: Option<int>) returns (r: Option<Scaled>)
    ensures sizeInBytes.None? <==> r.None?
    ensures r.Some? ==> IsUnitFor(sizeInBytes.value, UnitIndex(r.value.unit))
    ensures r.Some? ==>
      r.value.value * Pow1024(UnitIndex(r.value.unit)) as real == sizeInBytes.value as real
  {
    if sizeInBytes.None? {
      return None;
    }
    var size := sizeInBytes.value;
    var scaled: real := size as real;
    var i := 0;
    while i < |Units|
      invariant 0 <= i <= 5
      invariant scaled * Pow1024(i) as real == size as real
      invariant forall j :: 0 <= j < i ==> Limit(j) <= size
    {
      ScaledBelow(size, i, scaled);
      if scaled < 1024.0 {
        return Some(Scaled(scaled, Units[i]));
      }
      ScaleStep(size, i, scaled);
      scaled := scaled / 1024.0;
      i := i + 1;
    }
    return Some(Scaled(scaled, PB));
  }

  /** At most one unit fits a size. */
  lemma UnitUnique(size: int, k1: nat, k2: nat)
    requires IsUnitFor(size, k1) && IsUnitFor(size, k2)
    ensures k1 == k2
  {
  }

  /** PB is chosen exactly for sizes of at least 1024^5 bytes. */
  lemma PetabytesExactly(size: int)
    ensures IsUnitFor(size, 5) <==> size >= Pow1024(5)
  {
    assert Limit(4) == Pow1024(5);
    if size >= Pow1024(5) {
      forall j | 0 <= j < 5
        ensures Limit(j) <= size
      {
        Pow1024Monotone(j + 1, 5);
      }
    }
  }

  /** Below PB the shown number is under 1024, and from KB on it is at least 1. */
  lemma ShownValueInRange(size: int, k: nat, shown: real)
    requires IsUnitFor(size, k)
    requires shown * Pow1024(k) as real == size as real
    ensures k < 5 ==> shown < 1024.0
    ensures 0 < k ==> shown >= 1.0
  {
  }

  /** The thresholds, written out: 1 KB is 1024 bytes and 1 PB is 1024^5 bytes. */
  lemma Thresholds()
    ensures IsUnitFor(1023, 0) && IsUnitFor(1024, 1)
    ensures IsUnitFor(1125899906842623, 4) && IsUnitFor(1125899906842624, 5)
  {
  }
}
