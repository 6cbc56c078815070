/** A 64-bit word read as a set of field values below 63, with bit 63 as the star mark. */
module BitSets {
  const MAX: bv64 := 0xFFFF_FFFF_FFFF_FFFF
  const STAR := 63

  /** A shift amount below 64. */
  function Amount(i: nat): bv6
    requires i < 64
  {
    i as bv6
  }

  function Mask(b: bv6): bv64 { (1 as bv64) << b }

  /** `1 << i` */
  function One(i: nat): bv64
    requires i < 64
  {
    Mask(Amount(i))
  }

  function From(lo: bv6): bv64 { MAX << lo }

  /** The words with exactly the bits from `lo` up to and excluding `hi`. */
  function Window(lo: bv6, hi: bv6): bv64 { !From(hi) & From(lo) }

  predicate Meets(w: bv64, mask: bv64) { mask & w != 0 }

  /** `1<<i & w != 0` */
  predicate Bit(w: bv64, i: nat)
    requires i < 64
  {
    Meets(w, One(i))
  }

  lemma AmountExact(i: nat)
    requires i < 64
    ensures Amount(i) as nat == i
  {
  }

  lemma WordOrder(a: bv6, b: bv6)
    ensures a as nat <= b as nat <==> a <= b
  {
  }

  lemma AmountOrder(i: nat, k: nat)
    requires i < 64 && k < 64
    ensures Amount(i) <= Amount(k) <==> i <= k
    ensures Amount(i) == Amount(k) <==> i == k
  {
    hide Amount;
    AmountExact(i);
    AmountExact(k);
    WordOrder(Amount(i), Amount(k));
  }

  lemma OrMissesLeft(v: bv64, w: bv64, mask: bv64)
    ensures !Meets(v | w, mask) ==> !Meets(v, mask)
  {
  }

  lemma OrMissesRight(v: bv64, w: bv64, mask: bv64)
    ensures !Meets(v | w, mask) ==> !Meets(w, mask)
  {
  }

  lemma BothMiss(v: bv64, w: bv64, mask: bv64)
    ensures !Meets(v, mask) && !Meets(w, mask) ==> !Meets(v | w, mask)
  {
  }

  lemma OrWord(v: bv64, w: bv64, mask: bv64)
    ensures Meets(v | w, mask) <==> Meets(v, mask) || Meets(w, mask)
  {
    hide Meets;
    OrMissesLeft(v, w, mask);
    OrMissesRight(v, w, mask);
    BothMiss(v, w, mask);
  }

  lemma MaskMeets(a: bv6, b: bv6)
    ensures Meets(Mask(a), Mask(b)) <==> a == b
  {
  }

  lemma FromWord(lo: bv6, b: bv6)
    ensures Meets(From(lo), Mask(b)) <==> lo <= b
  {
  }

  lemma NotWord(w: bv64, b: bv6)
    ensures Meets(!w, Mask(b)) <==> !Meets(w, Mask(b))
  {
  }

  lemma AndWord(v: bv64, w: bv64, b: bv6)
    ensures Meets(v & w, Mask(b)) <==> Meets(v, Mask(b)) && Meets(w, Mask(b))
  {
  }

  lemma ShiftWord(lo: bv6, hi: bv6, b: bv6)
    ensures Meets(Window(lo, hi), Mask(b)) <==> lo <= b < hi
  {
    hide From, Mask, Meets;
    AndWord(!From(hi), From(lo), b);
    NotWord(From(hi), b);
    FromWord(lo, b);
    FromWord(hi, b);
  }

  lemma BitOfZero(k: nat)
    requires k < 64
    ensures !Bit(0, k)
  {
  }

  lemma BitOfOr(v: bv64, w: bv64, k: nat)
    requires k < 64
    ensures Bit(v | w, k) <==> Bit(v, k) || Bit(w, k)
  {
    hide One, Meets;
    OrWord(v, w, One(k));
  }

  /** Or-ing in `1 << i` adds the member `i` and no other. */
  lemma BitOfOne(w: bv64, i: nat, k: nat)
    requires i < 64 && k < 64
    ensures Bit(w | One(i), k) <==> Bit(w, k) || k == i
  {
    BitOfOr(w, One(i), k);
    hide Amount, Mask, Meets;
    MaskMeets(Amount(i), Amount(k));
    AmountOrder(i, k);
  }

  /** The two shifted masks meet in exactly the interval between them. */
  lemma BitOfShifts(lo: nat, hi: nat, k: nat)
    requires lo < 64 && hi < 64 && k < 64
    ensures Bit(Window(Amount(lo), Amount(hi)), k) <==> lo <= k < hi
  {
    hide Amount, Mask, Meets, Window;
    ShiftWord(Amount(lo), Amount(hi), Amount(k));
    AmountOrder(lo, k);
    AmountOrder(hi, k);
  }
}
