/** Words of 64 bits as sets, and a few laws about them. */
module BitSets {

  function Or(a: bv64, b: bv64): bv64 {
    a | b
  }

  function And(a: bv64, b: bv64): bv64 {
    a & b
  }

  function Minus(a: bv64, b: bv64): bv64 {
    a & !b
  }

  predicate Within(a: bv64, b: bv64) {
    a & b == a
  }

  predicate Has(a: bv64, mask: bv64) {
    a & mask != 0
  }

  lemma HasEither(a: bv64, m: bv64, n: bv64)
    ensures Has(a, Or(m, n)) <==> Has(a, m) || Has(a, n)
  {
    hide *;
    if !Has(a, Or(m, n)) {
      HasNeither(a, m, n);
    } else if !Has(a, m) && !Has(a, n) {
      HasNone(a, m, n);
    }
  }

  lemma HasNeither(a: bv64, m: bv64, n: bv64)
    requires !Has(a, Or(m, n))
    ensures !Has(a, m) && !Has(a, n)
  {
  }

  lemma HasNone(a: bv64, m: bv64, n: bv64)
    requires !Has(a, m) && !Has(a, n)
    ensures !Has(a, Or(m, n))
  {
  }

  lemma EitherHas(a: bv64, b: bv64, m: bv64)
    ensures Has(Or(a, b), m) <==> Has(a, m) || Has(b, m)
  {
    hide *;
    if !Has(Or(a, b), m) {
      NeitherHas(a, b, m);
    } else if !Has(a, m) && !Has(b, m) {
      NoneHas(a, b, m);
    }
  }

  lemma NeitherHas(a: bv64, b: bv64, m: bv64)
    requires !Has(Or(a, b), m)
    ensures !Has(a, m) && !Has(b, m)
  {
  }

  lemma NoneHas(a: bv64, b: bv64, m: bv64)
    requires !Has(a, m) && !Has(b, m)
    ensures !Has(Or(a, b), m)
  {
  }

  lemma WithinBoth(b: bv64, a: bv64, c: bv64)
    ensures Within(b, And(a, c)) <==> Within(b, a) && Within(b, c)
  {
    hide *;
    if Within(b, And(a, c)) {
      WithinEach(b, a, c);
    } else if Within(b, a) && Within(b, c) {
      WithinAnd(b, a, c);
    }
  }

  lemma WithinEach(b: bv64, a: bv64, c: bv64)
    requires Within(b, And(a, c))
    ensures Within(b, a) && Within(b, c)
  {
  }

  lemma WithinAnd(b: bv64, a: bv64, c: bv64)
    requires Within(b, a) && Within(b, c)
    ensures Within(b, And(a, c))
  {
  }

  /** Adding what is there, or taking away what is not, changes nothing; anything else does. */
  lemma ChangesNothing(held: bv64, a: bv64)
    ensures Or(held, a) == held <==> Within(a, held)
    ensures Minus(held, a) == held <==> !Has(held, a)
  {
    hide *;
    if Or(held, a) == held {
      AddedNothing(held, a);
    } else if Within(a, held) {
      AddsNothing(held, a);
    }
    if Minus(held, a) == held {
      TookNothing(held, a);
    } else if !Has(held, a) {
      TakesNothing(held, a);
    }
  }

  lemma AddedNothing(held: bv64, a: bv64)
    requires Or(held, a) == held
    ensures Within(a, held)
  {
  }

  lemma AddsNothing(held: bv64, a: bv64)
    requires Within(a, held)
    ensures Or(held, a) == held
  {
  }

  lemma TookNothing(held: bv64, a: bv64)
    requires Minus(held, a) == held
    ensures !Has(held, a)
  {
  }

  lemma TakesNothing(held: bv64, a: bv64)
    requires !Has(held, a)
    ensures Minus(held, a) == held
  {
  }
}
