/**
  SetNewAlign: replace a BAR's alignment by a given one, or round it up to an even, quad or double-quad multiple of its
  last nonzero hexadecimal digit.
*/
module BarAlignment {

  import opened Multiples

  const TWO_64: nat := 0x1_0000_0000_0000_0000
  const OLD_ALIGN: nat := 0xFFFF_FFFF_FFFF_FFFF
  const EVEN_ALIGN: nat := 0xFFFF_FFFF_FFFF_FFFE
  const SQUAD_ALIGN: nat := 0xFFFF_FFFF_FFFF_FFFD
  const DQUAD_ALIGN: nat := 0xFFFF_FFFF_FFFF_FFFC

  predicate IsCode(newAlignment: nat) {
    newAlignment == EVEN_ALIGN || newAlignment == SQUAD_ALIGN || newAlignment == DQUAD_ALIGN
  }

  /** The multiple a code asks for. */
  function Multiple(code: nat): nat
    requires IsCode(code)
  {
    if code == EVEN_ALIGN then 2 else if code == SQUAD_ALIGN then 4 else 8
  }

  function Sixteens(digits: nat): (p: nat)
    ensures p > 0
  {
    if digits == 0 then 1 else 16 * Sixteens(digits - 1)
  }

  /** The number of zero hexadecimal digits a number ends in. */
  function TrailingZeroes(n: nat): nat
    requires n > 0
  {
    if n % 16 == 0 then 1 + TrailingZeroes(n / 16) else 0
  }

  /** What a rounding code makes of an alignment mask. */
  predicate RoundedMask(code: nat, was: nat, mask: nat)
    requires IsCode(code)
  {
    mask < TWO_64 &&
    IsLeastMultiple(mask + 1, Multiple(code) * Sixteens(TrailingZeroes(was + 1)), was + 1)
  }

  // ------------------------------------------------------------- rounding

  lemma RoundsUp(q: nat, m: nat)
    requires m > 0
    ensures IsLeastMultiple(if q % m != 0 then q + m - q % m else q, m, q)
  {
    if q % m != 0 {
      var r := q + m - q % m;
      var k := q / m;
      assert r == m * (k + 1);
      MultipleOf(m, k + 1);
      MultipleOf(m, k);
      forall j: nat | j % m == 0 && j >= q ensures r <= j {
        MultiplesApart(m * k, j, m);
      }
    }
  }

  lemma {:induction false} SixteensArePowers(digits: nat)
    ensures PowerOfTwo(Sixteens(digits))
  {
    if digits > 0 {
      SixteensArePowers(digits - 1);
      assert PowerOfTwo(16);
      PowersMultiply(16, Sixteens(digits - 1));
    }
  }

  lemma MultiplesArePowers(code: nat)
    requires IsCode(code)
    ensures PowerOfTwo(Multiple(code))
  {
    assert PowerOfTwo(2) && PowerOfTwo(4) && PowerOfTwo(8);
  }

  lemma {:induction false} SixteensGrow(a: nat, b: nat)
    requires a <= b
    ensures Sixteens(a) <= Sixteens(b)
  {
    if a < b {
      SixteensGrow(a, b - 1);
    }
  }

  lemma SixteenDigits()
    ensures Sixteens(16) == TWO_64 && Sixteens(15) * 16 == TWO_64
  {
    assert Sixteens(4) == 0x1_0000;
    assert Sixteens(8) == 0x1_0000_0000;
    assert Sixteens(12) == 0x1_0000_0000_0000;
  }

  /** What is left after the digits are stripped is no multiple of 16, so fewer than 16 digits were. */
  lemma FewDigits(q: nat, digits: nat)
    requires q > 0 && q * Sixteens(digits) < TWO_64
    ensures digits < 16
  {
    if digits >= 16 {
      SixteensGrow(16, digits);
      SixteenDigits();
      Ordered(1, q, Sixteens(digits));
    }
  }

  /** Rounding the stripped number and shifting back is rounding the number, and 64 bits hold it. */
  lemma Shifted(q: nat, r: nat, code: nat, n: nat)
    requires IsCode(code) && 0 < n < TWO_64 && q * Sixteens(TrailingZeroes(n)) == n
    requires IsLeastMultiple(r, Multiple(code), q)
    ensures var p := Sixteens(TrailingZeroes(n));
            IsLeastMultiple(r * p, Multiple(code) * p, n) && 0 < r * p <= TWO_64
  {
    hide IsLeastMultiple, Sixteens, TrailingZeroes, PowerOfTwo;
    var digits := TrailingZeroes(n);
    var p, m := Sixteens(digits), Multiple(code);
    ScaledLeast(r, m, q, p);
    FewDigits(q, digits);
    SixteensArePowers(digits);
    MultiplesArePowers(code);
    PowersMultiply(m, p);
    SixteensGrow(digits, 15);
    SixteenDigits();
    SixteensArePowers(16);
    Ordered(m, 16, p);
    PowersDivide(m * p, TWO_64);
    AtMost(r * p, m * p, n, TWO_64);
  }

  // ------------------------------------------------------------- the operation

  /** LShiftU64 keeps 64 bits. */
  function ShiftedLeft(v: nat, digits: nat): nat {
    v * Sixteens(digits) % TWO_64
  }

  /** Subtraction in 64 bits. */
  function LessOne(v: nat): nat {
    (v + TWO_64 - 1) % TWO_64
  }

  /** What is left of n once `digits` zero digits are stripped off. */
  predicate StrippedOf(n: nat, left: nat, digits: nat)
    requires n > 0
  {
    left > 0 && left * Sixteens(digits) == n && digits + TrailingZeroes(left) == TrailingZeroes(n)
  }

  lemma StripsNone(n: nat)
    requires n > 0
    ensures StrippedOf(n, n, 0)
  {
  }

  lemma StripsOne(n: nat, left: nat, digits: nat)
    requires n > 0 && StrippedOf(n, left, digits) && left % 16 == 0
    ensures StrippedOf(n, left / 16, digits + 1)
  {
    Associate(left / 16, 16, Sixteens(digits));
  }

  /** Once the last digit is not zero, rounding what is left and shifting it back is rounding the number. */
  lemma StripsToRounded(n: nat, left: nat, digits: nat, rounded: nat, code: nat)
    requires IsCode(code) && 0 < n < TWO_64
    requires StrippedOf(n, left, digits) && left % 16 != 0
    requires IsLeastMultiple(rounded, Multiple(code), left)
    ensures RoundedMask(code, n - 1, LessOne(ShiftedLeft(rounded, digits)))
  {
    hide IsLeastMultiple;
    Shifted(left, rounded, code, n);
  }

  method RoundUp(oldAlignment: nat, newAlignment: nat) returns (rounded: nat)
    requires IsCode(newAlignment)
    ensures IsLeastMultiple(rounded, Multiple(newAlignment), oldAlignment)
  {
    hide IsLeastMultiple;
    rounded := oldAlignment;
    if newAlignment == EVEN_ALIGN {
      if rounded % 2 != 0 {
        rounded := rounded + 2 - rounded % 2;
      }
    } else if newAlignment == SQUAD_ALIGN {
      if rounded % 4 != 0 {
        rounded := rounded + 4 - rounded % 4;
      }
    } else if newAlignment == DQUAD_ALIGN {
      if rounded % 8 != 0 {
        rounded := rounded + 8 - rounded % 8;
      }
    }
    RoundsUp(oldAlignment, Multiple(newAlignment));
  }

  /**
    With a rounding code, one more than the mask becomes the least multiple of the code's multiple, times the hexadecimal
    place of the last nonzero digit, that is not below it. The mask of all ones, where adding one gives zero, is the one
    for which the loop over zero digits has no end.
  */
  method SetNewAlign(alignment: nat, newAlignment: nat) returns (updated: nat)
    requires alignment < TWO_64 && newAlignment < TWO_64
    requires IsCode(newAlignment) ==> alignment + 1 < TWO_64
    ensures newAlignment == OLD_ALIGN ==> updated == alignment
    ensures newAlignment != OLD_ALIGN && !IsCode(newAlignment) ==> updated == newAlignment
    ensures IsCode(newAlignment) ==> RoundedMask(newAlignment, alignment, updated)
  {
    hide IsLeastMultiple, Sixteens, TrailingZeroes, StrippedOf, ShiftedLeft, LessOne, RoundedMask;
    if newAlignment == OLD_ALIGN {
      return alignment;
    }
    if newAlignment != EVEN_ALIGN && newAlignment != SQUAD_ALIGN && newAlignment != DQUAD_ALIGN {
      return newAlignment;
    }
    var oldAlignment := (alignment + 1) % TWO_64;
    var digits := 0;
    StripsNone(alignment + 1);
    while oldAlignment % 16 == 0
      invariant oldAlignment > 0 && StrippedOf(alignment + 1, oldAlignment, digits)
      decreases oldAlignment
    {
      StripsOne(alignment + 1, oldAlignment, digits);
      oldAlignment := oldAlignment / 16;
      digits := digits + 1;
    }
    var rounded := RoundUp(oldAlignment, newAlignment);
    StripsToRounded(alignment + 1, oldAlignment, digits, rounded, newAlignment);
    updated := LessOne(ShiftedLeft(rounded, digits));
  }

  /** The hexadecimal place of the last nonzero digit. */
  predicate LastDigitAt(n: nat, q: nat, digits: nat) {
    q * Sixteens(digits) == n && q % 16 != 0
  }

  lemma {:induction false} TrailingZeroesExactly(n: nat) returns (q: nat)
    requires n > 0
    ensures LastDigitAt(n, q, TrailingZeroes(n))
  {
    if n % 16 == 0 {
      q := TrailingZeroesExactly(n / 16);
      Associate(q, 16, Sixteens(TrailingZeroes(n / 16)));
    } else {
      q := n;
    }
  }

  /** The codes FFFFFFFFFFFFFFFEh, FDh and FCh round to 2, 4 and 8 times the place of the last nonzero digit. */
  lemma RoundedExactly(code: nat, was: nat, mask: nat) returns (q: nat, digits: nat)
    requires IsCode(code) && RoundedMask(code, was, mask)
    ensures LastDigitAt(was + 1, q, digits)
    ensures code == 0xFFFF_FFFF_FFFF_FFFE ==> IsLeastMultiple(mask + 1, 2 * Sixteens(digits), was + 1)
    ensures code == 0xFFFF_FFFF_FFFF_FFFD ==> IsLeastMultiple(mask + 1, 4 * Sixteens(digits), was + 1)
    ensures code == 0xFFFF_FFFF_FFFF_FFFC ==> IsLeastMultiple(mask + 1, 8 * Sixteens(digits), was + 1)
  {
    hide IsLeastMultiple;
    digits := TrailingZeroes(was + 1);
    q := TrailingZeroesExactly(was + 1);
  }

  /** An alignment of a power of two stays one: the larger of itself and the rounding unit. */
  lemma PowerStaysPower(code: nat, was: nat, mask: nat)
    requires IsCode(code) && RoundedMask(code, was, mask) && PowerOfTwo(was + 1)
    ensures var unit := Multiple(code) * Sixteens(TrailingZeroes(was + 1));
            mask + 1 == (if was + 1 < unit then unit else was + 1) && PowerOfTwo(mask + 1)
  {
    var digits := TrailingZeroes(was + 1);
    SixteensArePowers(digits);
    MultiplesArePowers(code);
    PowersMultiply(Multiple(code), Sixteens(digits));
    LeastOfPowers(mask + 1, Multiple(code) * Sixteens(digits), was + 1);
  }

  /** What is left of a number after stripping `rounds` zero digits. */
  function Stripped(n: nat, rounds: nat): nat {
    if rounds == 0 then n else Stripped(n, rounds - 1) / 16
  }

  /** The loop stops at a number whose last digit is not zero. */
  predicate EndsAfter(alignment: nat, rounds: nat) {
    Stripped((alignment + 1) % TWO_64, rounds) % 16 != 0
  }

  /** The loop reaches its end exactly when the number it starts from, the mask plus one in 64 bits, is not zero. */
  lemma LoopEnds(alignment: nat)
    requires alignment < TWO_64
    ensures (exists rounds: nat :: EndsAfter(alignment, rounds)) <==> alignment != TWO_64 - 1
  {
    var start := (alignment + 1) % TWO_64;
    if start == 0 {
      forall rounds: nat ensures !EndsAfter(alignment, rounds) {
        ZeroStays(rounds);
      }
    } else {
      StripsAll(start, 0);
      assert EndsAfter(alignment, TrailingZeroes(start));
    }
  }

  lemma {:induction false} ZeroStays(rounds: nat)
    ensures Stripped(0, rounds) == 0
  {
    if rounds > 0 {
      ZeroStays(rounds - 1);
    }
  }

  lemma {:induction false} StripsAll(n: nat, rounds: nat)
    requires Stripped(n, rounds) > 0
    ensures Stripped(n, rounds + TrailingZeroes(Stripped(n, rounds))) % 16 != 0
    decreases Stripped(n, rounds)
  {
    if Stripped(n, rounds) % 16 == 0 {
      StripsAll(n, rounds + 1);
    }
  }
}
