/** Division by a public constant: what the parties compute on their own parts, and what the parts add up to. */
module Division {
  import opened Arith

  /** `/` and `%` of the implementation language truncate toward zero (section 5.6 of ISO/IEC 14882:2014). */
  function TruncDiv(a: int, c: int): (q: int)
    requires c > 0
  {
    if a >= 0 then a / c else -((-a) / c)
  }

  function TruncMod(a: int, c: int): (r: int)
    requires c > 0
  {
    a - TruncDiv(a, c) * c
  }

  function Negative(a: int): (b: int) {
    if a < 0 then 1 else 0
  }

  /** The quotient part: truncated, and one less for a negative dividend. */
  function Quotient(a: int, c: int): (q: int)
    requires c > 0
  {
    TruncDiv(a, c) - Negative(a)
  }

  /** The remainder part, in `0..c-1` for a non-negative dividend and in `1..c` for a negative one. */
  function Rest(a: int, c: int): (r: int)
    requires c > 0
  {
    TruncMod(a, c) + Negative(a) * c
  }

  lemma TruncModBounds(a: int, c: int)
    requires c > 0
    ensures a >= 0 ==> 0 <= TruncMod(a, c) < c && TruncMod(a, c) == a % c
    ensures a < 0 ==> -c < TruncMod(a, c) <= 0 && TruncMod(a, c) == -((-a) % c)
  {
    if a >= 0 { DivMod(a, c); } else {
      DivMod(-a, c);
      assert -((-a) / c) * c == -(((-a) / c) * c);
    }
  }

  lemma QuotientRest(a: int, c: int)
    requires c > 0
    ensures a == Quotient(a, c) * c + Rest(a, c)
    ensures a >= 0 ==> 0 <= Rest(a, c) < c
    ensures a < 0 ==> 0 < Rest(a, c) <= c
  {
    TruncModBounds(a, c);
    assert (TruncDiv(a, c) - Negative(a)) * c == TruncDiv(a, c) * c - Negative(a) * c;
  }

  /** Party 0 of the 3-party protocol shifts a negative dividend down by `c` first; the parts are the same. */
  lemma ShiftedDividend(u: int, c: int)
    requires c > 0
    ensures TruncDiv(u - Negative(u) * c, c) == Quotient(u, c)
    ensures TruncMod(u - Negative(u) * c, c) + Negative(u) * c == Rest(u, c)
  {
    if u < 0 {
      DivMod(-u, c);
      DivModUnique(-u + c, c, (-u) / c + 1, (-u) % c);
      assert ((-u) / c + 1) * c == ((-u) / c) * c + c;
      assert -((-u + c) / c) == TruncDiv(u, c) - 1;
      assert TruncMod(u - c, c) == (u - c) - (TruncDiv(u, c) - 1) * c == u - TruncDiv(u, c) * c;
    }
  }

  /** The correction bit: whether the two remainder parts reach `c`. */
  function Correction(u: int, v: int, c: int): (k: int)
    requires c > 0
  {
    if Rest(u, c) + Rest(v, c) - c < 0 then 0 else 1
  }

  predicate NegativeMultiple(a: int, c: int)
    requires c > 0
  {
    a < 0 && Rest(a, c) == c
  }

  lemma NegativeMultipleMeans(a: int, c: int)
    requires c > 0
    ensures NegativeMultiple(a, c) <==> a < 0 && a % c == 0
  {
    QuotientRest(a, c);
    if a < 0 {
      if Rest(a, c) == c {
        assert a == (Quotient(a, c) + 1) * c + 0;
        DivModUnique(a, c, Quotient(a, c) + 1, 0);
      } else {
        DivModUnique(a, c, Quotient(a, c), Rest(a, c));
      }
    }
  }

  /** The corrected quotient is the floor of the true quotient, except that it is one less exactly when both parts
      are negative multiples of the divisor. */
  lemma CorrectedQuotient(u: int, v: int, c: int)
    requires c > 0
    ensures Quotient(u, c) + Quotient(v, c) + Correction(u, v, c) ==
            (u + v) / c - (if NegativeMultiple(u, c) && NegativeMultiple(v, c) then 1 else 0)
  {
    QuotientRest(u, c);
    QuotientRest(v, c);
    hide Quotient, Rest, TruncDiv, TruncMod;
    var q, r := Quotient(u, c) + Quotient(v, c), Rest(u, c) + Rest(v, c);
    SumOfParts(u, v, c, Quotient(u, c), Rest(u, c), Quotient(v, c), Rest(v, c));
    if r < c {
      DivModUnique(u + v, c, q, r);
    } else if r < 2 * c {
      assert (q + 1) * c == q * c + c;
      DivModUnique(u + v, c, q + 1, r - c);
    } else {
      assert (q + 2) * c == q * c + 2 * c;
      DivModUnique(u + v, c, q + 2, r - 2 * c);
    }
  }

  lemma SumOfParts(u: int, v: int, c: int, qu: int, ru: int, qv: int, rv: int)
    requires u == qu * c + ru && v == qv * c + rv
    ensures u + v == (qu + qv) * c + (ru + rv)
  {
  }
}
