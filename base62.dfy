/** Positional base-62 numerals of the TypeScript build (build/util/base62.ts),
    the image names of the Reddit upload backend. Unlike the Python engine's
    bijective names, zero has a digit of its own ("0"). */
module Base62Numerals {
  import opened Text

  /** `base62(n)`: the last digit is `n % 62`, preceded by the numeral of
      `n / 62` unless that is zero. */
  function Base62(n: nat): (s: string)
    ensures |s| >= 1
    decreases n
  {
    (if n / 62 == 0 then "" else Base62(n / 62)) + [Base62Symbol(n % 62)]
  }

  /** Reads a numeral back, most significant digit first. */
  function Base62Value(s: string): nat
    decreases |s|
  {
    if s == [] then 0 else Base62Value(s[..|s| - 1]) * 62 + Base62Index(s[|s| - 1])
  }

  /** A numeral without leading zeros: "0" itself, or a first digit other
      than '0'. */
  predicate Canonical(s: string) {
    |s| >= 1 && (forall i :: 0 <= i < |s| ==> IsBase62Symbol(s[i])) && (|s| == 1 || s[0] != '0')
  }

  /** Every numeral is non-empty, drawn from the 62 symbols, and has no
      leading zero. */
  lemma {:induction false} Base62Canonical(n: nat)
    ensures Canonical(Base62(n))
    ensures n >= 1 ==> Base62(n)[0] != '0'
    decreases n
  {
    var s := Base62(n);
    Base62SymbolIndex(n % 62);
    if n / 62 == 0 {
      assert s == [Base62Symbol(n)];
    } else {
      Base62Canonical(n / 62);
      var p := Base62(n / 62);
      assert s == p + [Base62Symbol(n % 62)];
      assert s[0] == p[0];
      forall i | 0 <= i < |s|
        ensures IsBase62Symbol(s[i])
      {
        if i < |p| {
          assert s[i] == p[i];
        }
      }
    }
  }

  /** Numbers below 62 are the single symbol at that position; 0 is "0",
      61 is "Z" and 62 the first two-digit numeral, "10". */
  lemma Base62SingleDigit(n: nat)
    requires n < 62
    ensures Base62(n) == [Base62Digits[n]]
    ensures Base62(0) == "0" && Base62(61) == "Z" && Base62(62) == "10"
  {
    assert Base62Digits[n] == Base62Symbol(n);
    assert Base62(62) == Base62(1) + [Base62Symbol(0)];
  }

  /** Decoding a numeral gives back the number. */
  lemma {:induction false} Base62ValueOfNumeral(n: nat)
    ensures Base62Value(Base62(n)) == n
    decreases n
  {
    var s := Base62(n);
    Base62SymbolIndex(n % 62);
    assert n == n / 62 * 62 + n % 62;
    if n / 62 == 0 {
      assert s[..|s| - 1] == [];
    } else {
      Base62ValueOfNumeral(n / 62);
      assert s[..|s| - 1] == Base62(n / 62);
    }
  }

  /** Different numbers get different names. */
  lemma Base62Injective(m: nat, n: nat)
    requires m != n
    ensures Base62(m) != Base62(n)
  {
    Base62ValueOfNumeral(m);
    Base62ValueOfNumeral(n);
  }

  /** A numeral whose first digit is not '0' is worth at least one. */
  lemma {:induction false} Base62ValuePositive(s: string)
    requires Canonical(s) && s[0] != '0'
    ensures Base62Value(s) >= 1
    decreases |s|
  {
    if |s| > 1 {
      var init := s[..|s| - 1];
      assert init[0] == s[0];
      Base62ValuePositive(init);
    } else {
      Base62IndexSymbol(s[0]);
      assert s[..0] == [];
    }
  }

  /** Every canonical numeral is the numeral of its value, so `Base62` is a
      bijection between the naturals and the canonical numerals. */
  lemma {:induction false} Base62OfValue(s: string)
    requires Canonical(s)
    ensures Base62(Base62Value(s)) == s
    decreases |s|
  {
    var init, last := s[..|s| - 1], s[|s| - 1];
    Base62IndexSymbol(last);
    var v := Base62Value(s);
    var d := Base62Index(last);
    assert v == Base62Value(init) * 62 + d;
    DivMod62(Base62Value(init), d);
    if |s| == 1 {
      assert init == [];
      assert Base62(v) == [Base62Symbol(d)];
    } else {
      assert init[0] == s[0];
      assert Canonical(init);
      Base62ValuePositive(init);
      Base62OfValue(init);
      assert Base62(v) == init + [last];
    }
    assert s == init + [last];
  }

  /** The numerals of 0 to `n - 1`. */
  function NumeralsBelow(n: nat): set<string>
    decreases n
  {
    if n == 0 then {} else NumeralsBelow(n - 1) + {Base62(n - 1)}
  }

  /** Every earlier numeral is among them. */
  lemma {:induction false} NumeralsBelowInclude(j: nat, n: nat)
    requires j < n
    ensures Base62(j) in NumeralsBelow(n)
    decreases n
  {
    if j < n - 1 {
      NumeralsBelowInclude(j, n - 1);
    }
  }

  /** No later numeral is among them. */
  lemma {:induction false} NumeralsBelowExclude(m: nat, n: nat)
    requires m >= n
    ensures Base62(m) !in NumeralsBelow(n)
    decreases n
  {
    if n > 0 {
      NumeralsBelowExclude(m, n - 1);
      Base62Injective(m, n - 1);
    }
  }
}
