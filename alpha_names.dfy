/** Reddit image names as bijective base-62 numerals over the digits and ASCII
    letters (`_alpha_base` of utils/stylesheet/stylesheet_image_mapper.py). */
module AlphaNames {
  import opened Text

  /** `_alpha_base(n)`: bijective base-62 over `Base62Digits` (whose `i`-th
      symbol is `Base62Symbol(i)`), so 0 is the empty name and every positive
      number has exactly one name. */
  function AlphaName(n: nat): (s: string)
    ensures |s| == 0 <==> n == 0
    decreases n
  {
    if n == 0 then "" else AlphaName((n - 1) / 62) + [Base62Symbol((n - 1) % 62)]
  }

  /** Names are drawn from the 62 symbols. */
  lemma {:induction false} AlphaNameSymbols(n: nat)
    ensures forall i :: 0 <= i < |AlphaName(n)| ==> IsBase62Symbol(AlphaName(n)[i])
    decreases n
  {
    if n > 0 {
      AlphaNameSymbols((n - 1) / 62);
      Base62IndexOfSymbol((n - 1) % 62);
    }
  }

  /** Reads a name back as a number. */
  function AlphaValue(s: string): nat
    decreases |s|
  {
    if s == [] then 0 else AlphaValue(s[..|s| - 1]) * 62 + Base62Index(s[|s| - 1]) + 1
  }

  lemma {:induction false} AlphaValueOfName(n: nat)
    ensures AlphaValue(AlphaName(n)) == n
    decreases n
  {
    if n > 0 {
      var q, r := (n - 1) / 62, (n - 1) % 62;
      AlphaValueOfName(q);
      var s := AlphaName(n);
      assert s[..|s| - 1] == AlphaName(q);
      Base62IndexOfSymbol(r);
    }
  }

  lemma {:induction false} AlphaNameOfValue(s: string)
    requires forall i :: 0 <= i < |s| ==> IsBase62Symbol(s[i])
    ensures AlphaName(AlphaValue(s)) == s
    decreases |s|
  {
    if s != [] {
      var init, last := s[..|s| - 1], s[|s| - 1];
      AlphaNameOfValue(init);
      Base62SymbolOfIndex(last);
      var v := AlphaValue(s);
      DivMod62(AlphaValue(init), Base62Index(last));
      assert AlphaName(v) == AlphaName(AlphaValue(init)) + [Base62Digits[Base62Index(last)]];
      assert s == init + [last];
    }
  }

  /** Different numbers get different names. */
  lemma AlphaNameInjective(m: nat, n: nat)
    ensures AlphaName(m) == AlphaName(n) ==> m == n
  {
    AlphaValueOfName(m);
    AlphaValueOfName(n);
  }

  /** A larger number never gets a shorter name. */
  lemma {:induction false} AlphaNameLengthMonotone(m: nat, n: nat)
    requires m <= n
    ensures |AlphaName(m)| <= |AlphaName(n)|
    decreases n
  {
    if m > 0 {
      AlphaNameLengthMonotone((m - 1) / 62, (n - 1) / 62);
    }
  }

  lemma AlphaNameExamples()
    ensures AlphaName(0) == "" && AlphaName(1) == "0" && AlphaName(62) == "Z"
    ensures AlphaName(63) == "00" && AlphaName(3906) == "ZZ" && AlphaName(3907) == "000"
  {
    assert Base62Digits[0] == Base62Symbol(0) == '0';
    assert Base62Digits[61] == Base62Symbol(61) == 'Z';
    assert AlphaName(1) == AlphaName(0) + ['0'];
    assert AlphaName(62) == AlphaName(0) + ['Z'];
    assert AlphaName(63) == AlphaName(1) + ['0'];
    assert AlphaName(3906) == AlphaName(62) + ['Z'];
    assert AlphaName(3907) == AlphaName(63) + ['0'];
  }

  /** The loop of `_alpha_base`: repeated `divmod(number - 1, 62)`, each
      remainder's symbol prepended. */
  method AlphaBase(number: nat) returns (s: string)
    ensures s == AlphaName(number)
  {
    var n := number;
    s := "";
    while n > 0
      invariant AlphaName(n) + s == AlphaName(number)
      decreases n
    {
      var q, r := (n - 1) / 62, (n - 1) % 62;
      var d := [Base62Digits[r]];
      assert AlphaName(n) == AlphaName(q) + d;
      assert AlphaName(q) + (d + s) == AlphaName(q) + d + s;
      s := d + s;
      n := q;
    }
  }
}
