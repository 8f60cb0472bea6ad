/** Character classes and number rendering shared by the CSS matchers, the Data
    Page codec and the build helpers. Strings are sequences of Unicode scalar
    values, as Python `str` and JavaScript strings (without lone surrogates) are. */
module Text {

  type byte = bv8

  /** `\d` restricted to ASCII. */
  predicate IsDigit(c: char) { '0' <= c <= '9' }

  predicate IsAsciiLetter(c: char) { 'a' <= c <= 'z' || 'A' <= c <= 'Z' }

  /** `\w` restricted to ASCII: letters, digits and the underscore. */
  predicate IsWordChar(c: char) { IsAsciiLetter(c) || IsDigit(c) || c == '_' }

  predicate IsLowerHexDigit(c: char) { IsDigit(c) || 'a' <= c <= 'f' }

  predicate AllWordChars(s: string) { forall i :: 0 <= i < |s| ==> IsWordChar(s[i]) }

  predicate AllDigits(s: string) { forall i :: 0 <= i < |s| ==> IsDigit(s[i]) }

  /** ASCII lower-casing, the folding Python's `re.I` applies to ASCII text. */
  function Lower(c: char): (r: char)
    ensures 'A' <= c <= 'Z' ==> r as int == c as int + 32
    ensures !('A' <= c <= 'Z') ==> r == c
  {
    if 'A' <= c <= 'Z' then (c as int + 32) as char else c
  }

  predicate CaseInsensitiveEq(a: char, b: char) { Lower(a) == Lower(b) }

  /** Does `s` start with `p`? */
  predicate StartsWith(s: string, p: string) { |p| <= |s| && s[..|p|] == p }

  /** Does `p` occur anywhere in `s`? */
  predicate Occurs(s: string, p: string) {
    exists i :: 0 <= i <= |s| && StartsWith(s[i..], p)
  }

  /** The value of a decimal digit. */
  function DigitValue(c: char): (d: nat)
    requires IsDigit(c)
    ensures d < 10
  {
    c as int - '0' as int
  }

  function DigitChar(d: nat): (c: char)
    requires d < 10
    ensures IsDigit(c) && DigitValue(c) == d
  {
    ('0' as int + d) as char
  }

  /** Python's `str(n)` / JavaScript's template rendering of a non-negative integer. */
  function Decimal(n: nat): (s: string)
    ensures |s| >= 1 && AllDigits(s)
    ensures n >= 10 ==> s[0] != '0'
    decreases n
  {
    if n < 10 then [DigitChar(n)] else Decimal(n / 10) + [DigitChar(n % 10)]
  }

  /** Python's `int(s)` on a string of ASCII digits. */
  function ParseDecimal(s: string): (n: nat)
    requires AllDigits(s)
    decreases |s|
  {
    if s == [] then 0 else ParseDecimal(s[..|s| - 1]) * 10 + DigitValue(s[|s| - 1])
  }

  /** Rendering then parsing a number gives it back. */
  lemma {:induction false} ParseDecimalOfDecimal(n: nat)
    ensures ParseDecimal(Decimal(n)) == n
    decreases n
  {
    if n >= 10 {
      var s := Decimal(n);
      assert s[..|s| - 1] == Decimal(n / 10);
      ParseDecimalOfDecimal(n / 10);
    }
  }

  /** Distinct numbers render to distinct strings. */
  lemma DecimalInjective(m: nat, n: nat)
    requires Decimal(m) == Decimal(n)
    ensures m == n
  {
    ParseDecimalOfDecimal(m);
    ParseDecimalOfDecimal(n);
  }

  /** Number of bytes the UTF-8 encoding (RFC 3629) spends on one scalar value. */
  function Utf8Width(c: char): (w: nat)
    ensures 1 <= w <= 4
    ensures w == 1 <==> c as int < 0x80
  {
    if c as int < 0x80 then 1
    else if c as int < 0x800 then 2
    else if c as int < 0x10000 then 3
    else 4
  }

  /** `len(s.encode("utf-8"))`. */
  function Utf8Length(s: string): (n: nat)
    decreases |s|
  {
    if s == [] then 0 else Utf8Length(s[..|s| - 1]) + Utf8Width(s[|s| - 1])
  }

  /** The UTF-8 length is at least the number of characters, at most four
      times it, and equals it exactly when the text is ASCII. */
  lemma {:induction false} Utf8LengthBounds(s: string)
    ensures |s| <= Utf8Length(s) <= 4 * |s|
    ensures Utf8Length(s) == |s| <==> forall i :: 0 <= i < |s| ==> s[i] as int < 0x80
    decreases |s|
  {
    if s != [] {
      var init := s[..|s| - 1];
      Utf8LengthBounds(init);
      assert forall i :: 0 <= i < |init| ==> init[i] == s[i];
    }
  }

  /** UTF-8 length is additive over concatenation. */
  lemma {:induction false} Utf8LengthConcat(a: string, b: string)
    ensures Utf8Length(a + b) == Utf8Length(a) + Utf8Length(b)
    decreases |b|
  {
    if b != [] {
      assert (a + b)[..|a + b| - 1] == a + b[..|b| - 1];
      Utf8LengthConcat(a, b[..|b| - 1]);
    } else {
      assert a + b == a;
    }
  }

  /** Code points of a string, the order Python compares strings by. */
  function CodePoints(s: string): (r: seq<int>)
    ensures |r| == |s|
    ensures forall i :: 0 <= i < |s| ==> r[i] == s[i] as int
  {
    seq(|s|, i requires 0 <= i < |s| => s[i] as int)
  }

  /** `sep.join(parts)`. */
  function Join(parts: seq<string>, sep: string): string
    decreases |parts|
  {
    if parts == [] then []
    else if |parts| == 1 then parts[0]
    else parts[0] + sep + Join(parts[1..], sep)
  }

  /** The `i`-th symbol of digits, then lower-case, then upper-case ASCII
      letters. */
  function Base62Symbol(i: nat): char
    requires i < 62
  {
    if i < 10 then ('0' as int + i) as char
    else if i < 36 then ('a' as int + i - 10) as char
    else ('A' as int + i - 36) as char
  }

  /** `string.digits + string.ascii_letters`, the 62 symbols both name schemes use. */
  const Base62Digits: string := SymbolsFrom(0)

  /** The symbols from position `i` on. */
  function SymbolsFrom(i: nat): (r: string)
    requires i <= 62
    ensures |r| == 62 - i
    ensures forall k :: 0 <= k < |r| ==> r[k] == Base62Symbol(i + k)
    decreases 62 - i
  {
    if i == 62 then "" else [Base62Symbol(i)] + SymbolsFrom(i + 1)
  }

  /** `c` is one of the 62 symbols. */
  predicate IsBase62Symbol(c: char) {
    '0' <= c <= '9' || 'a' <= c <= 'z' || 'A' <= c <= 'Z'
  }

  /** Dividing `a * 62 + b` by 62 gives back `a` and the digit `b`. */
  lemma DivMod62(a: nat, b: nat)
    requires b < 62
    ensures (a * 62 + b) / 62 == a && (a * 62 + b) % 62 == b
  {
  }

  /** The position of a symbol in `Base62Digits`; 62 for any other character. */
  function Base62Index(c: char): (i: nat)
    ensures i <= 62
    ensures i < 62 <==> IsBase62Symbol(c)
  {
    if '0' <= c <= '9' then (c - '0') as nat
    else if 'a' <= c <= 'z' then (c - 'a') as nat + 10
    else if 'A' <= c <= 'Z' then (c - 'A') as nat + 36
    else 62
  }

  /** `Base62Symbol` and `Base62Index` are inverse on the 62 symbols. */
  lemma Base62SymbolIndex(i: nat)
    requires i < 62
    ensures IsBase62Symbol(Base62Symbol(i)) && Base62Index(Base62Symbol(i)) == i
  {
  }

  lemma Base62IndexSymbol(c: char)
    requires IsBase62Symbol(c)
    ensures Base62Symbol(Base62Index(c)) == c
  {
  }

  lemma Base62IndexOfSymbol(i: nat)
    requires i < 62
    ensures IsBase62Symbol(Base62Digits[i])
    ensures Base62Index(Base62Digits[i]) == i
  {
  }

  lemma Base62SymbolOfIndex(c: char)
    ensures c in Base62Digits <==> IsBase62Symbol(c)
    ensures IsBase62Symbol(c) ==> Base62Digits[Base62Index(c)] == c
  {
    if IsBase62Symbol(c) {
      var i := Base62Index(c);
      assert Base62Digits[i] == Base62Symbol(i);
    }
    if c in Base62Digits {
      var i :| 0 <= i < |Base62Digits| && Base62Digits[i] == c;
      Base62IndexOfSymbol(i);
    }
  }
}
