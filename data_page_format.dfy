/** The Data Page format (utils/stylesheet/stylesheet_data.py): the HMAC
    suffix that protects the page, the Markdown rows written for the Local
    images, and hand-written matchers for the two regular expressions that
    read the page back (the table pattern and the row pattern), following the
    order in which Python's backtracking engine tries alternatives. Character
    classes are the ASCII ones of module Text. */
module DataPageFormat {
  import opened Wrappers
  import opened Sequences
  import opened Text

  // ---------------------------------------------------------------------
  // The HMAC suffix
  // ---------------------------------------------------------------------

  /** `hashlib.sha384().digest_size * 2`: the length of a hex SHA-384 digest. */
  const DigestLength: nat := 96

  predicate IsHexDigest(s: string) {
    |s| == DigestLength && forall i :: 0 <= i < |s| ==> IsLowerHexDigit(s[i])
  }

  /** What `hexdigest()` returns: 96 lower-case hex characters. */
  type HexDigest = s: string | IsHexDigest(s) witness seq(96, i => '0')

  /** HMAC-SHA-384 (RFC 2104 over the SHA-384 of FIPS 180-4) of the UTF-8
      encoded content under the UTF-8 encoded key, as a hex digest. The hash is
      not modelled: the model holds for any function of this shape. */
  type Hmac = (string, string) -> HexDigest

  /** `append_hmac(content, key)`: the content, then its digest. */
  function AppendHmac(content: string, key: string, hmac: Hmac): (page: string)
    ensures |page| == |content| + DigestLength
    ensures page[..|content|] == content
  {
    content + hmac(key, content)
  }

  /** `validate_data_page(page, key)`: Python's slices `page[:-96]` and
      `page[-96:]` clamp at the start, so a page shorter than a digest is
      compared whole against the digest of the empty string, and fails. */
  function ValidateDataPage(page: string, key: string, hmac: Hmac): (ok: bool)
    ensures ok <==> |page| >= DigestLength &&
                    page[|page| - DigestLength..] == hmac(key, page[..|page| - DigestLength])
  {
    var cut := if |page| >= DigestLength then |page| - DigestLength else 0;
    page[cut..] == hmac(key, page[..cut])
  }

  /** A page built by `append_hmac` passes `validate_data_page` under the same key. */
  lemma AppendedPageValidates(content: string, key: string, hmac: Hmac)
    ensures ValidateDataPage(AppendHmac(content, key, hmac), key, hmac)
  {
    var page := AppendHmac(content, key, hmac);
    assert page[..|page| - DigestLength] == content;
  }

  /** Conversely, every page that passes is its own first part with the HMAC
      appended. */
  lemma ValidatedPageIsAppended(page: string, key: string, hmac: Hmac)
    requires ValidateDataPage(page, key, hmac)
    ensures page == AppendHmac(page[..|page| - DigestLength], key, hmac)
  {
    assert page == page[..|page| - DigestLength] + page[|page| - DigestLength..];
  }

  // ---------------------------------------------------------------------
  // Writing the image table
  // ---------------------------------------------------------------------

  /** The attributes `_image_table_rows` writes for one image, as values;
      `None` is an attribute the image does not have (yet). */
  datatype TableRow = TableRow(redditName: Option<string>, url: Option<string>, filename: Option<string>,
                               usageCount: Option<nat>, fileSize: Option<nat>, remoteFileSize: Option<nat>,
                               width: Option<nat>, height: Option<nat>, md5: Option<string>)

  /** An f-string of a text attribute: `None` is written as "None". */
  function ShowText(v: Option<string>): string {
    if v.Some? then v.value else "None"
  }

  /** `str()` of a number attribute: `None` is written as "None". */
  function ShowNumber(v: Option<nat>): string {
    if v.Some? then Decimal(v.value) else "None"
  }

  /** The columns after the name and URL: filename, usage count, file size,
      remote size, `WxH` and md5, each led by a `|`. */
  function RowTailText(r: TableRow): string {
    "|" + ShowText(r.filename) + "|" + ShowNumber(r.usageCount) + "|" + ShowNumber(r.fileSize) +
    "|" + ShowNumber(r.remoteFileSize) + "|" + ShowNumber(r.width) + "x" + ShowNumber(r.height) +
    "|" + ShowText(r.md5)
  }

  /** One table row: `[name](url)` and the six other columns, joined by `|`. */
  function RowText(r: TableRow): string {
    "[" + ShowText(r.redditName) + "](" + ShowText(r.url) + ")" + RowTailText(r)
  }

  /** `"\n".join(...)` of the rows. */
  function TableText(rows: seq<TableRow>): string
    decreases |rows|
  {
    if rows == [] then ""
    else if |rows| == 1 then RowText(rows[0])
    else RowText(rows[0]) + "\n" + TableText(rows[1..])
  }

  // ---------------------------------------------------------------------
  // Reading rows: the row pattern and `re.finditer`
  // ---------------------------------------------------------------------

  /** The character classes the two patterns use: `\w`, `\d`, `[\w\-_]` and `\s`. */
  datatype Class = Word | Digit | Stem | Space

  predicate IsSpace(c: char) { c == ' ' || '\t' <= c <= '\r' }

  predicate InClass(c: char, cls: Class) {
    match cls
    case Word => IsWordChar(c)
    case Digit => IsDigit(c)
    case Stem => IsWordChar(c) || c == '-'
    case Space => IsSpace(c)
  }

  /** Length of the longest prefix of `s` in the class: how far a greedy
      `cls+` or `cls*` reaches. */
  function RunLength(s: string, cls: Class): (n: nat)
    ensures n <= |s|
    ensures forall k :: 0 <= k < n ==> InClass(s[k], cls)
    ensures n == |s| || !InClass(s[n], cls)
    decreases |s|
  {
    if s != [] && InClass(s[0], cls) then 1 + RunLength(s[1..], cls) else 0
  }

  /** `cls+` followed by the literal `next` (which is outside the class, so
      the greedy run never gives anything back): the length of the run. */
  function Field(s: string, cls: Class, next: char): (r: Option<nat>)
    ensures r.Some? ==> 0 < r.value < |s| && s[r.value] == next
    ensures r.Some? ==> forall k :: 0 <= k < r.value ==> InClass(s[k], cls)
  {
    var n := RunLength(s, cls);
    if 0 < n < |s| && s[n] == next then Some(n) else None
  }

  /** Each `(cls, next)` of `pattern` in turn, as `cls+` then the literal
      `next`, at the head of `s`: the runs matched and the text after the
      last literal. */
  function Fields(s: string, pattern: seq<(Class, char)>): (r: Option<(seq<string>, string)>)
    ensures r.Some? ==> |r.value.0| == |pattern| && |r.value.1| + |pattern| <= |s|
    ensures r.Some? ==> forall i, k :: 0 <= i < |pattern| && 0 <= k < |r.value.0[i]| ==>
      InClass(r.value.0[i][k], pattern[i].0)
    decreases |pattern|
  {
    if pattern == [] then Some(([], s)) else
    var f := Field(s, pattern[0].0, pattern[0].1);
    if f.None? then None else
    var rest := Fields(s[f.value + 1..], pattern[1..]);
    if rest.None? then None else
    assert forall i :: 1 <= i < |pattern| ==> pattern[1..][i - 1] == pattern[i];
    Some(([s[..f.value]] + rest.value.0, rest.value.1))
  }

  /** The runs of a matched pattern, each followed by its literal. */
  function Interleave(runs: seq<string>, pattern: seq<(Class, char)>): string
    requires |runs| == |pattern|
    decreases |pattern|
  {
    if pattern == [] then "" else runs[0] + [pattern[0].1] + Interleave(runs[1..], pattern[1..])
  }

  /** `[\w\-_]+\.\w+\|(\d+)\|(\d+)\|(\d+)\|(\d+)x(\d+)\|`: the filename
      as a stem and an extension, then the four numbers and the dimensions. */
  const TailPattern: seq<(Class, char)> :=
    [(Stem, '.'), (Word, '|'), (Digit, '|'), (Digit, '|'), (Digit, '|'), (Digit, 'x'), (Digit, '|')]

  /** What the row pattern captures after the URL, and the text after the match. */
  datatype Tail = Tail(filename: string, remoteFileSize: nat, md5: string, rest: string)

  /** The row pattern after `\)`: a `|`, the tail fields and the md5 `(\w+)`,
      at the head of `s`. Every run stops at a character outside its class, so
      there is at most one way to match. */
  function RowTail(s: string): (r: Option<Tail>)
    ensures r.Some? ==> |r.value.rest| < |s|
  {
    if s == [] || s[0] != '|' then None else
    var fs := Fields(s[1..], TailPattern);
    if fs.None? then None else
    var runs, after := fs.value.0, fs.value.1;
    var m := RunLength(after, Word);
    if m == 0 then None else
    assert AllDigits(runs[4]) by { assert forall k :: 0 <= k < |runs[4]| ==> InClass(runs[4][k], TailPattern[4].0); }
    Some(Tail(runs[0] + "." + runs[1], ParseDecimal(runs[4]), after[..m], after[m..]))
  }

  /** The lazy `(.*?)\)` and the rest of the pattern: the URL is the
      shortest run of non-newline characters after which `)` and the rest
      match. Returns the URL's length and what the rest captured. */
  function LazyUrl(s: string): (r: Option<(nat, Tail)>)
    ensures r.Some? ==> r.value.0 < |s| && s[r.value.0] == ')' && r.value.0 + |r.value.1.rest| < |s|
    ensures r.Some? ==> forall k :: 0 <= k < r.value.0 ==> s[k] != '\n'
    decreases |s|
  {
    if s == [] || s[0] == '\n' then None
    else if s[0] == ')' && RowTail(s[1..]).Some? then Some((0, RowTail(s[1..]).value))
    else
      var r := LazyUrl(s[1..]);
      if r.None? then None
      else
        Some((r.value.0 + 1, r.value.1))
  }

  /** The groups of one row match that `parse_data_page` keeps. */
  datatype StoredRow = StoredRow(filename: string, redditName: string, url: string, md5: string,
                                 remoteFileSize: nat)

  /** The whole row pattern at the head of `s`:
      `\[(\w+)\]\((.*?)\)` and then the tail. Returns the captured row and
      the text after the match. */
  function RowAt(s: string): (r: Option<(StoredRow, string)>)
    ensures r.Some? ==> |r.value.1| < |s| && s[0] == '['
  {
    if s == [] || s[0] != '[' then None else
    var n := Field(s[1..], Word, ']');
    if n.None? || n.value + 2 >= |s| || s[n.value + 2] != '(' then None else
    var rest := s[n.value + 3..];
    var u := LazyUrl(rest);
    if u.None? then None else
    var tl := u.value.1;
    Some((StoredRow(tl.filename, s[1..n.value + 1], rest[..u.value.0], tl.md5, tl.remoteFileSize), tl.rest))
  }

  /** `re.finditer(row_pattern, s)`: every start position is tried in turn,
      and after a match the search resumes where it ended. */
  function FindRows(s: string): (r: seq<StoredRow>)
    decreases |s|
  {
    if s == [] then []
    else
      var m := RowAt(s);
      if m.Some? then [m.value.0] + FindRows(m.value.1) else FindRows(s[1..])
  }

  // ---------------------------------------------------------------------
  // Finding the table: `###Images\s+([^\|]+(?:\|[^\|]+)+\n)+`
  // ---------------------------------------------------------------------

  const TableHeading: string := "###Images"

  /** The first `|` at or after `i`, or `|s|`. */
  function NextPipe(s: string, i: nat): (p: nat)
    requires i <= |s|
    ensures i <= p <= |s| && (p < |s| ==> s[p] == '|')
    ensures forall k :: i <= k < p ==> s[k] != '|'
    decreases |s| - i
  {
    if i == |s| || s[i] == '|' then i else NextPipe(s, i + 1)
  }

  /** How far the greedy `(?:\|[^\|]+)+` reaches from the `|` at `q`: it stops
      at a `|` that is followed by another `|` or by the end of the text. */
  function SegmentsEnd(s: string, q: nat): (e: nat)
    requires q < |s| && s[q] == '|'
    ensures q <= e <= |s|
    ensures forall k :: q < k < e && s[k] == '|' ==> k + 1 < |s| && s[k + 1] != '|'
    ensures q + 1 < |s| && s[q + 1] != '|' ==> q < e
    decreases |s| - q
  {
    if q + 1 < |s| && s[q + 1] != '|' then
      var p := NextPipe(s, q + 1);
      if p == |s| then |s| else SegmentsEnd(s, p)
    else q
  }

  /** The last `\n` strictly between `lo` and `hi` that is not right after a
      `|`: where the segments can stop for the closing `\n` of the pattern. */
  function LastBreak(s: string, lo: nat, hi: nat): (r: Option<nat>)
    requires hi <= |s|
    ensures r.Some? ==> lo < r.value < hi && s[r.value] == '\n' && s[r.value - 1] != '|'
    ensures r.Some? ==> forall k :: r.value < k < hi ==> !(s[k] == '\n' && s[k - 1] != '|')
    ensures r.None? ==> forall k :: lo < k < hi ==> !(s[k] == '\n' && s[k - 1] != '|')
    decreases hi
  {
    if hi <= lo + 1 then None
    else if s[hi - 1] == '\n' && s[hi - 2] != '|' then Some(hi - 1)
    else LastBreak(s, lo, hi - 1)
  }

  /** The table pattern tried at position `t`, returning the bounds of what
      group 1 captures. `\s+` is greedy; it gives back one character only
      when the text after it starts with `|`. The repeated group then matches
      once: its first attempt already reaches the last newline the segments
      allow, and a repeated group captures its last repetition. */
  function TableAt(s: string, t: nat): (r: Option<(nat, nat)>)
    requires t <= |s|
    ensures r.Some? ==> t < r.value.0 < r.value.1 <= |s| && s[r.value.1 - 1] == '\n'
    ensures r.Some? ==> StartsWith(s[t..], TableHeading)
  {
    if !StartsWith(s[t..], TableHeading) then None else
    var a := t + |TableHeading|;
    var b := a + RunLength(s[a..], Space);
    if b == a then None else
    if !(b < |s| && s[b] != '|') && b - a < 2 then None else
    var start := if b < |s| && s[b] != '|' then b else b - 1;
    var p := NextPipe(s, start);
    if p == |s| then None else
    var e := SegmentsEnd(s, p);
    var n := LastBreak(s, p, e);
    if n.None? then None else Some((start, n.value + 1))
  }

  /** `re.search(table_pattern, s)` from position `t` on: the first position
      where the pattern matches. */
  function FindTable(s: string, t: nat): (r: Option<(nat, nat)>)
    requires t <= |s|
    ensures r.Some? ==> t < r.value.0 < r.value.1 <= |s|
    decreases |s| - t
  {
    if TableAt(s, t).Some? then TableAt(s, t)
    else if t == |s| then None
    else FindTable(s, t + 1)
  }

  /** The rows `parse_data_page` reads: none when the page has no table,
      otherwise the row matches inside what the table pattern's group captured. */
  function PageRows(page: string): seq<StoredRow> {
    var t := FindTable(page, 0);
    if t.None? then [] else FindRows(page[t.value.0..t.value.1])
  }

  // ---------------------------------------------------------------------
  // Round trip of a written row
  // ---------------------------------------------------------------------

  /** A filename the row pattern accepts: a `[\w\-_]` stem, one dot, a `\w` extension. */
  predicate FilenameFits(f: string) {
    exists d :: 0 < d < |f| - 1 && f[d] == '.' &&
      (forall k :: 0 <= k < d ==> InClass(f[k], Stem)) &&
      (forall k :: d < k < |f| ==> IsWordChar(f[k]))
  }

  /** A row whose fields fit the row pattern's classes; the URL must also be
      free of `)`, so that the lazy URL group stops at the right parenthesis. */
  predicate Fits(r: TableRow) {
    r.redditName.Some? && |r.redditName.value| > 0 && AllWordChars(r.redditName.value) &&
    r.url.Some? && (forall k :: 0 <= k < |r.url.value| ==> r.url.value[k] != ')' && r.url.value[k] != '\n') &&
    r.filename.Some? && FilenameFits(r.filename.value) &&
    r.usageCount.Some? && r.fileSize.Some? && r.remoteFileSize.Some? && r.width.Some? && r.height.Some? &&
    r.md5.Some? && |r.md5.value| > 0 && AllWordChars(r.md5.value)
  }

  /** What reading a written row gives back. */
  function Reread(r: TableRow): StoredRow {
    StoredRow(ShowText(r.filename), ShowText(r.redditName), ShowText(r.url), ShowText(r.md5),
              r.remoteFileSize.GetOr(0))
  }

  function RereadAll(rows: seq<TableRow>): (r: seq<StoredRow>)
    ensures |r| == |rows|
    ensures forall k :: 0 <= k < |rows| ==> r[k] == Reread(rows[k])
    decreases |rows|
  {
    if rows == [] then [] else [Reread(rows[0])] + RereadAll(rows[1..])
  }

  lemma {:induction false} RunLengthOf(w: string, t: string, cls: Class)
    requires forall k :: 0 <= k < |w| ==> InClass(w[k], cls)
    requires t == [] || !InClass(t[0], cls)
    ensures RunLength(w + t, cls) == |w|
    decreases |w|
  {
    if w != [] {
      assert (w + t)[1..] == w[1..] + t;
      RunLengthOf(w[1..], t, cls);
    } else {
      assert w + t == t;
    }
  }

  lemma FieldOf(w: string, c: char, t: string, cls: Class)
    requires |w| > 0 && forall k :: 0 <= k < |w| ==> InClass(w[k], cls)
    requires !InClass(c, cls)
    ensures Field(w + [c] + t, cls, c) == Some(|w|)
    ensures (w + [c] + t)[|w| + 1..] == t
  {
    assert w + [c] + t == w + ([c] + t);
    RunLengthOf(w, [c] + t, cls);
  }

  lemma {:induction false} FieldsOf(runs: seq<string>, pattern: seq<(Class, char)>, t: string)
    requires |runs| == |pattern|
    requires forall i :: 0 <= i < |runs| ==> AllIn(runs[i], pattern[i].0)
    requires Separated(pattern)
    ensures Fields(Interleave(runs, pattern) + t, pattern) == Some((runs, t))
    decreases |pattern|
  {
    if pattern == [] {
      assert Interleave(runs, pattern) + t == t;
    } else {
      var s := Interleave(runs, pattern) + t;
      var rest := Interleave(runs[1..], pattern[1..]) + t;
      assert s == runs[0] + [pattern[0].1] + rest;
      FieldOf(runs[0], pattern[0].1, rest, pattern[0].0);
      FieldsOf(runs[1..], pattern[1..], t);
      assert s[..|runs[0]|] == runs[0];
      assert [runs[0]] + runs[1..] == runs;
    }
  }

  /** No literal of the pattern belongs to the class of the run before it,
      so every greedy run stops exactly at its literal. */
  predicate Separated(pattern: seq<(Class, char)>) {
    forall i :: 0 <= i < |pattern| ==> !InClass(pattern[i].1, pattern[i].0)
  }

  lemma TailPatternSeparated()
    ensures Separated(TailPattern)
  {
    assert !InClass('.', Stem) && !InClass('|', Word) && !InClass('|', Digit) && !InClass('x', Digit);
  }

  predicate AllIn(w: string, cls: Class) {
    |w| > 0 && forall k :: 0 <= k < |w| ==> InClass(w[k], cls)
  }

  lemma DigitsOf(n: nat)
    ensures AllIn(Decimal(n), Digit)
  {
  }

  lemma DropBar(x: string)
    ensures ("|" + x)[1..] == x && ("|" + x)[0] == '|'
  {
  }

  lemma SplitAt(x: string, y: string)
    ensures (x + y)[..|x|] == x && (x + y)[|x|..] == y
  {
  }

  /** The tail fields of a row, each run followed by its literal. */
  lemma TailInterleave(stem: string, ext: string, A: string, B: string, C: string, W: string, H: string)
    ensures Interleave([stem, ext, A, B, C, W, H], TailPattern) ==
      stem + "." + (ext + "|" + (A + "|" + (B + "|" + (C + "|" + (W + "x" + (H + "|"))))))
  {
    var runs, p := [stem, ext, A, B, C, W, H], TailPattern;
    assert Interleave(runs[7..], p[7..]) == "";
    assert Interleave(runs[6..], p[6..]) == H + "|" + Interleave(runs[7..], p[7..]);
    assert Interleave(runs[5..], p[5..]) == W + "x" + Interleave(runs[6..], p[6..]);
    assert Interleave(runs[4..], p[4..]) == C + "|" + Interleave(runs[5..], p[5..]);
    assert Interleave(runs[3..], p[3..]) == B + "|" + Interleave(runs[4..], p[4..]);
    assert Interleave(runs[2..], p[2..]) == A + "|" + Interleave(runs[3..], p[3..]);
    assert Interleave(runs[1..], p[1..]) == ext + "|" + Interleave(runs[2..], p[2..]);
  }

  lemma TailTextShape(f: string, stem: string, ext: string, A: string, B: string, C: string, W: string,
                      H: string, m: string, t: string)
    requires f == stem + "." + ext
    ensures "|" + f + "|" + A + "|" + B + "|" + C + "|" + W + "x" + H + "|" + m + t ==
      "|" + ((stem + "." + (ext + "|" + (A + "|" + (B + "|" + (C + "|" + (W + "x" + (H + "|"))))))) + (m + t))
  {
  }

  /** The tail pattern on a text whose tail fields have matched. */
  lemma TailAt(x: string, runs: seq<string>, m: string, t: string)
    requires Fields(x, TailPattern) == Some((runs, m + t))
    requires AllIn(m, Word) && (t == [] || t[0] == '\n')
    ensures AllDigits(runs[4])
    ensures RowTail("|" + x) == Some(Tail(runs[0] + "." + runs[1], ParseDecimal(runs[4]), m, t))
  {
    assert forall k :: 0 <= k < |runs[4]| ==> InClass(runs[4][k], TailPattern[4].0);
    DropBar(x);
    RunLengthOf(m, t, Word);
    SplitAt(m, t);
  }

  lemma TailRunsFit(stem: string, ext: string, A: string, B: string, C: string, W: string, H: string)
    requires AllIn(stem, Stem) && AllIn(ext, Word)
    requires AllIn(A, Digit) && AllIn(B, Digit) && AllIn(C, Digit) && AllIn(W, Digit) && AllIn(H, Digit)
    ensures forall i :: 0 <= i < 7 ==> AllIn([stem, ext, A, B, C, W, H][i], TailPattern[i].0)
  {
    var runs := [stem, ext, A, B, C, W, H];
    assert runs[0] == stem && runs[1] == ext && runs[2] == A && runs[3] == B;
    assert runs[4] == C && runs[5] == W && runs[6] == H;
    forall i | 0 <= i < 7 ensures AllIn(runs[i], TailPattern[i].0) {
      if i == 0 {} else if i == 1 {} else if i == 2 {} else if i == 3 {} else if i == 4 {} else if i == 5 {} else {}
    }
  }

  /** The tail pattern on a text built from runs of the right classes. */
  lemma TailOfParts(stem: string, ext: string, A: string, B: string, C: string, W: string, H: string,
                    m: string, t: string)
    requires AllIn(stem, Stem) && AllIn(ext, Word) && AllIn(m, Word)
    requires AllIn(A, Digit) && AllIn(B, Digit) && AllIn(C, Digit) && AllIn(W, Digit) && AllIn(H, Digit)
    requires t == [] || t[0] == '\n'
    ensures AllDigits(C)
    ensures RowTail("|" + (Interleave([stem, ext, A, B, C, W, H], TailPattern) + (m + t))) ==
      Some(Tail(stem + "." + ext, ParseDecimal(C), m, t))
  {
    var runs := [stem, ext, A, B, C, W, H];
    TailRunsFit(stem, ext, A, B, C, W, H);
    TailPatternSeparated();
    FieldsOf(runs, TailPattern, m + t);
    TailAt(Interleave(runs, TailPattern) + (m + t), runs, m, t);
  }

  /** The tail pattern on the written columns, as strings. */
  lemma TailOfColumns(f: string, stem: string, ext: string, A: string, B: string, C: string, W: string,
                      H: string, m: string, t: string)
    requires f == stem + "." + ext
    requires AllIn(stem, Stem) && AllIn(ext, Word) && AllIn(m, Word)
    requires AllIn(A, Digit) && AllIn(B, Digit) && AllIn(C, Digit) && AllIn(W, Digit) && AllIn(H, Digit)
    requires t == [] || t[0] == '\n'
    ensures RowTail("|" + f + "|" + A + "|" + B + "|" + C + "|" + W + "x" + H + "|" + m + t) ==
      Some(Tail(f, ParseDecimal(C), m, t))
  {
    TailOfParts(stem, ext, A, B, C, W, H, m, t);
    TailInterleave(stem, ext, A, B, C, W, H);
    TailTextShape(f, stem, ext, A, B, C, W, H, m, t);
  }

  /** The tail of a written row is matched, up to a following newline or the
      end of the text. */
  lemma RowTailOf(r: TableRow, t: string)
    requires Fits(r)
    requires t == [] || t[0] == '\n'
    ensures RowTail(RowTailText(r) + t) == Some(Tail(r.filename.value, r.remoteFileSize.value, r.md5.value, t))
  {
    var f := r.filename.value;
    var d :| 0 < d < |f| - 1 && f[d] == '.' && (forall k :: 0 <= k < d ==> InClass(f[k], Stem)) &&
      (forall k :: d < k < |f| ==> IsWordChar(f[k]));
    var stem, ext := f[..d], f[d + 1..];
    assert f == stem + "." + ext;
    DigitsOf(r.usageCount.value); DigitsOf(r.fileSize.value); DigitsOf(r.remoteFileSize.value);
    DigitsOf(r.width.value); DigitsOf(r.height.value);
    TailOfColumns(f, stem, ext, Decimal(r.usageCount.value), Decimal(r.fileSize.value),
                  Decimal(r.remoteFileSize.value), Decimal(r.width.value), Decimal(r.height.value),
                  r.md5.value, t);
    ParseDecimalOfDecimal(r.remoteFileSize.value);
  }

  /** The URL group stops at the first `)` after which the rest of the row
      matches, when no newline and no other `)` comes before it. */
  lemma LazyUrlOf(u: string, rest: string)
    requires forall k :: 0 <= k < |u| ==> u[k] != ')' && u[k] != '\n'
    requires RowTail(rest).Some?
    ensures LazyUrl(u + ")" + rest) == Some((|u|, RowTail(rest).value))
  {
    var s := u + ")" + rest;
    forall k | 0 <= k < |u| ensures s[k] != ')' && s[k] != '\n' {
      assert s[k] == u[k];
    }
    LazyUrlScan(s, |u|);
    DropFirstOfThree(u, ")", rest);
    LazyUrlStop(rest);
  }

  /** Characters that are neither `)` nor a newline only shift the match. */
  lemma {:induction false} LazyUrlScan(s: string, j: nat)
    requires j <= |s|
    requires forall k :: 0 <= k < j ==> s[k] != ')' && s[k] != '\n'
    ensures LazyUrl(s) == if LazyUrl(s[j..]).None? then None
                          else Some((LazyUrl(s[j..]).value.0 + j, LazyUrl(s[j..]).value.1))
    decreases j
  {
    if j > 0 {
      var t := s[1..];
      assert t[j - 1..] == s[j..];
      forall k | 0 <= k < j - 1 ensures t[k] != ')' && t[k] != '\n' {
        assert t[k] == s[k + 1];
      }
      LazyUrlScan(t, j - 1);
      LazyUrlSkip(s[0], t);
      assert s == [s[0]] + t;
    }
  }

  lemma LazyUrlStop(rest: string)
    requires RowTail(rest).Some?
    ensures LazyUrl(")" + rest) == Some((0, RowTail(rest).value))
  {
    assert (")" + rest)[1..] == rest;
  }

  lemma LazyUrlSkip(c: char, s: string)
    requires c != ')' && c != '\n'
    ensures LazyUrl([c] + s) == if LazyUrl(s).None? then None else Some((LazyUrl(s).value.0 + 1, LazyUrl(s).value.1))
  {
    assert ([c] + s)[1..] == s;
  }

  lemma RowShape(n: string, u: string, tail: string)
    ensures "[" + n + "](" + u + ")" + tail == "[" + (n + [']'] + ("(" + (u + ")" + tail)))
  {
  }

  lemma RowAtParts(n: string, u: string, tail: string)
    requires AllIn(n, Word)
    requires forall k :: 0 <= k < |u| ==> u[k] != ')' && u[k] != '\n'
    requires RowTail(tail).Some?
    ensures RowAt("[" + (n + [']'] + ("(" + (u + ")" + tail)))) ==
      Some((StoredRow(RowTail(tail).value.filename, n, u, RowTail(tail).value.md5,
                      RowTail(tail).value.remoteFileSize), RowTail(tail).value.rest))
  {
    LazyUrlOf(u, tail);
    RowAtHead(n, u + ")" + tail);
    assert (u + ")" + tail)[..|u|] == u;
  }

  /** A bracketed name of word characters followed by `(` and text in which
      the URL group matches. */
  lemma RowAtHead(n: string, rest: string)
    requires AllIn(n, Word)
    requires LazyUrl(rest).Some?
    ensures var (i, tl) := LazyUrl(rest).value;
      RowAt("[" + (n + [']'] + ("(" + rest))) ==
      Some((StoredRow(tl.filename, n, rest[..i], tl.md5, tl.remoteFileSize), tl.rest))
  {
    var s := "[" + (n + [']'] + ("(" + rest));
    FieldOf(n, ']', "(" + rest, Word);
    assert s[1..] == n + [']'] + ("(" + rest);
    assert s[|n| + 3..] == rest;
    assert s[1..|n| + 1] == n;
    RowAtSplit(s, |n|, rest);
  }

  lemma RowAtSplit(s: string, m: nat, rest: string)
    requires s != [] && s[0] == '[' && Field(s[1..], Word, ']') == Some(m)
    requires m + 2 < |s| && s[m + 2] == '(' && s[m + 3..] == rest && LazyUrl(rest).Some?
    ensures var (i, tl) := LazyUrl(rest).value;
      RowAt(s) == Some((StoredRow(tl.filename, s[1..m + 1], rest[..i], tl.md5, tl.remoteFileSize), tl.rest))
  {
  }

  /** A written row is read back whole, up to a following newline or the end
      of the text. */
  lemma RowAtOf(r: TableRow, t: string)
    requires Fits(r)
    requires t == [] || t[0] == '\n'
    ensures RowAt(RowText(r) + t) == Some((Reread(r), t))
  {
    var n, u := r.redditName.value, r.url.value;
    var tail := RowTailText(r) + t;
    RowTailOf(r, t);
    RowShape(n, u, tail);
    assert RowText(r) + t == "[" + n + "](" + u + ")" + tail;
    RowAtParts(n, u, tail);
  }

  /** Round trip of the image table: reading the rows `_image_table_rows`
      wrote gives back, row by row and in order, the filename, name, URL, md5
      and remote size of every image whose fields fit the row pattern. */
  lemma {:induction false} TableRoundTrip(rows: seq<TableRow>)
    requires forall k :: 0 <= k < |rows| ==> Fits(rows[k])
    ensures FindRows(TableText(rows)) == RereadAll(rows)
    decreases |rows|
  {
    if |rows| == 1 {
      RowAtOf(rows[0], "");
      assert RowText(rows[0]) + "" == TableText(rows);
    } else if |rows| > 1 {
      var s := TableText(rows);
      var rest := "\n" + TableText(rows[1..]);
      assert s == RowText(rows[0]) + rest;
      RowAtOf(rows[0], rest);
      assert RowAt(rest).None?;
      assert rest[1..] == TableText(rows[1..]);
      TableRoundTrip(rows[1..]);
      assert RereadAll(rows) == [Reread(rows[0])] + RereadAll(rows[1..]);
    }
  }
}
