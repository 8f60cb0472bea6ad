/** The stylesheet assets: the CSS, its image references and the Local
    images (utils/stylesheet/stylesheet_assets.py).

    The image reference pattern is `url\("<dir>\/([\w_-]+.(?:<e1>|<e2>|…))"\)`
    compiled with `re.I`, where `<dir>` is the relative images directory and
    the extensions are inserted unescaped. It is matched here by hand,
    following the order in which Python's backtracking engine tries the
    alternatives. */
module Assets {
  import opened Wrappers
  import opened Sequences
  import opened Text
  import opened Configuration
  import opened StylesheetImages
  import opened ImageLists
  import DataPageFormat

  // ---------------------------------------------------------------------
  // The image reference pattern
  // ---------------------------------------------------------------------

  /** How one character of text inserted unescaped into the pattern matches
      a character: `.` matches anything but a newline, any other character
      matches itself ignoring ASCII case. */
  predicate PatternCharMatches(p: char, c: char) {
    if p == '.' then c != '\n' else Lower(p) == Lower(c)
  }

  /** `s` starts with a text the unescaped pattern text `p` matches. */
  predicate PatternPrefix(s: string, p: string) {
    |p| <= |s| && forall k :: 0 <= k < |p| ==> PatternCharMatches(p[k], s[k])
  }

  /** `s` starts with the literal `p`, ignoring ASCII case. */
  predicate LiteralPrefix(s: string, p: string) {
    |p| <= |s| && forall k :: 0 <= k < |p| ==> Lower(p[k]) == Lower(s[k])
  }

  const UrlOpen: string := "url(\""
  const UrlClose: string := "\")"

  /** A character of `[\w_-]`. */
  predicate IsNameChar(c: char) {
    DataPageFormat.InClass(c, DataPageFormat.Stem)
  }

  /** `s` starts with a text the extension `e` matches: with `wild`, as
      pattern text; without it, literally. */
  predicate ExtensionPrefix(s: string, e: string, wild: bool) {
    if wild then PatternPrefix(s, e) else LiteralPrefix(s, e)
  }

  /** The whole of `x` is matched by one of the extensions. */
  predicate ExtensionWhole(x: string, exts: seq<string>, wild: bool) {
    exists i :: 0 <= i < |exts| && |exts[i]| == |x| && ExtensionPrefix(x, exts[i], wild)
  }

  /** `(?:e1|e2|…)` and then `"\)` at the head of `s`: the length of the first
      extension, in configured order, after which the closing follows. With
      `wild`, a `.` in an extension matches any character but a newline; without
      it, extensions are literal. */
  function ExtensionMatch(s: string, exts: seq<string>, wild: bool): (r: Option<nat>)
    ensures r.Some? ==> r.value + |UrlClose| <= |s| && s[r.value..r.value + |UrlClose|] == UrlClose
    ensures r.Some? ==> exists i :: 0 <= i < |exts| && |exts[i]| == r.value && ExtensionPrefix(s, exts[i], wild)
    decreases |exts|
  {
    if exts == [] then None
    else
      var e := exts[0];
      if ExtensionPrefix(s, e, wild) && |e| + |UrlClose| <= |s| && s[|e|..|e| + |UrlClose|] == UrlClose then Some(|e|)
      else
        var r := ExtensionMatch(s, exts[1..], wild);
        ExtensionWitness(s, exts, wild, r);
        r
  }

  /** A witness among the later extensions is one among all of them. */
  lemma ExtensionWitness(s: string, exts: seq<string>, wild: bool, r: Option<nat>)
    requires exts != []
    requires r.Some? ==> exists i :: 0 <= i < |exts[1..]| && |exts[1..][i]| == r.value && ExtensionPrefix(s, exts[1..][i], wild)
    ensures r.Some? ==> exists i :: 0 <= i < |exts| && |exts[i]| == r.value && ExtensionPrefix(s, exts[i], wild)
  {
    if r.Some? {
      var i :| 0 <= i < |exts[1..]| && |exts[1..][i]| == r.value && ExtensionPrefix(s, exts[1..][i], wild);
      assert exts[1..][i] == exts[i + 1];
    }
  }

  /** The filename group tried with `[\w_-]+` holding its first `n`
      characters, then `n - 1`, and so on down to one. As `written`, the name
      run is followed by one unescaped `.` (any character but a newline) and an
      extension whose dots are wild; otherwise (the `corrected` pattern
      `[\w_-]+(?:\.e1|…)`) by the literal extension. The length of the group. */
  function NameAndExtension(s: string, n: nat, exts: seq<string>, written: bool): (r: Option<nat>)
    requires n <= |s|
    ensures r.Some? ==> 0 < r.value && r.value + |UrlClose| <= |s| && s[r.value..r.value + |UrlClose|] == UrlClose
    decreases n
  {
    if n == 0 then None
    else
      var m :=
        if written then
          if n < |s| && s[n] != '\n' then
            var e := ExtensionMatch(s[n + 1..], exts, true);
            if e.Some? then Some(n + 1 + e.value) else None
          else None
        else
          var e := ExtensionMatch(s[n..], exts, false);
          if e.Some? then Some(n + e.value) else None;
      if m.Some? then m else NameAndExtension(s, n - 1, exts, written)
  }

  /** `f` read as `m` characters of `[\w_-]` followed by an extension: as
      `written`, after one more character that is not a newline and with
      wild dots; otherwise literally. */
  predicate NameShape(f: string, m: nat, exts: seq<string>, written: bool) {
    0 < m <= |f| && (forall k :: 0 <= k < m ==> IsNameChar(f[k])) &&
    if written then m < |f| && f[m] != '\n' && ExtensionWhole(f[m + 1..], exts, true)
    else ExtensionWhole(f[m..], exts, false)
  }

  /** A filename the pattern can capture. */
  predicate CapturedName(f: string, exts: seq<string>, written: bool) {
    exists m :: 0 < m <= |f| && NameShape(f, m, exts, written)
  }

  /** Cutting the text after an extension's match keeps the match. */
  lemma ExtensionPrefixTrim(x: string, e: string, wild: bool, len: nat)
    requires ExtensionPrefix(x, e, wild) && |e| == len <= |x|
    ensures ExtensionWhole(x[..len], [e], wild)
  {
    assert [e][0] == e;
  }

  /** What the filename group captures has the shape of the pattern. */
  lemma {:induction false} GroupShape(t: string, n: nat, exts: seq<string>, written: bool)
    requires n <= |t| && forall k :: 0 <= k < n ==> IsNameChar(t[k])
    ensures var g := NameAndExtension(t, n, exts, written);
      g.Some? ==> g.value <= |t| && CapturedName(t[..g.value], exts, written)
    decreases n
  {
    var g := NameAndExtension(t, n, exts, written);
    if n > 0 && g.Some? {
      var w := if written then n + 1 else n;
      if w <= |t| && (written ==> t[n] != '\n') && ExtensionMatch(t[w..], exts, written).Some? {
        var e := ExtensionMatch(t[w..], exts, written).value;
        assert g.value == w + e;
        var i :| 0 <= i < |exts| && |exts[i]| == e && ExtensionPrefix(t[w..], exts[i], written);
        var f := t[..g.value];
        ExtensionPrefixTrim(t[w..], exts[i], written, e);
        assert f[w..] == t[w..][..e];
        assert ExtensionWhole(f[w..], exts, written) by {
          assert [exts[i]][0] == exts[i];
        }
        assert NameShape(f, n, exts, written);
      } else {
        GroupShape(t, n - 1, exts, written);
      }
    }
  }

  /** `url\("<dir>\/` at the head of `s` (the directory inserted
      unescaped): what follows it. */
  function AfterDirectory(s: string, dir: string): (r: Option<string>)
    ensures r.Some? ==> |r.value| < |s|
  {
    if !LiteralPrefix(s, UrlOpen) then None else
    var d := s[|UrlOpen|..];
    if !PatternPrefix(d, dir) || |dir| >= |d| || d[|dir|] != '/' then None else
    Some(d[|dir| + 1..])
  }

  /** The reference pattern at the head of `s`: the captured filename and the
      length of the whole match. */
  function ReferenceMatch(s: string, dir: string, exts: seq<string>, written: bool): (r: Option<(string, nat)>)
    ensures r.Some? ==> 0 < r.value.1 <= |s|
  {
    var after := AfterDirectory(s, dir);
    if after.None? then None else
    var t := after.value;
    var g := NameAndExtension(t, DataPageFormat.RunLength(t, DataPageFormat.Stem), exts, written);
    if g.None? then None else Some((t[..g.value], |s| - |t| + g.value + |UrlClose|))
  }

  /** The pattern as the source writes it. */
  function WrittenReferenceAt(s: string, dir: string, exts: seq<string>): Option<(string, nat)> {
    ReferenceMatch(s, dir, exts, true)
  }

  /** The pattern with the dot between name and extension escaped and the
      extensions inserted literally; the rest of the model uses this one. */
  function ReferenceAt(s: string, dir: string, exts: seq<string>): Option<(string, nat)> {
    ReferenceMatch(s, dir, exts, false)
  }

  /** Whatever the pattern captures has its shape. */
  lemma ReferenceShape(s: string, dir: string, exts: seq<string>, written: bool)
    ensures var r := ReferenceMatch(s, dir, exts, written);
      r.Some? ==> CapturedName(r.value.0, exts, written)
  {
    var after := AfterDirectory(s, dir);
    if after.Some? {
      var t := after.value;
      GroupShape(t, DataPageFormat.RunLength(t, DataPageFormat.Stem), exts, written);
    }
  }

  /** `image_reference_regex.findall(css)` read with the corrected pattern
      (`ReferenceAt`): the filenames of the non-overlapping matches, left to
      right. The pattern as written differs on one-character and undotted
      names (`WrittenPatternRejectsShortName`,
      `WrittenPatternAcceptsUndottedName`). */
  function FindReferences(s: string, dir: string, exts: seq<string>): (r: seq<string>)
    ensures forall i :: 0 <= i < |r| ==> CapturedName(r[i], exts, false)
    decreases |s|
  {
    if s == [] then []
    else
      var m := ReferenceAt(s, dir, exts);
      ReferenceShape(s, dir, exts, false);
      if m.Some? then [m.value.0] + FindReferences(s[m.value.1..], dir, exts)
      else FindReferences(s[1..], dir, exts)
  }

  /** `image_reference_regex.search(s) is not None`, with the corrected
      pattern. */
  predicate SearchReference(s: string, dir: string, exts: seq<string>)
    decreases |s|
  {
    s != [] && (ReferenceAt(s, dir, exts).Some? || SearchReference(s[1..], dir, exts))
  }

  /** `url("<dir>/<filename>")`, the way the CSS refers to a Local image. */
  function ReferenceText(dir: string, filename: string): string {
    UrlOpen + dir + "/" + filename + UrlClose
  }

  /** Extensions the corrected pattern can tell apart from the closing `")`. */
  predicate ExtensionsFit(exts: seq<string>) {
    forall i, k :: 0 <= i < |exts| && 0 <= k < |exts[i]| ==> exts[i][k] != '"'
  }

  /** A filename the corrected pattern captures whole: a `[\w_-]+` name, then
      one of the extensions, which starts outside `[\w_-]` (with its dot). */
  predicate ReferenceName(f: string, exts: seq<string>) {
    exists n :: 0 < n < |f| && f[n..] in exts && !IsNameChar(f[n]) &&
      forall k :: 0 <= k < n ==> IsNameChar(f[k])
  }

  // ---------------------------------------------------------------------
  // Properties of the reference pattern
  // ---------------------------------------------------------------------

  /** Where an extension that matches `s` case-insensitively is followed
      by the closing quote, while `ext` is the actual text before it, the
      longer of the two holds a quote at the shorter one's length. */
  lemma QuoteAtClose(s: string, ext: string, e: string)
    requires |ext| + 2 <= |s| && s[..|ext|] == ext && s[|ext|..|ext| + 2] == UrlClose
    ensures LiteralPrefix(s, e) && |e| + 2 <= |s| && s[|e|..|e| + 2] == UrlClose ==>
      (|e| < |ext| ==> ext[|e|] == '"') && (|e| > |ext| ==> e[|ext|] == '"')
  {
    if LiteralPrefix(s, e) && |e| + 2 <= |s| && s[|e|..|e| + 2] == UrlClose {
      if |e| < |ext| {
        assert s[|e|] == '"' && s[|e|] == ext[|e|];
      }
      if |e| > |ext| {
        assert Lower(e[|ext|]) == Lower(s[|ext|]) == '"';
      }
    }
  }

  /** The first extension that closes after `ext` is as long as `ext`, so
      the capture is the same whichever of equal extensions wins. */
  lemma {:induction false} ExtensionMatchOf(ext: string, exts: seq<string>, t: string)
    requires ext in exts && ExtensionsFit(exts)
    ensures ExtensionMatch(ext + UrlClose + t, exts, false) == Some(|ext|)
    decreases |exts|
  {
    var s := ext + UrlClose + t;
    assert s[..|ext|] == ext && s[|ext|..|ext| + 2] == UrlClose;
    var e := exts[0];
    ExtensionsFitParts(exts, ext);
    QuoteAtClose(s, ext, e);
    assert LiteralPrefix(s, ext);
    if LiteralPrefix(s, e) && |e| + 2 <= |s| && s[|e|..|e| + 2] == UrlClose {
      assert |e| == |ext|;
    } else {
      InTail(ext, exts);
      ExtensionMatchOf(ext, exts[1..], t);
    }
  }

  /** What `ExtensionsFit` says of the first extension, of a given one and of
      the rest. */
  lemma ExtensionsFitParts(exts: seq<string>, x: string)
    requires ExtensionsFit(exts) && x in exts
    ensures forall k :: 0 <= k < |exts[0]| ==> exts[0][k] != '"'
    ensures forall k :: 0 <= k < |x| ==> x[k] != '"'
    ensures ExtensionsFit(exts[1..])
  {
    var i :| 0 <= i < |exts| && exts[i] == x;
    assert forall k :: 0 <= k < |exts[i]| ==> exts[i][k] != '"';
    forall j, k | 0 <= j < |exts[1..]| && 0 <= k < |exts[1..][j]| ensures exts[1..][j][k] != '"' {
      assert exts[1..][j] == exts[j + 1];
    }
  }

  /** The name and extension part of a reference: the greedy run stops
      before the extension, which closes right away. */
  lemma NameAndExtensionOf(f: string, exts: seq<string>, t: string)
    requires ReferenceName(f, exts) && ExtensionsFit(exts)
    ensures var s := f + UrlClose + t;
      NameAndExtension(s, DataPageFormat.RunLength(s, DataPageFormat.Stem), exts, false) == Some(|f|)
  {
    var n :| 0 < n < |f| && f[n..] in exts && !IsNameChar(f[n]) && forall k :: 0 <= k < n ==> IsNameChar(f[k]);
    var s := f + UrlClose + t;
    var name, ext := f[..n], f[n..];
    assert s == name + (ext + UrlClose + t);
    DataPageFormat.RunLengthOf(name, ext + UrlClose + t, DataPageFormat.Stem);
    ExtensionMatchOf(ext, exts, t);
    assert s[n..] == ext + UrlClose + t;
  }

  /** A reference to a name of the recognised shape is matched whole, and its
      filename is captured. */
  lemma ReferenceOf(dir: string, f: string, exts: seq<string>, t: string)
    requires ReferenceName(f, exts) && ExtensionsFit(exts)
    ensures ReferenceAt(ReferenceText(dir, f) + t, dir, exts) == Some((f, |ReferenceText(dir, f)|))
  {
    ReferenceHeadOf(dir, f, t);
    NamedReference(ReferenceText(dir, f) + t, dir, f, exts, t);
  }

  /** The head of the pattern matches the `url("<dir>/` of a written
      reference. */
  lemma ReferenceHeadOf(dir: string, f: string, t: string)
    ensures AfterDirectory(ReferenceText(dir, f) + t, dir) == Some(f + UrlClose + t)
  {
    var rest := f + UrlClose + t;
    var s := ReferenceText(dir, f) + t;
    assert s == UrlOpen + dir + "/" + rest;
    AfterDirectoryOf(s, dir, rest);
  }

  /** Behind the head of the pattern, a name of the recognised shape and the
      closing `")` make the match. */
  lemma NamedReference(s: string, dir: string, f: string, exts: seq<string>, t: string)
    requires ReferenceName(f, exts) && ExtensionsFit(exts)
    requires AfterDirectory(s, dir) == Some(f + UrlClose + t)
    ensures ReferenceAt(s, dir, exts) == Some((f, |s| - |t|))
  {
    NameAndExtensionOf(f, exts, t);
    NamedReferenceWhole(s, dir, f, exts, t);
  }

  /** The match of a reference whose name and extension end where `")`
      starts spans everything up to `t`. */
  lemma NamedReferenceWhole(s: string, dir: string, f: string, exts: seq<string>, t: string)
    requires AfterDirectory(s, dir) == Some(f + UrlClose + t)
    requires var rest := f + UrlClose + t;
      NameAndExtension(rest, DataPageFormat.RunLength(rest, DataPageFormat.Stem), exts, false) == Some(|f|)
    ensures ReferenceAt(s, dir, exts) == Some((f, |s| - |t|))
  {
    var rest := f + UrlClose + t;
    ReferenceMatchOf(s, dir, exts, false, rest, |f|);
    TakeFirstOfThree(f, UrlClose, t);
    assert |rest| == |f| + |UrlClose| + |t|;
  }

  /** The reference pattern once the head has matched and the filename
      group has been found. */
  lemma ReferenceMatchOf(s: string, dir: string, exts: seq<string>, written: bool, rest: string, g: nat)
    requires AfterDirectory(s, dir) == Some(rest)
    requires NameAndExtension(rest, DataPageFormat.RunLength(rest, DataPageFormat.Stem), exts, written) == Some(g)
    ensures g <= |rest| && ReferenceMatch(s, dir, exts, written) == Some((rest[..g], |s| - |rest| + g + |UrlClose|))
  {
  }

  /** The reference pattern once the head has matched and no filename group
      fits. */
  lemma NoReferenceMatchOf(s: string, dir: string, exts: seq<string>, written: bool, rest: string)
    requires AfterDirectory(s, dir) == Some(rest)
    requires NameAndExtension(rest, DataPageFormat.RunLength(rest, DataPageFormat.Stem), exts, written).None?
    ensures ReferenceMatch(s, dir, exts, written).None?
  {
  }

  /** `url("<dir>/` written out verbatim matches the head of the pattern. */
  lemma AfterDirectoryOf(s: string, dir: string, rest: string)
    requires s == UrlOpen + dir + "/" + rest
    ensures AfterDirectory(s, dir) == Some(rest)
  {
    assert LiteralPrefix(s, UrlOpen) by {
      assert s[..|UrlOpen|] == UrlOpen;
    }
    var d := s[|UrlOpen|..];
    assert d == dir + "/" + rest;
    assert PatternPrefix(d, dir) by {
      forall k | 0 <= k < |dir| ensures PatternCharMatches(dir[k], d[k]) {
        assert d[k] == dir[k];
      }
    }
    assert d[|dir|] == '/' && d[|dir| + 1..] == rest;
  }

  /** CSS made only of recognised references yields exactly their filenames,
      in order. */
  lemma {:induction false} ReferencesOfText(dir: string, fs: seq<string>, exts: seq<string>)
    requires ExtensionsFit(exts)
    requires forall i :: 0 <= i < |fs| ==> ReferenceName(fs[i], exts)
    ensures FindReferences(ReferencesText(dir, fs), dir, exts) == fs
    decreases |fs|
  {
    if fs != [] {
      var head := ReferenceText(dir, fs[0]);
      var tail := ReferencesText(dir, fs[1..]);
      ReferenceOf(dir, fs[0], exts, tail);
      assert (head + tail)[|head|..] == tail;
      ReferencesOfText(dir, fs[1..], exts);
    }
  }

  /** The references to `fs`, one after the other. */
  function ReferencesText(dir: string, fs: seq<string>): string
    decreases |fs|
  {
    if fs == [] then "" else ReferenceText(dir, fs[0]) + ReferencesText(dir, fs[1..])
  }

  /** The pattern as written rejects a one-character name: after `a` the
      unescaped `.` takes the real dot, and the extension's own dot then
      has to match the `p` of `png`, which leaves `ng` against `png`. */
  lemma WrittenPatternRejectsShortName()
    ensures WrittenReferenceAt("url(\"img/a.png\")", "img", [".png"]).None?
  {
    var s, rest := "url(\"img/a.png\")", "a.png\")";
    AfterDirectoryOf(s, "img", rest);
    ShortNameRun();
    NoReferenceMatchOf(s, "img", [".png"], true, rest);
  }

  /** The corrected pattern captures the same one-character name. */
  lemma CorrectedPatternAcceptsShortName()
    ensures ReferenceAt("url(\"img/a.png\")", "img", [".png"]) == Some(("a.png", 16))
  {
    var s, rest := "url(\"img/a.png\")", "a.png\")";
    assert rest[..5] == "a.png";
    AfterDirectoryOf(s, "img", rest);
    ShortNameRun();
    ShortNameCorrected();
    ReferenceMatchOf(s, "img", [".png"], false, rest, 5);
  }

  /** The corrected group on `a.png")` takes `a` and `.png`. */
  lemma ShortNameCorrected()
    ensures NameAndExtension("a.png\")", 1, [".png"], false) == Some(5)
  {
    var t := "a.png\")";
    assert t[1..] == ".png\")";
    assert LiteralPrefix(t[1..], ".png");
    assert t[1..][4..6] == UrlClose;
  }

  /** The filename group of the written pattern on `a.png")`. */
  lemma ShortNameRun()
    ensures DataPageFormat.RunLength("a.png\")", DataPageFormat.Stem) == 1
    ensures NameAndExtension("a.png\")", 1, [".png"], true).None?
  {
    var t := "a.png\")";
    DataPageFormat.RunLengthOf("a", ".png\")", DataPageFormat.Stem);
    assert "a" + ".png\")" == t;
    assert t[2..] == "png\")";
    assert !PatternPrefix(t[2..], ".png") by {
      assert !PatternCharMatches('p', 'n');
    }
    assert ExtensionMatch(t[2..], [".png"], true).None?;
  }

  /** The pattern as written accepts a name without any dot: `abcxpng` is
      read as `ab`, `c` for the unescaped `.`, and `xpng` for `.png`. */
  lemma WrittenPatternAcceptsUndottedName()
    ensures WrittenReferenceAt("url(\"img/abcxpng\")", "img", [".png"]) == Some(("abcxpng", 18))
  {
    var s, rest := "url(\"img/abcxpng\")", "abcxpng\")";
    assert rest[..7] == "abcxpng";
    AfterDirectoryOf(s, "img", rest);
    UndottedNameRun();
    UndottedNameWritten();
    ReferenceMatchOf(s, "img", [".png"], true, rest, 7);
  }

  /** The corrected pattern finds no reference there. */
  lemma CorrectedPatternRejectsUndottedName()
    ensures ReferenceAt("url(\"img/abcxpng\")", "img", [".png"]).None?
  {
    var s, rest := "url(\"img/abcxpng\")", "abcxpng\")";
    AfterDirectoryOf(s, "img", rest);
    UndottedNameRun();
    UndottedNameCorrected();
    NoReferenceMatchOf(s, "img", [".png"], false, rest);
  }

  lemma UndottedNameRun()
    ensures DataPageFormat.RunLength("abcxpng\")", DataPageFormat.Stem) == 7
  {
    DataPageFormat.RunLengthOf("abcxpng", "\")", DataPageFormat.Stem);
    assert "abcxpng" + "\")" == "abcxpng\")";
  }

  /** The written group backtracks from seven name characters to two. */
  lemma UndottedNameWritten()
    ensures NameAndExtension("abcxpng\")", 7, [".png"], true) == Some(7)
  {
    var t, exts := "abcxpng\")", [".png"];
    UndottedNameLongRuns();
    assert t[3..] == "xpng\")";
    WildExtensionAfterX();
    assert NameAndExtension(t, 2, exts, true) == Some(7);
  }

  /** Read with wild dots, `.png` matches `xpng`, and the closing follows. */
  lemma WildExtensionAfterX()
    ensures ExtensionMatch("xpng\")", [".png"], true) == Some(4)
  {
    var u := "xpng\")";
    assert PatternPrefix(u, ".png");
    assert u[4..6] == UrlClose;
  }

  /** With five to seven name characters no wild extension follows. */
  lemma UndottedNameLongRuns()
    ensures NameAndExtension("abcxpng\")", 7, [".png"], true) == NameAndExtension("abcxpng\")", 2, [".png"], true)
  {
    var t, exts := "abcxpng\")", [".png"];
    assert t[8..] == ")";
    assert t[7..] == "\")";
    assert t[6..] == "g\")";
    assert t[5..] == "ng\")";
    assert t[4..] == "png\")";
    assert NameAndExtension(t, 7, exts, true) == NameAndExtension(t, 6, exts, true);
    assert NameAndExtension(t, 6, exts, true) == NameAndExtension(t, 5, exts, true);
    assert NameAndExtension(t, 5, exts, true) == NameAndExtension(t, 4, exts, true);
    assert NameAndExtension(t, 4, exts, true) == NameAndExtension(t, 3, exts, true);
    assert NameAndExtension(t, 3, exts, true) == NameAndExtension(t, 2, exts, true);
  }

  /** The corrected group finds no literal `.png` in `abcxpng")`. */
  lemma UndottedNameCorrected()
    ensures NameAndExtension("abcxpng\")", 7, [".png"], false).None?
  {
    var t, exts := "abcxpng\")", [".png"];
    assert t[7..] == "\")";
    assert t[6..] == "g\")";
    assert t[5..] == "ng\")";
    assert t[4..] == "png\")";
    assert t[3..] == "xpng\")";
    assert t[2..] == "cxpng\")";
    assert t[1..] == "bcxpng\")";
    assert !LiteralPrefix(t[3..], ".png") by {
      assert Lower('.') != Lower(t[3]);
    }
    assert ExtensionMatch(t[7..], exts, false).None?;
    assert ExtensionMatch(t[6..], exts, false).None?;
    assert ExtensionMatch(t[5..], exts, false).None?;
    assert ExtensionMatch(t[4..], exts, false).None?;
    assert ExtensionMatch(t[3..], exts, false).None?;
    assert ExtensionMatch(t[2..], exts, false).None?;
    assert ExtensionMatch(t[1..], exts, false).None?;
  }

  // ---------------------------------------------------------------------
  // `url(...)` calls, as the validator finds them
  // ---------------------------------------------------------------------

  /** `\)` reached lazily by `.*?` from `i`: the first `)` at or after `i`
      with no newline before it. */
  function ClosingParen(s: string, i: nat): (r: Option<nat>)
    requires i <= |s|
    ensures r.Some? ==> i <= r.value < |s| && s[r.value] == ')'
    ensures r.Some? ==> forall k :: i <= k < r.value ==> s[k] != ')' && s[k] != '\n'
    ensures r.None? ==> forall k :: i <= k < |s| && s[k] == ')' ==> exists j :: i <= j < k && s[j] == '\n'
    decreases |s| - i
  {
    if i == |s| || s[i] == '\n' then None
    else if s[i] == ')' then Some(i)
    else ClosingParen(s, i + 1)
  }

  /** `re.findall(r"url\(.*?\)", css)`: each non-overlapping call, whole,
      left to right (the pattern is case-sensitive). */
  function UrlCalls(s: string): (r: seq<string>)
    ensures forall i :: 0 <= i < |r| ==> UrlCall(r[i])
    decreases |s|
  {
    if s == [] then []
    else if |s| >= 4 && s[..4] == "url(" && ClosingParen(s, 4).Some? then
      var j := ClosingParen(s, 4).value;
      [s[..j + 1]] + UrlCalls(s[j + 1..])
    else UrlCalls(s[1..])
  }

  /** A call the lazy pattern can produce: `url(`, then no `)` and no
      newline, then `)`. */
  predicate UrlCall(c: string) {
    |c| >= 5 && c[..4] == "url(" && c[|c| - 1] == ')' &&
    forall k :: 4 <= k < |c| - 1 ==> c[k] != ')' && c[k] != '\n'
  }

  /** The lazy scan stops at the first `)` when no newline comes before it. */
  lemma {:induction false} ClosingParenAt(s: string, i: nat, j: nat)
    requires i <= j < |s| && s[j] == ')'
    requires forall k :: i <= k < j ==> s[k] != ')' && s[k] != '\n'
    ensures ClosingParen(s, i) == Some(j)
    decreases j - i
  {
    if i < j {
      ClosingParenAt(s, i + 1, j);
    }
  }

  /** The calls one after the other. */
  function CallsText(cs: seq<string>): string
    decreases |cs|
  {
    if cs == [] then "" else cs[0] + CallsText(cs[1..])
  }

  /** Text made of calls is split back into exactly those calls. */
  lemma {:induction false} UrlCallsOfCalls(cs: seq<string>)
    requires forall i :: 0 <= i < |cs| ==> UrlCall(cs[i])
    ensures UrlCalls(CallsText(cs)) == cs
    decreases |cs|
  {
    if cs != [] {
      var c, rest := cs[0], CallsText(cs[1..]);
      var s := c + rest;
      assert s[..4] == c[..4];
      assert UrlCall(c);
      ClosingParenAt(s, 4, |c| - 1);
      assert s[..|c|] == c && s[|c|..] == rest;
      UrlCallsOfCalls(cs[1..]);
    }
  }

  // ---------------------------------------------------------------------
  // The assets
  // ---------------------------------------------------------------------

  class StylesheetAssets {
    const config: Config
    const cssFilePath: string
    var cssContent: Option<string>
    var adaptedCssContent: Option<string>
    var imagesDir: Option<string>
    const localImages: StylesheetImageList

    /** `StylesheetAssets(config, css_file_path)`: no CSS, no images
        directory, and a fresh empty image list. */
    constructor (c: Config, cssFile: string)
      ensures config == c && cssFilePath == cssFile
      ensures cssContent.None? && adaptedCssContent.None? && imagesDir.None?
      ensures fresh(localImages) && localImages.data == []
      ensures localImages.condition.None? && localImages.sortKey.None? && !localImages.sortReverse
    {
      config, cssFilePath := c, cssFile;
      cssContent, adaptedCssContent, imagesDir := None, None, None;
      localImages := new StylesheetImageList([], None, false, None);
    }

    /** `css_size`: the CSS measured in UTF-8 bytes, which is at least its
        length in characters, at most four times it, and exactly it only
        for ASCII text. */
    function CssSize(): (n: nat)
      reads this
      requires cssContent.Some?
      ensures |cssContent.value| <= n <= 4 * |cssContent.value|
      ensures n == |cssContent.value| <==> forall i :: 0 <= i < |cssContent.value| ==> cssContent.value[i] as int < 0x80
    {
      Utf8LengthBounds(cssContent.value);
      Utf8Length(cssContent.value)
    }

    /** `adapted_css_size`: the same measure of the adapted CSS. */
    function AdaptedCssSize(): (n: nat)
      reads this
      requires adaptedCssContent.Some?
      ensures |adaptedCssContent.value| <= n <= 4 * |adaptedCssContent.value|
      ensures n == |adaptedCssContent.value| <==>
        forall i :: 0 <= i < |adaptedCssContent.value| ==> adaptedCssContent.value[i] as int < 0x80
    {
      Utf8LengthBounds(adaptedCssContent.value);
      Utf8Length(adaptedCssContent.value)
    }

    /** `css_image_references`: how many times each filename is referenced;
        `relDir` is the images directory relative to the CSS file's. The
        references are those the corrected pattern finds, and every counted
        filename has its shape. */
    function CssImageReferences(relDir: string): (r: multiset<string>)
      reads this
      requires cssContent.Some?
      ensures forall f :: f in r ==> CapturedName(f, config.imageExtensions, false)
    {
      var refs := FindReferences(cssContent.value, relDir, config.imageExtensions);
      assert forall f :: f in multiset(refs) ==> f in refs;
      multiset(refs)
    }

    /** CSS made of references to names of the recognised shape counts each
        name as often as it is referenced. */
    lemma CssImageReferencesOf(relDir: string, fs: seq<string>)
      requires cssContent == Some(ReferencesText(relDir, fs))
      requires ExtensionsFit(config.imageExtensions)
      requires forall i :: 0 <= i < |fs| ==> ReferenceName(fs[i], config.imageExtensions)
      ensures CssImageReferences(relDir) == multiset(fs)
    {
      ReferencesOfText(relDir, fs, config.imageExtensions);
    }

    /** `add_local_image`: the file is opened as a Local image whose usage
        count is its number of references under the corrected pattern (zero
        when it has none) and the
        image is appended; a file the decoder cannot open raises, naming the
        file, and nothing is appended. */
    method AddLocalImage(filename: string, relDir: string, content: seq<byte>,
                         decoded: Option<Decoded>, md5Of: seq<byte> -> string)
      returns (error: Option<ImageError>)
      requires cssContent.Some? && imagesDir.Some?
      modifies localImages`data
      ensures error.Some? <==> decoded.None?
      ensures error.Some? ==> error.value == InvalidImage(Some(filename)) && localImages.data == old(localImages.data)
      ensures error.None? ==> |localImages.data| == |old(localImages.data)| + 1
      ensures error.None? ==> localImages.data[..|old(localImages.data)|] == old(localImages.data)
      ensures error.None? ==> var image := localImages.data[|localImages.data| - 1];
        fresh(image) && image.kind == Kind.Local && image.WellFormed() &&
        image.filename == Some(filename) && image.path == Some(PathJoin(imagesDir.value, filename)) &&
        image.usageCount == Some(CssImageReferences(relDir)[filename]) &&
        image.fileSize == Some(|content|) && image.md5 == Some(md5Of(content)) && !image.isNew
    {
      var usage := CssImageReferences(relDir)[filename];
      if decoded.None? {
        return Some(InvalidImage(Some(filename)));
      }
      var image := new StylesheetImage.Local(imagesDir.value, filename, usage, content, decoded.value, md5Of);
      localImages.Append(image);
      error := None;
    }
  }
}
