/** Building the stylesheet assets: the CSS filter, the adaptation of image
    references to Reddit names, and the order in which mapping and the
    validation checks run (utils/stylesheet/stylesheet_assets_builder.py). */
module AssetsBuilding {
  import opened Wrappers
  import opened Text
  import opened Configuration
  import opened StylesheetImages
  import opened ImageLists
  import opened Assets
  import opened AssetsValidation
  import opened DataPages
  import opened ImageMapper
  import opened Sequences

  // ---------------------------------------------------------------------
  // `_filter_css`: re.sub(r"@charset(.+?);", "", css)
  // ---------------------------------------------------------------------

  const CharsetKeyword := "@charset"

  /** Scanning the lazy `.+?` from position `k`: the end of the match just
      after the first `;`, or None when a line break or the end of the text
      comes first (`.` does not match a line break). */
  function SemicolonFrom(s: string, k: nat): (r: Option<nat>)
    ensures r.Some? ==> k < r.value <= |s| && s[r.value - 1] == ';'
    decreases |s| - k
  {
    if k >= |s| then None
    else if s[k] == ';' then Some(k + 1)
    else if s[k] == '\n' then None
    else SemicolonFrom(s, k + 1)
  }

  /** The end of a `@charset(.+?);` match at the start of `s`: the group
      takes at least one character, so the search for `;` starts one past
      the keyword. */
  function CharsetAt(s: string): (r: Option<nat>)
    ensures r.Some? ==> |CharsetKeyword| + 2 <= r.value <= |s|
  {
    if StartsWith(s, CharsetKeyword) && |s| > |CharsetKeyword| && s[|CharsetKeyword|] != '\n'
    then SemicolonFrom(s, |CharsetKeyword| + 1)
    else None
  }

  /** `_filter_css`: every `@charset` rule, up to the first `;` after it, is
      removed, scanning left to right; all other text is kept. */
  function FilterCss(s: string): (r: string)
    ensures |r| <= |s|
    decreases |s|
  {
    if s == [] then []
    else
      match CharsetAt(s)
      case Some(e) => FilterCss(s[e..])
      case None => [s[0]] + FilterCss(s[1..])
  }

  /** The lazy group stops at the first `;` of a line. */
  lemma {:induction false} SemicolonAfterBody(s: string, k: nat, e: nat)
    requires k <= e < |s| && s[e] == ';'
    requires forall j :: k <= j < e ==> s[j] != ';' && s[j] != '\n'
    ensures SemicolonFrom(s, k) == Some(e + 1)
    decreases e - k
  {
    if k < e {
      SemicolonAfterBody(s, k + 1, e);
    }
  }

  /** A `@charset` rule whose body is one line with no `;` but possibly
      its first character is removed, and filtering goes on after it. */
  lemma FilterCssRemovesRule(body: string, rest: string)
    requires |body| >= 1 && forall j :: 0 <= j < |body| ==> body[j] != '\n'
    requires forall j :: 1 <= j < |body| ==> body[j] != ';'
    ensures FilterCss(CharsetKeyword + body + ";" + rest) == FilterCss(rest)
  {
    var s := CharsetKeyword + body + ";" + rest;
    var n := |CharsetKeyword|;
    assert s[..n] == CharsetKeyword;
    assert s[n] == body[0];
    forall j | n + 1 <= j < n + |body| ensures s[j] != ';' && s[j] != '\n' {
      assert s[j] == body[j - n];
    }
    SemicolonAfterBody(s, n + 1, n + |body|);
    assert s[n + |body| + 1..] == rest;
  }

  /** Text in which no `@charset` starts is left as it is. */
  lemma {:induction false} FilterCssWithoutCharset(s: string)
    requires forall i :: 0 <= i < |s| ==> !StartsWith(s[i..], CharsetKeyword)
    ensures FilterCss(s) == s
    decreases |s|
  {
    if s != [] {
      assert !StartsWith(s[0..], CharsetKeyword);
      assert s[0..] == s;
      forall i | 0 <= i < |s[1..]| ensures !StartsWith(s[1..][i..], CharsetKeyword) {
        assert s[1..][i..] == s[i + 1..];
      }
      FilterCssWithoutCharset(s[1..]);
    }
  }

  /** Text before the first `@` is copied as it is. */
  lemma {:induction false} FilterCssKeepsPrefix(a: string, b: string)
    requires forall i :: 0 <= i < |a| ==> a[i] != '@'
    ensures FilterCss(a + b) == a + FilterCss(b)
    decreases |a|
  {
    if a != [] {
      var s := a + b;
      assert s[0] == a[0] && s[0] != CharsetKeyword[0];
      assert CharsetAt(s).None?;
      assert s[1..] == a[1..] + b;
      FilterCssKeepsPrefix(a[1..], b);
      assert FilterCss(s) == [a[0]] + (a[1..] + FilterCss(b));
      assert [a[0]] + (a[1..] + FilterCss(b)) == a + FilterCss(b);
    } else {
      assert a + b == b;
    }
  }

  // ---------------------------------------------------------------------
  // `adapt`: re.sub on the escaped literal reference, one image at a time
  // ---------------------------------------------------------------------

  /** `re.sub(re.escape(pat), rep, s)`: the occurrences of `pat` found left
      to right, without overlap, are replaced by `rep`. */
  function ReplaceAll(s: string, pat: string, rep: string): string
    requires pat != []
    decreases |s|
  {
    if s == [] then []
    else if StartsWith(s, pat) then rep + ReplaceAll(s[|pat|..], pat, rep)
    else [s[0]] + ReplaceAll(s[1..], pat, rep)
  }

  /** No occurrence of `pat` starts inside `a` (within `a + b`). */
  predicate NoneStartsIn(a: string, b: string, pat: string) {
    forall i :: 0 <= i < |a| ==> !StartsWith((a + b)[i..], pat)
  }

  /** Text in which no occurrence starts is copied unchanged before the
      replacements in what follows it. */
  lemma {:induction false} ReplaceAllKeepsPrefix(a: string, b: string, pat: string, rep: string)
    requires pat != [] && NoneStartsIn(a, b, pat)
    ensures ReplaceAll(a + b, pat, rep) == a + ReplaceAll(b, pat, rep)
    decreases |a|
  {
    if a != [] {
      NoneStartsInTail(a, b, pat);
      ConcatTail(a, b);
      assert ReplaceAll(a + b, pat, rep) == [a[0]] + ReplaceAll(a[1..] + b, pat, rep);
      ReplaceAllKeepsPrefix(a[1..], b, pat, rep);
      HeadAndTail(a);
      AppendAssociative([a[0]], a[1..], ReplaceAll(b, pat, rep));
    } else {
      EmptyFirst(b);
    }
  }

  /** No occurrence starts at the front, nor anywhere in the rest of `a`. */
  lemma NoneStartsInTail(a: string, b: string, pat: string)
    requires a != [] && NoneStartsIn(a, b, pat)
    ensures !StartsWith(a + b, pat) && NoneStartsIn(a[1..], b, pat)
  {
    var s := a + b;
    assert s[0..] == s;
    forall i | 0 <= i < |a[1..]| ensures !StartsWith((a[1..] + b)[i..], pat) {
      assert (a[1..] + b)[i..] == s[i + 1..];
    }
  }

  /** The first occurrence is replaced, and replacing goes on after it. */
  lemma ReplaceAllFirst(a: string, b: string, pat: string, rep: string)
    requires pat != [] && NoneStartsIn(a, pat + b, pat)
    ensures ReplaceAll(a + pat + b, pat, rep) == a + rep + ReplaceAll(b, pat, rep)
  {
    ReplaceAllKeepsPrefix(a, pat + b, pat, rep);
    assert a + pat + b == a + (pat + b);
    assert (pat + b)[..|pat|] == pat;
    assert (pat + b)[|pat|..] == b;
  }

  /** Text without an occurrence is left as it is. */
  lemma ReplaceAllAbsent(s: string, pat: string, rep: string)
    requires pat != [] && NoneStartsIn(s, [], pat)
    ensures ReplaceAll(s, pat, rep) == s
  {
    ReplaceAllKeepsPrefix(s, [], pat, rep);
    assert s + [] == s;
  }

  /** What the f-string shows for a Reddit name; an unnamed image shows
      Python's `None`. */
  function NameShown(name: Option<string>): string {
    if name.Some? then name.value else "None"
  }

  /** `url(%%<reddit_name>%%)`. */
  function RedditReference(name: Option<string>): (r: string)
    ensures StartsWith(r, "url(%%")
  {
    "url(%%" + NameShown(name) + "%%)"
  }

  /** The filename and the Reddit name of each image, in the list's order. */
  function Renames(images: seq<StylesheetImage>): (r: seq<(string, Option<string>)>)
    reads images`redditName
    requires AllLocal(images)
    ensures |r| == |images|
    ensures forall k :: 0 <= k < |images| ==> r[k] == (images[k].filename.value, images[k].redditName)
    decreases |images|
  {
    if images == [] then []
    else [(images[0].filename.value, images[0].redditName)] + Renames(images[1..])
  }

  /** The CSS after the replacements for the images in `renames`, in order. */
  function AdaptText(css: string, relDir: string, renames: seq<(string, Option<string>)>): string
    decreases |renames|
  {
    if renames == [] then css
    else
      var (filename, name) := renames[|renames| - 1];
      ReplaceAll(AdaptText(css, relDir, renames[..|renames| - 1]), ReferenceText(relDir, filename),
                 RedditReference(name))
  }

  lemma AdaptTextSnoc(css: string, relDir: string, renames: seq<(string, Option<string>)>, i: nat)
    requires i < |renames|
    ensures AdaptText(css, relDir, renames[..i + 1]) ==
      ReplaceAll(AdaptText(css, relDir, renames[..i]), ReferenceText(relDir, renames[i].0),
                 RedditReference(renames[i].1))
  {
    assert renames[..i + 1][..i] == renames[..i];
  }

  /** CSS that refers to none of the images is left as it is. */
  lemma {:induction false} AdaptTextUnreferenced(css: string, relDir: string, renames: seq<(string, Option<string>)>)
    requires forall k :: 0 <= k < |renames| ==> NoneStartsIn(css, [], ReferenceText(relDir, renames[k].0))
    ensures AdaptText(css, relDir, renames) == css
    decreases |renames|
  {
    if renames != [] {
      var init := renames[..|renames| - 1];
      AdaptTextUnreferenced(css, relDir, init);
      var (filename, name) := renames[|renames| - 1];
      ReplaceAllAbsent(css, ReferenceText(relDir, filename), RedditReference(name));
    }
  }

  /** For one image: the first reference to it, written exactly, becomes
      its Reddit name, and the rest of the CSS is adapted after it. */
  lemma AdaptOneImage(before: string, after: string, relDir: string, filename: string, name: Option<string>)
    requires NoneStartsIn(before, ReferenceText(relDir, filename) + after, ReferenceText(relDir, filename))
    ensures AdaptText(before + ReferenceText(relDir, filename) + after, relDir, [(filename, name)]) ==
      before + RedditReference(name) + ReplaceAll(after, ReferenceText(relDir, filename), RedditReference(name))
  {
    var renames := [(filename, name)];
    assert renames[..0] == [];
    ReplaceAllFirst(before, after, ReferenceText(relDir, filename), RedditReference(name));
  }

  // ---------------------------------------------------------------------
  // Raising on errors
  // ---------------------------------------------------------------------

  /** The errors the four image checks of `validate_images` gather, in the
      order they run: count and per-image checks, integrity, references,
      uniqueness. */
  function ImageCheckErrors(images: seq<StylesheetImage>, css: string, config: Config, exts: seq<string>,
                            relDir: string): seq<ValidationError>
    requires AllLocal(images)
  {
    (if |images| > config.maxImageCount then [TooManyImages(config.maxImageCount, |images|)] else []) +
    ImagesErrors(images, config) +
    IntegrityErrors(Filenames(images), Keys(FindReferences(css, relDir, exts))) +
    ReferenceErrors(UrlCalls(css), relDir, exts) +
    DuplicateErrors(images, Keys(Md5s(images)))
  }

  /** With distinct filenames, the image checks find nothing exactly when
      the list holds no more images than allowed, every image passes its
      checks, the filenames are exactly the referenced ones, the pattern
      finds a reference in every `url(...)` call, and the MD5s are
      distinct. */
  lemma ImageChecksPass(images: seq<StylesheetImage>, css: string, config: Config, exts: seq<string>,
                        relDir: string)
    requires AllLocal(images) && Unique(Filenames(images))
    ensures ImageCheckErrors(images, css, config, exts, relDir) == [] <==>
      |images| <= config.maxImageCount &&
      (forall i :: 0 <= i < |images| ==> ImageErrors(images[i], config) == []) &&
      (forall f :: f in Filenames(images) <==> f in FindReferences(css, relDir, exts)) &&
      (forall c :: c in UrlCalls(css) ==> SearchReference(c, relDir, exts)) &&
      Unique(Md5s(images))
  {
    var refs := FindReferences(css, relDir, exts);
    var names, keys := Filenames(images), Keys(refs);
    var count := if |images| > config.maxImageCount then [TooManyImages(config.maxImageCount, |images|)] else [];
    var e1, e2 := ImagesErrors(images, config), IntegrityErrors(names, keys);
    var e3, e4 := ReferenceErrors(UrlCalls(css), relDir, exts), DuplicateErrors(images, Keys(Md5s(images)));
    assert ImageCheckErrors(images, css, config, exts, relDir) == count + e1 + e2 + e3 + e4;
    assert |count + e1 + e2 + e3 + e4| == |count| + |e1| + |e2| + |e3| + |e4|;
    ImagesErrorsEmpty(images, config);
    IntegrityErrorsEmpty(names, keys);
    assert forall f :: f in keys <==> f in refs;
    ReferenceErrorsEmpty(UrlCalls(css), relDir, exts);
    UniqueMd5sNoError(images);
  }

  /** `if validator.validation_errors: raise ValidationException(...)`:
      the errors carried by the exception, or None when nothing is raised. */
  function Raised(errors: seq<ValidationError>): (r: Option<seq<ValidationError>>)
    ensures r.Some? <==> errors != []
    ensures r.Some? ==> r.value == errors
  {
    if errors == [] then None else Some(errors)
  }

  class StylesheetAssetsBuilder {
    const config: Config
    const assets: StylesheetAssets
    const stylesheetData: StylesheetData

    /** `StylesheetAssetsBuilder(config, assets, data)`: the data's Local
        list becomes the very list of the assets, so both see the same
        images from then on. */
    constructor (c: Config, a: StylesheetAssets, d: StylesheetData)
      modifies d`localImages
      ensures config == c && assets == a && stylesheetData == d
      ensures d.localImages == a.localImages
    {
      config, assets, stylesheetData := c, a, d;
      new;
      d.localImages := a.localImages;
    }

    /** `_create_validator`: a fresh validator on this builder's assets. */
    method CreateValidator() returns (v: StylesheetAssetsValidator)
      ensures fresh(v) && v.config == config && v.assets == assets && v.validationErrors == []
    {
      v := new StylesheetAssetsValidator(config, assets);
    }

    /** `adapt`: every exact `url("<relDir>/<filename>")` of each image of the
        assets' list, in the list's order, becomes `url(%%<reddit_name>%%)`;
        only the adapted CSS is written. */
    method Adapt(relDir: string)
      requires assets.cssContent.Some? && assets.localImages.Plain() && AllLocal(assets.localImages.data)
      modifies assets`adaptedCssContent
      ensures assets.adaptedCssContent ==
        Some(AdaptText(old(assets.cssContent.value), relDir, old(Renames(assets.localImages.data))))
      ensures assets.cssContent == old(assets.cssContent)
    {
      var css := assets.cssContent.value;
      assets.localImages.PlainItems();
      var images := assets.localImages.Items();
      ghost var renames := Renames(images);
      var i := 0;
      while i < |images|
        invariant 0 <= i <= |images|
        invariant css == AdaptText(old(assets.cssContent.value), relDir, renames[..i])
      {
        AdaptTextSnoc(old(assets.cssContent.value), relDir, renames, i);
        var image := images[i];
        css := ReplaceAll(css, ReferenceText(relDir, image.filename.value), RedditReference(image.redditName));
        i := i + 1;
      }
      assert renames[..i] == renames;
      assets.adaptedCssContent := Some(css);
    }

    /** `map_images`: a fresh mapper first matches the data's Local images
        against the Stored and Remote ones, then gives names to those left
        unnamed. What each step does to the images is stated by the two
        mapper methods; the mapper is returned so that its state can be
        read. */
    method MapImages() returns (mapper: StylesheetImageMapper)
      requires AllOfKind(stylesheetData.localImages.data, Local) && Distinct(stylesheetData.localImages.data)
      requires forall x :: x in stylesheetData.localImages.data ==> x.usageCount.Some?
      requires AllOfKind(stylesheetData.storedImages.data, Stored)
      requires stylesheetData.remoteImages.condition.None? && AllOfKind(stylesheetData.remoteImages.data, Remote)
      modifies stylesheetData.localImages.data`isNew, stylesheetData.localImages.data`url,
               stylesheetData.localImages.data`redditName, stylesheetData.localImages.data`remoteFileSize
      modifies stylesheetData.remoteImages.data`isUsed, stylesheetData.remoteImages.data`isReplaced
      ensures fresh(mapper) && mapper.config == config
    {
      var data := stylesheetData;
      mapper := new StylesheetImageMapper(config);
      mapper.MatchImages(data);
      ghost var queue := mapper.unnamedImages;
      assert queue == [] + View(data.localImages.data, Some(UnnamedImages), Some(UsageCountKey), true);
      ViewContents(data.localImages.data, Some(UnnamedImages), Some(UsageCountKey), true);
      mapper.AssignRedditNames();
    }

    /** `validate_images`: the four checks run on a fresh validator, and
        ValidationException is raised exactly when they found anything. */
    method ValidateImages(relDir: string) returns (raised: Option<seq<ValidationError>>)
      requires assets.cssContent.Some? && assets.localImages.Plain() && AllLocal(assets.localImages.data)
      ensures raised == Raised(ImageCheckErrors(assets.localImages.data, assets.cssContent.value, config,
                                                assets.config.imageExtensions, relDir))
    {
      var a := assets;
      ghost var images := a.localImages.data;
      ghost var css := a.cssContent.value;
      ghost var exts := a.config.imageExtensions;
      ghost var count := if |images| > config.maxImageCount then [TooManyImages(config.maxImageCount, |images|)] else [];
      ghost var e1 := [] + count + ImagesErrors(images, config);
      EmptyFirst(count);
      ghost var e2 := e1 + IntegrityErrors(Filenames(images), Keys(FindReferences(css, relDir, exts)));
      ghost var e3 := e2 + ReferenceErrors(UrlCalls(css), relDir, exts);
      ghost var e4 := e3 + DuplicateErrors(images, Keys(Md5s(images)));
      assert ImageCheckErrors(images, css, config, exts, relDir) == e4;
      var validator := CreateValidator();
      var _ := validator.ValidateImages();
      assert a.localImages.data == images && a.cssContent.value == css && a.localImages.Plain();
      assert validator.validationErrors == e1;
      var _ := validator.ValidateIntegrity(relDir);
      assert a.localImages.data == images && a.cssContent.value == css && a.localImages.Plain();
      assert validator.validationErrors == e2;
      var _ := validator.ValidateImageReferences(relDir);
      assert a.localImages.data == images && a.cssContent.value == css && a.localImages.Plain();
      assert validator.validationErrors == e3;
      var _ := validator.ValidateUniqueness();
      assert validator.validationErrors == e4;
      raised := Raised(validator.validationErrors);
    }

    /** `validate_css`: the size is always checked, the syntax only when not
        skipped (`reply` is what the W3C service answered), and
        ValidationException is raised exactly when either found anything. */
    method ValidateCss(skipCssValidation: bool, reply: SyntaxReply, outputFile: Option<string>)
      returns (raised: Option<seq<ValidationError>>)
      requires assets.adaptedCssContent.Some?
      ensures raised.Some? <==> assets.AdaptedCssSize() > config.maxCssSize ||
                                (!skipCssValidation && ReportsErrors(reply))
      ensures raised.Some? ==>
        raised.value ==
        (if assets.AdaptedCssSize() > config.maxCssSize
         then [CssTooLarge(config.maxCssSize, assets.AdaptedCssSize())] else []) +
        (if !skipCssValidation && ReportsErrors(reply)
         then [SyntaxErrors(reply.errorCount, SavedTo(outputFile))] else [])
    {
      var validator := CreateValidator();
      var _ := validator.ValidateCssSize();
      if !skipCssValidation {
        var _ := validator.ValidateCssSyntax(reply, outputFile);
      }
      raised := Raised(validator.validationErrors);
    }
  }
}
