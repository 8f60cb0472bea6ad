/** The checks run on the stylesheet assets
    (utils/stylesheet/stylesheet_assets_validator.py).

    Every check appends what it finds to the validator's error list and never
    removes an earlier entry. The messages are kept as the values they show. */
module AssetsValidation {
  import opened Wrappers
  import opened Sequences
  import opened Text
  import opened Configuration
  import opened StylesheetImages
  import opened ImageLists
  import opened Assets

  datatype ValidationError =
    | InvalidFormat(path: string, allowed: seq<string>, format: string)
    | TooLarge(path: string, maxSize: nat, size: nat)
    | TooWide(path: string, maxWidth: nat, width: nat)
    | CssTooLarge(maxCssSize: nat, cssSize: nat)
    | InvalidReference(reference: string)
    | TooManyImages(maxCount: nat, count: nat)
    | Unreferenced(filename: string)
    | Missing(filename: string)
    | Duplicates(filenames: seq<string>)
    | SyntaxErrors(errorCount: string, outputFile: Option<string>)

  /** What the W3C CSS Validator web service gave back: no answer at all,
      or an HTTP status with the `x-w3c-validator-errors` header. The
      request itself is outside this model. */
  datatype SyntaxReply =
    | RequestFailed
    | Response(status: nat, errorCount: string)

  /** A reply that reports syntax errors: status 200 and a count other than "0". */
  predicate ReportsErrors(reply: SyntaxReply) {
    reply.Response? && reply.status == 200 && reply.errorCount != "0"
  }

  /** The output file named in the error, when the configured name is set
      and not empty. */
  function SavedTo(outputFile: Option<string>): (r: Option<string>)
    ensures r.Some? <==> outputFile.Some? && outputFile.value != ""
    ensures r.Some? ==> r == outputFile
  {
    if outputFile.Some? && outputFile.value != "" then outputFile else None
  }

  /** An image as `add_local_image` makes them. */
  predicate IsLocal(image: StylesheetImage) {
    image.kind == Kind.Local && image.WellFormed()
  }

  predicate AllLocal(images: seq<StylesheetImage>) {
    forall i :: 0 <= i < |images| ==> IsLocal(images[i])
  }

  // ---------------------------------------------------------------------
  // Counters
  // ---------------------------------------------------------------------

  predicate Unique<T(==)>(s: seq<T>) {
    forall i, j :: 0 <= i < j < |s| ==> s[i] != s[j]
  }

  /** The keys of `Counter(s)`, in the order they first occur. */
  function Keys<T(==,!new)>(s: seq<T>): (r: seq<T>)
    ensures forall x :: x in r <==> x in s
    ensures Unique(r)
    decreases |s|
  {
    if s == [] then []
    else
      var init := s[..|s| - 1];
      var d := Keys(init);
      assert forall x :: x in s <==> x in init || x == s[|s| - 1];
      if s[|s| - 1] in d then d else d + [s[|s| - 1]]
  }

  /** `counter.pop(k)`: the key leaves, the others keep their order. */
  function Pop<T(==,!new)>(keys: seq<T>, k: T): (r: seq<T>)
    requires Unique(keys)
    ensures Unique(r)
    ensures forall x :: x in r <==> x in keys && x != k
    decreases |keys|
  {
    if keys == [] then []
    else
      UniqueTail(keys);
      if keys[0] == k then keys[1..]
      else
        var r := Pop(keys[1..], k);
        UniqueCons(keys[0], r);
        [keys[0]] + r
  }

  /** The tail of a sequence without repeats has none and lacks the head. */
  lemma UniqueTail<T>(s: seq<T>)
    requires Unique(s) && s != []
    ensures Unique(s[1..]) && s[0] !in s[1..]
  {
    var rest := s[1..];
    forall i, j | 0 <= i < j < |rest| ensures rest[i] != rest[j] {
      assert rest[i] == s[i + 1] && rest[j] == s[j + 1];
    }
    forall j | 0 <= j < |rest| ensures rest[j] != s[0] {
      assert rest[j] == s[j + 1];
    }
  }

  /** A new head keeps a sequence free of repeats. */
  lemma UniqueCons<T>(h: T, s: seq<T>)
    requires Unique(s) && h !in s
    ensures Unique([h] + s)
  {
    var t := [h] + s;
    forall i, j | 0 <= i < j < |t| ensures t[i] != t[j] {
      assert t[j] == s[j - 1];
      if i > 0 {
        assert t[i] == s[i - 1];
      }
    }
  }

  // ---------------------------------------------------------------------
  // What each check finds
  // ---------------------------------------------------------------------

  /** `_validate_image`: one error per violated restriction, format first,
      then file size, then width; a value equal to its limit passes. */
  function ImageErrors(image: StylesheetImage, config: Config): seq<ValidationError>
    requires IsLocal(image)
  {
    var p := image.path.value;
    (if image.imageFormat.value !in config.allowedImageFormats
     then [InvalidFormat(p, config.allowedImageFormats, image.imageFormat.value)] else []) +
    (if image.fileSize.value > config.maxImageSize
     then [TooLarge(p, config.maxImageSize, image.fileSize.value)] else []) +
    (if image.width.value > config.maxImageWidth
     then [TooWide(p, config.maxImageWidth, image.width.value)] else [])
  }

  /** Each restriction is reported exactly when it is violated, and an image
      passes exactly when it violates none. */
  lemma ImageErrorsIff(image: StylesheetImage, config: Config)
    requires IsLocal(image)
    ensures var r, p, f := ImageErrors(image, config), image.path.value, image.imageFormat.value;
      (InvalidFormat(p, config.allowedImageFormats, f) in r <==> f !in config.allowedImageFormats) &&
      (TooLarge(p, config.maxImageSize, image.fileSize.value) in r <==> image.fileSize.value > config.maxImageSize) &&
      (TooWide(p, config.maxImageWidth, image.width.value) in r <==> image.width.value > config.maxImageWidth)
    ensures ImageErrors(image, config) == [] <==> (image.imageFormat.value in config.allowedImageFormats &&
      image.fileSize.value <= config.maxImageSize && image.width.value <= config.maxImageWidth)
  {
  }

  /** The per-image checks over `images`, in order. */
  function ImagesErrors(images: seq<StylesheetImage>, config: Config): seq<ValidationError>
    requires AllLocal(images)
    decreases |images|
  {
    if images == [] then []
    else ImagesErrors(images[..|images| - 1], config) + ImageErrors(images[|images| - 1], config)
  }

  /** The checks over one more image add that image's errors. */
  lemma ImagesErrorsSnoc(images: seq<StylesheetImage>, i: nat, config: Config)
    requires AllLocal(images) && i < |images|
    ensures ImagesErrors(images[..i + 1], config) == ImagesErrors(images[..i], config) + ImageErrors(images[i], config)
  {
    assert images[..i + 1][..i] == images[..i];
  }

  /** No error at all exactly when every image passes its checks. */
  lemma {:induction false} ImagesErrorsEmpty(images: seq<StylesheetImage>, config: Config)
    requires AllLocal(images)
    ensures ImagesErrors(images, config) == [] <==> forall i :: 0 <= i < |images| ==> ImageErrors(images[i], config) == []
    decreases |images|
  {
    if images != [] {
      var init := images[..|images| - 1];
      ImagesErrorsEmpty(init, config);
      assert forall i :: 0 <= i < |init| ==> init[i] == images[i];
    }
  }

  /** `validate_image_references`: one error per `url(...)` call, in order,
      in which the corrected reference pattern finds nothing. */
  function ReferenceErrors(calls: seq<string>, relDir: string, exts: seq<string>): seq<ValidationError>
    decreases |calls|
  {
    if calls == [] then []
    else
      var c := calls[|calls| - 1];
      ReferenceErrors(calls[..|calls| - 1], relDir, exts) +
      (if SearchReference(c, relDir, exts) then [] else [InvalidReference(c)])
  }

  /** At most one error per call; every error names a call the corrected
      pattern finds nothing in, and every such call is named. */
  lemma {:induction false} ReferenceErrorsIff(calls: seq<string>, relDir: string, exts: seq<string>)
    ensures |ReferenceErrors(calls, relDir, exts)| <= |calls|
    ensures forall e :: e in ReferenceErrors(calls, relDir, exts) ==>
      e.InvalidReference? && e.reference in calls && !SearchReference(e.reference, relDir, exts)
    ensures forall c :: c in calls && !SearchReference(c, relDir, exts) ==>
      InvalidReference(c) in ReferenceErrors(calls, relDir, exts)
    decreases |calls|
  {
    if calls != [] {
      var init := calls[..|calls| - 1];
      ReferenceErrorsIff(init, relDir, exts);
      assert forall x :: x in calls <==> x in init || x == calls[|calls| - 1];
    }
  }

  /** The reference check finds nothing exactly when the corrected pattern
      finds a reference in every call. */
  lemma ReferenceErrorsEmpty(calls: seq<string>, relDir: string, exts: seq<string>)
    ensures ReferenceErrors(calls, relDir, exts) == [] <==> forall c :: c in calls ==> SearchReference(c, relDir, exts)
  {
    ReferenceErrorsIff(calls, relDir, exts);
    var r := ReferenceErrors(calls, relDir, exts);
    if r != [] {
      assert r[0] in r;
    }
  }

  /** The checks over one more call add that call's error, if any. */
  lemma ReferenceErrorsSnoc(calls: seq<string>, i: nat, relDir: string, exts: seq<string>)
    requires i < |calls|
    ensures ReferenceErrors(calls[..i + 1], relDir, exts) == ReferenceErrors(calls[..i], relDir, exts) +
      (if SearchReference(calls[i], relDir, exts) then [] else [InvalidReference(calls[i])])
  {
    assert calls[..i + 1][..i] == calls[..i];
  }

  /** `validate_integrity`, from the images' filenames and the counter's
      keys: a filename with a key pops it, one without is unreferenced; the
      keys left over are missing images. */
  function IntegrityErrors(names: seq<string>, keys: seq<string>): (r: seq<ValidationError>)
    requires Unique(keys)
    decreases |names|
  {
    if names == [] then MissingErrors(keys)
    else if names[0] in keys then IntegrityErrors(names[1..], Pop(keys, names[0]))
    else [Unreferenced(names[0])] + IntegrityErrors(names[1..], keys)
  }

  /** One filename's step of `validate_integrity`. */
  lemma IntegrityErrorsStep(names: seq<string>, i: nat, keys: seq<string>)
    requires i < |names| && Unique(keys)
    ensures IntegrityErrors(names[i..], keys) ==
      if names[i] in keys then IntegrityErrors(names[i + 1..], Pop(keys, names[i]))
      else [Unreferenced(names[i])] + IntegrityErrors(names[i + 1..], keys)
  {
    assert names[i..][1..] == names[i + 1..];
  }

  function MissingErrors(keys: seq<string>): (r: seq<ValidationError>)
    ensures |r| == |keys|
    ensures forall i :: 0 <= i < |keys| ==> r[i] == Missing(keys[i])
  {
    seq(|keys|, i requires 0 <= i < |keys| => Missing(keys[i]))
  }

  /** With distinct filenames, a filename is reported unreferenced exactly
      when the CSS never refers to it, and a reference is reported missing
      exactly when no image has its filename; nothing else is reported. */
  lemma {:induction false} IntegrityErrorsIff(names: seq<string>, keys: seq<string>)
    requires Unique(names) && Unique(keys)
    ensures forall n :: Unreferenced(n) in IntegrityErrors(names, keys) <==> n in names && n !in keys
    ensures forall k :: Missing(k) in IntegrityErrors(names, keys) <==> k in keys && k !in names
    ensures forall e :: e in IntegrityErrors(names, keys) ==> e.Unreferenced? || e.Missing?
    decreases |names|
  {
    var r := IntegrityErrors(names, keys);
    if names == [] {
      forall e | e in r ensures e.Missing? && e.filename in keys {
        var i :| 0 <= i < |r| && r[i] == e;
      }
      forall k | k in keys ensures Missing(k) in r {
        var i :| 0 <= i < |keys| && keys[i] == k;
        assert r[i] == Missing(k);
      }
    } else {
      var n, rest := names[0], names[1..];
      UniqueTail(names);
      assert forall x :: x in names <==> x == n || x in rest;
      if n in keys {
        IntegrityErrorsIff(rest, Pop(keys, n));
      } else {
        IntegrityErrorsIff(rest, keys);
        assert r == [Unreferenced(n)] + IntegrityErrors(rest, keys);
      }
    }
  }

  /** With distinct filenames, the integrity check finds nothing exactly
      when the filenames are exactly the referenced ones. */
  lemma IntegrityErrorsEmpty(names: seq<string>, keys: seq<string>)
    requires Unique(names) && Unique(keys)
    ensures IntegrityErrors(names, keys) == [] <==> forall f :: f in names <==> f in keys
  {
    IntegrityErrorsIff(names, keys);
    var r := IntegrityErrors(names, keys);
    if r != [] {
      assert r[0] in r;
    }
  }

  /** `i.md5 for i in images`. */
  function Md5s(images: seq<StylesheetImage>): (r: seq<string>)
    requires AllLocal(images)
    ensures |r| == |images| && forall i :: 0 <= i < |images| ==> r[i] == images[i].md5.value
  {
    seq(|images|, i requires 0 <= i < |images| && AllLocal(images) => images[i].md5.value)
  }

  /** `i.filename for i in images if i.md5 == md5`, in order. */
  function FilenamesWith(images: seq<StylesheetImage>, md5: string): (r: seq<string>)
    requires AllLocal(images)
    ensures |r| == multiset(Md5s(images))[md5]
    decreases |images|
  {
    if images == [] then []
    else
      var rest := FilenamesWith(images[1..], md5);
      assert Md5s(images) == [images[0].md5.value] + Md5s(images[1..]);
      if images[0].md5 == Some(md5) then [images[0].filename.value] + rest else rest
  }

  /** `validate_uniqueness`, over the counter's keys: one error per key
      counted more than once, listing every image with that MD5. */
  function DuplicateErrors(images: seq<StylesheetImage>, keys: seq<string>): (r: seq<ValidationError>)
    requires AllLocal(images)
    decreases |keys|
  {
    if keys == [] then [] else DuplicateErrorOf(images, keys[0]) + DuplicateErrors(images, keys[1..])
  }

  /** The error for one MD5 of the counter: none when it is counted once. */
  function DuplicateErrorOf(images: seq<StylesheetImage>, md5: string): seq<ValidationError>
    requires AllLocal(images)
  {
    if multiset(Md5s(images))[md5] == 1 then [] else [Duplicates(FilenamesWith(images, md5))]
  }

  /** One key's step of `validate_uniqueness`, after the errors so far:
      an MD5 counted once adds nothing, any other adds its error. */
  lemma DuplicateErrorsStep(errors: seq<ValidationError>, images: seq<StylesheetImage>, keys: seq<string>, i: nat)
    requires AllLocal(images) && i < |keys|
    ensures multiset(Md5s(images))[keys[i]] == 1 ==>
      errors + DuplicateErrors(images, keys[i..]) == errors + DuplicateErrors(images, keys[i + 1..])
    ensures multiset(Md5s(images))[keys[i]] != 1 ==>
      errors + DuplicateErrors(images, keys[i..]) ==
      (errors + [Duplicates(FilenamesWith(images, keys[i]))]) + DuplicateErrors(images, keys[i + 1..])
  {
    assert keys[i..][1..] == keys[i + 1..];
    AppendAssociative(errors, DuplicateErrorOf(images, keys[i]), DuplicateErrors(images, keys[i + 1..]));
    assert [] + DuplicateErrors(images, keys[i + 1..]) == DuplicateErrors(images, keys[i + 1..]);
  }

  /** Over the keys of the MD5 counter, each MD5 shared by two or more
      images yields one error naming all of them, and each error is such a
      one; with distinct MD5s there is no error. */
  lemma {:induction false} DuplicateErrorsIff(images: seq<StylesheetImage>, keys: seq<string>)
    requires AllLocal(images)
    requires forall k :: k in keys ==> k in Md5s(images)
    ensures forall k :: k in keys && multiset(Md5s(images))[k] >= 2 ==>
      Duplicates(FilenamesWith(images, k)) in DuplicateErrors(images, keys)
    ensures forall e :: e in DuplicateErrors(images, keys) ==>
      exists k :: k in keys && multiset(Md5s(images))[k] >= 2 && e == Duplicates(FilenamesWith(images, k))
    ensures DuplicateErrors(images, keys) == [] <==> forall k :: k in keys ==> multiset(Md5s(images))[k] == 1
    decreases |keys|
  {
    if keys != [] {
      var m := Md5s(images);
      DuplicateErrorsIff(images, keys[1..]);
      var k := keys[0];
      assert k in m;
      assert k in multiset(m);
      assert forall x :: x in keys <==> x == k || x in keys[1..];
    }
  }

  /** Applied to the counter built from the images, the MD5s are distinct
      exactly when there is no error. */
  lemma UniqueMd5sNoError(images: seq<StylesheetImage>)
    requires AllLocal(images)
    ensures DuplicateErrors(images, Keys(Md5s(images))) == [] <==> Unique(Md5s(images))
  {
    var m := Md5s(images);
    DuplicateErrorsIff(images, Keys(m));
    if Unique(m) {
      forall k | k in Keys(m) ensures multiset(m)[k] == 1 {
        var i :| 0 <= i < |m| && m[i] == k;
        UniqueCount(m, i);
      }
    } else {
      var i, j :| 0 <= i < j < |m| && m[i] == m[j];
      TwiceCounted(m, i, j);
      assert m[i] in Keys(m);
    }
  }

  /** In a sequence without repeats an element is counted once. */
  lemma {:induction false} UniqueCount<T>(s: seq<T>, i: nat)
    requires Unique(s) && i < |s|
    ensures multiset(s)[s[i]] == 1
    decreases |s|
  {
    assert s == [s[0]] + s[1..];
    var rest := s[1..];
    UniqueTail(s);
    if i > 0 {
      assert s[i] == rest[i - 1] && s[i] != s[0];
      UniqueCount(rest, i - 1);
    }
  }

  /** An element at two positions is counted at least twice. */
  lemma TwiceCounted<T>(s: seq<T>, i: nat, j: nat)
    requires i < j < |s| && s[i] == s[j]
    ensures multiset(s)[s[i]] >= 2
  {
    assert s == s[..i] + [s[i]] + s[i + 1..j] + [s[j]] + s[j + 1..];
  }

  // ---------------------------------------------------------------------
  // The validator
  // ---------------------------------------------------------------------

  class StylesheetAssetsValidator {
    const config: Config
    const assets: StylesheetAssets
    var validationErrors: seq<ValidationError>

    /** `StylesheetAssetsValidator(config, stylesheet_assets)`: no errors yet. */
    constructor (c: Config, a: StylesheetAssets)
      ensures config == c && assets == a && validationErrors == []
    {
      config, assets, validationErrors := c, a, [];
    }

    /** `_validate_image`. */
    method ValidateImage(image: StylesheetImage)
      requires IsLocal(image)
      modifies this`validationErrors
      ensures validationErrors == old(validationErrors) + ImageErrors(image, config)
    {
      var p := image.path.value;
      if image.imageFormat.value !in config.allowedImageFormats {
        validationErrors := validationErrors + [InvalidFormat(p, config.allowedImageFormats, image.imageFormat.value)];
      }
      if image.fileSize.value > config.maxImageSize {
        validationErrors := validationErrors + [TooLarge(p, config.maxImageSize, image.fileSize.value)];
      }
      if image.width.value > config.maxImageWidth {
        validationErrors := validationErrors + [TooWide(p, config.maxImageWidth, image.width.value)];
      }
    }

    /** `validate_css_size`: an error exactly when the adapted CSS takes more
        UTF-8 bytes than allowed; returns the validator itself. */
    method ValidateCssSize() returns (self: StylesheetAssetsValidator)
      requires assets.adaptedCssContent.Some?
      modifies this`validationErrors
      ensures self == this
      ensures assets.AdaptedCssSize() > config.maxCssSize ==>
        validationErrors == old(validationErrors) + [CssTooLarge(config.maxCssSize, assets.AdaptedCssSize())]
      ensures assets.AdaptedCssSize() <= config.maxCssSize ==> validationErrors == old(validationErrors)
    {
      var size := assets.AdaptedCssSize();
      if size > config.maxCssSize {
        validationErrors := validationErrors + [CssTooLarge(config.maxCssSize, size)];
      }
      self := this;
    }

    /** `validate_css_syntax`, given the web service's reply: one error
        exactly when the reply reports errors; a failed request or another
        status skips the check. Saving the report to the output file is not
        modelled. */
    method ValidateCssSyntax(reply: SyntaxReply, outputFile: Option<string>) returns (self: StylesheetAssetsValidator)
      modifies this`validationErrors
      ensures self == this
      ensures ReportsErrors(reply) ==>
        validationErrors == old(validationErrors) + [SyntaxErrors(reply.errorCount, SavedTo(outputFile))]
      ensures !ReportsErrors(reply) ==> validationErrors == old(validationErrors)
    {
      self := this;
      if reply.RequestFailed? || reply.status != 200 {
        return;
      }
      if reply.errorCount == "0" {
        return;
      }
      var saved := SavedTo(outputFile);
      validationErrors := validationErrors + [SyntaxErrors(reply.errorCount, saved)];
    }

    /** `validate_image_references`: every `url(...)` call of the CSS the
        corrected reference pattern finds nothing in is reported, in order. */
    method ValidateImageReferences(relDir: string) returns (self: StylesheetAssetsValidator)
      requires assets.cssContent.Some?
      modifies this`validationErrors
      ensures self == this
      ensures validationErrors == old(validationErrors) +
        ReferenceErrors(UrlCalls(assets.cssContent.value), relDir, assets.config.imageExtensions)
    {
      var calls := UrlCalls(assets.cssContent.value);
      var exts := assets.config.imageExtensions;
      var i := 0;
      while i < |calls|
        invariant 0 <= i <= |calls|
        invariant validationErrors == old(validationErrors) + ReferenceErrors(calls[..i], relDir, exts)
      {
        ReferenceErrorsSnoc(calls, i, relDir, exts);
        if !SearchReference(calls[i], relDir, exts) {
          validationErrors := validationErrors + [InvalidReference(calls[i])];
        }
        i := i + 1;
      }
      assert calls[..i] == calls;
      self := this;
    }

    /** `validate_images`: a count error exactly when the list holds more
        images than allowed, then the per-image checks on every image. */
    method ValidateImages() returns (self: StylesheetAssetsValidator)
      requires assets.localImages.Plain() && AllLocal(assets.localImages.data)
      modifies this`validationErrors
      ensures self == this
      ensures var n := |assets.localImages.data|;
        validationErrors == old(validationErrors) +
          (if n > config.maxImageCount then [TooManyImages(config.maxImageCount, n)] else []) +
          ImagesErrors(assets.localImages.data, config)
    {
      assets.localImages.PlainItems();
      var n := assets.localImages.Length();
      var images := assets.localImages.Items();
      if n > config.maxImageCount {
        validationErrors := validationErrors + [TooManyImages(config.maxImageCount, n)];
      }
      ReportImages(images);
      self := this;
    }

    /** The loop of `validate_images` over the images. */
    method ReportImages(images: seq<StylesheetImage>)
      requires AllLocal(images)
      modifies this`validationErrors
      ensures validationErrors == old(validationErrors) + ImagesErrors(images, config)
    {
      var i := 0;
      while i < |images|
        invariant 0 <= i <= |images|
        invariant validationErrors == old(validationErrors) + ImagesErrors(images[..i], config)
      {
        ImagesErrorsSnoc(images, i, config);
        ValidateImage(images[i]);
        i := i + 1;
      }
      assert images[..i] == images;
    }

    /** `validate_integrity`: the counter of references is copied, each
        image's filename pops its key or is reported unreferenced, and the
        keys left are reported missing; the assets are not touched. The
        counter is that of the corrected pattern. */
    method ValidateIntegrity(relDir: string) returns (self: StylesheetAssetsValidator)
      requires assets.cssContent.Some?
      requires assets.localImages.Plain() && AllLocal(assets.localImages.data)
      modifies this`validationErrors
      ensures self == this
      ensures validationErrors == old(validationErrors) +
        IntegrityErrors(Filenames(assets.localImages.data),
                        Keys(FindReferences(assets.cssContent.value, relDir, assets.config.imageExtensions)))
    {
      assets.localImages.PlainItems();
      var keys := Keys(FindReferences(assets.cssContent.value, relDir, assets.config.imageExtensions));
      ReportIntegrity(Filenames(assets.localImages.Items()), keys);
      self := this;
    }

    /** The two loops of `validate_integrity`, over the images' filenames
        and the counter's keys. */
    method ReportIntegrity(names: seq<string>, keys: seq<string>)
      requires Unique(keys)
      modifies this`validationErrors
      ensures validationErrors == old(validationErrors) + IntegrityErrors(names, keys)
    {
      var errors := validationErrors;
      var left := keys;
      var i := 0;
      while i < |names|
        invariant 0 <= i <= |names| && Unique(left)
        invariant old(validationErrors) + IntegrityErrors(names, keys) == errors + IntegrityErrors(names[i..], left)
      {
        IntegrityErrorsStep(names, i, left);
        if names[i] in left {
          left := Pop(left, names[i]);
        } else {
          AppendAssociative(errors, [Unreferenced(names[i])], IntegrityErrors(names[i + 1..], left));
          errors := errors + [Unreferenced(names[i])];
        }
        i := i + 1;
      }
      var j := 0;
      while j < |left|
        invariant 0 <= j <= |left|
        invariant old(validationErrors) + IntegrityErrors(names, keys) == errors + MissingErrors(left[j..])
      {
        assert MissingErrors(left[j..]) == [Missing(left[j])] + MissingErrors(left[j + 1..]);
        AppendAssociative(errors, [Missing(left[j])], MissingErrors(left[j + 1..]));
        errors := errors + [Missing(left[j])];
        j := j + 1;
      }
      validationErrors := errors;
    }

    /** `validate_uniqueness`: one error per MD5 counted more than once, in
        the order the MD5s first occur, naming every image that has it. */
    method ValidateUniqueness() returns (self: StylesheetAssetsValidator)
      requires assets.localImages.Plain() && AllLocal(assets.localImages.data)
      modifies this`validationErrors
      ensures self == this
      ensures var images := assets.localImages.data;
        validationErrors == old(validationErrors) + DuplicateErrors(images, Keys(Md5s(images)))
    {
      assets.localImages.PlainItems();
      var images := assets.localImages.Items();
      ReportDuplicates(images, Keys(Md5s(images)));
      self := this;
    }

    /** The loop of `validate_uniqueness` over the counter's keys. */
    method ReportDuplicates(images: seq<StylesheetImage>, keys: seq<string>)
      requires AllLocal(images)
      modifies this`validationErrors
      ensures validationErrors == old(validationErrors) + DuplicateErrors(images, keys)
    {
      var errors := validationErrors;
      var i := 0;
      while i < |keys|
        invariant 0 <= i <= |keys|
        invariant old(validationErrors) + DuplicateErrors(images, keys) == errors + DuplicateErrors(images, keys[i..])
      {
        DuplicateErrorsStep(errors, images, keys, i);
        if multiset(Md5s(images))[keys[i]] != 1 {
          errors := errors + [Duplicates(FilenamesWith(images, keys[i]))];
        }
        i := i + 1;
      }
      validationErrors := errors;
    }
  }

  /** The images' filenames, in order. */
  function Filenames(images: seq<StylesheetImage>): (r: seq<string>)
    requires AllLocal(images)
    ensures |r| == |images| && forall i :: 0 <= i < |images| ==> r[i] == images[i].filename.value
  {
    seq(|images|, i requires 0 <= i < |images| && AllLocal(images) => images[i].filename.value)
  }
}
