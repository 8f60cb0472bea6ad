/** Images of the TypeScript build (build/Image.ts): the registry behind
    `Image.from` and `Image.collect`, and the cache key that decides
    whether an image is uploaded again. */
module BuildImages {
  import opened Wrappers
  import opened Text

  /** `Image.MAX_BYTE_SIZE`: Reddit's 512000-byte limit less a 500-byte margin. */
  const MaxByteSize: nat := 512_000 - 500

  /** An image referenced by `i($name, $width, $height)`, with its optional
      target dimensions (TypeScript numbers are modelled as integers). */
  class Image {
    const name: string
    const width: Option<int>
    const height: Option<int>

    constructor (name: string, width: Option<int>, height: Option<int>)
      ensures this.name == name && this.width == width && this.height == height
    {
      this.name, this.width, this.height := name, width, height;
    }
  }

  /** The error `Image.from` throws for two references that disagree. */
  datatype ImageError = DifferingTargetDimensions(name: string)

  /** The static register `Image.images`, keyed by image name. */
  class ImageRegistry {
    var images: map<string, Image>

    /** Every image is registered under its own name. */
    ghost predicate Valid()
      reads this
    {
      forall n :: n in images ==> images[n].name == n
    }

    constructor ()
      ensures Valid() && images == map[]
    {
      images := map[];
    }

    /** `Image.from`: the registered image of that name when its dimensions
        are the same, an error when they differ, and otherwise a new image,
        registered. */
    method From(name: string, width: Option<int>, height: Option<int>) returns (r: Result<Image, ImageError>)
      requires Valid()
      modifies this
      ensures Valid()
      ensures name in old(images) && (old(images)[name].width != width || old(images)[name].height != height) ==>
        r == Err(DifferingTargetDimensions(name)) && images == old(images)
      ensures name in old(images) && old(images)[name].width == width && old(images)[name].height == height ==>
        r == Ok(old(images)[name]) && images == old(images)
      ensures name !in old(images) ==>
        r.Ok? && fresh(r.value) && images == old(images)[name := r.value]
      ensures r.Ok? ==> r.value.name == name && r.value.width == width && r.value.height == height
      ensures r.Ok? ==> r.value in Collect()
    {
      if name in images {
        var existing := images[name];
        if width != existing.width || height != existing.height {
          return Err(DifferingTargetDimensions(name));
        }
        assert images[name] == existing;
        return Ok(existing);
      }
      var created := new Image(name, width, height);
      images := images[name := created];
      assert images[name] == created;
      r := Ok(created);
    }

    /** `Image.collect`: the registered images. */
    function Collect(): (r: set<Image>)
      reads this
      ensures forall n :: n in images ==> images[n] in r
      ensures forall x :: x in r ==> exists n :: n in images && images[n] == x
    {
      images.Values
    }

    /** The registry holds one image per name: two collected images with the
        same name are the same image. */
    lemma CollectOnePerName(a: Image, b: Image)
      requires Valid() && a in Collect() && b in Collect() && a.name == b.name
      ensures a == b
    {
      var m :| m in images && images[m] == a;
      var n :| n in images && images[n] == b;
      assert m == a.name && n == b.name;
    }
  }

  /** JavaScript truthiness of an optional dimension: present and not zero. */
  predicate Shown(d: Option<int>) {
    d.Some? && d.value != 0
  }

  /** The dimension as far as the key is concerned. */
  function Effective(d: Option<int>): Option<int> {
    if Shown(d) then d else None
  }

  /** A number rendered in a template string. */
  function IntText(i: int): (s: string)
    ensures |s| >= 1
    ensures s[0] == '-' <==> i < 0
  {
    if i < 0 then "-" + Decimal(-i) else Decimal(i)
  }

  /** `_<tag><text>` for a dimension that is shown, nothing otherwise. */
  function Tag(tag: char, shown: bool, text: string): string {
    if shown then ['_', tag] + text else ""
  }

  /** The rendering of a shown dimension. */
  function DimensionText(d: Option<int>): string {
    if Shown(d) then IntText(d.value) else ""
  }

  /** `getImageKey`: the hash of the source file, then `_w<width>` and
      `_h<height>` for the dimensions that are set and not zero. */
  function ImageKey(sourceHash: string, width: Option<int>, height: Option<int>): (key: string)
    ensures StartsWith(key, sourceHash)
    ensures key == sourceHash <==> !Shown(width) && !Shown(height)
  {
    sourceHash + Tag('w', Shown(width), DimensionText(width)) + Tag('h', Shown(height), DimensionText(height))
  }

  predicate NoUnderscore(s: string) {
    forall k :: 0 <= k < |s| ==> s[k] != '_'
  }

  /** The rendering never contains '_', the separator of the key. */
  lemma DimensionTextNoUnderscore(d: Option<int>)
    ensures NoUnderscore(DimensionText(d))
  {
    if Shown(d) {
      var i := d.value;
      var digits := if i < 0 then Decimal(-i) else Decimal(i);
      assert AllDigits(digits);
      if i < 0 {
        assert IntText(i) == "-" + digits;
      }
    }
  }

  lemma IntTextInjective(a: int, b: int)
    requires IntText(a) == IntText(b)
    ensures a == b
  {
    if a < 0 {
      assert Decimal(-a) == IntText(a)[1..];
      assert Decimal(-b) == IntText(b)[1..];
      DecimalInjective(-a, -b);
    } else {
      DecimalInjective(a, b);
    }
  }

  /** The position of the first '_' in `s`, or `|s|` when there is none. */
  function UnderscoreIndex(s: string): (i: nat)
    ensures i <= |s|
    decreases |s|
  {
    if s == [] || s[0] == '_' then 0 else 1 + UnderscoreIndex(s[1..])
  }

  /** A text without '_' followed by nothing or by something starting with
      '_' ends where the first '_' is. */
  lemma {:induction false} UnderscoreIndexAfter(t: string, r: string)
    requires NoUnderscore(t)
    requires r == [] || r[0] == '_'
    ensures UnderscoreIndex(t + r) == |t|
    decreases |t|
  {
    if t != [] {
      assert (t + r)[0] == t[0];
      assert (t + r)[1..] == t[1..] + r;
      UnderscoreIndexAfter(t[1..], r);
    } else {
      assert t + r == r;
    }
  }

  /** Equal texts with prefixes of one length have equal prefixes and
      equal rests. */
  lemma SplitAtLength(p1: string, x1: string, p2: string, x2: string)
    requires |p1| == |p2| && p1 + x1 == p2 + x2
    ensures p1 == p2 && x1 == x2
  {
    assert p1 == (p1 + x1)[..|p1|] && p2 == (p2 + x2)[..|p2|];
    assert x1 == (p1 + x1)[|p1|..] && x2 == (p2 + x2)[|p2|..];
  }

  /** A text without '_' followed by nothing or by something starting with
      '_' can be split back. */
  lemma SplitAtUnderscore(t1: string, r1: string, t2: string, r2: string)
    requires NoUnderscore(t1) && NoUnderscore(t2)
    requires r1 == [] || r1[0] == '_'
    requires r2 == [] || r2[0] == '_'
    requires t1 + r1 == t2 + r2
    ensures t1 == t2 && r1 == r2
  {
    UnderscoreIndexAfter(t1, r1);
    UnderscoreIndexAfter(t2, r2);
    SplitAtLength(t1, r1, t2, r2);
  }

  /** A tag is present exactly when the text starts with '_' and the tag
      letter, as long as what follows cannot start like the same tag. */
  lemma TagMarksShown(tag: char, shown: bool, x: string, r: string)
    requires r == [] || (|r| >= 2 && r[0] == '_' && r[1] != tag)
    ensures var s := Tag(tag, shown, x) + r;
      shown <==> |s| >= 2 && s[0] == '_' && s[1] == tag
  {
    if shown {
      assert Tag(tag, shown, x) + r == ['_', tag] + (x + r);
    } else {
      assert Tag(tag, shown, x) + r == r;
    }
  }

  /** Two equal texts, each a tag followed by nothing or by another tag,
      have the same tag and the same rest. */
  lemma TagsAgree(tag: char, s1: bool, x1: string, r1: string, s2: bool, x2: string, r2: string)
    requires NoUnderscore(x1) && NoUnderscore(x2)
    requires r1 == [] || (|r1| >= 2 && r1[0] == '_' && r1[1] != tag)
    requires r2 == [] || (|r2| >= 2 && r2[0] == '_' && r2[1] != tag)
    requires Tag(tag, s1, x1) + r1 == Tag(tag, s2, x2) + r2
    ensures s1 == s2 && r1 == r2 && (s1 ==> x1 == x2)
  {
    TagMarksShown(tag, s1, x1, r1);
    TagMarksShown(tag, s2, x2, r2);
    if s1 {
      assert Tag(tag, s1, x1) + r1 == ['_', tag] + (x1 + r1);
      assert Tag(tag, s2, x2) + r2 == ['_', tag] + (x2 + r2);
      SplitAtLength(['_', tag], x1 + r1, ['_', tag], x2 + r2);
      SplitAtUnderscore(x1, r1, x2, r2);
    } else {
      assert Tag(tag, s1, x1) + r1 == r1 && Tag(tag, s2, x2) + r2 == r2;
    }
  }

  /** A hash and two tags put together can be taken apart again, given the
      hash's length. */
  lemma KeyTextsAgree(h1: string, s1: bool, x1: string, u1: bool, y1: string,
                      h2: string, s2: bool, x2: string, u2: bool, y2: string)
    requires |h1| == |h2|
    requires NoUnderscore(x1) && NoUnderscore(x2) && NoUnderscore(y1) && NoUnderscore(y2)
    requires h1 + Tag('w', s1, x1) + Tag('h', u1, y1) == h2 + Tag('w', s2, x2) + Tag('h', u2, y2)
    ensures h1 == h2 && s1 == s2 && u1 == u2 && (s1 ==> x1 == x2) && (u1 ==> y1 == y2)
  {
    var w1, w2 := Tag('w', s1, x1), Tag('w', s2, x2);
    var t1, t2 := Tag('h', u1, y1), Tag('h', u2, y2);
    assert h1 + w1 + t1 == h1 + (w1 + t1);
    assert h2 + w2 + t2 == h2 + (w2 + t2);
    SplitAtLength(h1, w1 + t1, h2, w2 + t2);
    TagsAgree('w', s1, x1, t1, s2, x2, t2);
    assert t1 + [] == t2 + [];
    TagsAgree('h', u1, y1, [], u2, y2, []);
  }

  /** Keys made from hashes of one length (a SHA-1 digest always has 40 hex
      digits) are equal only for the same hash and the same shown
      dimensions: a changed file or a changed target size gives a new key. */
  lemma ImageKeyInjective(h1: string, w1: Option<int>, t1: Option<int>,
                          h2: string, w2: Option<int>, t2: Option<int>)
    requires |h1| == |h2|
    requires ImageKey(h1, w1, t1) == ImageKey(h2, w2, t2)
    ensures h1 == h2 && Effective(w1) == Effective(w2) && Effective(t1) == Effective(t2)
  {
    DimensionTextNoUnderscore(w1);
    DimensionTextNoUnderscore(w2);
    DimensionTextNoUnderscore(t1);
    DimensionTextNoUnderscore(t2);
    KeyTextsAgree(h1, Shown(w1), DimensionText(w1), Shown(t1), DimensionText(t1),
                  h2, Shown(w2), DimensionText(w2), Shown(t2), DimensionText(t2));
    if Shown(w1) {
      IntTextInjective(w1.value, w2.value);
    }
    if Shown(t1) {
      IntTextInjective(t1.value, t2.value);
    }
  }
}
