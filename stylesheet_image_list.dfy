/** The image list with filtered and sorted views
    (utils/stylesheet/stylesheet_image_list.py).

    A view is a shallow copy: a new list object holding the same sequence of
    image references together with a condition and a sort setting; it is
    evaluated when iterated. The source passes lambdas; the model enumerates
    the ones the source uses. */
module ImageLists {
  import opened Wrappers
  import opened Text
  import opened Sorting
  import opened StylesheetImages

  /** The conditions of the `new`, `unchanged`, `unnamed` and `removed` views. */
  datatype Condition = NewImages | UnchangedImages | UnnamedImages | RemovedImages

  /** The keys of the `by_filename`, `by_reddit_name` and `by_usage_count` views. */
  datatype SortKey = FilenameKey | RedditNameKey | UsageCountKey

  /** One keyword argument of `find`: an attribute name and the value it must equal. */
  datatype Attribute =
    | FilenameIs(filename: Option<string>)
    | RedditNameIs(redditName: Option<string>)
    | UrlIs(url: Option<string>)
    | RemoteFileSizeIs(remoteFileSize: Option<nat>)
    | Md5Is(md5: Option<string>)

  predicate Satisfies(c: Condition, image: StylesheetImage)
    reads image`isNew, image`redditName, image`isUsed, image`isReplaced
  {
    match c
    case NewImages => image.isNew
    case UnchangedImages => !image.isNew
    case UnnamedImages => image.redditName.None?
    case RemovedImages => image.IsRemoved()
  }

  /** A missing condition admits every image (`if self._condition:`). */
  predicate Admits(c: Option<Condition>, image: StylesheetImage)
    reads image`isNew, image`redditName, image`isUsed, image`isReplaced
  {
    c.None? || Satisfies(c.value, image)
  }

  /** `filter(condition, data)`, order kept. */
  function Filter(s: seq<StylesheetImage>, c: Option<Condition>): (r: seq<StylesheetImage>)
    reads s`isNew, s`redditName, s`isUsed, s`isReplaced
    ensures |r| <= |s|
    ensures forall x :: x in r ==> x in s
    decreases |s|
  {
    if c.None? || s == [] then s
    else (if Satisfies(c.value, s[0]) then [s[0]] else []) + Filter(s[1..], c)
  }

  /** The filtered list holds exactly the admitted images. */
  lemma {:induction false} FilterMembers(s: seq<StylesheetImage>, c: Option<Condition>)
    ensures forall i :: 0 <= i < |Filter(s, c)| ==> Filter(s, c)[i] in s && Admits(c, Filter(s, c)[i])
    ensures forall i :: 0 <= i < |s| && Admits(c, s[i]) ==> s[i] in Filter(s, c)
    decreases |s|
  {
    if c.Some? && s != [] {
      FilterMembers(s[1..], c);
      var head := if Satisfies(c.value, s[0]) then [s[0]] else [];
      assert Filter(s, c) == head + Filter(s[1..], c);
      forall i | 0 <= i < |s| && Admits(c, s[i]) ensures s[i] in Filter(s, c) {
        if i > 0 { assert s[i] == s[1..][i - 1]; }
      }
    }
  }

  /** The sort key of an image. A missing attribute (on which the source's
      comparison would raise) sorts as the empty key. */
  function KeyOf(k: SortKey, image: StylesheetImage): Key
    reads image`redditName
  {
    match k
    case FilenameKey => CodePoints(image.filename.GetOr([]))
    case RedditNameKey => NameOrderKey(image.redditName)
    case UsageCountKey => [image.usageCount.GetOr(0)]
  }

  /** The `(len(name), name)` key of `by_reddit_name`. */
  function NameOrderKey(name: Option<string>): Key {
    if name.None? then [] else [|name.value|] + CodePoints(name.value)
  }

  /** Pairs each image with its key. */
  function Keyed(s: seq<StylesheetImage>, k: SortKey): (r: seq<(Key, StylesheetImage)>)
    reads (set x | x in s)`redditName
    ensures |r| == |s|
    ensures forall i :: 0 <= i < |s| ==> r[i] == (KeyOf(k, s[i]), s[i])
    decreases |s|
  {
    if s == [] then [] else [(KeyOf(k, s[0]), s[0])] + Keyed(s[1..], k)
  }

  function Values(ps: seq<(Key, StylesheetImage)>): (r: seq<StylesheetImage>)
    ensures |r| == |ps|
    ensures forall i :: 0 <= i < |ps| ==> r[i] == ps[i].1
    decreases |ps|
  {
    if ps == [] then [] else [ps[0].1] + Values(ps[1..])
  }

  /** What iterating a view yields: the admitted images, stably sorted when a
      key is set (descending when `reverse`). */
  function View(data: seq<StylesheetImage>, c: Option<Condition>, k: Option<SortKey>, reverse: bool)
    : seq<StylesheetImage>
    reads data`isNew, data`redditName, data`isUsed, data`isReplaced
  {
    var f := Filter(data, c);
    if k.None? then f else Values(StableSort(Keyed(f, k.value), reverse))
  }

  /** The image's attribute named by `a` has the value `a` carries. */
  predicate HasAttribute(image: StylesheetImage, a: Attribute)
    reads image`redditName, image`url, image`remoteFileSize
  {
    match a
    case FilenameIs(v) => image.filename == v
    case RedditNameIs(v) => image.redditName == v
    case UrlIs(v) => image.url == v
    case RemoteFileSizeIs(v) => image.remoteFileSize == v
    case Md5Is(v) => image.md5 == v
  }

  /** True when every attribute of `q` has the requested value. */
  predicate HasAttributes(image: StylesheetImage, q: seq<Attribute>)
    reads image`redditName, image`url, image`remoteFileSize
  {
    forall i :: 0 <= i < |q| ==> HasAttribute(image, q[i])
  }

  /** The first image of `s` having all attributes of `q`. */
  function FirstWith(s: seq<StylesheetImage>, q: seq<Attribute>): (r: Option<StylesheetImage>)
    reads s`redditName, s`url, s`remoteFileSize
    ensures r.Some? ==> r.value in s
    decreases |s|
  {
    if s == [] then None
    else if HasAttributes(s[0], q) then Some(s[0])
    else FirstWith(s[1..], q)
  }
  lemma FilterCons(s: seq<StylesheetImage>, c: Option<Condition>)
    requires s != []
    ensures Filter(s, c) == (if Admits(c, s[0]) then [s[0]] else []) + Filter(s[1..], c)
  {
    if c.None? { assert s == [s[0]] + s[1..]; }
  }

  lemma FirstWithCons(x: StylesheetImage, rest: seq<StylesheetImage>, q: seq<Attribute>)
    ensures FirstWith([x] + rest, q) == if HasAttributes(x, q) then Some(x) else FirstWith(rest, q)
  {
    assert ([x] + rest)[1..] == rest;
  }

  /** `FirstWith` finds the earliest match, and only misses when there is none. */
  lemma {:induction false} FirstWithIsFirst(s: seq<StylesheetImage>, q: seq<Attribute>)
    ensures FirstWith(s, q).None? <==> forall i :: 0 <= i < |s| ==> !HasAttributes(s[i], q)
    ensures FirstWith(s, q).Some? ==>
      exists i :: 0 <= i < |s| && s[i] == FirstWith(s, q).value && HasAttributes(s[i], q) &&
        forall j :: 0 <= j < i ==> !HasAttributes(s[j], q)
    decreases |s|
  {
    if s != [] && !HasAttributes(s[0], q) {
      FirstWithIsFirst(s[1..], q);
      if FirstWith(s[1..], q).Some? {
        var i :| 0 <= i < |s[1..]| && s[1..][i] == FirstWith(s[1..], q).value &&
          HasAttributes(s[1..][i], q) && forall j :: 0 <= j < i ==> !HasAttributes(s[1..][j], q);
        assert s[i + 1] == s[1..][i];
        assert forall j :: 0 <= j < i + 1 ==> !HasAttributes(s[j], q) by {
          forall j | 0 <= j < i + 1 ensures !HasAttributes(s[j], q) {
            if j > 0 { assert s[j] == s[1..][j - 1]; }
          }
        }
      } else {
        forall i | 0 <= i < |s| ensures !HasAttributes(s[i], q) {
          if i > 0 { assert s[i] == s[1..][i - 1]; }
        }
      }
    }
  }

  /** The condition admits the image and it has every requested attribute. */
  predicate Matches(c: Option<Condition>, q: seq<Attribute>, image: StylesheetImage)
    reads image`isNew, image`redditName, image`isUsed, image`isReplaced, image`url, image`remoteFileSize
  {
    Admits(c, image) && HasAttributes(image, q)
  }

  /** One step of searching a filtered view. */
  lemma SearchStep(s: seq<StylesheetImage>, c: Option<Condition>, q: seq<Attribute>)
    requires s != []
    ensures FirstWith(Filter(s, c), q) ==
      if Matches(c, q, s[0]) then Some(s[0]) else FirstWith(Filter(s[1..], c), q)
  {
    FilterCons(s, c);
    if Admits(c, s[0]) {
      FirstWithCons(s[0], Filter(s[1..], c), q);
    } else {
      assert Filter(s, c) == Filter(s[1..], c);
    }
  }

  /** Searching a filtered view finds the earliest image of the whole list
      that matches, and misses only when none does. */
  lemma {:induction false} FirstAdmittedIsFirst(s: seq<StylesheetImage>, c: Option<Condition>, q: seq<Attribute>)
    ensures FirstWith(Filter(s, c), q).None? <==> forall i :: 0 <= i < |s| ==> !Matches(c, q, s[i])
    ensures FirstWith(Filter(s, c), q).Some? ==>
      exists i :: 0 <= i < |s| && s[i] == FirstWith(Filter(s, c), q).value && Matches(c, q, s[i]) &&
                  forall j :: 0 <= j < i ==> !Matches(c, q, s[j])
    decreases |s|
  {
    if s != [] {
      SearchStep(s, c, q);
      if !Matches(c, q, s[0]) {
        FirstAdmittedIsFirst(s[1..], c, q);
        var r := FirstWith(Filter(s, c), q);
        if r.Some? {
          var i :| 0 <= i < |s[1..]| && s[1..][i] == r.value && Matches(c, q, s[1..][i]) &&
            forall j :: 0 <= j < i ==> !Matches(c, q, s[1..][j]);
          assert s[i + 1] == s[1..][i];
          forall j | 0 <= j < i + 1 ensures !Matches(c, q, s[j]) {
            if j > 0 { assert s[j] == s[1..][j - 1]; }
          }
        } else {
          forall i | 0 <= i < |s| ensures !Matches(c, q, s[i]) {
            if i > 0 { assert s[i] == s[1..][i - 1]; }
          }
        }
      }
    }
  }

  /** The `new` and `unchanged` views split any list in two. */
  lemma {:induction false} NewUnchangedPartition(s: seq<StylesheetImage>)
    ensures |Filter(s, Some(NewImages))| + |Filter(s, Some(UnchangedImages))| == |s|
    decreases |s|
  {
    if s != [] { NewUnchangedPartition(s[1..]); }
  }

  lemma {:induction false} ValuesInsert(x: (Key, StylesheetImage), ps: seq<(Key, StylesheetImage)>, reverse: bool)
    ensures multiset(Values(Insert(x, ps, reverse))) == multiset(Values(ps)) + multiset{x.1}
    decreases |ps|
  {
    if ps != [] && !Before(x, ps[0], reverse) {
      ValuesInsert(x, ps[1..], reverse);
      assert Values(ps) == [ps[0].1] + Values(ps[1..]);
    }
  }

  lemma ValuesSnoc(ps: seq<(Key, StylesheetImage)>)
    requires ps != []
    ensures Values(ps) == Values(ps[..|ps| - 1]) + [ps[|ps| - 1].1]
  {
  }

  lemma {:induction false} ValuesSortPermutes(ps: seq<(Key, StylesheetImage)>, reverse: bool)
    ensures multiset(Values(StableSort(ps, reverse))) == multiset(Values(ps))
    decreases |ps|
  {
    if ps != [] {
      var init := ps[..|ps| - 1];
      ValuesSortPermutes(init, reverse);
      ValuesInsert(ps[|ps| - 1], StableSort(init, reverse), reverse);
      ValuesSnoc(ps);
    }
  }

  /** Every sorted pair still carries its image's own key. */
  lemma SortKeepsKeys(f: seq<StylesheetImage>, k: SortKey, reverse: bool)
    ensures forall p :: p in StableSort(Keyed(f, k), reverse) ==> p.0 == KeyOf(k, p.1) && p.1 in f
  {
    var ps := Keyed(f, k);
    StableSortCorrect(ps, reverse);
    forall p | p in StableSort(ps, reverse) ensures p.0 == KeyOf(k, p.1) && p.1 in f {
      assert p in multiset(StableSort(ps, reverse));
      assert p in ps;
    }
  }

  /** Iterating a view yields exactly the admitted images, each as often as in
      the list, so its length is the filtered length whatever the sort; with a
      key set, the result is ordered by it. */
  lemma ViewContents(data: seq<StylesheetImage>, c: Option<Condition>, k: Option<SortKey>, reverse: bool)
    ensures multiset(View(data, c, k, reverse)) == multiset(Filter(data, c))
    ensures |View(data, c, k, reverse)| == |Filter(data, c)|
    ensures forall i :: 0 <= i < |View(data, c, k, reverse)| ==>
      View(data, c, k, reverse)[i] in data && Admits(c, View(data, c, k, reverse)[i])
    ensures k.Some? ==> forall i, j :: 0 <= i < j < |View(data, c, k, reverse)| ==>
      !Before((KeyOf(k.value, View(data, c, k, reverse)[j]), View(data, c, k, reverse)[j]),
              (KeyOf(k.value, View(data, c, k, reverse)[i]), View(data, c, k, reverse)[i]), reverse)
  {
    var f := Filter(data, c);
    FilterMembers(data, c);
    if k.Some? {
      var ps := StableSort(Keyed(f, k.value), reverse);
      ValuesSortPermutes(Keyed(f, k.value), reverse);
      assert Values(Keyed(f, k.value)) == f;
      StableSortCorrect(Keyed(f, k.value), reverse);
      SortKeepsKeys(f, k.value, reverse);
      var v := View(data, c, k, reverse);
      assert v == Values(ps);
      forall i | 0 <= i < |v| ensures v[i] in data && Admits(c, v[i]) {
        assert v[i] in multiset(v);
        assert v[i] in f;
      }
      forall i, j | 0 <= i < j < |v|
        ensures !Before((KeyOf(k.value, v[j]), v[j]), (KeyOf(k.value, v[i]), v[i]), reverse)
      {
        assert ps[i] in ps && ps[j] in ps;
        assert ps[i] == (KeyOf(k.value, v[i]), v[i]);
        assert ps[j] == (KeyOf(k.value, v[j]), v[j]);
      }
    }
  }

  /** No image occurs twice. */
  predicate Distinct(s: seq<StylesheetImage>) {
    forall j, k :: 0 <= j < k < |s| ==> s[j] != s[k]
  }

  /** Filtering keeps an image at most as often as the list holds it. */
  lemma {:induction false} FilterSubMultiset(s: seq<StylesheetImage>, c: Option<Condition>)
    ensures multiset(Filter(s, c)) <= multiset(s)
    decreases |s|
  {
    if c.Some? && s != [] {
      FilterSubMultiset(s[1..], c);
      assert s == [s[0]] + s[1..];
    }
  }

  /** A list without repeats holds each image at most once. */
  lemma {:induction false} DistinctOnce(s: seq<StylesheetImage>)
    requires Distinct(s)
    ensures forall x :: multiset(s)[x] <= 1
    decreases |s|
  {
    if s != [] {
      assert Distinct(s[1..]) by {
        forall j, k | 0 <= j < k < |s[1..]| ensures s[1..][j] != s[1..][k] {
          assert s[1..][j] == s[j + 1] && s[1..][k] == s[k + 1];
        }
      }
      DistinctOnce(s[1..]);
      assert s == [s[0]] + s[1..];
      assert s[0] !in s[1..];
    }
  }

  /** A list holding each image at most once has no repeats. */
  lemma OnceDistinct(s: seq<StylesheetImage>)
    requires forall x :: multiset(s)[x] <= 1
    ensures Distinct(s)
  {
    forall j, k | 0 <= j < k < |s| ensures s[j] != s[k] {
      assert s == s[..k] + s[k..];
      assert s[j] in s[..k] && s[k] in s[k..];
      assert multiset(s)[s[k]] == multiset(s[..k])[s[k]] + multiset(s[k..])[s[k]];
    }
  }

  /** A view of a list without repeats has none. */
  lemma DistinctView(data: seq<StylesheetImage>, c: Option<Condition>, k: Option<SortKey>, reverse: bool)
    requires Distinct(data)
    ensures Distinct(View(data, c, k, reverse))
  {
    ViewContents(data, c, k, reverse);
    FilterSubMultiset(data, c);
    DistinctOnce(data);
    OnceDistinct(View(data, c, k, reverse));
  }

  /** `by_reddit_name` orders by `(len(name), name)`: a shorter name comes first,
      and names of one length compare code point by code point. */
  lemma RedditNameOrder(a: StylesheetImage, b: StylesheetImage)
    requires a.redditName.Some? && b.redditName.Some?
    ensures |a.redditName.value| < |b.redditName.value| ==> KeyLess(KeyOf(RedditNameKey, a), KeyOf(RedditNameKey, b))
    ensures |a.redditName.value| == |b.redditName.value| ==>
      (KeyLess(KeyOf(RedditNameKey, a), KeyOf(RedditNameKey, b)) <==>
       KeyLess(CodePoints(a.redditName.value), CodePoints(b.redditName.value)))
  {
    var ka := KeyOf(RedditNameKey, a);
    var kb := KeyOf(RedditNameKey, b);
    assert ka[1..] == CodePoints(a.redditName.value);
    assert kb[1..] == CodePoints(b.redditName.value);
  }

  class StylesheetImageList {
    var data: seq<StylesheetImage>
    var sortKey: Option<SortKey>
    var sortReverse: bool
    var condition: Option<Condition>

    /** `StylesheetImageList(initlist, sort_key, sort_reverse, condition)`:
        the list copies the sequence of references, not the images. */
    constructor (initlist: seq<StylesheetImage>, key: Option<SortKey>, reverse: bool, c: Option<Condition>)
      ensures data == initlist && sortKey == key && sortReverse == reverse && condition == c
    {
      data, sortKey, sortReverse, condition := initlist, key, reverse, c;
    }

    /** `__iter__`. */
    function Items(): seq<StylesheetImage>
      reads this, data`isNew, data`redditName, data`isUsed, data`isReplaced
    {
      View(data, condition, sortKey, sortReverse)
    }

    /** A list made without a condition or a sort key, as the assets'
        list of Local images is. */
    predicate Plain()
      reads this
    {
      condition.None? && sortKey.None?
    }

    /** A plain list yields its data as it is, in insertion order. */
    lemma PlainItems()
      requires Plain()
      ensures Items() == data && Length() == |data|
    {
    }

    /** `__len__`: counts the admitted images; the sort plays no part. */
    function Length(): (n: nat)
      reads this, data`isNew, data`redditName, data`isUsed, data`isReplaced
      ensures n == |Items()|
    {
      ViewContents(data, condition, sortKey, sortReverse);
      |Filter(data, condition)|
    }

    /** `_filtered_by`: the new condition replaces the old one; the sort
        setting is kept; this list is left as it was. */
    method FilteredBy(c: Option<Condition>) returns (v: StylesheetImageList)
      ensures fresh(v)
      ensures v.data == data && v.condition == c
      ensures v.sortKey == sortKey && v.sortReverse == sortReverse
    {
      v := new StylesheetImageList(data, sortKey, sortReverse, c);
    }

    /** `_sorted_by`: the condition is kept and so is the direction unless one
        is given. */
    method SortedBy(key: Option<SortKey>, reverse: Option<bool>) returns (v: StylesheetImageList)
      ensures fresh(v)
      ensures v.data == data && v.condition == condition && v.sortKey == key
      ensures v.sortReverse == reverse.GetOr(sortReverse)
    {
      var r := if reverse.None? then sortReverse else reverse.value;
      v := new StylesheetImageList(data, key, r, condition);
    }

    method ByFilename() returns (v: StylesheetImageList)
      ensures fresh(v) && v.data == data && v.condition == condition
      ensures v.sortKey == Some(FilenameKey) && v.sortReverse == sortReverse
    {
      v := SortedBy(Some(FilenameKey), None);
    }

    method ByRedditName() returns (v: StylesheetImageList)
      ensures fresh(v) && v.data == data && v.condition == condition
      ensures v.sortKey == Some(RedditNameKey) && v.sortReverse == sortReverse
    {
      v := SortedBy(Some(RedditNameKey), None);
    }

    method ByUsageCount() returns (v: StylesheetImageList)
      ensures fresh(v) && v.data == data && v.condition == condition
      ensures v.sortKey == Some(UsageCountKey) && v.sortReverse == sortReverse
    {
      v := SortedBy(Some(UsageCountKey), None);
    }

    /** `desc`: the current key, descending. */
    method Desc() returns (v: StylesheetImageList)
      ensures fresh(v) && v.data == data && v.condition == condition
      ensures v.sortKey == sortKey && v.sortReverse
    {
      v := SortedBy(sortKey, Some(true));
    }

    method New() returns (v: StylesheetImageList)
      ensures fresh(v) && v.data == data && v.condition == Some(NewImages)
      ensures v.sortKey == sortKey && v.sortReverse == sortReverse
    {
      v := FilteredBy(Some(NewImages));
    }

    method Unchanged() returns (v: StylesheetImageList)
      ensures fresh(v) && v.data == data && v.condition == Some(UnchangedImages)
      ensures v.sortKey == sortKey && v.sortReverse == sortReverse
    {
      v := FilteredBy(Some(UnchangedImages));
    }

    method Unnamed() returns (v: StylesheetImageList)
      ensures fresh(v) && v.data == data && v.condition == Some(UnnamedImages)
      ensures v.sortKey == sortKey && v.sortReverse == sortReverse
    {
      v := FilteredBy(Some(UnnamedImages));
    }

    method Removed() returns (v: StylesheetImageList)
      ensures fresh(v) && v.data == data && v.condition == Some(RemovedImages)
      ensures v.sortKey == sortKey && v.sortReverse == sortReverse
    {
      v := FilteredBy(Some(RemovedImages));
    }

    /** `append`, inherited from `UserList`. */
    method Append(image: StylesheetImage)
      modifies this`data
      ensures data == old(data) + [image]
    {
      data := data + [image];
    }

    /** `find(**kwargs)`: the first image in insertion order (the sort plays no
        part) that the condition admits and that has every requested attribute;
        `None` when there is none. */
    method Find(q: seq<Attribute>) returns (r: Option<StylesheetImage>)
      ensures r == FirstWith(Filter(data, condition), q)
    {
      var i := 0;
      r := None;
      while i < |data| && r.None?
        invariant 0 <= i <= |data|
        invariant r.None? ==> FirstWith(Filter(data, condition), q) == FirstWith(Filter(data[i..], condition), q)
        invariant r.Some? ==> r == FirstWith(Filter(data, condition), q)
      {
        assert data[i..][1..] == data[i + 1..];
        SearchStep(data[i..], condition, q);
        if Matches(condition, q, data[i]) {
          r := Some(data[i]);
        }
        i := i + 1;
      }
    }
  }
}
