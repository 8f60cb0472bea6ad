/** Matching Local images against Stored and Remote ones, and allocating
    Reddit names (utils/stylesheet/stylesheet_image_mapper.py). */
module ImageMapper {
  import opened Wrappers
  import opened Sequences
  import opened Text
  import opened StylesheetImages
  import opened ImageLists
  import opened DataPages
  import opened Configuration
  import opened AlphaNames
  import opened NameAllocation

  // ----- Matching -----

  /** What matching reads of a Stored or Remote image: the image itself,
      whether its list admits it, and its name, URL and remote size. The
      filename and hash are constants of the image. */
  datatype Entry = Entry(image: StylesheetImage, admitted: bool, redditName: Option<string>, url: Option<string>,
                         remoteFileSize: Option<nat>)

  /** The entry of `x` in a list with condition `c`; the flags are read only
      when there is a condition. */
  function EntryOf(c: Option<Condition>, x: StylesheetImage): (e: Entry)
    reads x`redditName, x`url, x`remoteFileSize, if c.Some? then {x} else {}
  {
    Entry(x, c.None? || Satisfies(c.value, x), x.redditName, x.url, x.remoteFileSize)
  }

  /** The entries of a list's images, in list order. */
  function Entries(s: seq<StylesheetImage>, c: Option<Condition>): (r: seq<Entry>)
    reads s`redditName, s`url, s`remoteFileSize, if c.Some? then set x | x in s else {}
    ensures |r| == |s|
    ensures forall k :: 0 <= k < |s| ==> r[k] == EntryOf(c, s[k])
    decreases |s|
  {
    if s == [] then [] else [EntryOf(c, s[0])] + Entries(s[1..], c)
  }

  /** The entries of an image list as it stands. */
  function ListEntries(l: StylesheetImageList): (r: seq<Entry>)
    reads l, l.data`redditName, l.data`url, l.data`remoteFileSize,
          if l.condition.Some? then set x | x in l.data else {}
  {
    Entries(l.data, l.condition)
  }

  /** `HasAttribute` on an entry. */
  predicate EntryHas(e: Entry, a: Attribute) {
    match a
    case FilenameIs(v) => e.image.filename == v
    case RedditNameIs(v) => e.redditName == v
    case UrlIs(v) => e.url == v
    case RemoteFileSizeIs(v) => e.remoteFileSize == v
    case Md5Is(v) => e.image.md5 == v
  }

  /** The list admits the entry's image and it has every attribute of `q`. */
  predicate EntryMatches(e: Entry, q: seq<Attribute>) {
    e.admitted && forall i :: 0 <= i < |q| ==> EntryHas(e, q[i])
  }

  /** `find` over entries: the first matching one. */
  function Search(es: seq<Entry>, q: seq<Attribute>): (r: Option<Entry>)
    ensures r.Some? ==> r.value in es && EntryMatches(r.value, q)
    decreases |es|
  {
    if es == [] then None else if EntryMatches(es[0], q) then Some(es[0]) else Search(es[1..], q)
  }

  /** `Search` finds the earliest matching entry and misses only when none
      matches. */
  lemma {:induction false} SearchIsFirst(es: seq<Entry>, q: seq<Attribute>)
    ensures Search(es, q).None? <==> forall i :: 0 <= i < |es| ==> !EntryMatches(es[i], q)
    ensures Search(es, q).Some? ==>
      exists i :: 0 <= i < |es| && es[i] == Search(es, q).value && forall j :: 0 <= j < i ==> !EntryMatches(es[j], q)
    decreases |es|
  {
    if es != [] && !EntryMatches(es[0], q) {
      SearchIsFirst(es[1..], q);
      if Search(es, q).Some? {
        var i :| 0 <= i < |es[1..]| && es[1..][i] == Search(es, q).value &&
          forall j :: 0 <= j < i ==> !EntryMatches(es[1..][j], q);
        assert es[i + 1] == es[1..][i];
        forall j | 0 <= j < i + 1 ensures !EntryMatches(es[j], q) {
          if j > 0 { assert es[j] == es[1..][j - 1]; }
        }
      } else {
        forall i | 0 <= i < |es| ensures !EntryMatches(es[i], q) {
          if i > 0 { assert es[i] == es[1..][i - 1]; }
        }
      }
    }
  }

  /** The image an entry search found. */
  function ImageOf(r: Option<Entry>): Option<StylesheetImage> {
    if r.None? then None else Some(r.value.image)
  }

  /** Searching the entries finds what `find` finds on the list. */
  lemma {:induction false} SearchIsFind(s: seq<StylesheetImage>, c: Option<Condition>, q: seq<Attribute>)
    ensures FirstWith(Filter(s, c), q) == ImageOf(Search(Entries(s, c), q))
    decreases |s|
  {
    if s != [] {
      SearchStep(s, c, q);
      var e := EntryOf(c, s[0]);
      forall i | 0 <= i < |q| ensures HasAttribute(s[0], q[i]) == EntryHas(e, q[i]) {
      }
      assert Matches(c, q, s[0]) == EntryMatches(e, q);
      assert Entries(s, c)[1..] == Entries(s[1..], c);
      SearchIsFind(s[1..], c, q);
    }
  }

  /** What `Search` finds over a list's entries is the entry of the image
      `find` finds on the list. */
  lemma FoundEntry(s: seq<StylesheetImage>, c: Option<Condition>, q: seq<Attribute>)
    ensures var x := FirstWith(Filter(s, c), q);
      Search(Entries(s, c), q) == if x.None? then None else Some(EntryOf(c, x.value))
  {
    SearchIsFind(s, c, q);
    var es := Entries(s, c);
    var r := Search(es, q);
    if r.Some? {
      var k :| 0 <= k < |es| && es[k] == r.value;
      assert es[k] == EntryOf(c, s[k]);
    }
  }

  /** How a Local image relates to the Stored and Remote images. A match
      carries the Stored image's name (and, when unchanged, its URL and remote
      size) as they were found. */
  datatype Outcome =
    | NotStored
    | NotHosted(stored: StylesheetImage)
    | Replaced(stored: StylesheetImage, remote: StylesheetImage, name: Option<string>)
    | Unchanged(stored: StylesheetImage, remote: StylesheetImage, name: Option<string>, url: Option<string>,
                size: Option<nat>)

  /** The `find` arguments that look a Stored image up for a Local one. */
  function StoredQuery(local: StylesheetImage): seq<Attribute> {
    [FilenameIs(local.filename)]
  }

  /** The `find` arguments that look the Remote image of a Stored one up. */
  function RemoteQuery(stored: Entry): seq<Attribute> {
    [RedditNameIs(stored.redditName), UrlIs(stored.url), RemoteFileSizeIs(stored.remoteFileSize)]
  }

  /** Every image of `s` is of kind `k`. Lists of different kinds hence share
      no image. */
  predicate AllOfKind(s: seq<StylesheetImage>, k: Kind) {
    forall x :: x in s ==> x.kind == k
  }

  /** The case a pair of lookups selects. */
  function Classify(local: StylesheetImage, st: Option<Entry>, rm: Option<Entry>): Outcome {
    if st.None? then NotStored
    else if rm.None? then NotHosted(st.value.image)
    else if local.md5 != st.value.image.md5 then Replaced(st.value.image, rm.value.image, st.value.redditName)
    else Unchanged(st.value.image, rm.value.image, st.value.redditName, st.value.url, st.value.remoteFileSize)
  }

  /** The case `_match_image` takes for `local`, given the entries of the
      Stored list `se` and of the Remote list `re`. */
  function MatchOutcome(local: StylesheetImage, se: seq<Entry>, re: seq<Entry>): (o: Outcome)
    ensures !o.NotStored? ==> exists e :: e in se && e.image == o.stored
    ensures o.Replaced? || o.Unchanged? ==> exists e :: e in re && e.image == o.remote
  {
    var st := Search(se, StoredQuery(local));
    var rm := if st.None? then None else Search(re, RemoteQuery(st.value));
    Classify(local, st, rm)
  }

  /** The entry is admitted and has the filename of `local`. */
  predicate StoredFor(local: StylesheetImage, e: Entry) {
    e.admitted && e.image.filename == local.filename
  }

  /** The entry is admitted and agrees with the Stored entry `st` on name,
      URL and remote size. */
  predicate HostedFor(st: Entry, e: Entry) {
    e.admitted && e.redditName == st.redditName && e.url == st.url && e.remoteFileSize == st.remoteFileSize
  }

  /** The first lookup: a Local image has no Stored image iff no admitted
      entry has its filename; otherwise its Stored image is the first such. */
  lemma MatchOutcomeStored(local: StylesheetImage, se: seq<Entry>, re: seq<Entry>)
    ensures MatchOutcome(local, se, re).NotStored? <==> forall i :: 0 <= i < |se| ==> !StoredFor(local, se[i])
    ensures !MatchOutcome(local, se, re).NotStored? ==>
      exists i :: 0 <= i < |se| && se[i].image == MatchOutcome(local, se, re).stored && StoredFor(local, se[i]) &&
        forall j :: 0 <= j < i ==> !StoredFor(local, se[j])
  {
    var q := StoredQuery(local);
    SearchIsFirst(se, q);
    forall e: Entry ensures EntryMatches(e, q) <==> StoredFor(local, e) {
      assert EntryHas(e, q[0]) <==> e.image.filename == local.filename;
    }
  }

  /** The second lookup and the hashes: given the Stored entry `se[i]` that
      the first lookup finds, the Local image is not hosted iff no admitted
      Remote entry agrees with it; otherwise it takes the Stored name, the
      Remote image agrees with the Stored entry, and the match is unchanged
      exactly when the hashes agree, in which case the Stored URL and size
      come with it. */
  lemma MatchOutcomeRemote(local: StylesheetImage, se: seq<Entry>, re: seq<Entry>, i: nat)
    requires i < |se| && StoredFor(local, se[i]) && forall j :: 0 <= j < i ==> !StoredFor(local, se[j])
    ensures MatchOutcome(local, se, re).NotHosted? <==> forall k :: 0 <= k < |re| ==> !HostedFor(se[i], re[k])
    ensures MatchOutcome(local, se, re).Replaced? || MatchOutcome(local, se, re).Unchanged? ==>
      MatchOutcome(local, se, re).name == se[i].redditName &&
      (MatchOutcome(local, se, re).Unchanged? <==> local.md5 == se[i].image.md5) &&
      (exists k :: 0 <= k < |re| && re[k].image == MatchOutcome(local, se, re).remote && HostedFor(se[i], re[k]))
    ensures MatchOutcome(local, se, re).Unchanged? ==>
      MatchOutcome(local, se, re).url == se[i].url && MatchOutcome(local, se, re).size == se[i].remoteFileSize
  {
    var q := StoredQuery(local);
    SearchIsFirst(se, q);
    forall e: Entry ensures EntryMatches(e, q) <==> StoredFor(local, e) {
      assert EntryHas(e, q[0]) <==> e.image.filename == local.filename;
    }
    var st := Search(se, q);
    var i' :| 0 <= i' < |se| && se[i'] == st.value && forall j :: 0 <= j < i' ==> !EntryMatches(se[j], q);
    assert EntryMatches(se[i], q) && StoredFor(local, se[i']);
    assert i' == i;
    var rq := RemoteQuery(st.value);
    SearchIsFirst(re, rq);
    forall e: Entry ensures EntryMatches(e, rq) <==> HostedFor(st.value, e) {
      assert EntryHas(e, rq[0]) && EntryHas(e, rq[1]) && EntryHas(e, rq[2]) <==>
        e.redditName == st.value.redditName && e.url == st.value.url && e.remoteFileSize == st.value.remoteFileSize;
    }
    var rm := Search(re, rq);
    if rm.Some? {
      var k :| 0 <= k < |re| && re[k] == rm.value && forall j :: 0 <= j < k ==> !EntryMatches(re[j], rq);
      assert HostedFor(se[i], re[k]);
    }
  }

  /** The four attributes matching may change on a Local image. */
  datatype LocalState = LocalState(isNew: bool, url: Option<string>, redditName: Option<string>,
                                   remoteFileSize: Option<nat>)

  function StateOf(image: StylesheetImage): LocalState
    reads image`isNew, image`url, image`redditName, image`remoteFileSize
  {
    LocalState(image.isNew, image.url, image.redditName, image.remoteFileSize)
  }

  /** The states of `images`, in order. */
  function States(images: seq<StylesheetImage>): (r: seq<LocalState>)
    reads images`isNew, images`url, images`redditName, images`remoteFileSize
    ensures |r| == |images| && forall k :: 0 <= k < |images| ==> r[k] == StateOf(images[k])
    decreases |images|
  {
    if images == [] then [] else [StateOf(images[0])] + States(images[1..])
  }

  /** The Local image after its match: marked new (URL forgotten) unless the
      hashes agree, in which case it takes the Stored URL and remote size; it
      takes the Stored name whenever the Remote image exists. */
  function AfterMatch(o: Outcome, before: LocalState): (after: LocalState)
  {
    match o
    case NotStored => before.(isNew := true, url := None)
    case NotHosted(_) => before.(isNew := true, url := None)
    case Replaced(_, _, name) => before.(isNew := true, url := None, redditName := name)
    case Unchanged(_, _, name, url, size) => before.(url := url, remoteFileSize := size, redditName := name)
  }

  /** Matching the same image twice ends where matching it once does. */
  lemma AfterMatchIdempotent(o: Outcome, before: LocalState)
    ensures AfterMatch(o, AfterMatch(o, before)) == AfterMatch(o, before)
  {
  }

  /** A matched image is new exactly when it was new already or its match is
      not `Unchanged`; it is named by the match exactly when a Remote image
      was found. */
  lemma AfterMatchFlags(o: Outcome, before: LocalState)
    ensures AfterMatch(o, before).isNew <==> before.isNew || !o.Unchanged?
    ensures AfterMatch(o, before).url.None? <==> !o.Unchanged? || o.url.None?
    ensures o.Replaced? || o.Unchanged? ==> AfterMatch(o, before).redditName == o.name
    ensures o.NotStored? || o.NotHosted? ==> AfterMatch(o, before).redditName == before.redditName
    ensures AfterMatch(o, before).remoteFileSize == if o.Unchanged? then o.size else before.remoteFileSize
  {
  }

  /** The name recorded for a matched image, with its usage count. */
  function Record(used: map<Option<string>, nat>, o: Outcome, usage: nat): map<Option<string>, nat>
  {
    if o.Replaced? || o.Unchanged? then used[o.name := usage] else used
  }

  /** The outcomes of matching `images` in turn against the entries `se` and `re`. */
  function Outcomes(images: seq<StylesheetImage>, se: seq<Entry>, re: seq<Entry>): (r: seq<Outcome>)
    ensures |r| == |images|
    decreases |images|
  {
    if images == [] then []
    else Outcomes(images[..|images| - 1], se, re) + [MatchOutcome(images[|images| - 1], se, re)]
  }

  /** The `k`-th outcome is that of the `k`-th image. */
  lemma {:induction false} OutcomeAt(images: seq<StylesheetImage>, se: seq<Entry>, re: seq<Entry>, k: nat)
    requires k < |images|
    ensures Outcomes(images, se, re)[k] == MatchOutcome(images[k], se, re)
    decreases |images|
  {
    if k < |images| - 1 {
      OutcomeAt(images[..|images| - 1], se, re, k);
    }
  }

  /** The name records of matching the first `n` of `images` in order, with
      outcomes `outs`. */
  function RecordAll(used: map<Option<string>, nat>, images: seq<StylesheetImage>, outs: seq<Outcome>, n: nat)
    : map<Option<string>, nat>
    requires n <= |outs| && n <= |images|
  {
    if n == 0 then used
    else Record(RecordAll(used, images, outs, n - 1), outs[n - 1], images[n - 1].usageCount.GetOr(0))
  }

  /** The outcome keeps the Remote image `r` (marks it used). */
  predicate Keeps(o: Outcome, r: StylesheetImage) {
    o.Unchanged? && o.remote == r
  }

  /** The outcome replaces the Remote image `r`. */
  predicate Replaces(o: Outcome, r: StylesheetImage) {
    o.Replaced? && o.remote == r
  }

  /** One of the first `n` outcomes keeps the Remote image `r`. */
  predicate KeptBy(outs: seq<Outcome>, n: nat, r: StylesheetImage) {
    exists k :: 0 <= k < n && k < |outs| && Keeps(outs[k], r)
  }

  /** One of the first `n` outcomes replaces the Remote image `r`. */
  predicate ReplacedBy(outs: seq<Outcome>, n: nat, r: StylesheetImage) {
    exists k :: 0 <= k < n && k < |outs| && Replaces(outs[k], r)
  }

  /** One more outcome keeps or replaces what it does and what the earlier
      ones did. */
  lemma MarkedByNext(outs: seq<Outcome>, i: nat, r: StylesheetImage)
    requires i < |outs|
    ensures KeptBy(outs, i + 1, r) <==> KeptBy(outs, i, r) || Keeps(outs[i], r)
    ensures ReplacedBy(outs, i + 1, r) <==> ReplacedBy(outs, i, r) || Replaces(outs[i], r)
  {
  }

  /** The order `match_images` matches the Local images in: the images the
      list admits, by filename, in the list's direction. */
  function MatchOrder(local: StylesheetImageList): (r: seq<StylesheetImage>)
    reads local, local.data`isNew, local.data`redditName, local.data`isUsed, local.data`isReplaced
    ensures forall k :: 0 <= k < |r| ==> r[k] in local.data
  {
    ViewContents(local.data, local.condition, Some(FilenameKey), local.sortReverse);
    View(local.data, local.condition, Some(FilenameKey), local.sortReverse)
  }

  /** The usage counts of Local images. */
  function Usages(images: seq<StylesheetImage>): (r: seq<nat>)
    requires forall i :: 0 <= i < |images| ==> images[i].usageCount.Some?
    ensures |r| == |images|
    ensures forall i :: 0 <= i < |images| ==> r[i] == images[i].usageCount.value
  {
    seq(|images|, i requires 0 <= i < |images| && images[i].usageCount.Some? => images[i].usageCount.value)
  }

  /** The name `x` holds once the first `|names|` images of `images` were given
      `names` in order: the name it was given last, or `before` if none. */
  function NameAfter(images: seq<StylesheetImage>, names: seq<string>, x: StylesheetImage,
                     before: Option<string>): Option<string>
    requires |names| <= |images|
    decreases |names|
  {
    if names == [] then before
    else if images[|names| - 1] == x then Some(names[|names| - 1])
    else NameAfter(images, names[..|names| - 1], x, before)
  }

  /** Giving the next image a name. */
  lemma NameAfterNext(images: seq<StylesheetImage>, names: seq<string>, name: string, x: StylesheetImage,
                      before: Option<string>)
    requires |names| < |images|
    ensures NameAfter(images, names + [name], x, before) ==
      if images[|names|] == x then Some(name) else NameAfter(images, names, x, before)
  {
    assert (names + [name])[..|names|] == names;
  }

  /** An image given a name keeps the one it was given last. */
  lemma {:induction false} NameAfterLast(images: seq<StylesheetImage>, names: seq<string>, x: StylesheetImage,
                                         before: Option<string>, i: nat)
    requires |names| <= |images| && i < |names| && images[i] == x
    requires forall k :: i < k < |names| ==> images[k] != x
    ensures NameAfter(images, names, x, before) == Some(names[i])
    decreases |names|
  {
    if i < |names| - 1 {
      NameAfterLast(images, names[..|names| - 1], x, before, i);
    }
  }

  /** `local.by_filename()` as it is iterated. */
  method FilenameOrder(local: StylesheetImageList) returns (items: seq<StylesheetImage>)
    requires Distinct(local.data)
    ensures items == old(MatchOrder(local)) && Distinct(items)
  {
    var byFilename := local.ByFilename();
    items := byFilename.Items();
    DistinctView(local.data, local.condition, Some(FilenameKey), local.sortReverse);
  }

  /** `local.unnamed.by_usage_count.desc` as it is iterated. */
  method UnnamedByUsage(local: StylesheetImageList) returns (items: seq<StylesheetImage>)
    ensures items == View(local.data, Some(UnnamedImages), Some(UsageCountKey), true)
  {
    var unnamed := local.Unnamed();
    var byUsage := unnamed.ByUsageCount();
    var desc := byUsage.Desc();
    items := desc.Items();
  }

  /** `find` on a list, with the entry of the image found. */
  method FindEntry(l: StylesheetImageList, q: seq<Attribute>) returns (e: Option<Entry>)
    ensures e == Search(ListEntries(l), q)
    ensures e.Some? ==> e.value.image in l.data
  {
    var found := l.Find(q);
    FoundEntry(l.data, l.condition, q);
    FilterMembers(l.data, l.condition);
    e := if found.None? then None else Some(EntryOf(l.condition, found.value));
  }

  /** The two `find` calls of `_match_image`: the Stored image by filename,
      then the Remote image by the Stored name, URL and remote size. Each
      result comes with its entry. */
  method LookUp(local: StylesheetImage, data: StylesheetData) returns (st: Option<Entry>, rm: Option<Entry>)
    ensures st == Search(ListEntries(data.storedImages), StoredQuery(local))
    ensures rm == if st.None? then None else Search(ListEntries(data.remoteImages), RemoteQuery(st.value))
    ensures rm.Some? ==> rm.value.image in data.remoteImages.data
  {
    st := FindEntry(data.storedImages, StoredQuery(local));
    rm := None;
    if st.Some? {
      rm := FindEntry(data.remoteImages, RemoteQuery(st.value));
      assert st == Search(ListEntries(data.storedImages), StoredQuery(local));
    }
  }

  /** The loop of `assign_reddit_names`: the available names are tried from
      the end (shortest first); the first image still queued takes a name
      unless extra names remain and the name's floor exceeds the image's
      usage. What is left of the queue is returned. */
  method HandOutNames(images: seq<StylesheetImage>, available: seq<(string, nat)>) returns (rest: seq<StylesheetImage>)
    requires forall i :: 0 <= i < |images| ==> images[i].kind == Local && images[i].usageCount.Some?
    modifies images`redditName
    ensures rest == images[|Assigned(Reversed(available), Usages(images), |available| - |images|)|..]
    ensures forall x :: x in images ==>
      x.redditName == NameAfter(images, Assigned(Reversed(available), Usages(images), |available| - |images|),
                                x, old(x.redditName))
  {
    ghost var usages := Usages(images);
    // The images still waiting for a name, popped from the front.
    var queue := images;
    var extra: int := |available| - |queue|;
    ghost var candidates, extra0 := Reversed(available), extra;
    ghost var done: seq<string> := [];
    var j := |available|;
    while j > 0
      invariant 0 <= j <= |available| && |done| <= |images| && queue == images[|done|..]
      invariant Assigned(candidates, usages, extra0) ==
                done + Assigned(candidates[|available| - j..], usages[|done|..], extra)
      invariant forall x :: x in images ==> x.redditName == NameAfter(images, done, x, old(x.redditName))
      decreases j
    {
      if queue == [] {
        break;
      }
      ghost var i, k := |available| - j, |done|;
      AssignedStep(Assigned(candidates, usages, extra0), candidates, usages, extra, i, k, done);
      j := j - 1;
      var (name, floor) := available[j];
      assert |available| - j == i + 1 && candidates[i] == (name, floor);
      assert queue[0] == images[k] && usages[k] == queue[0].usageCount.value;
      if extra != 0 && floor > queue[0].usageCount.value {
        extra := extra - 1;
        continue;
      }
      var image := queue[0];
      queue := queue[1..];
      image.SetRedditName(Some(name));
      forall x | x in images ensures x.redditName == NameAfter(images, done + [name], x, old(x.redditName)) {
        NameAfterNext(images, done, name, x, old(x.redditName));
      }
      done := done + [name];
    }
    assert done + [] == done;
    rest := queue;
  }

  /** An image not among the first `|names|` keeps its name. */
  lemma {:induction false} NameAfterUntouched(images: seq<StylesheetImage>, names: seq<string>,
                                              x: StylesheetImage, before: Option<string>)
    requires |names| <= |images| && x !in images[..|names|]
    ensures NameAfter(images, names, x, before) == before
    decreases |names|
  {
    if names != [] {
      assert images[|names| - 1] in images[..|names|];
      assert images[..|names| - 1] == images[..|names|][..|names| - 1];
      NameAfterUntouched(images, names[..|names| - 1], x, before);
    }
  }

  class StylesheetImageMapper {
    const config: Config
    /** Reddit names kept from the previous update, with the usage count of
        the Local image now holding each. */
    var usedRedditNames: map<Option<string>, nat>
    /** Local images still without a Reddit name, most used first. */
    var unnamedImages: seq<StylesheetImage>

    constructor (c: Config)
      ensures config == c && usedRedditNames == map[] && unnamedImages == []
    {
      config := c;
      usedRedditNames := map[];
      unnamedImages := [];
    }

    /** `_match_image`, against Stored and Remote lists whose entries are `se`
        and `re`; `o` is the case it takes. */
    method MatchImage(local: StylesheetImage, data: StylesheetData, ghost se: seq<Entry>, ghost re: seq<Entry>)
      returns (o: Outcome)
      requires local.kind == Local && local.usageCount.Some?
      requires AllOfKind(data.remoteImages.data, Remote)
      requires se == ListEntries(data.storedImages) && re == ListEntries(data.remoteImages)
      modifies this`usedRedditNames, local`isNew, local`url, local`redditName, local`remoteFileSize
      modifies data.remoteImages.data`isUsed, data.remoteImages.data`isReplaced
      ensures o == MatchOutcome(local, se, re)
      ensures StateOf(local) == AfterMatch(o, old(StateOf(local)))
      ensures usedRedditNames == Record(old(usedRedditNames), o, local.usageCount.value)
      ensures forall r :: r in data.remoteImages.data ==>
        r.isUsed == (old(r.isUsed) || Keeps(o, r)) && r.isReplaced == (old(r.isReplaced) || Replaces(o, r))
    {
      var st, rm := LookUp(local, data);
      o := Classify(local, st, rm);
      Apply(local, o, data.remoteImages.data);
    }

    /** The updates `_match_image` makes once the case is known: a Local image
        without a match is marked new; with a match, the hashes decide whether
        the Remote image is replaced (and the Local one marked new) or kept
        (and its URL and size copied), and the Stored name is taken and
        recorded with the usage count. */
    method Apply(local: StylesheetImage, o: Outcome, remote: seq<StylesheetImage>)
      requires local.kind == Local && local.usageCount.Some?
      requires o.Replaced? || o.Unchanged? ==> o.remote.kind == Remote && o.remote in remote
      modifies this`usedRedditNames, local`isNew, local`url, local`redditName, local`remoteFileSize
      modifies remote`isUsed, remote`isReplaced
      ensures StateOf(local) == AfterMatch(o, old(StateOf(local)))
      ensures usedRedditNames == Record(old(usedRedditNames), o, local.usageCount.value)
      ensures forall r :: r in remote ==>
        r.isUsed == (old(r.isUsed) || Keeps(o, r)) && r.isReplaced == (old(r.isReplaced) || Replaces(o, r))
    {
      if o.NotStored? || o.NotHosted? {
        local.MarkAsNew();
        return;
      }
      var rm, name := o.remote, o.name;
      if o.Replaced? {
        local.MarkAsNew();
        rm.MarkAsReplaced();
      } else {
        local.SetUrl(o.url);
        local.SetRemoteFileSize(o.size);
        rm.MarkAsUsed();
      }
      local.SetRedditName(name);
      usedRedditNames := usedRedditNames[name := local.usageCount.value];
    }

    /** `_prepare_available_reddit_names`: the loop over the names of
        `maxImageCount` down to 1. */
    method PrepareAvailableRedditNames() returns (available: seq<(string, nat)>)
      ensures available == Available(usedRedditNames, config.maxImageCount)
    {
      available := [];
      var floor, update := 0, false;
      var k := config.maxImageCount;
      while k > 0
        invariant available + Named(Listed(usedRedditNames, k, floor, update)) ==
                  Available(usedRedditNames, config.maxImageCount)
        decreases k
      {
        var name := AlphaBase(k);
        if Some(name) in usedRedditNames {
          if update {
            floor := usedRedditNames[Some(name)];
            update := false;
          }
        } else {
          var rest := Named(Listed(usedRedditNames, k - 1, floor, true));
          assert Named(Listed(usedRedditNames, k, floor, update)) == [(name, floor)] + rest by {
            var ps := Listed(usedRedditNames, k, floor, update);
            assert ps == [(k, floor)] + Listed(usedRedditNames, k - 1, floor, true);
            assert ps[1..] == Listed(usedRedditNames, k - 1, floor, true);
          }
          assert available + ([(name, floor)] + rest) == (available + [(name, floor)]) + rest;
          available := available + [(name, floor)];
          update := true;
        }
        k := k - 1;
      }
      assert available + [] == available;
    }

    /** `assign_reddit_names`: without unnamed images nothing happens;
        otherwise the available names are prepared and handed out to the
        queue, which keeps the images left without a name. */
    method AssignRedditNames()
      requires forall i :: 0 <= i < |unnamedImages| ==>
        unnamedImages[i].kind == Local && unnamedImages[i].usageCount.Some?
      modifies this`unnamedImages, unnamedImages`redditName
      ensures unnamedImages ==
        old(unnamedImages)[|Assignment(usedRedditNames, config.maxImageCount, Usages(old(unnamedImages)))|..]
      ensures forall x :: x in old(unnamedImages) ==>
        x.redditName == NameAfter(old(unnamedImages),
                                  Assignment(usedRedditNames, config.maxImageCount, Usages(old(unnamedImages))),
                                  x, old(x.redditName))
    {
      if unnamedImages == [] {
        assert Usages(unnamedImages) == [];
        return;
      }
      var available := PrepareAvailableRedditNames();
      unnamedImages := HandOutNames(unnamedImages, available);
    }

    /** `match_images`: the Local images the list admits are matched in
        filename order (the order is fixed before the first match) against
        the Stored and Remote lists, which matching leaves as they were; then
        the ones still unnamed are queued, most used first. */
    method MatchImages(data: StylesheetData)
      requires AllOfKind(data.localImages.data, Local) && Distinct(data.localImages.data)
      requires forall x :: x in data.localImages.data ==> x.usageCount.Some?
      requires AllOfKind(data.storedImages.data, Stored)
      requires data.remoteImages.condition.None? && AllOfKind(data.remoteImages.data, Remote)
      modifies this`usedRedditNames, this`unnamedImages
      modifies MatchOrder(data.localImages)`isNew, MatchOrder(data.localImages)`url,
               MatchOrder(data.localImages)`redditName, MatchOrder(data.localImages)`remoteFileSize
      modifies data.remoteImages.data`isUsed, data.remoteImages.data`isReplaced
      ensures forall x :: x in old(MatchOrder(data.localImages)) ==>
        StateOf(x) ==
          AfterMatch(MatchOutcome(x, old(ListEntries(data.storedImages)), old(ListEntries(data.remoteImages))),
                     old(StateOf(x)))
      ensures usedRedditNames ==
        RecordAll(old(usedRedditNames), old(MatchOrder(data.localImages)),
                  Outcomes(old(MatchOrder(data.localImages)), old(ListEntries(data.storedImages)),
                           old(ListEntries(data.remoteImages))), old(|MatchOrder(data.localImages)|))
      ensures forall r :: r in old(data.remoteImages.data) ==>
        var order := old(MatchOrder(data.localImages));
        var outs := Outcomes(order, old(ListEntries(data.storedImages)), old(ListEntries(data.remoteImages)));
        r.isUsed == (old(r.isUsed) || KeptBy(outs, |order|, r)) &&
        r.isReplaced == (old(r.isReplaced) || ReplacedBy(outs, |order|, r))
      ensures unnamedImages ==
        old(unnamedImages) + View(data.localImages.data, Some(UnnamedImages), Some(UsageCountKey), true)
    {
      MatchInOrder(data);
      QueueUnnamed(data.localImages);
    }

    /** The matching part of `match_images`: the admitted Local images, by
        filename, each matched in turn. */
    method MatchInOrder(data: StylesheetData)
      requires AllOfKind(data.localImages.data, Local) && Distinct(data.localImages.data)
      requires forall x :: x in data.localImages.data ==> x.usageCount.Some?
      requires AllOfKind(data.storedImages.data, Stored)
      requires data.remoteImages.condition.None? && AllOfKind(data.remoteImages.data, Remote)
      modifies this`usedRedditNames
      modifies MatchOrder(data.localImages)`isNew, MatchOrder(data.localImages)`url,
               MatchOrder(data.localImages)`redditName, MatchOrder(data.localImages)`remoteFileSize
      modifies data.remoteImages.data`isUsed, data.remoteImages.data`isReplaced
      ensures forall x :: x in old(MatchOrder(data.localImages)) ==>
        StateOf(x) ==
          AfterMatch(MatchOutcome(x, old(ListEntries(data.storedImages)), old(ListEntries(data.remoteImages))),
                     old(StateOf(x)))
      ensures usedRedditNames ==
        RecordAll(old(usedRedditNames), old(MatchOrder(data.localImages)),
                  Outcomes(old(MatchOrder(data.localImages)), old(ListEntries(data.storedImages)),
                           old(ListEntries(data.remoteImages))), old(|MatchOrder(data.localImages)|))
      ensures forall r :: r in old(data.remoteImages.data) ==>
        var order := old(MatchOrder(data.localImages));
        var outs := Outcomes(order, old(ListEntries(data.storedImages)), old(ListEntries(data.remoteImages)));
        r.isUsed == (old(r.isUsed) || KeptBy(outs, |order|, r)) &&
        r.isReplaced == (old(r.isReplaced) || ReplacedBy(outs, |order|, r))
    {
      ghost var se, re := ListEntries(data.storedImages), ListEntries(data.remoteImages);
      var items := FilenameOrder(data.localImages);
      MatchAll(items, data, se, re);
    }

    /** The end of `match_images`: the images of `local` still without a
        Reddit name join the queue, most used first. */
    method QueueUnnamed(local: StylesheetImageList)
      modifies this`unnamedImages
      ensures unnamedImages == old(unnamedImages) + View(local.data, Some(UnnamedImages), Some(UsageCountKey), true)
    {
      var items := UnnamedByUsage(local);
      unnamedImages := unnamedImages + items;
    }

    /** One turn of the loop of `match_images`: `_match_image` on the `i`-th
        image, the earlier ones being matched already and the later ones not
        yet; the Stored and Remote entries stay as they were. */
    method MatchNext(items: seq<StylesheetImage>, i: nat, data: StylesheetData, ghost se: seq<Entry>,
                     ghost re: seq<Entry>, ghost before: seq<LocalState>) returns (o: Outcome)
      requires i < |items| == |before|
      requires forall k :: 0 <= k < |items| ==> items[k].kind == Local && items[k].usageCount.Some?
      requires Distinct(items)
      requires AllOfKind(data.storedImages.data, Stored)
      requires data.remoteImages.condition.None? && AllOfKind(data.remoteImages.data, Remote)
      requires se == ListEntries(data.storedImages) && re == ListEntries(data.remoteImages)
      requires forall k :: 0 <= k < |items| ==>
        StateOf(items[k]) == if k < i then AfterMatch(MatchOutcome(items[k], se, re), before[k]) else before[k]
      modifies this`usedRedditNames, {items[i]}`isNew, {items[i]}`url, {items[i]}`redditName,
               {items[i]}`remoteFileSize
      modifies data.remoteImages.data`isUsed, data.remoteImages.data`isReplaced
      ensures o == Outcomes(items, se, re)[i]
      ensures se == ListEntries(data.storedImages) && re == ListEntries(data.remoteImages)
      ensures forall k :: 0 <= k < |items| ==>
        StateOf(items[k]) == if k <= i then AfterMatch(MatchOutcome(items[k], se, re), before[k]) else before[k]
      ensures usedRedditNames == Record(old(usedRedditNames), o, items[i].usageCount.value)
      ensures forall r :: r in data.remoteImages.data ==>
        r.isUsed == (old(r.isUsed) || Keeps(o, r)) && r.isReplaced == (old(r.isReplaced) || Replaces(o, r))
    {
      assert forall x :: x in data.storedImages.data ==> x != items[i] && x !in data.remoteImages.data;
      assert items[i] !in data.remoteImages.data;
      assert forall k :: 0 <= k < |items| && k != i ==> items[k] != items[i];
      o := MatchImage(items[i], data, se, re);
      OutcomeAt(items, se, re, i);
    }

    /** The loop of `match_images`: `_match_image` on each image in turn,
        against Stored and Remote lists whose entries are `se` and `re`
        throughout. */
    method MatchAll(items: seq<StylesheetImage>, data: StylesheetData, ghost se: seq<Entry>, ghost re: seq<Entry>)
      requires forall k :: 0 <= k < |items| ==> items[k].kind == Local && items[k].usageCount.Some?
      requires Distinct(items)
      requires AllOfKind(data.storedImages.data, Stored)
      requires data.remoteImages.condition.None? && AllOfKind(data.remoteImages.data, Remote)
      requires se == ListEntries(data.storedImages) && re == ListEntries(data.remoteImages)
      modifies this`usedRedditNames, items`isNew, items`url, items`redditName, items`remoteFileSize
      modifies data.remoteImages.data`isUsed, data.remoteImages.data`isReplaced
      ensures forall k :: 0 <= k < |items| ==>
        StateOf(items[k]) == AfterMatch(MatchOutcome(items[k], se, re), old(StateOf(items[k])))
      ensures usedRedditNames == RecordAll(old(usedRedditNames), items, Outcomes(items, se, re), |items|)
      ensures forall r :: r in data.remoteImages.data ==>
        r.isUsed == (old(r.isUsed) || KeptBy(Outcomes(items, se, re), |items|, r)) &&
        r.isReplaced == (old(r.isReplaced) || ReplacedBy(Outcomes(items, se, re), |items|, r))
    {
      var stored, remote := data.storedImages, data.remoteImages;
      ghost var outs, before, rs := Outcomes(items, se, re), States(items), remote.data;
      var i := 0;
      while i < |items|
        invariant 0 <= i <= |items|
        invariant se == ListEntries(stored) && re == ListEntries(remote) && rs == remote.data
        invariant forall k :: 0 <= k < |items| ==>
          StateOf(items[k]) == if k < i then AfterMatch(MatchOutcome(items[k], se, re), before[k]) else before[k]
        invariant usedRedditNames == RecordAll(old(usedRedditNames), items, outs, i)
        invariant forall r :: r in rs ==>
          r.isUsed == (old(r.isUsed) || KeptBy(outs, i, r)) && r.isReplaced == (old(r.isReplaced) || ReplacedBy(outs, i, r))
      {
        var o := MatchNext(items, i, data, se, re, before);
        forall r | r in rs
          ensures r.isUsed == (old(r.isUsed) || KeptBy(outs, i + 1, r)) &&
                  r.isReplaced == (old(r.isReplaced) || ReplacedBy(outs, i + 1, r))
        {
          MarkedByNext(outs, i, r);
        }
        i := i + 1;
      }
    }
  }
}
