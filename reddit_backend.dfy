/** The name bookkeeping of the Reddit upload backend
    (build/backend/RedditBackend.ts): image cache keys mapped to subreddit
    image names, first-fit allocation of new names, pruning of images no
    longer used, and the choice of images to upload. */
module RedditBackendNames {
  import opened Base62Numerals

  const ByteOrderMark: char := '\U{FEFF}'

  /** JavaScript truthiness of `data[key]`: the key is present and its name
      is not the empty string. */
  predicate Truthy(data: map<string, string>, key: string) {
    key in data && data[key] != ""
  }

  /** The stylesheet as uploaded: a leading byte order mark is dropped, since
      Reddit refuses it; nothing else changes. */
  function StripBom(css: string): (r: string)
    ensures |css| > 0 && css[0] == ByteOrderMark ==> css == [ByteOrderMark] + r
    ensures !(|css| > 0 && css[0] == ByteOrderMark) ==> r == css
  {
    if |css| > 0 && css[0] == ByteOrderMark then css[1..] else css
  }

  /** Only one mark is dropped: a second one stays in place. */
  lemma StripBomOnce(s: string)
    ensures StripBom([ByteOrderMark] + s) == s
    ensures StripBom([ByteOrderMark, ByteOrderMark] + s) == [ByteOrderMark] + s
  {
    assert ([ByteOrderMark] + s)[1..] == s;
    assert ([ByteOrderMark, ByteOrderMark] + s)[1..] == [ByteOrderMark] + s;
  }

  /** The keys of the current images that the previous build did not know
      (no truthy name in its data), in the order of the images. */
  function UploadTargets(keys: seq<string>, oldData: map<string, string>): (r: seq<string>)
    ensures |r| <= |keys|
    ensures forall k :: k in r <==> k in keys && !Truthy(oldData, k)
    decreases |keys|
  {
    if keys == [] then []
    else if Truthy(oldData, keys[0]) then UploadTargets(keys[1..], oldData)
    else [keys[0]] + UploadTargets(keys[1..], oldData)
  }

  /** The search of `mapImageName`: `base62(i)` for `i` = 0, 1, ... until
      a numeral no key is mapped to; `i` is the number it stops at. */
  method NextAvailableName(usedNames: set<string>) returns (name: string, i: nat)
    ensures name == Base62(i) && name !in usedNames
    ensures forall j: nat :: j < i ==> Base62(j) in usedNames
  {
    i := 0;
    name := Base62(i);
    while name in usedNames
      invariant name == Base62(i)
      invariant NumeralsBelow(i) <= usedNames
      decreases |usedNames - NumeralsBelow(i)|
    {
      ghost var unused := usedNames - NumeralsBelow(i);
      NumeralsBelowExclude(i, i);
      assert name in unused;
      assert NumeralsBelow(i + 1) == NumeralsBelow(i) + {name};
      assert usedNames - NumeralsBelow(i + 1) == unused - {name};
      i := i + 1;
      name := Base62(i);
    }
    forall j: nat | j < i
      ensures Base62(j) in usedNames
    {
      NumeralsBelowInclude(j, i);
    }
  }

  /** The closure state of `RedditBackend`: the image data read from the
      wiki page at start-up, and the working copy written back at the end. */
  class RedditBackend {
    /** Key to name map of the previous build ({} when the page is missing
        or unreadable). */
    const oldImageData: map<string, string>
    /** The working copy, a deep copy of `oldImageData` at start-up. */
    var newImageData: map<string, string>

    constructor (stored: map<string, string>)
      ensures oldImageData == stored && newImageData == stored
    {
      oldImageData := stored;
      newImageData := stored;
    }

    /** `mapImageName`: a key with a (truthy) name keeps it; any other key
        gets `base62(i)` for the least `i` whose numeral no key is mapped to,
        stored under the key. */
    method MapImageName(key: string) returns (name: string)
      modifies this
      ensures Truthy(old(newImageData), key) ==>
        name == old(newImageData)[key] && newImageData == old(newImageData)
      ensures !Truthy(old(newImageData), key) ==> newImageData == old(newImageData)[key := name]
      ensures !Truthy(old(newImageData), key) ==> name !in old(newImageData).Values
      ensures !Truthy(old(newImageData), key) ==>
        exists i: nat :: name == Base62(i) && forall j: nat :: j < i ==> Base62(j) in old(newImageData).Values
      ensures Truthy(newImageData, key) && newImageData[key] == name
    {
      if key in newImageData && newImageData[key] != "" {
        return newImageData[key];
      }
      var i;
      name, i := NextAvailableName(newImageData.Values);
      newImageData := newImageData[key := name];
    }

    /** The pruning step of `uploadBuild`: every key of the previous data
        that no current image has is deleted from the working copy, and its
        entry is returned for deletion from the subreddit. Keys mapped during
        this build and current keys stay. */
    method PruneOldImages(keys: seq<string>) returns (deleted: map<string, string>)
      modifies this
      ensures forall k :: k in deleted <==> k in oldImageData && k !in keys
      ensures forall k :: k in deleted ==> deleted[k] == oldImageData[k]
      ensures forall k :: k in newImageData <==> k in old(newImageData) && k !in deleted
      ensures forall k :: k in newImageData ==> newImageData[k] == old(newImageData)[k]
    {
      deleted := map[];
      var pending := oldImageData.Keys;
      while pending != {}
        invariant pending <= oldImageData.Keys
        invariant forall k :: k in deleted <==> k in oldImageData && k !in pending && k !in keys
        invariant forall k :: k in deleted ==> deleted[k] == oldImageData[k]
        invariant forall k :: k in newImageData <==> k in old(newImageData) && k !in deleted
        invariant forall k :: k in newImageData ==> newImageData[k] == old(newImageData)[k]
        decreases |pending|
      {
        var k :| k in pending;
        if k !in keys {
          newImageData := newImageData - {k};
          deleted := deleted[k := oldImageData[k]];
        }
        pending := pending - {k};
      }
    }

    /** The name bookkeeping of `uploadBuild`: the stylesheet loses its byte
        order mark, old images are pruned, and every image the previous build
        did not know is given its name, in image order; each returned
        (key, name) pair is what is uploaded, and the working copy maps each
        such key to its name when the build is written back. */
    method UploadBuild(css: string, keys: seq<string>)
      returns (styles: string, deleted: map<string, string>, uploads: seq<(string, string)>)
      modifies this
      ensures styles == StripBom(css)
      ensures forall k :: k in deleted <==> k in oldImageData && k !in keys
      ensures |uploads| == |UploadTargets(keys, oldImageData)|
      ensures forall j :: 0 <= j < |uploads| ==>
        uploads[j].0 == UploadTargets(keys, oldImageData)[j] &&
        Truthy(newImageData, uploads[j].0) && newImageData[uploads[j].0] == uploads[j].1
    {
      styles := StripBom(css);
      deleted := PruneOldImages(keys);
      var targets := UploadTargets(keys, oldImageData);
      uploads := [];
      var i := 0;
      while i < |targets|
        invariant 0 <= i <= |targets| && |uploads| == i
        invariant forall j :: 0 <= j < i ==>
          uploads[j].0 == targets[j] && Truthy(newImageData, targets[j]) && newImageData[targets[j]] == uploads[j].1
      {
        var name := MapImageName(targets[i]);
        uploads := uploads + [(targets[i], name)];
        i := i + 1;
      }
    }
  }
}
