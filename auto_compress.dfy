/** The JPEG quality search of the TypeScript build (build/util/autoCompress.ts).
    The image library is abstract: `jpeg(data, q)` is the data re-encoded as a
    JPEG of quality `q` and `byteLength` the size of some data. */
module AutoCompression {
  import opened Wrappers

  /** The error thrown when even the last quality tried is too large. */
  datatype CompressError = CannotCompress(size: nat, quality: int, thresholdBytes: int)

  /** Size of the image encoded at quality `q`. */
  function SizeAt<D>(imageData: D, byteLength: D -> nat, jpeg: (D, int) -> D, q: int): nat {
    byteLength(jpeg(imageData, q))
  }

  /** Quality `q` gives a file within the threshold. */
  predicate Fits<D>(imageData: D, thresholdBytes: int, byteLength: D -> nat, jpeg: (D, int) -> D, q: int) {
    SizeAt(imageData, byteLength, jpeg, q) <= thresholdBytes
  }

  /** `autoCompress`: data within the threshold is returned unchanged;
      otherwise qualities 1 to 100 are bisected and the result is the
      encoding at a quality that fits while the next higher one does not
      (or is 100), or the error reporting quality 1 and its size, which is
      only thrown when quality 1 itself does not fit. */
  method AutoCompress<D>(imageData: D, thresholdBytes: int, byteLength: D -> nat, jpeg: (D, int) -> D)
    returns (r: Result<D, CompressError>)
    ensures byteLength(imageData) <= thresholdBytes ==> r == Ok(imageData)
    ensures byteLength(imageData) > thresholdBytes && r.Ok? ==>
      exists q :: 1 <= q <= 100 && r.value == jpeg(imageData, q) &&
        Fits(imageData, thresholdBytes, byteLength, jpeg, q) &&
        (q == 100 || !Fits(imageData, thresholdBytes, byteLength, jpeg, q + 1))
    ensures r.Err? ==> byteLength(imageData) > thresholdBytes && !Fits(imageData, thresholdBytes, byteLength, jpeg, 1)
    ensures r.Err? ==> r.error == CannotCompress(SizeAt(imageData, byteLength, jpeg, 1), 1, thresholdBytes)
  {
    if byteLength(imageData) <= thresholdBytes {
      return Ok(imageData);
    }
    var min, max := 1, 100;
    // `mid` starts out undefined, a value no quality compares equal to.
    var mid: Option<int> := None;
    var newImageData := imageData;
    var newImageSize := byteLength(imageData);
    while true
      invariant 1 <= min <= 100 && min - 1 <= max <= 100
      invariant min == 1 || Fits(imageData, thresholdBytes, byteLength, jpeg, min)
      invariant max == 100 || !Fits(imageData, thresholdBytes, byteLength, jpeg, max + 1)
      invariant mid.Some? ==>
        1 <= mid.value <= 100 && newImageData == jpeg(imageData, mid.value) &&
        newImageSize == SizeAt(imageData, byteLength, jpeg, mid.value)
      invariant mid.Some? && newImageSize <= thresholdBytes ==> mid.value == min
      invariant mid.Some? && newImageSize > thresholdBytes ==> mid.value == max + 1
      decreases max - min + 1, if mid == Some(min) then 0 else 1
    {
      var newMid := (max - min + 1) / 2 + min;
      if Some(newMid) == mid {
        break;
      }
      mid := Some(newMid);
      newImageData := jpeg(imageData, newMid);
      newImageSize := byteLength(newImageData);
      if newImageSize <= thresholdBytes {
        min := newMid;
      } else if newImageSize > thresholdBytes {
        max := newMid - 1;
      }
    }
    if newImageSize > thresholdBytes {
      return Err(CannotCompress(newImageSize, mid.value, thresholdBytes));
    }
    r := Ok(newImageData);
  }

  /** Encodings grow with the quality: each step up gives a file at least as
      large. */
  predicate SizeGrowsWithQuality<D>(imageData: D, byteLength: D -> nat, jpeg: (D, int) -> D) {
    forall q :: 1 <= q < 100 ==> SizeAt(imageData, byteLength, jpeg, q) <= SizeAt(imageData, byteLength, jpeg, q + 1)
  }

  /** Step by step growth gives growth between any two qualities. */
  lemma {:induction false} SizeMonotone<D>(imageData: D, byteLength: D -> nat, jpeg: (D, int) -> D, p: int, q: int)
    requires SizeGrowsWithQuality(imageData, byteLength, jpeg)
    requires 1 <= p <= q <= 100
    ensures SizeAt(imageData, byteLength, jpeg, p) <= SizeAt(imageData, byteLength, jpeg, q)
    decreases q - p
  {
    if p < q {
      SizeMonotone(imageData, byteLength, jpeg, p + 1, q);
    }
  }

  /** When encodings grow with the quality, the quality the search ends on is
      the highest that fits: exactly the qualities up to it fit. */
  lemma HighestFittingQuality<D>(imageData: D, thresholdBytes: int, byteLength: D -> nat, jpeg: (D, int) -> D, q: int)
    requires SizeGrowsWithQuality(imageData, byteLength, jpeg)
    requires 1 <= q <= 100 && Fits(imageData, thresholdBytes, byteLength, jpeg, q)
    requires q == 100 || !Fits(imageData, thresholdBytes, byteLength, jpeg, q + 1)
    ensures forall p :: 1 <= p <= 100 ==> (Fits(imageData, thresholdBytes, byteLength, jpeg, p) <==> p <= q)
  {
    forall p | 1 <= p <= 100
      ensures Fits(imageData, thresholdBytes, byteLength, jpeg, p) <==> p <= q
    {
      if p <= q {
        SizeMonotone(imageData, byteLength, jpeg, p, q);
      } else {
        SizeMonotone(imageData, byteLength, jpeg, q + 1, p);
      }
    }
  }

  /** When encodings grow with the quality, the error is only reported when
      no quality at all fits. */
  lemma NoQualityFits<D>(imageData: D, thresholdBytes: int, byteLength: D -> nat, jpeg: (D, int) -> D)
    requires SizeGrowsWithQuality(imageData, byteLength, jpeg)
    requires !Fits(imageData, thresholdBytes, byteLength, jpeg, 1)
    ensures forall p :: 1 <= p <= 100 ==> !Fits(imageData, thresholdBytes, byteLength, jpeg, p)
  {
    forall p | 1 <= p <= 100
      ensures !Fits(imageData, thresholdBytes, byteLength, jpeg, p)
    {
      SizeMonotone(imageData, byteLength, jpeg, 1, p);
    }
  }
}
