/**
 * Choosing the watermark's font size: an integer binary search over
 * [minSize, maxSize] for the largest size at which the measured text width
 * stays below a fifth of the image width. Font loading and glyph measurement
 * are abstracted as one function `width` from size to measured pixel width;
 * it already includes the fallback to the default font.
 */
module FontFit {

  /** The defaults of the search as the watermark renderer uses them. */
  const DefaultMinSize: int := 10
  const DefaultMaxSize: int := 200

  /** The target ratio 0.2, written as the fraction RatioNum / RatioDen. */
  const RatioNum: nat := 1
  const RatioDen: nat := 5

  /**
   * `textWidth / imageWidth < RatioNum / RatioDen`, cross-multiplied; for a
   * positive image width the two agree.
   */
  predicate Fits(textWidth: nat, imageWidth: nat)
  {
    textWidth * RatioDen < RatioNum * imageWidth
  }

  /** The measured width never shrinks as the size grows, on sizes lo..hi. */
  ghost predicate Monotone(width: int -> nat, lo: int, hi: int)
  {
    forall a, b :: lo <= a <= b <= hi ==> width(a) <= width(b)
  }

  /**
   * The reference answer, found by scanning down from `hi`: the largest size
   * in lo..hi whose width fits, or `lo` when no size fits.
   */
  function LargestFitting(width: int -> nat, imageWidth: nat, lo: int, hi: int): (r: int)
    ensures lo <= hi ==> lo <= r <= hi
    ensures lo > hi ==> r == lo
    ensures r == lo || Fits(width(r), imageWidth)
    ensures forall s :: r < s <= hi ==> !Fits(width(s), imageWidth)
    decreases hi - lo
  {
    if hi < lo then lo
    else if Fits(width(hi), imageWidth) then hi
    else LargestFitting(width, imageWidth, lo, hi - 1)
  }

  /** The properties in LargestFitting's contract single out its result. */
  lemma LargestFittingUnique(width: int -> nat, imageWidth: nat, lo: int, hi: int, c: int)
    requires lo <= hi ==> lo <= c <= hi
    requires lo > hi ==> c == lo
    requires c == lo || Fits(width(c), imageWidth)
    requires forall s :: c < s <= hi ==> !Fits(width(s), imageWidth)
    ensures c == LargestFitting(width, imageWidth, lo, hi)
  {
  }

  /**
   * A wider image never lowers the reference answer: a size that fits the
   * narrow image fits the wide one, so nothing above the wide answer fits
   * either. (This follows from LargestFitting's contract.)
   */
  lemma LargestFittingGrowsWithImage(width: int -> nat, narrow: nat, wide: nat, lo: int, hi: int)
    requires narrow <= wide
    ensures LargestFitting(width, narrow, lo, hi) <= LargestFitting(width, wide, lo, hi)
  {
  }

  /** Text that measures no wider at every size never gets a smaller answer. */
  lemma LargestFittingGrowsAsTextShrinks(longer: int -> nat, shorter: int -> nat, imageWidth: nat, lo: int, hi: int)
    requires forall s :: lo <= s <= hi ==> shorter(s) <= longer(s)
    ensures LargestFitting(longer, imageWidth, lo, hi) <= LargestFitting(shorter, imageWidth, lo, hi)
  {
  }

  /**
   * What the search loop returns when it starts from the state
   * (left, right, best): the probes it makes, step by step.
   */
  function SearchResult(width: int -> nat, imageWidth: nat, left: int, right: int, best: int): int
    decreases right - left
  {
    if left > right then best
    else
      var mid := (left + right) / 2;
      if Fits(width(mid), imageWidth) then SearchResult(width, imageWidth, mid + 1, right, mid)
      else SearchResult(width, imageWidth, left, mid - 1, best)
  }

  /**
   * From a state whose best lies at or below `left`, the search returns
   * that best or an accepted size in left..right.
   */
  lemma {:induction false} SearchResultBounds(width: int -> nat, imageWidth: nat, left: int, right: int, best: int)
    requires best <= left
    ensures var r := SearchResult(width, imageWidth, left, right, best);
      r == best || left <= r <= right
    decreases right - left
  {
    if left <= right {
      var mid := (left + right) / 2;
      if Fits(width(mid), imageWidth) {
        SearchResultBounds(width, imageWidth, mid + 1, right, mid);
      } else {
        SearchResultBounds(width, imageWidth, left, mid - 1, best);
      }
    }
  }

  /**
   * If every size in left..right that fits under the first measurement also
   * fits under the second, the second search never ends lower — whatever the
   * measurements, monotone or not.
   */
  lemma {:induction false} SearchResultGrows(weak: int -> nat, weakWidth: nat, strong: int -> nat, strongWidth: nat,
                                              left: int, right: int, best: int)
    requires best <= left
    requires forall s :: left <= s <= right && Fits(weak(s), weakWidth) ==> Fits(strong(s), strongWidth)
    ensures SearchResult(weak, weakWidth, left, right, best) <= SearchResult(strong, strongWidth, left, right, best)
    decreases right - left
  {
    if left <= right {
      var mid := (left + right) / 2;
      var weakFits, strongFits := Fits(weak(mid), weakWidth), Fits(strong(mid), strongWidth);
      if weakFits {
        SearchResultGrows(weak, weakWidth, strong, strongWidth, mid + 1, right, mid);
      } else if !strongFits {
        SearchResultGrows(weak, weakWidth, strong, strongWidth, left, mid - 1, best);
      } else {
        // the strong search accepts `mid` and goes on above it; the weak one stays below it
        SearchResultBounds(weak, weakWidth, left, mid - 1, best);
        SearchResultBounds(strong, strongWidth, mid + 1, right, mid);
      }
    }
  }

  /** A wider image never lowers the size the search chooses, for any measurement. */
  lemma SearchGrowsWithImage(width: int -> nat, narrow: nat, wide: nat, minSize: int, maxSize: int)
    requires narrow <= wide
    ensures SearchResult(width, narrow, minSize, maxSize, minSize) <= SearchResult(width, wide, minSize, maxSize, minSize)
  {
    SearchResultGrows(width, narrow, width, wide, minSize, maxSize, minSize);
  }

  /** Text that measures no wider at every size never gets a smaller size, for any measurement. */
  lemma SearchGrowsAsTextShrinks(longer: int -> nat, shorter: int -> nat, imageWidth: nat, minSize: int, maxSize: int)
    requires forall s :: minSize <= s <= maxSize ==> shorter(s) <= longer(s)
    ensures SearchResult(longer, imageWidth, minSize, maxSize, minSize) <= SearchResult(shorter, imageWidth, minSize, maxSize, minSize)
  {
    SearchResultGrows(longer, imageWidth, shorter, imageWidth, minSize, maxSize, minSize);
  }

  /**
   * The search itself. For any measurement the answer is in range, is either
   * `minSize` or a size that was measured to fit, and is what the probes of
   * `SearchResult` give (so it grows with the image width and shrinks with
   * the text, by the lemmas above); for a measurement that grows with the
   * size it is the reference answer.
   */
  method FitFontSize(width: int -> nat, imageWidth: nat, minSize: int, maxSize: int) returns (best: int)
    requires minSize <= maxSize ==> imageWidth > 0
    ensures minSize <= maxSize ==> minSize <= best <= maxSize
    ensures minSize > maxSize ==> best == minSize
    ensures best == minSize || Fits(width(best), imageWidth)
    ensures best == SearchResult(width, imageWidth, minSize, maxSize, minSize)
    ensures Monotone(width, minSize, maxSize) ==> best == LargestFitting(width, imageWidth, minSize, maxSize)
  {
    var left, right := minSize, maxSize;
    best := minSize;
    while left <= right
      invariant minSize <= left && right <= maxSize
      invariant minSize <= maxSize ==> left <= right + 1
      invariant minSize > maxSize ==> left == minSize && best == minSize
      invariant minSize <= best && (minSize <= maxSize ==> best <= maxSize)
      invariant (left == minSize && best == minSize) || (best == left - 1 && Fits(width(best), imageWidth))
      invariant Monotone(width, minSize, maxSize) ==>
        forall s :: right < s <= maxSize ==> !Fits(width(s), imageWidth)
      invariant SearchResult(width, imageWidth, left, right, best) == SearchResult(width, imageWidth, minSize, maxSize, minSize)
      decreases right - left
    {
      // Python's `//` floors; for the positive divisor 2 so does Dafny's `/`
      var mid := (left + right) / 2;
      if Fits(width(mid), imageWidth) {
        best := mid;
        left := mid + 1;
      } else {
        right := mid - 1;
      }
    }
    if Monotone(width, minSize, maxSize) {
      LargestFittingUnique(width, imageWidth, minSize, maxSize, best);
    }
  }

  /**
   * The call the renderer makes, with the default bounds: the size is always
   * within 10..200, is what the probes give (so it never drops for a wider
   * image), and for a measurement that grows with the size it is the largest
   * size that fits.
   */
  method FitWatermarkFont(width: int -> nat, imageWidth: nat) returns (size: int)
    requires imageWidth > 0
    ensures DefaultMinSize <= size <= DefaultMaxSize
    ensures size == DefaultMinSize || Fits(width(size), imageWidth)
    ensures size == SearchResult(width, imageWidth, DefaultMinSize, DefaultMaxSize, DefaultMinSize)
    ensures Monotone(width, DefaultMinSize, DefaultMaxSize) ==>
      size == LargestFitting(width, imageWidth, DefaultMinSize, DefaultMaxSize)
  {
    size := FitFontSize(width, imageWidth, DefaultMinSize, DefaultMaxSize);
  }
}
