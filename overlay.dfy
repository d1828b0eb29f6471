/**
 * Where the watermark goes: the timestamp is placed 10 px from the left edge
 * with its bottom 18 px above the image's bottom edge, on a backing rectangle
 * padded 5 px around it. Pixel coordinates grow rightwards and downwards.
 */
module Overlay {

  const LeftMargin: int := 10
  const BottomMargin: int := 18
  const Padding: int := 5

  /** An axis-aligned box [left, top, right, bottom]. */
  datatype Box = Box(left: int, top: int, right: int, bottom: int)
  {
    function Width(): int { right - left }

    function Height(): int { bottom - top }

    /** The same box moved by (dx, dy). */
    function Shift(dx: int, dy: int): Box
    {
      Box(left + dx, top + dy, right + dx, bottom + dy)
    }

    /** The box grown by `m` on every side. */
    function Inflate(m: int): Box
    {
      Box(left - m, top - m, right + m, bottom + m)
    }
  }

  /** `outer` contains `inner` with at least `m` pixels to spare on every side. */
  predicate Surrounds(outer: Box, inner: Box, m: int)
  {
    outer.left + m <= inner.left && outer.top + m <= inner.top &&
    inner.right + m <= outer.right && inner.bottom + m <= outer.bottom
  }

  /** The drawing origin of the text and the backing rectangle. */
  datatype Layout = Layout(x: int, y: int, backing: Box)

  /**
   * The placement as the renderer computes it. `bbox` is the text's bounding
   * box measured with the drawing origin at (0, 0); only its width and height
   * are used. The nominal text box is [x, y, x + width, y + height].
   */
  function PlaceAsWritten(imageHeight: int, bbox: Box): (l: Layout)
    ensures var nominal := Box(l.x, l.y, l.x + bbox.Width(), l.y + bbox.Height());
      nominal.left == LeftMargin && nominal.bottom == imageHeight - BottomMargin &&
      Surrounds(l.backing, nominal, Padding) && l.backing == nominal.Inflate(Padding)
  {
    var textWidth := bbox.Width();
    var textHeight := bbox.Height();
    var x := LeftMargin;
    var y := imageHeight - textHeight - BottomMargin;
    Layout(x, y, Box(x - Padding, y - Padding, x + textWidth + Padding, y + textHeight + Padding))
  }

  /**
   * The glyphs are drawn where the measured box lies once moved to the
   * drawing origin. They sit inside the backing rectangle only when the
   * measured box starts within 5 px of the origin on both axes, and their
   * bottom is 18 px above the image bottom only when it starts exactly at
   * the origin's row.
   */
  lemma AsWrittenGlyphPlacement(imageHeight: int, bbox: Box)
    ensures var l := PlaceAsWritten(imageHeight, bbox);
      var glyphs := bbox.Shift(l.x, l.y);
      glyphs.bottom == imageHeight - BottomMargin + bbox.top &&
      glyphs.left == LeftMargin + bbox.left &&
      (Surrounds(l.backing, glyphs, 0) <==>
         -Padding <= bbox.left <= Padding && -Padding <= bbox.top <= Padding) &&
      (Surrounds(l.backing, glyphs, Padding) <==> bbox.left == 0 && bbox.top == 0)
  {
  }

  /**
   * An instance: a box measured 19 px below the origin (a TrueType font's
   * ascender gap above digits) puts the glyphs' bottom one pixel past an
   * 800 px image's bottom edge, outside the backing rectangle.
   */
  lemma AsWrittenGlyphsLeaveBacking()
    ensures var bbox := Box(0, 19, 500, 91);
      var l := PlaceAsWritten(800, bbox);
      var glyphs := bbox.Shift(l.x, l.y);
      glyphs.bottom == 801 && !Surrounds(l.backing, glyphs, 0)
  {
  }

  /**
   * The intended placement: the text is drawn at the origin shifted back by
   * the measured box's offset, so that the glyphs themselves start 10 px from
   * the left edge and end 18 px above the bottom edge.
   */
  function PlaceCorrected(imageHeight: int, bbox: Box): (l: Layout)
    ensures var glyphs := bbox.Shift(l.x, l.y);
      glyphs.left == LeftMargin && glyphs.bottom == imageHeight - BottomMargin &&
      glyphs.Width() == bbox.Width() && glyphs.Height() == bbox.Height() &&
      Surrounds(l.backing, glyphs, Padding) && l.backing == glyphs.Inflate(Padding)
  {
    var x := LeftMargin - bbox.left;
    var y := imageHeight - BottomMargin - bbox.bottom;
    Layout(x, y, bbox.Shift(x, y).Inflate(Padding))
  }

  /** The correction moves only the text: the backing rectangle is the one the renderer draws. */
  lemma CorrectedKeepsBacking(imageHeight: int, bbox: Box)
    ensures PlaceCorrected(imageHeight, bbox).backing == PlaceAsWritten(imageHeight, bbox).backing
    ensures PlaceCorrected(imageHeight, bbox).x == PlaceAsWritten(imageHeight, bbox).x - bbox.left
    ensures PlaceCorrected(imageHeight, bbox).y == PlaceAsWritten(imageHeight, bbox).y - bbox.top
  {
  }
}
