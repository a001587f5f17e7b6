/**
 * Page geometry. In fit mode an image is scaled uniformly by the largest
 * factor that still fits the page and is centred on it; in keep-size mode
 * the page takes the image's own size. Arithmetic is exact (`real`), not
 * IEEE double.
 */
module Layout {

  /** The fit-mode page, fixed at A4, in points. */
  const A4Width: real := 595.0
  const A4Height: real := 842.0

  /** A drawing rectangle: top-left corner and size, in points. */
  datatype Rect = Rect(x: real, y: real, width: real, height: real)

  /** The scale factor: `Math.Min(pageWidth / imgWidth, pageHeight / imgHeight)`. */
  function Scale(pageWidth: real, pageHeight: real, imgWidth: real, imgHeight: real): (s: real)
    requires pageWidth > 0.0 && pageHeight > 0.0 && imgWidth > 0.0 && imgHeight > 0.0
    ensures s > 0.0
    ensures imgWidth * s <= pageWidth && imgHeight * s <= pageHeight
    ensures imgWidth * s == pageWidth || imgHeight * s == pageHeight
  {
    var sx := pageWidth / imgWidth;
    var sy := pageHeight / imgHeight;
    assert imgWidth * sx == pageWidth;
    assert imgHeight * sy == pageHeight;
    if sx <= sy then
      assert imgHeight * sx <= imgHeight * sy;
      sx
    else
      assert imgWidth * sy <= imgWidth * sx;
      sy
  }

  /** No larger uniform factor keeps the whole image on the page. */
  lemma ScaleIsLargest(pageWidth: real, pageHeight: real, imgWidth: real, imgHeight: real, s: real)
    requires pageWidth > 0.0 && pageHeight > 0.0 && imgWidth > 0.0 && imgHeight > 0.0
    requires imgWidth * s <= pageWidth && imgHeight * s <= pageHeight
    ensures s <= Scale(pageWidth, pageHeight, imgWidth, imgHeight)
  {
    var t := Scale(pageWidth, pageHeight, imgWidth, imgHeight);
    if imgWidth * t == pageWidth {
      assert imgWidth * s <= imgWidth * t;
    } else {
      assert imgHeight * s <= imgHeight * t;
    }
  }

  /**
   * What a fitted image satisfies: positive size, wholly on the page, the
   * image's aspect ratio, centred, and touching two opposite edges.
   */
  ghost predicate FitsPage(r: Rect, pageWidth: real, pageHeight: real, imgWidth: real, imgHeight: real)
  {
    && r.width > 0.0 && r.height > 0.0
    && 0.0 <= r.x && r.x + r.width <= pageWidth
    && 0.0 <= r.y && r.y + r.height <= pageHeight
    && r.width * imgHeight == r.height * imgWidth
    && 2.0 * r.x + r.width == pageWidth
    && 2.0 * r.y + r.height == pageHeight
    && (r.width == pageWidth || r.height == pageHeight)
  }

  /** The rectangle fit mode draws the image into. */
  function FitToPage(pageWidth: real, pageHeight: real, imgWidth: real, imgHeight: real): (r: Rect)
    requires pageWidth > 0.0 && pageHeight > 0.0 && imgWidth > 0.0 && imgHeight > 0.0
    ensures FitsPage(r, pageWidth, pageHeight, imgWidth, imgHeight)
  {
    var scale := Scale(pageWidth, pageHeight, imgWidth, imgHeight);
    var scaledWidth := imgWidth * scale;
    var scaledHeight := imgHeight * scale;
    assert scaledWidth * imgHeight == scaledHeight * imgWidth;
    Rect((pageWidth - scaledWidth) / 2.0, (pageHeight - scaledHeight) / 2.0, scaledWidth, scaledHeight)
  }

  /** Those conditions leave no choice: the fitted rectangle is the only one satisfying them. */
  lemma FitIsUnique(r: Rect, pageWidth: real, pageHeight: real, imgWidth: real, imgHeight: real)
    requires pageWidth > 0.0 && pageHeight > 0.0 && imgWidth > 0.0 && imgHeight > 0.0
    requires FitsPage(r, pageWidth, pageHeight, imgWidth, imgHeight)
    ensures r == FitToPage(pageWidth, pageHeight, imgWidth, imgHeight)
  {
    var f := FitToPage(pageWidth, pageHeight, imgWidth, imgHeight);
    var s := r.width / imgWidth;
    assert r.width == imgWidth * s;
    assert r.height * imgWidth == imgHeight * s * imgWidth;
    assert r.height == imgHeight * s;
    var t := Scale(pageWidth, pageHeight, imgWidth, imgHeight);
    ScaleIsLargest(pageWidth, pageHeight, imgWidth, imgHeight, s);
    if r.width == pageWidth {
      assert imgWidth * t <= imgWidth * s;
    } else {
      assert imgHeight * t <= imgHeight * s;
    }
    assert s == t;
  }

  /** Fitting a page-sized image draws it over the whole page. */
  lemma FitOfPageSizedImage(pageWidth: real, pageHeight: real)
    requires pageWidth > 0.0 && pageHeight > 0.0
    ensures FitToPage(pageWidth, pageHeight, pageWidth, pageHeight) == Rect(0.0, 0.0, pageWidth, pageHeight)
  {
    FitIsUnique(Rect(0.0, 0.0, pageWidth, pageHeight), pageWidth, pageHeight, pageWidth, pageHeight);
  }
}
