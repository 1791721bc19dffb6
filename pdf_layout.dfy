/**
 * The page layout of `downloadPDF` (script.js:391-511): a cursor of (page count, y) that moves
 * down by fixed steps, breaks to a new page at fixed limits, inline images on the first wrapped
 * line of an exercise, display images scaled into a box and centred, a footer on every page and
 * the file name derived from the title.
 *
 * jsPDF is represented only by what the layout hands it: the list of placed items, each on a
 * page, at a position. Line wrapping (`splitTextToSize`) and text widths (`getTextWidth`) are
 * inputs: each exercise arrives as its wrapped lines with their widths and its math images.
 */
module PdfLayout {
  import opened JsString
  import opened Wrappers
  import opened MathSpans
  import LatexText

  /** The y where the first exercise starts. */
  const StartY: real := 65.0
  /** An exercise starting below this y goes to a new page. */
  const BreakY: real := 250.0
  /** The y at the top of every added page. */
  const TopY: real := 30.0
  const LineHeight: real := 5.0
  /** A display image reaching below this y (by its unscaled height) goes to a new page. */
  const DisplayLimit: real := 280.0
  const ExerciseGap: real := 15.0
  const LeftMargin: real := 20.0
  /** Exercise text starts 15 right of the margin. */
  const TextX: real := 35.0
  const InlineHeight: real := 5.0
  const InlineGap: real := 2.0
  const BaselineOffset: real := 1.0
  const MaxDisplayWidth: real := 120.0
  const MaxDisplayHeight: real := 18.0
  /** `doc.internal.pageSize.width` of a default jsPDF document (A4 portrait, in millimetres). */
  const PageWidth: real := 210.0
  const FooterY: real := 290.0

  /** One line from `splitTextToSize` with its `getTextWidth`. */
  datatype Line = Line(text: string, width: real)

  /** One exercise as the layout sees it: its wrapped processed text and its math images. */
  datatype Block = Block(lines: seq<Line>, images: seq<MathImage>)

  /** A `doc.text` or `doc.addImage` call: the page it lands on and where. */
  datatype Item =
    | Text(page: nat, x: real, y: real, text: string)
    | Picture(page: nat, x: real, y: real, width: real, height: real, latex: string)

  /** The layout state: how many pages the document has (the last is the current one) and y. */
  datatype Cursor = Cursor(pages: nat, y: real)

  /** A cursor and the items placed so far. */
  datatype Laid = Laid(cursor: Cursor, items: seq<Item>)

  /** A drawn image size. */
  datatype Size = Size(width: real, height: real)

  /** The x after a row of inline images and the images placed. */
  datatype Row = Row(x: real, items: seq<Item>)

  /** Images whose sizes can be divided by (every image `createTextBasedMathImage` makes is). */
  predicate Drawable(images: seq<MathImage>) {
    forall i :: 0 <= i < |images| ==> images[i].width > 0.0 && images[i].height > 0.0
  }

  /** A canvas measure never reports a negative text width. */
  ghost predicate NonNegativeMeasure(measure: (string, int) -> Option<real>) {
    forall text, size :: measure(text, size).Some? ==> measure(text, size).value >= 0.0
  }

  /** Every image `processMathExpressions` produces has a positive size, so the layout can scale it. */
  lemma {:induction false} RenderedDrawable(spans: seq<MathSpan>, measure: (string, int) -> Option<real>, n: nat)
    requires n <= |spans| && NonNegativeMeasure(measure)
    ensures Drawable(RenderN(spans, measure, n))
  {
    if n > 0 {
      RenderedDrawable(spans, measure, n - 1);
      var s := spans[n - 1];
      var img := RenderSpan(s, measure);
      if img.Some? {
        var w := measure(LatexText.LatexToText(s.latex), FontSize(s.mtype)).value + 4.0;
        ImageSize(s, measure);
        assert img.value.width > 0.0;
      }
      var a, b := RenderN(spans, measure, n - 1), Drawn(s, measure);
      assert RenderN(spans, measure, n) == a + b;
      assert forall i :: 0 <= i < |b| ==> b[i] == img.value;
    }
  }

  /**
   * The filter keeps the images of that type in their order and with their repetitions: it
   * distributes over concatenation, and a single image is kept exactly when it has the type.
   */
  lemma {:induction false} OfTypeAppend(a: seq<MathImage>, b: seq<MathImage>, t: MathType)
    ensures OfType(a + b, t) == OfType(a, t) + OfType(b, t)
    ensures |a| == 1 ==> OfType(a, t) == (if a[0].mtype == t then a else [])
    decreases |a|
  {
    if |a| > 0 {
      assert (a + b)[0] == a[0] && (a + b)[1..] == a[1..] + b;
      OfTypeAppend(a[1..], b, t);
    } else {
      assert a + b == b;
    }
  }

  /** `mathImages.filter(img => img.type === t)`. */
  function OfType(images: seq<MathImage>, t: MathType): (r: seq<MathImage>)
    ensures |r| <= |images|
    ensures forall i :: 0 <= i < |r| ==> r[i].mtype == t
    ensures Drawable(images) ==> Drawable(r)
  {
    if |images| == 0 then []
    else if images[0].mtype == t then [images[0]] + OfType(images[1..], t)
    else OfType(images[1..], t)
  }

  /** The filter keeps exactly the images of that type. */
  lemma {:induction false} OfTypeMembers(images: seq<MathImage>, t: MathType, img: MathImage)
    ensures img in OfType(images, t) <==> img in images && img.mtype == t
  {
    if |images| > 0 {
      OfTypeMembers(images[1..], t, img);
      assert images == [images[0]] + images[1..];
    }
  }

  /** How wide an inline image is drawn: scaled to `InlineHeight` high. */
  function InlineWidth(img: MathImage): real
    requires img.height > 0.0
  {
    img.width * (InlineHeight / img.height)
  }

  /** Inline images keep their aspect ratio. */
  lemma InlineAspect(img: MathImage)
    requires img.height > 0.0
    ensures InlineWidth(img) * img.height == InlineHeight * img.width
    ensures img.width > 0.0 ==> InlineWidth(img) > 0.0
  {
  }

  /** The first `n` inline images of a line, from `x0` on, each `InlineGap` after the previous one. */
  function InlineRow(page: nat, x0: real, y: real, images: seq<MathImage>, n: nat): Row
    requires n <= |images| && Drawable(images)
  {
    if n == 0 then Row(x0, [])
    else
      var r := InlineRow(page, x0, y, images, n - 1);
      var img := images[n - 1];
      Row(r.x + InlineWidth(img) + InlineGap,
          r.items + [Picture(page, r.x, y - InlineHeight + BaselineOffset, InlineWidth(img), InlineHeight, img.latex)])
  }

  lemma {:induction false} InlineRowLength(page: nat, x0: real, y: real, images: seq<MathImage>, n: nat)
    requires n <= |images| && Drawable(images)
    ensures |InlineRow(page, x0, y, images, n).items| == n
  {
    if n > 0 {
      InlineRowLength(page, x0, y, images, n - 1);
    }
  }

  /** The `i`-th inline image is placed where the row stood after the first `i`, whatever follows it. */
  lemma {:induction false} InlineRowAt(page: nat, x0: real, y: real, images: seq<MathImage>, n: nat, i: nat)
    requires i < n <= |images| && Drawable(images)
    ensures |InlineRow(page, x0, y, images, n).items| == n
    ensures InlineRow(page, x0, y, images, n).items[i]
         == Picture(page, InlineRow(page, x0, y, images, i).x, y - InlineHeight + BaselineOffset,
                    InlineWidth(images[i]), InlineHeight, images[i].latex)
  {
    InlineRowLength(page, x0, y, images, n);
    if i < n - 1 {
      InlineRowAt(page, x0, y, images, n - 1, i);
    } else {
      InlineRowLength(page, x0, y, images, n - 1);
    }
  }

  /**
   * Inline images are all `InlineHeight` high with the aspect ratio kept, sit on the line's
   * baseline, the first at `x0` and each one `InlineGap` after the previous one.
   */
  lemma InlineRowShape(page: nat, x0: real, y: real, images: seq<MathImage>, n: nat)
    requires n <= |images| && Drawable(images)
    ensures var r := InlineRow(page, x0, y, images, n).items;
      && |r| == n
      && (forall i :: 0 <= i < n ==>
            && r[i].Picture? && r[i].page == page && r[i].y == y - 4.0
            && r[i].height == InlineHeight && r[i].latex == images[i].latex
            && r[i].width == InlineWidth(images[i]))
      && (n > 0 ==> r[0].x == x0)
      && (forall i :: 0 < i < n ==> r[i].x == r[i - 1].x + r[i - 1].width + InlineGap)
  {
    var r := InlineRow(page, x0, y, images, n).items;
    InlineRowLength(page, x0, y, images, n);
    forall i | 0 <= i < n
      ensures r[i].Picture? && r[i].page == page && r[i].y == y - 4.0
      ensures r[i].height == InlineHeight && r[i].latex == images[i].latex && r[i].width == InlineWidth(images[i])
      ensures i == 0 ==> r[i].x == x0
      ensures i > 0 ==> r[i].x == r[i - 1].x + r[i - 1].width + InlineGap
    {
      InlineRowAt(page, x0, y, images, n, i);
      if i > 0 {
        InlineRowAt(page, x0, y, images, n, i - 1);
        InlineRowAt(page, x0, y, images, i, i - 1);
      }
    }
  }

  /** What the `j`-th wrapped line contributes: its text and, on the first line only, the inline images. */
  function LineItems(page: nat, y: real, lines: seq<Line>, inline: seq<MathImage>, j: nat): seq<Item>
    requires j < |lines| && Drawable(inline)
  {
    var lineY := y + LineHeight * j as real;
    [Text(page, TextX, lineY, lines[j].text)]
    + (if |inline| > 0 && j == 0 then InlineRow(page, TextX + lines[j].width + InlineGap, lineY, inline, |inline|).items else [])
  }

  /** The first `n` wrapped lines of an exercise starting at `y`. */
  function LinesN(page: nat, y: real, lines: seq<Line>, inline: seq<MathImage>, n: nat): seq<Item>
    requires n <= |lines| && Drawable(inline)
  {
    if n == 0 then [] else LinesN(page, y, lines, inline, n - 1) + LineItems(page, y, lines, inline, n - 1)
  }

  lemma {:induction false} LinesLength(page: nat, y: real, lines: seq<Line>, inline: seq<MathImage>, n: nat)
    requires n <= |lines| && Drawable(inline)
    ensures |LinesN(page, y, lines, inline, n)| == n + (if n > 0 then |inline| else 0)
  {
    if n > 0 {
      LinesLength(page, y, lines, inline, n - 1);
      InlineRowLength(page, TextX + lines[0].width + InlineGap, y, inline, |inline|);
    }
  }

  /** Everything a line places lands on the exercise's page. */
  lemma {:induction false} LinesPage(page: nat, y: real, lines: seq<Line>, inline: seq<MathImage>, n: nat)
    requires n <= |lines| && Drawable(inline)
    ensures forall i :: 0 <= i < |LinesN(page, y, lines, inline, n)| ==> LinesN(page, y, lines, inline, n)[i].page == page
  {
    if n > 0 {
      LinesPage(page, y, lines, inline, n - 1);
      InlineRowShape(page, TextX + lines[0].width + InlineGap, y, inline, |inline|);
      var r: seq<Item>, l: seq<Item> := LinesN(page, y, lines, inline, n - 1), LineItems(page, y, lines, inline, n - 1);
      forall i | 0 <= i < |r + l| ensures (r + l)[i].page == page {
        if i >= |r| {
          assert (r + l)[i] == l[i - |r|];
          if i > |r| {
            assert l[i - |r|] == InlineRow(page, TextX + lines[0].width + InlineGap, y, inline, |inline|).items[i - |r| - 1];
          }
        }
      }
    }
  }

  /** The `j`-th line's text, for `j > 0`, sits after the first line's text and its inline images, `LineHeight * j` lower. */
  lemma {:induction false} LinesAt(page: nat, y: real, lines: seq<Line>, inline: seq<MathImage>, n: nat, j: nat)
    requires 0 < j < n <= |lines| && Drawable(inline)
    ensures |inline| + j < |LinesN(page, y, lines, inline, n)|
    ensures LinesN(page, y, lines, inline, n)[|inline| + j] == Text(page, TextX, y + LineHeight * j as real, lines[j].text)
  {
    LinesLength(page, y, lines, inline, n);
    LinesLength(page, y, lines, inline, n - 1);
    if j < n - 1 {
      LinesAt(page, y, lines, inline, n - 1, j);
    }
  }

  /**
   * The first line's text comes first, at `y`, then the inline images, on that line only; every
   * later line's text is `LineHeight` below the previous one's; all of it on the one page.
   */
  lemma LinesShape(page: nat, y: real, lines: seq<Line>, inline: seq<MathImage>, n: nat)
    requires n <= |lines| && Drawable(inline)
    ensures var r := LinesN(page, y, lines, inline, n);
      && |r| == n + (if n > 0 then |inline| else 0)
      && (n > 0 ==> r[..1 + |inline|] == [Text(page, TextX, y, lines[0].text)]
                       + InlineRow(page, TextX + lines[0].width + InlineGap, y, inline, |inline|).items)
      && (forall j :: 0 < j < n ==> r[|inline| + j] == Text(page, TextX, y + LineHeight * j as real, lines[j].text))
      && (forall i :: 0 <= i < |r| ==> r[i].page == page)
  {
    LinesLength(page, y, lines, inline, n);
    LinesPage(page, y, lines, inline, n);
    if n > 0 {
      LinesFirst(page, y, lines, inline, n);
    }
    forall j | 0 < j < n
      ensures LinesN(page, y, lines, inline, n)[|inline| + j] == Text(page, TextX, y + LineHeight * j as real, lines[j].text)
    {
      LinesAt(page, y, lines, inline, n, j);
    }
  }

  lemma {:induction false} LinesFirst(page: nat, y: real, lines: seq<Line>, inline: seq<MathImage>, n: nat)
    requires 0 < n <= |lines| && Drawable(inline)
    ensures |LinesN(page, y, lines, inline, n)| >= 1 + |inline|
    ensures LinesN(page, y, lines, inline, n)[..1 + |inline|] == LineItems(page, y, lines, inline, 0)
  {
    LinesLength(page, y, lines, inline, n);
    InlineRowLength(page, TextX + lines[0].width + InlineGap, y, inline, |inline|);
    if n > 1 {
      LinesFirst(page, y, lines, inline, n - 1);
      LinesLength(page, y, lines, inline, n - 1);
      var r := LinesN(page, y, lines, inline, n - 1);
      assert (r + LineItems(page, y, lines, inline, n - 1))[..1 + |inline|] == r[..1 + |inline|];
    } else {
      assert LinesN(page, y, lines, inline, 0) == [];
      assert y + LineHeight * 0 as real == y;
    }
  }

  /** The size a display image is drawn at: scaled down to fit 120 x 18 when it is larger. */
  function DisplaySize(w: real, h: real): Size
    requires w > 0.0 && h > 0.0
  {
    if w > MaxDisplayWidth || h > MaxDisplayHeight then
      var scaleX, scaleY := MaxDisplayWidth / w, MaxDisplayHeight / h;
      var scale := if scaleX <= scaleY then scaleX else scaleY;
      Size(w * scale, h * scale)
    else Size(w, h)
  }

  /**
   * A drawn display image fits the 120 x 18 box and keeps its aspect ratio; an image that fits
   * already is left alone, and a larger one is scaled until it touches the box on one side.
   */
  lemma DisplaySizeFits(w: real, h: real)
    requires w > 0.0 && h > 0.0
    ensures var dw, dh := DisplaySize(w, h).width, DisplaySize(w, h).height;
      && 0.0 < dw <= MaxDisplayWidth && 0.0 < dh <= MaxDisplayHeight
      && dw * h == dh * w
      && (w <= MaxDisplayWidth && h <= MaxDisplayHeight ==> dw == w && dh == h)
      && (w > MaxDisplayWidth || h > MaxDisplayHeight ==> dw == MaxDisplayWidth || dh == MaxDisplayHeight)
  {
    if w > MaxDisplayWidth || h > MaxDisplayHeight {
      if MaxDisplayWidth / w <= MaxDisplayHeight / h {
        ScaledTo(w, h, MaxDisplayWidth, MaxDisplayHeight);
        assert DisplaySize(w, h) == Size(w * (MaxDisplayWidth / w), h * (MaxDisplayWidth / w));
      } else {
        ScaledTo(h, w, MaxDisplayHeight, MaxDisplayWidth);
        assert DisplaySize(w, h) == Size(w * (MaxDisplayHeight / h), h * (MaxDisplayHeight / h));
      }
    }
  }

  /** Scaling both sides by `a / w` when it is the smaller ratio: `w` reaches `a` and `h` stays within `b`. */
  lemma ScaledTo(w: real, h: real, a: real, b: real)
    requires w > 0.0 && h > 0.0 && a > 0.0 && b > 0.0 && a / w <= b / h
    ensures w * (a / w) == a
    ensures 0.0 < h * (a / w) <= b
    ensures w * (a / w) * h == h * (a / w) * w
  {
    var s, t := a / w, b / h;
    assert s * w == a;
    assert t * h == b;
    assert s > 0.0;
    assert h * s <= h * t;
  }

  /** One display image: a new page when it would reach below 280 unscaled, then drawn centred. */
  function PlaceDisplay(c: Cursor, img: MathImage): Laid
    requires img.width > 0.0 && img.height > 0.0
  {
    var c1 := if c.y + img.height > DisplayLimit then Cursor(c.pages + 1, TopY) else c;
    var d := DisplaySize(img.width, img.height);
    Laid(Cursor(c1.pages, c1.y + d.height + LineHeight), [Picture(c1.pages, (PageWidth - d.width) / 2.0, c1.y, d.width, d.height, img.latex)])
  }

  /** The first `n` display images of an exercise, from cursor `c`. */
  function DisplaysN(c: Cursor, images: seq<MathImage>, n: nat): Laid
    requires n <= |images| && Drawable(images)
  {
    if n == 0 then Laid(c, [])
    else
      var r := DisplaysN(c, images, n - 1);
      var p := PlaceDisplay(r.cursor, images[n - 1]);
      Laid(p.cursor, r.items + p.items)
  }

  /** A display image moves to a new page only when its unscaled height would reach below 280. */
  lemma PlaceDisplayShape(c: Cursor, img: MathImage)
    requires img.width > 0.0 && img.height > 0.0
    ensures var p := PlaceDisplay(c, img);
      && |p.items| == 1 && p.items[0].Picture? && p.items[0].page == p.cursor.pages
      && p.cursor.pages == (if c.y + img.height > DisplayLimit then c.pages + 1 else c.pages)
      && p.items[0].y == (if c.y + img.height > DisplayLimit then TopY else c.y)
      && (p.items[0].y + img.height <= DisplayLimit || p.items[0].y == TopY)
      && Size(p.items[0].width, p.items[0].height) == DisplaySize(img.width, img.height)
      && p.items[0].x == (PageWidth - p.items[0].width) / 2.0
      && p.items[0].latex == img.latex
      && p.cursor.y == p.items[0].y + p.items[0].height + LineHeight
  {
  }

  lemma {:induction false} DisplaysCount(c: Cursor, images: seq<MathImage>, n: nat)
    requires n <= |images| && Drawable(images)
    ensures |DisplaysN(c, images, n).items| == n
    ensures c.pages <= DisplaysN(c, images, n).cursor.pages <= c.pages + n
  {
    if n > 0 {
      DisplaysCount(c, images, n - 1);
      PlaceDisplayShape(DisplaysN(c, images, n - 1).cursor, images[n - 1]);
    }
  }

  /** The `i`-th display image is placed from the cursor the first `i` left, on a page no later than the last. */
  lemma {:induction false} DisplaysAt(c: Cursor, images: seq<MathImage>, n: nat, i: nat)
    requires i < n <= |images| && Drawable(images)
    ensures |DisplaysN(c, images, n).items| == n
    ensures DisplaysN(c, images, n).items[i] == PlaceDisplay(DisplaysN(c, images, i).cursor, images[i]).items[0]
    ensures DisplaysN(c, images, i + 1).cursor.pages <= DisplaysN(c, images, n).cursor.pages
  {
    DisplaysCount(c, images, n);
    DisplaysCount(c, images, n - 1);
    if i < n - 1 {
      DisplaysAt(c, images, n - 1, i);
      PlaceDisplayShape(DisplaysN(c, images, n - 1).cursor, images[n - 1]);
    } else {
      PlaceDisplayShape(DisplaysN(c, images, i).cursor, images[i]);
    }
  }

  /**
   * Every display image is drawn at its `DisplaySize` (see `DisplaySizeFits`), centred on the page, and
   * either where it leaves room for its unscaled height above 280 or at the top of a page added
   * for it; pages are only ever added, at most one per image.
   */
  lemma DisplaysShape(c: Cursor, images: seq<MathImage>, n: nat)
    requires n <= |images| && Drawable(images)
    ensures var r := DisplaysN(c, images, n);
      && |r.items| == n
      && c.pages <= r.cursor.pages <= c.pages + n
      && (forall i :: 0 <= i < n ==>
            && r.items[i].Picture? && c.pages <= r.items[i].page <= r.cursor.pages
            && r.items[i].latex == images[i].latex
            && Size(r.items[i].width, r.items[i].height) == DisplaySize(images[i].width, images[i].height)
            && r.items[i].x == (PageWidth - r.items[i].width) / 2.0
            && (r.items[i].y + images[i].height <= DisplayLimit || r.items[i].y == TopY))
  {
    var r := DisplaysN(c, images, n);
    DisplaysCount(c, images, n);
    forall i | 0 <= i < n
      ensures r.items[i].Picture? && c.pages <= r.items[i].page <= r.cursor.pages
      ensures r.items[i].latex == images[i].latex
      ensures Size(r.items[i].width, r.items[i].height) == DisplaySize(images[i].width, images[i].height)
      ensures r.items[i].x == (PageWidth - r.items[i].width) / 2.0
      ensures r.items[i].y + images[i].height <= DisplayLimit || r.items[i].y == TopY
    {
      DisplaysAt(c, images, n, i);
      var before := DisplaysN(c, images, i).cursor;
      DisplaysCount(c, images, i);
      PlaceDisplayShape(before, images[i]);
    }
  }

  /** The page number line of a footer, `Page ${i} of ${pageCount}`. */
  function PageLabel(i: nat, n: nat): string {
    "Page " + NatToString(i) + " of " + NatToString(n)
  }

  /** The footer of page `i` of `n`: its number line and the attribution. */
  function Footer(i: nat, n: nat): seq<Item> {
    [Text(i, LeftMargin, FooterY, PageLabel(i, n)),
     Text(i, 150.0, FooterY, "Generated by Exercise Generator")]
  }

  /** The footers of pages 1 to `k` of `n`. */
  function FootersN(n: nat, k: nat): seq<Item> {
    if k == 0 then [] else FootersN(n, k - 1) + Footer(k, n)
  }

  /**
   * Page `i` carries exactly the footer `Page i of n` and the attribution line, for every page
   * of the document, in page order.
   */
  lemma {:induction false} FootersCover(n: nat, k: nat)
    ensures var f := FootersN(n, k);
      && |f| == 2 * k
      && forall i :: 1 <= i <= k ==>
           f[2 * i - 2] == Text(i, LeftMargin, FooterY, PageLabel(i, n))
           && f[2 * i - 1] == Text(i, 150.0, FooterY, "Generated by Exercise Generator")
  {
    if k > 0 {
      FootersCover(n, k - 1);
      var p, g := FootersN(n, k - 1), Footer(k, n);
      assert FootersN(n, k) == p + g;
      forall i | 1 <= i <= k
        ensures (p + g)[2 * i - 2] == Text(i, LeftMargin, FooterY, PageLabel(i, n))
        ensures (p + g)[2 * i - 1] == Text(i, 150.0, FooterY, "Generated by Exercise Generator")
      {
        if i == k {
          assert (p + g)[2 * i - 2] == g[0] && (p + g)[2 * i - 1] == g[1];
        } else {
          assert (p + g)[2 * i - 2] == p[2 * i - 2] && (p + g)[2 * i - 1] == p[2 * i - 1];
        }
      }
    }
  }

  /** The two `doc.text` calls of one footer extend the footers of the pages before it. */
  lemma FooterStep(head: seq<Item>, n: nat, i: nat)
    requires i >= 1
    ensures head + FootersN(n, i - 1) + [Text(i, LeftMargin, FooterY, PageLabel(i, n))]
              + [Text(i, 150.0, FooterY, "Generated by Exercise Generator")] == head + FootersN(n, i)
  {
    assert FootersN(n, i) == FootersN(n, i - 1) + Footer(i, n);
  }

  /** The exercise number's text, `${index + 1}.`. */
  function Numbering(index: nat): string {
    NatToString(index + 1) + "."
  }

  /** The page check before an exercise: below 250 starts a new page at its top. */
  function Turn(c: Cursor): Cursor {
    if c.y > BreakY then Cursor(c.pages + 1, TopY) else c
  }

  /** An exercise's lines and then its display images, from cursor `c`. */
  function Body(c: Cursor, b: Block): Laid
    requires Drawable(b.images)
  {
    var display := OfType(b.images, Display);
    var d := DisplaysN(Cursor(c.pages, c.y + LineHeight * |b.lines| as real), display, |display|);
    Laid(d.cursor, LinesN(c.pages, c.y, b.lines, OfType(b.images, Inline), |b.lines|) + d.items)
  }

  /** One exercise from cursor `c`: the page check, its number, its lines, its display images, the gap. */
  function Exercise(c: Cursor, index: nat, b: Block): Laid
    requires Drawable(b.images)
  {
    var c0 := Turn(c);
    var body := Body(c0, b);
    Laid(Cursor(body.cursor.pages, body.cursor.y + ExerciseGap),
         [Text(c0.pages, LeftMargin, c0.y, Numbering(index))] + body.items)
  }

  predicate AllDrawable(blocks: seq<Block>) {
    forall i :: 0 <= i < |blocks| ==> Drawable(blocks[i].images)
  }

  /** The first `n` exercises laid out from the top of the first page. */
  function LayoutN(blocks: seq<Block>, n: nat): Laid
    requires n <= |blocks| && AllDrawable(blocks)
  {
    if n == 0 then Laid(Cursor(1, StartY), [])
    else
      var r := LayoutN(blocks, n - 1);
      var e := Exercise(r.cursor, n - 1, blocks[n - 1]);
      Laid(e.cursor, r.items + e.items)
  }

  /** Every exercise number is drawn no lower than 250, on the page the cursor is on. */
  lemma ExerciseStart(c: Cursor, index: nat, b: Block)
    requires Drawable(b.images)
    ensures var e := Exercise(c, index, b);
      && e.items[0].Text? && e.items[0].text == Numbering(index) && e.items[0].y <= BreakY
      && (c.y <= BreakY ==> e.items[0].page == c.pages && e.items[0].y == c.y)
      && (c.y > BreakY ==> e.items[0].page == c.pages + 1 && e.items[0].y == TopY)
  {
  }

  /** An exercise's lines and display images add at most one page per display image and land on the pages from `c` on. */
  lemma BodyPages(c: Cursor, b: Block)
    requires Drawable(b.images)
    ensures var r := Body(c, b);
      && c.pages <= r.cursor.pages <= c.pages + |b.images|
      && forall i :: 0 <= i < |r.items| ==> c.pages <= r.items[i].page <= r.cursor.pages
  {
    var inline, display := OfType(b.images, Inline), OfType(b.images, Display);
    var lineItems := LinesN(c.pages, c.y, b.lines, inline, |b.lines|);
    var c1 := Cursor(c.pages, c.y + LineHeight * |b.lines| as real);
    var d := DisplaysN(c1, display, |display|);
    LinesPage(c.pages, c.y, b.lines, inline, |b.lines|);
    DisplaysShape(c1, display, |display|);
    assert Body(c, b) == Laid(d.cursor, lineItems + d.items);
    forall i | 0 <= i < |lineItems + d.items| ensures c.pages <= (lineItems + d.items)[i].page <= d.cursor.pages {
      if i < |lineItems| {
        assert (lineItems + d.items)[i] == lineItems[i];
      } else {
        assert (lineItems + d.items)[i] == d.items[i - |lineItems|];
      }
    }
  }

  /** An exercise only ever adds pages, at most one for itself and one per display image, and places everything on them. */
  lemma ExercisePages(c: Cursor, index: nat, b: Block)
    requires Drawable(b.images) && c.pages >= 1
    ensures var e := Exercise(c, index, b);
      && c.pages <= e.cursor.pages <= c.pages + 1 + |b.images|
      && forall i :: 0 <= i < |e.items| ==> c.pages <= e.items[i].page <= e.cursor.pages
  {
    var c0 := Turn(c);
    var body := Body(c0, b);
    BodyPages(c0, b);
    var items := [Text(c0.pages, LeftMargin, c0.y, Numbering(index))] + body.items;
    assert Exercise(c, index, b).items == items;
    forall i | 0 <= i < |items| ensures c.pages <= items[i].page <= body.cursor.pages {
      if 0 < i {
        assert items[i] == body.items[i - 1];
      }
    }
  }

  /** Pages are counted from 1, and every item lands on a page the document has. */
  lemma {:induction false} LayoutPages(blocks: seq<Block>, n: nat)
    requires n <= |blocks| && AllDrawable(blocks)
    ensures OnPages(LayoutN(blocks, n))
  {
    if n > 0 {
      LayoutPages(blocks, n - 1);
      var r, b := LayoutN(blocks, n - 1), blocks[n - 1];
      assert Drawable(b.images);
      ExercisePages(r.cursor, n - 1, b);
      NextOnPages(r, Exercise(r.cursor, n - 1, b), LayoutN(blocks, n));
    }
  }

  /** Every item on a page from 1 to the page the cursor has reached. */
  predicate OnPages(l: Laid) {
    && l.cursor.pages >= 1
    && forall i :: 0 <= i < |l.items| ==> 1 <= l.items[i].page <= l.cursor.pages
  }

  /** A layout on its pages, extended by items on the pages from its cursor on, stays on its pages. */
  lemma NextOnPages(r: Laid, e: Laid, l: Laid)
    requires OnPages(r) && r.cursor.pages <= e.cursor.pages
    requires forall i :: 0 <= i < |e.items| ==> r.cursor.pages <= e.items[i].page <= e.cursor.pages
    requires l == Laid(e.cursor, r.items + e.items)
    ensures OnPages(l)
  {
    forall i | 0 <= i < |l.items| ensures 1 <= l.items[i].page <= l.cursor.pages {
      if i >= |r.items| {
        assert l.items[i] == e.items[i - |r.items|];
      }
    }
  }

  /** `${title.replace(/[^a-z0-9]/gi, '_').toLowerCase()}` for one character. */
  function SafeChar(c: char): char {
    if IsAsciiAlnum(c) then ToLowerAscii(c) else '_'
  }

  /** The title with every character outside `[A-Za-z0-9]` replaced by `_`, then lower-cased. */
  function Sanitize(title: string): (r: string)
    ensures |r| == |title|
    ensures forall i :: 0 <= i < |r| ==> r[i] == SafeChar(title[i])
  {
    if |title| == 0 then [] else [SafeChar(title[0])] + Sanitize(title[1..])
  }

  /** The name `doc.save` is given. */
  function PdfFileName(title: string): string {
    Sanitize(title) + ".pdf"
  }

  /**
   * The file name is four longer than the title, ends in `.pdf`, and before that holds only
   * lower-case letters, digits and `_`, where every letter or digit of the title stays put.
   */
  lemma FileNameShape(title: string)
    ensures var f := PdfFileName(title);
      && |f| == |title| + 4 && f[|title|..] == ".pdf"
      && (forall i :: 0 <= i < |title| ==> IsAsciiLower(f[i]) || IsDigit(f[i]) || f[i] == '_')
      && (forall i :: 0 <= i < |title| ==> (f[i] == '_' <==> !IsAsciiAlnum(title[i])))
  {
    var f := PdfFileName(title);
    assert f[..|title|] == Sanitize(title);
  }

  /** Sanitising a sanitised title changes nothing. */
  lemma SanitizeIdempotent(title: string)
    ensures Sanitize(Sanitize(title)) == Sanitize(title)
  {
    var s := Sanitize(title);
    assert forall i :: 0 <= i < |s| ==> SafeChar(s[i]) == s[i];
  }

  /** The inline images of the first line, left to right from `x0` (script.js:432-452). */
  method PlaceInline(page: nat, x0: real, y: real, inline: seq<MathImage>) returns (placed: seq<Item>)
    requires Drawable(inline)
    ensures placed == InlineRow(page, x0, y, inline, |inline|).items
  {
    placed := [];
    var currentX := x0;
    for m := 0 to |inline|
      invariant InlineRow(page, x0, y, inline, m) == Row(currentX, placed)
    {
      var mathImage := inline[m];
      var scale := InlineHeight / mathImage.height;
      var scaledWidth := mathImage.width * scale;
      placed := placed + [Picture(page, currentX, y - InlineHeight + BaselineOffset, scaledWidth, InlineHeight, mathImage.latex)];
      currentX := currentX + scaledWidth + 2.0;
    }
  }

  /** The wrapped lines of one exercise from `y` down (script.js:418-456). */
  method PlaceLines(page: nat, y: real, lines: seq<Line>, inline: seq<MathImage>) returns (currentY: real, placed: seq<Item>)
    requires Drawable(inline)
    ensures placed == LinesN(page, y, lines, inline, |lines|)
    ensures currentY == y + LineHeight * |lines| as real
  {
    placed := [];
    currentY := y;
    for lineIndex := 0 to |lines|
      invariant currentY == y + LineHeight * lineIndex as real
      invariant placed == LinesN(page, y, lines, inline, lineIndex)
    {
      var line := lines[lineIndex];
      var row := [Text(page, LeftMargin + 15.0, currentY, line.text)];
      if |inline| > 0 && lineIndex == 0 {
        var images := PlaceInline(page, LeftMargin + 15.0 + line.width + 2.0, currentY, inline);
        row := row + images;
      }
      assert row == LineItems(page, y, lines, inline, lineIndex);
      placed := placed + row;
      LineStep(y, lineIndex);
      currentY := currentY + LineHeight;
    }
  }

  /** One line height further down. */
  lemma LineStep(y: real, j: nat)
    ensures y + LineHeight * j as real + LineHeight == y + LineHeight * (j + 1) as real
  {
  }

  /** The display images of one exercise, each on a line of its own (script.js:459-494). */
  method PlaceDisplays(page: nat, y: real, display: seq<MathImage>) returns (pages: nat, currentY: real, placed: seq<Item>)
    requires Drawable(display)
    ensures DisplaysN(Cursor(page, y), display, |display|) == Laid(Cursor(pages, currentY), placed)
  {
    pages, currentY, placed := page, y, [];
    for m := 0 to |display|
      invariant DisplaysN(Cursor(page, y), display, m) == Laid(Cursor(pages, currentY), placed)
    {
      var mathImage := display[m];
      ghost var before := Cursor(pages, currentY);
      if currentY + mathImage.height > DisplayLimit {
        pages := pages + 1;
        currentY := TopY;
      }
      var displayWidth, displayHeight := ScaleDisplay(mathImage.width, mathImage.height);
      var centerX := (PageWidth - displayWidth) / 2.0;
      placed := placed + [Picture(pages, centerX, currentY, displayWidth, displayHeight, mathImage.latex)];
      currentY := currentY + displayHeight + 5.0;
      assert PlaceDisplay(before, mathImage) == Laid(Cursor(pages, currentY), [placed[|placed| - 1]]);
    }
  }

  /** The scaling of script.js:473-483: down to the 120 x 18 box, by the smaller ratio, when larger. */
  method ScaleDisplay(width: real, height: real) returns (displayWidth: real, displayHeight: real)
    requires width > 0.0 && height > 0.0
    ensures Size(displayWidth, displayHeight) == DisplaySize(width, height)
  {
    displayWidth, displayHeight := width, height;
    if displayWidth > MaxDisplayWidth || displayHeight > MaxDisplayHeight {
      var scaleX := MaxDisplayWidth / displayWidth;
      var scaleY := MaxDisplayHeight / displayHeight;
      var scale := if scaleX <= scaleY then scaleX else scaleY;
      displayWidth := displayWidth * scale;
      displayHeight := displayHeight * scale;
    }
  }

  /** One pass of the exercise loop of script.js:395-499, from the cursor the previous exercise left. */
  method LayOutExercise(pages0: nat, yPosition0: real, index: nat, b: Block) returns (pages: nat, yPosition: real, placed: seq<Item>)
    requires Drawable(b.images)
    ensures Exercise(Cursor(pages0, yPosition0), index, b) == Laid(Cursor(pages, yPosition), placed)
  {
    pages, yPosition := pages0, yPosition0;
    if yPosition > BreakY {
      pages := pages + 1;
      yPosition := TopY;
    }
    var number := [Text(pages, LeftMargin, yPosition, Numbering(index))];
    var inline := OfType(b.images, Inline);
    var currentY, lineItems := PlaceLines(pages, yPosition, b.lines, inline);
    var display := OfType(b.images, Display);
    var displayItems;
    pages, currentY, displayItems := PlaceDisplays(pages, currentY, display);
    assert Body(Turn(Cursor(pages0, yPosition0)), b) == Laid(Cursor(pages, currentY), lineItems + displayItems);
    yPosition := currentY + ExerciseGap;
    placed := number + (lineItems + displayItems);
  }

  /**
   * `downloadPDF` for a title and the exercises, each already processed and wrapped: the
   * number of pages, everything drawn (the title, every exercise, the footers) and the file name.
   */
  method DownloadPdf(title: string, blocks: seq<Block>) returns (pageCount: nat, items: seq<Item>, fileName: string)
    requires AllDrawable(blocks)
    ensures var r := LayoutN(blocks, |blocks|);
      && pageCount == r.cursor.pages
      && items == [Text(1, LeftMargin, 40.0, title)] + r.items + FootersN(pageCount, pageCount)
    ensures fileName == PdfFileName(title)
  {
    var pages: nat := 1;
    var drawn: seq<Item> := [];
    var yPosition := StartY;
    for index := 0 to |blocks|
      invariant LayoutN(blocks, index) == Laid(Cursor(pages, yPosition), drawn)
    {
      var placed;
      pages, yPosition, placed := LayOutExercise(pages, yPosition, index, blocks[index]);
      drawn := drawn + placed;
    }
    pageCount := pages;
    items := [Text(1, LeftMargin, 40.0, title)] + drawn;
    ghost var head := items;
    assert items == head + FootersN(pageCount, 0);
    for i := 1 to pageCount + 1
      invariant items == head + FootersN(pageCount, i - 1)
    {
      FooterStep(head, pageCount, i);
      items := items + [Text(i, LeftMargin, FooterY, PageLabel(i, pageCount))];
      items := items + [Text(i, 150.0, FooterY, "Generated by Exercise Generator")];
    }
    fileName := PdfFileName(title);
  }
}
