/**
 * How the component draws a cell string: an SVG image as wide as the string
 * has cells times the cell width, with one black rectangle, one cell wide and
 * as tall as the image, for every bar cell.  Space cells draw nothing.
 * Lengths are real numbers here; the component computes them in floating point.
 */
module Layout {

  import opened Encoder

  /** Cell width the component uses when none is given. */
  const DefaultWidth: real := 1.5

  /** Image height the component uses when none is given. */
  const DefaultHeight: real := 40.0

  /** One black rectangle; `key` is the index of the cell it draws. */
  datatype Rect = Rect(key: nat, x: real, y: real, width: real, height: real)

  /** The drawn image: its size, its view box (origin and size) and its rectangles in document order. */
  datatype Svg = Svg(width: real, height: real, viewBox: (real, real, real, real), rects: seq<Rect>)

  /** `n` cell widths laid end to end: the product `n * width` the component computes. */
  function Scale(n: nat, width: real): real {
    if n == 0 then 0.0 else Scale(n - 1, width) + width
  }

  /** Laying `n` cell widths end to end is multiplying by `n`. */
  lemma {:induction false} ScaleIsProduct(n: nat, width: real)
    ensures Scale(n, width) == n as real * width
  {
    if n > 0 {
      ScaleIsProduct(n - 1, width);
    }
  }

  /** A cell further right starts further right, by at least one cell width. */
  lemma {:induction false} ScaleMonotone(i: nat, j: nat, width: real)
    requires i < j && 0.0 <= width
    ensures 0.0 <= Scale(i, width)
    ensures Scale(i, width) + width <= Scale(j, width)
  {
    if i + 1 < j {
      ScaleMonotone(i, j - 1, width);
    } else if i > 0 {
      ScaleMonotone(i - 1, i, width);
    }
  }

  /** The rectangle drawn for cell `i`. */
  function BarAt(i: nat, width: real, height: real): (r: Rect)
    ensures r.key == i && r.y == 0.0 && r.width == width && r.height == height
    ensures r.x == Scale(i, width)
  {
    Rect(i, Scale(i, width), 0.0, width, height)
  }

  /** The rectangle for cell `i` starts at `i * width`, the product the component computes. */
  lemma BarPosition(i: nat, width: real, height: real)
    ensures BarAt(i, width, height).x == i as real * width
  {
    ScaleIsProduct(i, width);
  }

  /** The rectangles for the first `n` cells of `pattern`, one per bar cell, in cell order. */
  function Bars(pattern: string, width: real, height: real, n: nat): seq<Rect>
    requires n <= |pattern|
  {
    if n == 0 then []
    else Bars(pattern, width, height, n - 1)
         + (if pattern[n - 1] == '1' then [BarAt(n - 1, width, height)] else [])
  }

  /** The image drawn for `pattern`. */
  function Render(pattern: string, width: real, height: real): Svg {
    var w := Scale(|pattern|, width);
    Svg(w, height, (0.0, 0.0, w, height), Bars(pattern, width, height, |pattern|))
  }

  /** The component: the image drawn for the encoding of `value`, with the component's default sizes. */
  method Barcode(value: string, width: real := DefaultWidth, height: real := DefaultHeight) returns (svg: Svg)
    ensures svg == Render(Encoding(value), width, height)
  {
    var pattern := Encode(value);
    svg := Render(pattern, width, height);
  }

  /** The image is one cell width per cell wide, `16n + 31` cell widths for a value of `n` characters, and as tall as asked. */
  lemma ImageSize(value: string, width: real, height: real)
    ensures var svg := Render(Encoding(value), width, height);
            && svg.width == Scale(16 * |value| + 31, width)
            && svg.height == height
            && svg.viewBox == (0.0, 0.0, svg.width, svg.height)
  {
    EncodingLength(value);
    RenderSize(Encoding(value), 16 * |value| + 31, width, height);
  }

  /** The width of the image of a value of `k` characters is the product `(16k + 31) * width`. */
  lemma ImageWidth(k: nat, width: real)
    ensures Scale(16 * k + 31, width) == (16 * k + 31) as real * width
  {
    ScaleIsProduct(16 * k + 31, width);
  }

  /** An image of `n` cells is `n` cell widths wide. */
  lemma RenderSize(pattern: string, n: nat, width: real, height: real)
    requires |pattern| == n
    ensures Render(pattern, width, height).width == Scale(n, width)
    ensures Render(pattern, width, height).height == height
    ensures Render(pattern, width, height).viewBox == (0.0, 0.0, Scale(n, width), height)
  {
  }

  // ---------------------------------------------------------------------
  // Properties

  /** Number of bar cells among the first `n` cells of `s`. */
  function BarCount(s: string, n: nat): (c: nat)
    requires n <= |s|
    ensures c <= n
  {
    if n == 0 then 0 else BarCount(s, n - 1) + (if s[n - 1] == '1' then 1 else 0)
  }

  lemma {:induction false} BarsCount(pattern: string, width: real, height: real, n: nat)
    requires n <= |pattern|
    ensures |Bars(pattern, width, height, n)| == BarCount(pattern, n)
  {
    if n > 0 {
      BarsCount(pattern, width, height, n - 1);
    }
  }

  /** There is one rectangle per bar cell. */
  lemma RectCount(pattern: string, width: real, height: real)
    ensures |Render(pattern, width, height).rects| == BarCount(pattern, |pattern|)
  {
    BarsCount(pattern, width, height, |pattern|);
  }

  /**
   * Every rectangle of `rs` draws a bar cell among the first `n` of `pattern`,
   * at `x = key * width`, from the top, one cell wide and as tall as the image.
   */
  predicate DrawsBars(pattern: string, width: real, height: real, n: nat, rs: seq<Rect>)
    requires n <= |pattern|
  {
    forall k :: 0 <= k < |rs| ==>
      && rs[k].key < n && pattern[rs[k].key] == '1'
      && rs[k] == BarAt(rs[k].key, width, height)
  }

  /** The rectangles are in strictly increasing cell order. */
  predicate KeysIncreasing(rs: seq<Rect>) {
    forall k, l :: 0 <= k < l < |rs| ==> rs[k].key < rs[l].key
  }

  /** Every rectangle draws a bar cell, and the rectangles follow the cells left to right. */
  lemma {:induction false} RectsAreBars(pattern: string, width: real, height: real, n: nat)
    requires n <= |pattern|
    ensures DrawsBars(pattern, width, height, n, Bars(pattern, width, height, n))
    ensures KeysIncreasing(Bars(pattern, width, height, n))
  {
    if n > 0 {
      var prev := Bars(pattern, width, height, n - 1);
      var rs := Bars(pattern, width, height, n);
      RectsAreBars(pattern, width, height, n - 1);
      if pattern[n - 1] == '1' {
        assert rs == prev + [BarAt(n - 1, width, height)];
      } else {
        assert rs == prev;
      }
    }
  }

  /** Every bar cell among the first `n` has its rectangle. */
  lemma {:induction false} BarsAreRects(pattern: string, width: real, height: real, n: nat, i: nat)
    requires i < n <= |pattern| && pattern[i] == '1'
    ensures exists k :: 0 <= k < |Bars(pattern, width, height, n)| && Bars(pattern, width, height, n)[k].key == i
  {
    var rs := Bars(pattern, width, height, n);
    if i == n - 1 {
      assert rs[|rs| - 1].key == i;
    } else {
      BarsAreRects(pattern, width, height, n - 1, i);
      var k :| 0 <= k < |Bars(pattern, width, height, n - 1)| && Bars(pattern, width, height, n - 1)[k].key == i;
      assert rs[k] == Bars(pattern, width, height, n - 1)[k];
    }
  }

  /** Cell `i` is drawn, as the rectangle `BarAt(i, ...)`, exactly when it is a bar cell. */
  lemma CellDrawnIff(pattern: string, width: real, height: real, i: nat)
    requires i < |pattern|
    ensures var rs := Render(pattern, width, height).rects;
            (exists k :: 0 <= k < |rs| && rs[k] == BarAt(i, width, height)) <==> pattern[i] == '1'
  {
    var rs := Render(pattern, width, height).rects;
    assert rs == Bars(pattern, width, height, |pattern|);
    RectsAreBars(pattern, width, height, |pattern|);
    if pattern[i] == '1' {
      BarsAreRects(pattern, width, height, |pattern|, i);
      var k :| 0 <= k < |rs| && rs[k].key == i;
      assert rs[k] == BarAt(i, width, height);
    }
  }

  /** With a positive cell width the rectangles are drawn left to right and do not overlap. */
  lemma RectsDisjoint(pattern: string, width: real, height: real)
    requires 0.0 < width
    ensures var rs := Render(pattern, width, height).rects;
            forall k, l :: 0 <= k < l < |rs| ==> rs[k].x < rs[k].x + rs[k].width <= rs[l].x
  {
    var rs := Render(pattern, width, height).rects;
    assert rs == Bars(pattern, width, height, |pattern|);
    RectsAreBars(pattern, width, height, |pattern|);
    forall k, l | 0 <= k < l < |rs|
      ensures rs[k].x < rs[k].x + rs[k].width <= rs[l].x
    {
      assert rs[k] == BarAt(rs[k].key, width, height) && rs[l] == BarAt(rs[l].key, width, height);
      ScaleMonotone(rs[k].key, rs[l].key, width);
    }
  }

  /** With a non-negative cell width every rectangle lies inside the image. */
  lemma RectsInside(pattern: string, width: real, height: real)
    requires 0.0 <= width
    ensures var svg := Render(pattern, width, height);
            forall k :: 0 <= k < |svg.rects| ==>
              0.0 <= svg.rects[k].x && svg.rects[k].x + svg.rects[k].width <= svg.width
              && svg.rects[k].y == 0.0 && svg.rects[k].height == svg.height
  {
    var svg := Render(pattern, width, height);
    assert svg.rects == Bars(pattern, width, height, |pattern|);
    RectsAreBars(pattern, width, height, |pattern|);
    forall k | 0 <= k < |svg.rects|
      ensures 0.0 <= svg.rects[k].x && svg.rects[k].x + svg.rects[k].width <= svg.width
    {
      var i := svg.rects[k].key;
      ScaleMonotone(i, |pattern|, width);
    }
  }

  /** A pattern holding only space cells draws no rectangle. */
  lemma NoBarsNoRects(pattern: string, width: real, height: real)
    requires forall i :: 0 <= i < |pattern| ==> pattern[i] != '1'
    ensures Render(pattern, width, height).rects == []
  {
    RectCount(pattern, width, height);
    assert BarCount(pattern, |pattern|) == 0 by {
      NoBarsCount(pattern, |pattern|);
    }
  }

  lemma {:induction false} NoBarsCount(s: string, n: nat)
    requires n <= |s|
    requires forall i :: 0 <= i < |s| ==> s[i] != '1'
    ensures BarCount(s, n) == 0
  {
    if n > 0 {
      NoBarsCount(s, n - 1);
    }
  }

  /** The image of an encoded value opens and closes with a rectangle at its edges. */
  lemma EdgeRects(value: string, width: real, height: real)
    ensures var svg := Render(Encoding(value), width, height);
            && |svg.rects| >= 2
            && svg.rects[0] == BarAt(0, width, height)
            && svg.rects[|svg.rects| - 1] == BarAt(|Encoding(value)| - 1, width, height)
  {
    var p := Encoding(value);
    var rs := Bars(p, width, height, |p|);
    EncodingStart(value);
    EncodingEnd(value);
    RectsAreBars(p, width, height, |p|);
    BarsAreRects(p, width, height, |p|, 0);
    BarsAreRects(p, width, height, |p|, |p| - 1);
    var k0 :| 0 <= k0 < |rs| && rs[k0].key == 0;
    var k1 :| 0 <= k1 < |rs| && rs[k1].key == |p| - 1;
  }
}
