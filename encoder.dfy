/**
 * The encoder of the barcode component: the value is upper-cased, framed by
 * the start/stop character '*', and every character of the framed string is
 * expanded into unit cells ('1' for a bar cell, '0' for a space cell), a wide
 * element taking three cells and a narrow one a single cell, with one narrow
 * space cell between consecutive characters.
 */
module Encoder {

  import opened Wrappers
  import opened Code39Table

  /** The start/stop character that frames every symbol. */
  const StartStop: char := '*'

  /** Cells of a wide element; a narrow element has one. */
  const WideCells: nat := 3

  /** Length of one character's expansion: nine elements, three of them wide. */
  const CharLength: nat := 15

  /** Cells from the start of one character to the start of the next: its expansion and the gap. */
  const Stride: nat := 16

  // ---------------------------------------------------------------------
  // Upper-casing (ASCII letters only)

  function UpperChar(c: char): (u: char)
    ensures 'a' <= c <= 'z' ==> 'A' <= u <= 'Z' && u as int == c as int - 32
    ensures !('a' <= c <= 'z') ==> u == c
  {
    if 'a' <= c <= 'z' then (c as int - 32) as char else c
  }

  function Upper(s: string): (u: string)
    ensures |u| == |s|
    ensures forall i :: 0 <= i < |s| ==> u[i] == UpperChar(s[i])
  {
    seq(|s|, i requires 0 <= i < |s| => UpperChar(s[i]))
  }

  /** No lower-case letter is left after upper-casing. */
  lemma UpperHasNoLowerCase(s: string)
    ensures forall i :: 0 <= i < |Upper(s)| ==> !('a' <= Upper(s)[i] <= 'z')
  {
  }

  /** Upper-casing twice is upper-casing once. */
  lemma UpperIdempotent(s: string)
    ensures Upper(Upper(s)) == Upper(s)
  {
  }

  /** The string whose characters are encoded: the upper-cased value between two start/stop characters. */
  function Framed(val: string): (u: string)
    ensures |u| == |val| + 2
    ensures u[0] == StartStop && u[|u| - 1] == StartStop
    ensures u[1..|u| - 1] == Upper(val)
  {
    [StartStop] + Upper(val) + [StartStop]
  }

  // ---------------------------------------------------------------------
  // Expansion of one character

  /** The cell value of element `j`: elements alternate bar, space, bar, ..., starting with a bar. */
  function ElementBit(j: nat): (b: char)
    ensures b == '1' <==> j % 2 == 0
    ensures b == '0' <==> j % 2 == 1
  {
    if j % 2 == 0 then '1' else '0'
  }

  /** Number of cells taken by an element whose flag is `flag`. */
  function ElementWidth(flag: char): (n: nat)
    ensures n == 1 + (WideCells - 1) * Wide(flag)
  {
    if flag == '1' then WideCells else 1
  }

  function Repeat(x: char, n: nat): (r: string)
    ensures |r| == n
    ensures forall k :: 0 <= k < n ==> r[k] == x
  {
    if n == 0 then [] else Repeat(x, n - 1) + [x]
  }

  /** The cells of element `j` of pattern `p`. */
  function ElementCells(p: string, j: nat): string
    requires j < |p|
  {
    Repeat(ElementBit(j), ElementWidth(p[j]))
  }

  /** The cells of the first `j` elements of `p`. */
  function Expand(p: string, j: nat): string
    requires j <= |p|
  {
    if j == 0 then [] else Expand(p, j - 1) + ElementCells(p, j - 1)
  }

  /** The cells of a whole character whose pattern is `p`. */
  function CharCells(p: string): string
    requires WellFormedPattern(p)
  {
    Expand(p, ElementCount)
  }

  /** `s` holds only bar and space cells. */
  predicate IsCells(s: string) {
    forall k :: 0 <= k < |s| ==> s[k] == '0' || s[k] == '1'
  }

  /** Where element `j` of `p` starts: each earlier element takes one cell and a wide one two more. */
  lemma {:induction false} ExpandLength(p: string, j: nat)
    requires j <= |p|
    ensures |Expand(p, j)| == j + (WideCells - 1) * WideIn(p, j)
  {
    if j > 0 {
      ExpandLength(p, j - 1);
    }
  }

  lemma {:induction false} ExpandIsCells(p: string, j: nat)
    requires j <= |p|
    ensures IsCells(Expand(p, j))
  {
    if j > 0 {
      ExpandIsCells(p, j - 1);
      assert Expand(p, j) == Expand(p, j - 1) + ElementCells(p, j - 1);
    }
  }

  /** Expanding more elements only appends cells. */
  lemma {:induction false} ExpandPrefix(p: string, i: nat, j: nat)
    requires i <= j <= |p|
    ensures Expand(p, i) <= Expand(p, j)
  {
    if i < j {
      ExpandPrefix(p, i, j - 1);
    }
  }

  /**
   * Element `j` of a pattern occupies the cells from `j + 2 * (wide elements
   * before it)` on: three cells if its flag is '1', one otherwise, each of them
   * a bar cell if `j` is even and a space cell if `j` is odd.
   */
  lemma ElementPlacement(p: string, j: nat)
    requires WellFormedPattern(p) && j < ElementCount
    ensures var start := j + (WideCells - 1) * WideIn(p, j);
            var width := if p[j] == '1' then WideCells else 1;
            && start + width <= |CharCells(p)|
            && forall k :: start <= k < start + width ==>
                 CharCells(p)[k] == (if j % 2 == 0 then '1' else '0')
  {
    ExpandLength(p, j);
    ExpandPrefix(p, j + 1, ElementCount);
    assert Expand(p, j + 1) == Expand(p, j) + ElementCells(p, j);
  }

  /** A character expands to fifteen cells, and starts and ends with a bar cell. */
  lemma CharCellsShape(p: string)
    requires WellFormedPattern(p)
    ensures |CharCells(p)| == CharLength
    ensures IsCells(CharCells(p))
    ensures CharCells(p)[0] == '1' && CharCells(p)[CharLength - 1] == '1'
  {
    ExpandLength(p, ElementCount);
    ExpandIsCells(p, ElementCount);
    ElementPlacement(p, 0);
    ExpandLength(p, ElementCount - 1);
    assert CharCells(p) == Expand(p, 8) + ElementCells(p, 8);
  }

  // ---------------------------------------------------------------------
  // The whole encoding

  /** The gap after character `i` of a string of `n` characters: one space cell unless it is the last. */
  function Gap(i: nat, n: nat): string {
    if i < n - 1 then "0" else ""
  }

  predicate AllWellFormed(ps: seq<string>) {
    forall k :: 0 <= k < |ps| ==> WellFormedPattern(ps[k])
  }

  /** The pattern the encoder uses for each character of `u`. */
  function Patterns(u: string): (ps: seq<string>)
    ensures |ps| == |u|
    ensures forall k :: 0 <= k < |u| ==> ps[k] == Lookup(u[k])
    ensures AllWellFormed(ps)
  {
    seq(|u|, k requires 0 <= k < |u| => Lookup(u[k]))
  }

  /** The cells of the first `i` characters whose patterns are `ps`, each followed by its gap. */
  function Cells(ps: seq<string>, i: nat): string
    requires i <= |ps| && AllWellFormed(ps)
  {
    if i == 0 then [] else Cells(ps, i - 1) + CharCells(ps[i - 1]) + Gap(i - 1, |ps|)
  }

  /** The pattern the component draws for `val`. */
  function Encoding(val: string): string {
    var ps := Patterns(Framed(val));
    Cells(ps, |ps|)
  }

  /**
   * The two inner loops of the encoder: append the cells of every element of
   * `charPattern` to `pattern0`, three copies of the element's bit for a wide
   * element and one for a narrow one.
   */
  method AppendElements(pattern0: string, charPattern: string) returns (pattern: string)
    requires WellFormedPattern(charPattern)
    ensures pattern == pattern0 + CharCells(charPattern)
  {
    pattern := pattern0;
    for j := 0 to ElementCount
      invariant pattern == pattern0 + Expand(charPattern, j)
    {
      var isWide := charPattern[j] == '1';
      var isBar := j % 2 == 0;
      var bit := if isBar then '1' else '0';
      var count := if isWide then WideCells else 1;
      ghost var start := pattern;
      for k := 0 to count
        invariant pattern == start + Repeat(bit, k)
      {
        pattern := pattern + [bit];
      }
      assert Repeat(bit, count) == ElementCells(charPattern, j);
      assert Expand(charPattern, j + 1) == Expand(charPattern, j) + ElementCells(charPattern, j);
      assert pattern == pattern0 + (Expand(charPattern, j) + ElementCells(charPattern, j));
    }
  }

  /** The encoder: upper-case the value, frame it with start/stop characters and expand the result. */
  method Encode(val: string) returns (pattern: string)
    ensures pattern == Encoding(val)
  {
    var upperVal := Framed(val);
    pattern := EncodeFramed(upperVal);
  }

  /**
   * The encoder's main loop: walk the framed value, append each character's
   * cells (its own pattern, or the space's when the table has none) and a gap
   * cell after every character but the last.
   */
  method EncodeFramed(upperVal: string) returns (pattern: string)
    ensures pattern == Cells(Patterns(upperVal), |upperVal|)
  {
    ghost var ps := Patterns(upperVal);
    pattern := "";
    for i := 0 to |upperVal|
      invariant pattern == Cells(ps, i)
    {
      var charPattern := Lookup(upperVal[i]);
      ghost var before := pattern;
      pattern := AppendElements(pattern, charPattern);
      if i < |upperVal| - 1 {
        pattern := pattern + "0";
      }
      assert pattern == before + CharCells(charPattern) + Gap(i, |upperVal|);
      CellsStep(ps, i);
    }
  }

  lemma CellsStep(ps: seq<string>, i: nat)
    requires i < |ps| && AllWellFormed(ps)
    ensures Cells(ps, i + 1) == Cells(ps, i) + CharCells(ps[i]) + Gap(i, |ps|)
  {
  }

  /** Every character but the last is followed by exactly one gap cell. */
  lemma {:induction false} CellsLength(ps: seq<string>, i: nat)
    requires i <= |ps| && AllWellFormed(ps)
    ensures |Cells(ps, i)| == Stride * i - (if i == |ps| && i > 0 then 1 else 0)
  {
    if i > 0 {
      CellsLength(ps, i - 1);
      CharCellsShape(ps[i - 1]);
    }
  }

  /** Encoding more characters only appends cells. */
  lemma {:induction false} CellsPrefix(ps: seq<string>, i: nat, j: nat)
    requires i <= j <= |ps| && AllWellFormed(ps)
    ensures Cells(ps, i) <= Cells(ps, j)
  {
    if i < j {
      CellsPrefix(ps, i, j - 1);
    }
  }

  /** Character `k` is expanded at cells `16k` to `16k + 14`. */
  lemma CellsBlock(ps: seq<string>, i: nat, k: nat)
    requires k < i <= |ps| && AllWellFormed(ps)
    ensures Stride * k + CharLength <= |Cells(ps, i)|
    ensures Cells(ps, i)[Stride * k .. Stride * k + CharLength] == CharCells(ps[k])
  {
    CellsPrefix(ps, k + 1, i);
    LastBlock(ps, k);
    SliceOfPrefix(Cells(ps, k + 1), Cells(ps, i), Stride * k, Stride * k + CharLength);
  }

  /** The cells of character `k` end the cells of the first `k + 1` characters, but for the gap. */
  lemma LastBlock(ps: seq<string>, k: nat)
    requires k < |ps| && AllWellFormed(ps)
    ensures Stride * k + CharLength <= |Cells(ps, k + 1)|
    ensures Cells(ps, k + 1)[Stride * k .. Stride * k + CharLength] == CharCells(ps[k])
  {
    CellsLength(ps, k);
    CharCellsShape(ps[k]);
    CellsStep(ps, k);
    SliceMiddle(Cells(ps, k), CharCells(ps[k]), Gap(k, |ps|));
  }

  lemma SliceMiddle(a: string, b: string, c: string)
    ensures (a + b + c)[|a| .. |a| + |b|] == b
  {
  }

  lemma SliceOfPrefix(x: string, y: string, lo: nat, hi: nat)
    requires x <= y && lo <= hi <= |x|
    ensures y[lo .. hi] == x[lo .. hi]
  {
  }

  /** Every character but the last is followed by a space cell, at `16k + 15`. */
  lemma CellsGap(ps: seq<string>, i: nat, k: nat)
    requires k < i <= |ps| && k < |ps| - 1 && AllWellFormed(ps)
    ensures Stride * k + CharLength < |Cells(ps, i)|
    ensures Cells(ps, i)[Stride * k + CharLength] == '0'
  {
    CellsPrefix(ps, k + 1, i);
    LastGap(ps, k);
  }

  /** The gap after character `k` ends the cells of the first `k + 1` characters. */
  lemma LastGap(ps: seq<string>, k: nat)
    requires k < |ps| - 1 && AllWellFormed(ps)
    ensures Stride * k + CharLength < |Cells(ps, k + 1)|
    ensures Cells(ps, k + 1)[Stride * k + CharLength] == '0'
  {
    CellsLength(ps, k);
    CharCellsShape(ps[k]);
    CellsStep(ps, k);
  }

  lemma {:induction false} CellsAreCells(ps: seq<string>, i: nat)
    requires i <= |ps| && AllWellFormed(ps)
    ensures IsCells(Cells(ps, i))
  {
    if i > 0 {
      CellsAreCells(ps, i - 1);
      CharCellsShape(ps[i - 1]);
    }
  }

  /** A value of `n` characters gives `16n + 31` cells: `n + 2` characters of 15 cells and `n + 1` gaps. */
  lemma EncodingLength(val: string)
    ensures |Encoding(val)| == Stride * |val| + 2 * CharLength + 1
    ensures |Encoding(val)| == 16 * |val| + 31
  {
    CellsLength(Patterns(Framed(val)), |val| + 2);
  }

  /** The pattern holds only bar ('1') and space ('0') cells. */
  lemma EncodingIsCells(val: string)
    ensures IsCells(Encoding(val))
  {
    CellsAreCells(Patterns(Framed(val)), |val| + 2);
  }

  /** Character `k` of the framed value is expanded at cells `16k` to `16k + 14` of the pattern. */
  lemma EncodingBlocks(val: string, k: nat)
    requires k < |val| + 2
    ensures Stride * k + CharLength <= |Encoding(val)|
    ensures Encoding(val)[Stride * k .. Stride * k + CharLength] == CharCells(Lookup(Framed(val)[k]))
  {
    CellsBlock(Patterns(Framed(val)), |val| + 2, k);
  }

  /** Every character of the framed value but the last is followed by a space cell, at `16k + 15`. */
  lemma EncodingGaps(val: string, k: nat)
    requires k < |val| + 1
    ensures Stride * k + CharLength < |Encoding(val)|
    ensures Encoding(val)[Stride * k + CharLength] == '0'
  {
    CellsGap(Patterns(Framed(val)), |val| + 2, k);
  }

  /** The cells open with the first character's expansion, whose first cell is a bar cell, and a gap. */
  lemma CellsStart(ps: seq<string>)
    requires 2 <= |ps| && AllWellFormed(ps)
    ensures var e := Cells(ps, |ps|);
            && |e| >= 2 * CharLength + 1
            && e[..CharLength] == CharCells(ps[0])
            && e[0] == '1'
            && e[CharLength] == '0'
  {
    var e := Cells(ps, |ps|);
    CellsLength(ps, |ps|);
    CellsBlock(ps, |ps|, 0);
    CellsGap(ps, |ps|, 0);
    CharCellsShape(ps[0]);
    assert e[..CharLength] == e[0..CharLength];
    assert e[0] == e[..CharLength][0];
  }

  /** The cells close with a gap and the last character's expansion, whose last cell is a bar cell. */
  lemma CellsEnd(ps: seq<string>)
    requires 2 <= |ps| && AllWellFormed(ps)
    ensures var e := Cells(ps, |ps|);
            && |e| >= 2 * CharLength + 1
            && e[|e| - CharLength..] == CharCells(ps[|ps| - 1])
            && e[|e| - 1] == '1'
            && e[|e| - CharLength - 1] == '0'
  {
    var e := Cells(ps, |ps|);
    var last := |ps| - 1;
    CellsLength(ps, |ps|);
    CellsBlock(ps, |ps|, last);
    CellsGap(ps, |ps|, last - 1);
    CharCellsShape(ps[last]);
    assert e[|e| - CharLength..] == e[Stride * last .. Stride * last + CharLength];
    assert e[|e| - 1] == e[|e| - CharLength..][CharLength - 1];
  }

  /** The pattern opens with the start/stop character's expansion, whose first cell is a bar cell, and a gap. */
  lemma EncodingStart(val: string)
    ensures var e := Encoding(val);
            && |e| >= 2 * CharLength + 1
            && e[..CharLength] == CharCells(Lookup(StartStop))
            && e[0] == '1'
            && e[CharLength] == '0'
  {
    var ps := Patterns(Framed(val));
    assert Encoding(val) == Cells(ps, |ps|);
    CellsStart(ps);
    assert ps[0] == Lookup(StartStop);
  }

  /** The pattern closes with a gap and the start/stop character's expansion, whose last cell is a bar cell. */
  lemma EncodingEnd(val: string)
    ensures var e := Encoding(val);
            && |e| >= 2 * CharLength + 1
            && e[|e| - CharLength..] == CharCells(Lookup(StartStop))
            && e[|e| - 1] == '1'
            && e[|e| - CharLength - 1] == '0'
  {
    var ps := Patterns(Framed(val));
    assert |ps| == |val| + 2;
    assert Encoding(val) == Cells(ps, |ps|);
    CellsEnd(ps);
    assert ps[|ps| - 1] == Lookup(StartStop);
  }

  // ---------------------------------------------------------------------
  // What the encoding depends on

  /** What a character is encoded as: its own entry, or the space's when it has none. */
  function Canonical(c: char): (d: char)
    ensures Supported(d)
    ensures Lookup(c) == Lookup(d)
  {
    SpaceSupported();
    if Supported(c) then c else ' '
  }

  /** The characters the pattern encodes: the framed value with unsupported characters replaced by spaces. */
  function Encoded(val: string): (u: string)
    ensures |u| == |val| + 2
    ensures forall k :: 0 <= k < |u| ==> u[k] == Canonical(Framed(val)[k])
  {
    var f := Framed(val);
    seq(|f|, k requires 0 <= k < |f| => Canonical(f[k]))
  }

  /** Values that agree once upper-cased and once unsupported characters are replaced are encoded alike. */
  lemma SameEncodedSameEncoding(s: string, t: string)
    requires Encoded(s) == Encoded(t)
    ensures Encoding(s) == Encoding(t)
  {
    var u, v := Framed(s), Framed(t);
    forall k | 0 <= k < |u|
      ensures Lookup(u[k]) == Lookup(v[k])
    {
      assert Encoded(s)[k] == Encoded(t)[k];
    }
    assert Patterns(u) == Patterns(v);
  }

  /** Letters are encoded regardless of case: "abc" and "ABC" give the same pattern. */
  lemma CaseInsensitive(s: string)
    ensures Encoding(s) == Encoding(Upper(s))
  {
    UpperIdempotent(s);
    assert Framed(s) == Framed(Upper(s));
  }

  /** A character the table does not hold is drawn exactly as a space would be, and never fails. */
  lemma UnsupportedAsSpace(s: string, i: nat)
    requires i < |s| && !Supported(UpperChar(s[i]))
    ensures Encoding(s) == Encoding(s[i := ' '])
  {
    var t := s[i := ' '];
    assert Upper(t) == Upper(s)[i := ' '];
    assert Framed(t) == Framed(s)[i + 1 := ' '];
    assert Encoded(s) == Encoded(t);
    SameEncodedSameEncoding(s, t);
  }
}
