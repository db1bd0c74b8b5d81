/**
 * A reader for the cell strings the encoder produces.  The component itself
 * only draws barcodes; this module is the inverse it is checked against:
 * every encoded value is read back as the characters it encodes, so two
 * values give the same pattern exactly when they encode the same characters.
 */
module Decoder {

  import opened Wrappers
  import opened Code39Table
  import opened Encoder

  // ---------------------------------------------------------------------
  // One character

  /**
   * The flags of the `j` elements whose cells are exactly `cells[..end]`,
   * read from the end: element `j - 1` is wide when the three cells before
   * `end` carry its bit, and narrow when only the last one does.
   */
  function Flags(cells: string, end: nat, j: nat): (r: Option<string>)
    requires end <= |cells|
    ensures r.Some? ==> |r.value| == j
  {
    if j == 0 then
      if end == 0 then Some([]) else None
    else
      var b := ElementBit(j - 1);
      if end >= WideCells && cells[end - 3] == b && cells[end - 2] == b && cells[end - 1] == b then
        match Flags(cells, end - WideCells, j - 1)
        case Some(f) => Some(f + ['1'])
        case None => None
      else if end >= 1 && cells[end - 1] == b then
        match Flags(cells, end - 1, j - 1)
        case Some(f) => Some(f + ['0'])
        case None => None
      else
        None
  }

  /** Where the cells of the first `j` elements of `p` end inside the character's cells: one cell per element, two more per wide one. */
  function End(p: string, j: nat): (n: nat)
    requires WellFormedPattern(p) && j <= ElementCount
    ensures n <= |CharCells(p)|
  {
    if j == 0 then 0
    else
      ElementPlacement(p, j - 1);
      j + (WideCells - 1) * WideIn(p, j)
  }

  /**
   * Element `j - 1` read back: the cells from `start` on that carry its bit,
   * as many as its flag asks for, after a cell that does not, are read as
   * that flag.
   */
  lemma FlagsElement(cells: string, start: nat, j: nat, flag: char, f: string)
    requires 0 < j && IsFlag(flag) && start + ElementWidth(flag) <= |cells|
    requires forall k :: start <= k < start + ElementWidth(flag) ==> cells[k] == ElementBit(j - 1)
    requires 0 < start ==> cells[start - 1] != ElementBit(j - 1)
    requires Flags(cells, start, j - 1) == Some(f)
    ensures Flags(cells, start + ElementWidth(flag), j) == Some(f + [flag])
  {
    if flag == '1' {
      assert cells[start] == ElementBit(j - 1) && cells[start + 1] == ElementBit(j - 1)
        && cells[start + 2] == ElementBit(j - 1);
    } else {
      assert cells[start] == ElementBit(j - 1);
    }
  }

  /** Reading one more element back from a character's cells: the step of `FlagsOfCharCells`. */
  lemma FlagsStep(p: string, j: nat)
    requires WellFormedPattern(p) && 0 < j <= ElementCount
    requires Flags(CharCells(p), End(p, j - 1), j - 1) == Some(p[..j - 1])
    ensures Flags(CharCells(p), End(p, j), j) == Some(p[..j])
  {
    var cells := CharCells(p);
    var start := End(p, j - 1);
    ElementPlacement(p, j - 1);
    assert IsFlag(p[j - 1]);
    assert End(p, j) == start + ElementWidth(p[j - 1]);
    if 0 < start {
      assert 1 < j;
      ElementPlacement(p, j - 2);
      BitsAlternate(j - 2);
      assert cells[start - 1] == ElementBit(j - 2);
    }
    FlagsElement(cells, start, j, p[j - 1], p[..j - 1]);
    PrefixStep(p, j);
    assert Flags(cells, start + ElementWidth(p[j - 1]), j) == Some(p[..j]);
  }

  /** Neighbouring elements have different bits. */
  lemma BitsAlternate(j: nat)
    ensures ElementBit(j) != ElementBit(j + 1)
  {
  }

  lemma PrefixStep(p: string, j: nat)
    requires 0 < j <= |p|
    ensures p[..j] == p[..j - 1] + [p[j - 1]]
  {
  }

  /** Reading the cells of the first `j` elements of a pattern gives those flags back. */
  lemma {:induction false} FlagsOfCharCells(p: string, j: nat)
    requires WellFormedPattern(p) && j <= ElementCount
    ensures Flags(CharCells(p), End(p, j), j) == Some(p[..j])
  {
    if j > 0 {
      FlagsOfCharCells(p, j - 1);
      FlagsStep(p, j);
    } else {
      assert End(p, 0) == 0;
    }
  }

  /** The character whose cells are `cells`, if any. */
  function DecodeChar(cells: string): Option<char> {
    match Flags(cells, |cells|, ElementCount)
    case Some(p) => CharOf(p)
    case None => None
  }

  /** Every character of the table is read back from its cells. */
  lemma DecodeCharCells(c: char)
    requires Supported(c)
    ensures DecodeChar(CharCells(Lookup(c))) == Some(c)
  {
    var p := Lookup(c);
    FlagsOfCharCells(p, ElementCount);
    CharCellsShape(p);
    assert End(p, ElementCount) == |CharCells(p)|;
    assert p[..ElementCount] == p;
    CharOfTable(c);
  }

  /** A character is read back from the cells it is drawn with as the character it is encoded as. */
  lemma DecodeLookup(c: char)
    ensures DecodeChar(CharCells(Lookup(c))) == Some(Canonical(c))
  {
    DecodeCharCells(Canonical(c));
  }

  // ---------------------------------------------------------------------
  // A whole pattern

  /** The cells of character `k` of a pattern. */
  function Block(e: string, k: nat): (b: string)
    requires Stride * k + CharLength <= |e|
    ensures |b| == CharLength
  {
    e[Stride * k .. Stride * k + CharLength]
  }

  /** The first `n` characters of the pattern `e`, read block by block. */
  function DecodeBlocks(e: string, n: nat): (r: Option<string>)
    requires Stride * n <= |e| + 1
    ensures r.Some? ==> |r.value| == n
  {
    if n == 0 then Some([])
    else
      match DecodeBlocks(e, n - 1)
      case None => None
      case Some(u) =>
        match DecodeChar(Block(e, n - 1))
        case None => None
        case Some(c) => Some(u + [c])
  }

  /** Every block but the last is followed by a space cell. */
  predicate GapsOk(e: string, n: nat)
    requires Stride * n <= |e| + 1
  {
    forall k :: 0 <= k < n - 1 ==> e[Stride * k + CharLength] == '0'
  }

  /**
   * The characters a pattern encodes, start/stop characters included: `None`
   * unless it is a whole number of blocks, at least two, separated by space
   * cells, each of them a character of the table.
   */
  function Decode(e: string): Option<string> {
    if |e| % Stride != CharLength || |e| < Stride + CharLength then None
    else
      var n := (|e| + 1) / Stride;
      if GapsOk(e, n) then DecodeBlocks(e, n) else None
  }

  /** Blocks that each read as a character are read, in order, as those characters. */
  lemma {:induction false} DecodeBlocksOf(e: string, u: string, n: nat)
    requires Stride * n <= |e| + 1 && n <= |u|
    requires forall k :: 0 <= k < n ==> DecodeChar(Block(e, k)) == Some(u[k])
    ensures DecodeBlocks(e, n) == Some(u[..n])
  {
    if n > 0 {
      DecodeBlocksOf(e, u, n - 1);
      assert DecodeChar(Block(e, n - 1)) == Some(u[n - 1]);
      assert u[..n] == u[..n - 1] + [u[n - 1]];
    }
  }

  /** Block `k` of the pattern drawn for `val` reads as character `k` of the characters it encodes. */
  lemma BlockOfEncoding(val: string, k: nat)
    requires k < |val| + 2
    ensures Stride * k + CharLength <= |Encoding(val)|
    ensures DecodeChar(Block(Encoding(val), k)) == Some(Encoded(val)[k])
  {
    EncodingBlocks(val, k);
    DecodeLookup(Framed(val)[k]);
  }

  /** A pattern of `n` blocks and `n - 1` gaps has `16n - 1` cells. */
  lemma BlockCount(n: nat)
    requires 1 <= n
    ensures (Stride * n - 1) % Stride == CharLength
    ensures (Stride * n - 1 + 1) / Stride == n
  {
  }

  /** A pattern of whole blocks separated by space cells, each read as a character, is read as those characters. */
  lemma DecodeOf(e: string, u: string)
    requires 2 <= |u| && |e| == Stride * |u| - 1
    requires GapsOk(e, |u|)
    requires forall k :: 0 <= k < |u| ==> DecodeChar(Block(e, k)) == Some(u[k])
    ensures Decode(e) == Some(u)
  {
    BlockCount(|u|);
    assert |e| % Stride == CharLength && (|e| + 1) / Stride == |u|;
    DecodeBlocksOf(e, u, |u|);
    assert u[..|u|] == u;
    assert GapsOk(e, (|e| + 1) / Stride);
    assert DecodeBlocks(e, (|e| + 1) / Stride) == Some(u);
  }

  lemma GapsOfEncoding(val: string)
    ensures Stride * (|val| + 2) <= |Encoding(val)| + 1
    ensures GapsOk(Encoding(val), |val| + 2)
  {
    EncodingLength(val);
    forall k | 0 <= k < |val| + 1
      ensures Encoding(val)[Stride * k + CharLength] == '0'
    {
      EncodingGaps(val, k);
    }
  }

  lemma BlocksOfEncoding(val: string)
    ensures Stride * (|val| + 2) <= |Encoding(val)| + 1
    ensures forall k :: 0 <= k < |val| + 2 ==> DecodeChar(Block(Encoding(val), k)) == Some(Encoded(val)[k])
  {
    EncodingLength(val);
    forall k | 0 <= k < |val| + 2
      ensures DecodeChar(Block(Encoding(val), k)) == Some(Encoded(val)[k])
    {
      BlockOfEncoding(val, k);
    }
  }

  /** Reading the pattern drawn for `val` gives the characters it encodes. */
  lemma DecodeEncoding(val: string)
    ensures Decode(Encoding(val)) == Some(Encoded(val))
  {
    EncodingLength(val);
    GapsOfEncoding(val);
    BlocksOfEncoding(val);
    DecodeOf(Encoding(val), Encoded(val));
  }

  /** Two values give the same pattern exactly when they encode the same characters. */
  lemma SameEncodingIff(s: string, t: string)
    ensures Encoding(s) == Encoding(t) <==> Encoded(s) == Encoded(t)
  {
    if Encoding(s) == Encoding(t) {
      DecodeEncoding(s);
      DecodeEncoding(t);
    }
    if Encoded(s) == Encoded(t) {
      SameEncodedSameEncoding(s, t);
    }
  }
}
