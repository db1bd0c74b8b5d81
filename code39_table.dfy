/**
 * The Code 39 character table used by the barcode component: each supported
 * character maps to nine elements (five bars and four spaces, alternating,
 * starting with a bar), written as '1' for a wide element and '0' for a
 * narrow one.  This is the character table of ISO/IEC 16388 restricted to
 * the digits, the capital letters and "- . space / *"; the standard's
 * "$", "+" and "%" are not in it.
 */
module Code39Table {

  import opened Wrappers

  /** Number of elements in one character of the symbology. */
  const ElementCount: nat := 9

  /** Number of wide elements in every character of the symbology. */
  const WideCount: nat := 3

  /** A pattern flag: '1' for a wide element, '0' for a narrow one. */
  predicate IsFlag(x: char) {
    x == '0' || x == '1'
  }

  function Wide(x: char): (n: nat)
    ensures n == 1 <==> x == '1'
    ensures n <= 1
  {
    if x == '1' then 1 else 0
  }

  /** Number of wide flags among the first `j` flags of `p`. */
  function WideIn(p: string, j: nat): (n: nat)
    requires j <= |p|
    ensures n <= j
  {
    if j == 0 then 0 else WideIn(p, j - 1) + Wide(p[j - 1])
  }

  /** A pattern is nine wide/narrow flags, three of them wide. */
  predicate WellFormedPattern(p: string) {
    && |p| == ElementCount
    && (forall j :: 0 <= j < |p| ==> IsFlag(p[j]))
    && WideIn(p, |p|) == WideCount
  }

  /** The nine flags of `p` read as a binary number, the first flag most significant. */
  function Value(p: string): (v: nat)
    requires |p| == 9
    ensures v < 512
  {
    256 * Wide(p[0]) + 128 * Wide(p[1]) + 64 * Wide(p[2]) + 32 * Wide(p[3]) + 16 * Wide(p[4])
    + 8 * Wide(p[5]) + 4 * Wide(p[6]) + 2 * Wide(p[7]) + Wide(p[8])
  }

  /**
   * WellFormedPattern spelled out flag by flag, which the verifier checks
   * cheaply on a literal.
   */
  predicate Checked(p: string) {
    && |p| == 9
    && IsFlag(p[0]) && IsFlag(p[1]) && IsFlag(p[2]) && IsFlag(p[3]) && IsFlag(p[4])
    && IsFlag(p[5]) && IsFlag(p[6]) && IsFlag(p[7]) && IsFlag(p[8])
    && Wide(p[0]) + Wide(p[1]) + Wide(p[2]) + Wide(p[3]) + Wide(p[4])
       + Wide(p[5]) + Wide(p[6]) + Wide(p[7]) + Wide(p[8]) == 3
  }

  lemma CheckedIsWellFormed(p: string)
    requires Checked(p)
    ensures WellFormedPattern(p)
  {
    assert WideIn(p, 9) == WideIn(p, 8) + Wide(p[8]);
    assert WideIn(p, 8) == WideIn(p, 7) + Wide(p[7]);
    assert WideIn(p, 7) == WideIn(p, 6) + Wide(p[6]);
    assert WideIn(p, 6) == WideIn(p, 5) + Wide(p[5]);
    assert WideIn(p, 5) == WideIn(p, 4) + Wide(p[4]);
    assert WideIn(p, 4) == WideIn(p, 3) + Wide(p[3]);
    assert WideIn(p, 3) == WideIn(p, 2) + Wide(p[2]);
    assert WideIn(p, 2) == WideIn(p, 1) + Wide(p[1]);
  }

  /** The entries for the digits. */
  const Digits: seq<(char, string)> := [
    ('0', "000110100"),
    ('1', "100100001"),
    ('2', "001100001"),
    ('3', "101100000"),
    ('4', "000110001"),
    ('5', "100110000"),
    ('6', "001110000"),
    ('7', "000100101"),
    ('8', "100100100"),
    ('9', "001100100")
  ]

  /** The entries for the letters A to J. */
  const LettersAToJ: seq<(char, string)> := [
    ('A', "100001001"),
    ('B', "001001001"),
    ('C', "101001000"),
    ('D', "000011001"),
    ('E', "100011000"),
    ('F', "001011000"),
    ('G', "000001101"),
    ('H', "100001100"),
    ('I', "001001100"),
    ('J', "000011100")
  ]

  /** The entries for the letters K to T. */
  const LettersKToT: seq<(char, string)> := [
    ('K', "100000011"),
    ('L', "001000011"),
    ('M', "101000010"),
    ('N', "000010011"),
    ('O', "100010010"),
    ('P', "001010010"),
    ('Q', "000000111"),
    ('R', "100000110"),
    ('S', "001000110"),
    ('T', "000010110")
  ]

  /** The entries for the letters U to Z. */
  const LettersUToZ: seq<(char, string)> := [
    ('U', "110000001"),
    ('V', "011000001"),
    ('W', "111000000"),
    ('X', "010010001"),
    ('Y', "110010000"),
    ('Z', "011010000")
  ]

  /** The entries for the symbols '-', '.', ' ', '/' and the start/stop character '*'. */
  const Symbols: seq<(char, string)> := [
    ('-', "010000101"),
    ('.', "110000100"),
    (' ', "011000100"),
    ('/', "010100010"),
    ('*', "010010100")
  ]

  /** The pattern of the first entry of `entries` whose character is `c`, if any. */
  function Find(entries: seq<(char, string)>, c: char): (r: Option<string>)
    ensures r.Some? ==> (c, r.value) in entries
    ensures r.None? ==> forall e :: e in entries ==> e.0 != c
  {
    if entries == [] then None
    else if entries[0].0 == c then Some(entries[0].1)
    else Find(entries[1..], c)
  }

  /**
   * The table as a partial map: `None` for a character it has no entry for.
   * The runs above hold disjoint ranges of characters, so the run to search
   * is picked by the character's range.
   */
  function Table(c: char): Option<string> {
    if '0' <= c <= '9' then Find(Digits, c)
    else if 'A' <= c <= 'J' then Find(LettersAToJ, c)
    else if 'K' <= c <= 'T' then Find(LettersKToT, c)
    else if 'U' <= c <= 'Z' then Find(LettersUToZ, c)
    else Find(Symbols, c)
  }

  predicate Supported(c: char) {
    Table(c).Some?
  }

  /** The character whose pattern has the given `Value`, if any. */
  function CharOfValue(v: nat): Option<char> {
    match v
    case 52 => Some('0')
    case 289 => Some('1')
    case 97 => Some('2')
    case 352 => Some('3')
    case 49 => Some('4')
    case 304 => Some('5')
    case 112 => Some('6')
    case 37 => Some('7')
    case 292 => Some('8')
    case 100 => Some('9')
    case 265 => Some('A')
    case 73 => Some('B')
    case 328 => Some('C')
    case 25 => Some('D')
    case 280 => Some('E')
    case 88 => Some('F')
    case 13 => Some('G')
    case 268 => Some('H')
    case 76 => Some('I')
    case 28 => Some('J')
    case 259 => Some('K')
    case 67 => Some('L')
    case 322 => Some('M')
    case 19 => Some('N')
    case 274 => Some('O')
    case 82 => Some('P')
    case 7 => Some('Q')
    case 262 => Some('R')
    case 70 => Some('S')
    case 22 => Some('T')
    case 385 => Some('U')
    case 193 => Some('V')
    case 448 => Some('W')
    case 145 => Some('X')
    case 400 => Some('Y')
    case 208 => Some('Z')
    case 133 => Some('-')
    case 388 => Some('.')
    case 196 => Some(' ')
    case 162 => Some('/')
    case 148 => Some('*')
    case _ => None
  }

  /** What is checked of every entry: a well-formed pattern that is recovered from its value. */
  predicate EntryOk(e: (char, string)) {
    Checked(e.1) && CharOfValue(Value(e.1)) == Some(e.0)
  }

  lemma DigitsChecked()
    ensures forall i :: 0 <= i < |Digits| ==> Checked(Digits[i].1)
  {
  }

  lemma DigitsRecovered()
    ensures forall i :: 0 <= i < |Digits| ==> CharOfValue(Value(Digits[i].1)) == Some(Digits[i].0)
  {
    DigitsRecoveredFrom(0);
    DigitsRecoveredFrom(5);
  }

  /** Five of the digits are recovered from their values. */
  lemma DigitsRecoveredFrom(lo: nat)
    requires lo == 0 || lo == 5
    ensures forall i :: lo <= i < lo + 5 ==> CharOfValue(Value(Digits[i].1)) == Some(Digits[i].0)
  {
  }

  lemma LettersAToJChecked()
    ensures forall i :: 0 <= i < |LettersAToJ| ==> Checked(LettersAToJ[i].1)
  {
  }

  lemma LettersAToJRecovered()
    ensures forall i :: 0 <= i < |LettersAToJ| ==> CharOfValue(Value(LettersAToJ[i].1)) == Some(LettersAToJ[i].0)
  {
    LettersAToJRecoveredFrom(0);
    LettersAToJRecoveredFrom(5);
  }

  /** Five of the letters A to J are recovered from their values. */
  lemma LettersAToJRecoveredFrom(lo: nat)
    requires lo == 0 || lo == 5
    ensures forall i :: lo <= i < lo + 5 ==> CharOfValue(Value(LettersAToJ[i].1)) == Some(LettersAToJ[i].0)
  {
  }

  lemma LettersKToTChecked()
    ensures forall i :: 0 <= i < |LettersKToT| ==> Checked(LettersKToT[i].1)
  {
  }

  lemma LettersKToTRecovered()
    ensures forall i :: 0 <= i < |LettersKToT| ==> CharOfValue(Value(LettersKToT[i].1)) == Some(LettersKToT[i].0)
  {
    LettersKToTRecoveredFrom(0);
    LettersKToTRecoveredFrom(5);
  }

  /** Five of the letters K to T are recovered from their values. */
  lemma LettersKToTRecoveredFrom(lo: nat)
    requires lo == 0 || lo == 5
    ensures forall i :: lo <= i < lo + 5 ==> CharOfValue(Value(LettersKToT[i].1)) == Some(LettersKToT[i].0)
  {
  }

  lemma LettersUToZChecked()
    ensures forall i :: 0 <= i < |LettersUToZ| ==> Checked(LettersUToZ[i].1)
  {
  }

  lemma LettersUToZRecovered()
    ensures forall i :: 0 <= i < |LettersUToZ| ==> CharOfValue(Value(LettersUToZ[i].1)) == Some(LettersUToZ[i].0)
  {
  }

  lemma SymbolsChecked()
    ensures forall i :: 0 <= i < |Symbols| ==> Checked(Symbols[i].1)
  {
  }

  lemma SymbolsRecovered()
    ensures forall i :: 0 <= i < |Symbols| ==> CharOfValue(Value(Symbols[i].1)) == Some(Symbols[i].0)
  {
  }

  lemma TableOk(c: char)
    requires Supported(c)
    ensures EntryOk((c, Table(c).value))
  {
    if '0' <= c <= '9' {
      DigitsChecked();
      DigitsRecovered();
    } else if 'A' <= c <= 'J' {
      LettersAToJChecked();
      LettersAToJRecovered();
    } else if 'K' <= c <= 'T' {
      LettersKToTChecked();
      LettersKToTRecovered();
    } else if 'U' <= c <= 'Z' {
      LettersUToZChecked();
      LettersUToZRecovered();
    } else {
      SymbolsChecked();
      SymbolsRecovered();
    }
  }

  /** Every entry of the table has nine flags, three of them wide, and is recovered from its value. */
  lemma TableEntry(c: char)
    requires Supported(c)
    ensures WellFormedPattern(Table(c).value)
    ensures CharOfValue(Value(Table(c).value)) == Some(c)
  {
    TableOk(c);
    CheckedIsWellFormed(Table(c).value);
  }

  /** The space has an entry. */
  lemma SpaceSupported()
    ensures Supported(' ')
  {
    assert Symbols[2] == (' ', "011000100");
  }

  /** The characters the table holds: the digits, the capital letters and "- . space / *". */
  predicate InAlphabet(c: char) {
    '0' <= c <= '9' || 'A' <= c <= 'Z' || c == '-' || c == '.' || c == ' ' || c == '/' || c == '*'
  }

  /** `Find` finds every character that some entry has. */
  lemma {:induction false} FindFinds(entries: seq<(char, string)>, c: char, i: nat)
    requires i < |entries| && entries[i].0 == c
    ensures Find(entries, c).Some?
  {
    if entries[0].0 != c {
      FindFinds(entries[1..], c, i - 1);
    }
  }

  /** Every digit has an entry: the digit run lists them in order. */
  lemma DigitSupported(c: char)
    requires '0' <= c <= '9'
    ensures Supported(c)
  {
    assert forall i :: 0 <= i < |Digits| ==> Digits[i].0 == ('0' as int + i) as char;
    FindFinds(Digits, c, c as int - '0' as int);
  }

  /** Every letter from A to J has an entry. */
  lemma LetterAToJSupported(c: char)
    requires 'A' <= c <= 'J'
    ensures Supported(c)
  {
    assert forall i :: 0 <= i < |LettersAToJ| ==> LettersAToJ[i].0 == ('A' as int + i) as char;
    FindFinds(LettersAToJ, c, c as int - 'A' as int);
  }

  /** Every letter from K to T has an entry. */
  lemma LetterKToTSupported(c: char)
    requires 'K' <= c <= 'T'
    ensures Supported(c)
  {
    assert forall i :: 0 <= i < |LettersKToT| ==> LettersKToT[i].0 == ('K' as int + i) as char;
    FindFinds(LettersKToT, c, c as int - 'K' as int);
  }

  /** Every letter from U to Z has an entry. */
  lemma LetterUToZSupported(c: char)
    requires 'U' <= c <= 'Z'
    ensures Supported(c)
  {
    assert forall i :: 0 <= i < |LettersUToZ| ==> LettersUToZ[i].0 == ('U' as int + i) as char;
    FindFinds(LettersUToZ, c, c as int - 'U' as int);
  }

  /** Outside the digits and the capital letters, exactly "- . space / *" have an entry. */
  lemma SymbolSupportedIff(c: char)
    requires !('0' <= c <= '9' || 'A' <= c <= 'Z')
    ensures Supported(c) <==> (c == '-' || c == '.' || c == ' ' || c == '/' || c == '*')
  {
    assert Table(c) == Find(Symbols, c);
    if Supported(c) {
      assert (c, Table(c).value) in Symbols;
    }
    if c == '-' || c == '.' || c == ' ' || c == '/' || c == '*' {
      assert forall i :: 0 <= i < |Symbols| ==> Symbols[i].0 == "-. /*"[i];
      FindFinds(Symbols, c, if c == '-' then 0 else if c == '.' then 1 else if c == ' ' then 2 else if c == '/' then 3 else 4);
    }
  }

  /** A character has an entry exactly when it is in the alphabet. */
  lemma SupportedIff(c: char)
    ensures Supported(c) <==> InAlphabet(c)
  {
    if '0' <= c <= '9' {
      DigitSupported(c);
    } else if 'A' <= c <= 'J' {
      LetterAToJSupported(c);
    } else if 'K' <= c <= 'T' {
      LetterKToTSupported(c);
    } else if 'U' <= c <= 'Z' {
      LetterUToZSupported(c);
    } else {
      SymbolSupportedIff(c);
    }
  }

  /** '$', '+' and '%' of full Code 39 have no entry, nor have '@' and the lower-case letters. */
  lemma MissingCharacters()
    ensures !Supported('$') && !Supported('+') && !Supported('%')
    ensures !Supported('@')
    ensures forall c :: 'a' <= c <= 'z' ==> !Supported(c)
  {
    SupportedIff('$');
    SupportedIff('+');
    SupportedIff('%');
    SupportedIff('@');
    forall c | 'a' <= c <= 'z'
      ensures !Supported(c)
    {
      SupportedIff(c);
    }
  }

  /** The table's own pattern for `c`, or the space's pattern when it has none. */
  function Lookup(c: char): (p: string)
    ensures WellFormedPattern(p)
    ensures Supported(c) ==> Table(c) == Some(p)
    ensures !Supported(c) ==> Table(' ') == Some(p)
  {
    if Supported(c) then
      TableEntry(c);
      Table(c).value
    else
      SpaceSupported();
      TableEntry(' ');
      Table(' ').value
  }

  /** The inverse of the table: the character whose pattern is `p`, if any. */
  function CharOf(p: string): (r: Option<char>)
    ensures r.Some? ==> Table(r.value) == Some(p)
  {
    if |p| != ElementCount then None
    else match CharOfValue(Value(p))
      case Some(c) => if Table(c) == Some(p) then Some(c) else None
      case None => None
  }

  /** Every entry is recovered from its pattern. */
  lemma CharOfTable(c: char)
    requires Supported(c)
    ensures CharOf(Table(c).value) == Some(c)
  {
    TableEntry(c);
  }

  /** No two characters of the table share a pattern. */
  lemma TableInjective(a: char, b: char)
    requires Supported(a) && Supported(b) && a != b
    ensures Table(a) != Table(b)
  {
    CharOfTable(a);
    CharOfTable(b);
  }

}
