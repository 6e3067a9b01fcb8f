/**
 * Spreadsheet cells as the extractor sees them, and how a population count is
 * read from one: Python's `int(float(str(cell).replace(',', '')))`, restricted
 * to cells whose text is a decimal digit string once commas are removed.
 */
module Cells {
  import opened Decimal

  /**
   * A cell of the sheet. `Missing` is an empty (NaN) cell; `Num(n)` a numeric
   * cell holding the whole number n; `Str(s)` a text cell.
   */
  datatype Cell = Missing | Num(n: nat) | Str(s: string)

  /** Python's `s.replace(',', '')`. */
  function StripCommas(s: string): (r: string)
    ensures |r| <= |s|
    ensures forall c :: c in r <==> c in s && c != ','
    decreases |s|
  {
    if s == [] then []
    else (if s[0] == ',' then [] else [s[0]]) + StripCommas(s[1..])
  }

  /** Removing commas from two pieces is removing them from the whole. */
  lemma {:induction false} StripCommasAppend(a: string, b: string)
    ensures StripCommas(a + b) == StripCommas(a) + StripCommas(b)
    decreases |a|
  {
    if a != [] {
      assert (a + b)[1..] == a[1..] + b;
      StripCommasAppend(a[1..], b);
    } else {
      assert a + b == b;
    }
  }

  /** A string without commas is unchanged. */
  lemma {:induction false} StripCommasNoComma(s: string)
    requires ',' !in s
    ensures StripCommas(s) == s
    decreases |s|
  {
    if s != [] {
      assert s[0] != ',';
      assert ',' !in s[1..];
      StripCommasNoComma(s[1..]);
    }
  }

  /** A thousands separator anywhere in the text makes no difference. */
  lemma CommaIgnored(a: string, b: string)
    ensures StripCommas(a + [','] + b) == StripCommas(a + b)
  {
    StripCommasAppend(a + [','], b);
    StripCommasAppend(a, [',']);
    StripCommasAppend(a, b);
    assert StripCommas([',']) == [];
  }

  /** Python's `str(cell)` for the cells the count parser reads. */
  function CellText(c: Cell): (t: string)
    ensures c.Num? ==> |t| > 0 && AllDigits(t)
    ensures c.Str? ==> t == c.s
  {
    match c
    case Missing => "nan"
    case Num(n) => DecimalString(n)
    case Str(s) => s
  }

  /** The cell is present and its text, commas removed, is a nonempty digit string. */
  predicate IsCount(c: Cell) {
    !c.Missing? && |StripCommas(CellText(c))| > 0 && AllDigits(StripCommas(CellText(c)))
  }

  /** The population count a cell holds: its text with commas removed, read in decimal. */
  function CountValue(c: Cell): (v: nat)
    ensures c.Num? ==> v == c.n
  {
    if c.Num? then
      DecimalRoundTrip(c.n);
      assert ',' !in DecimalString(c.n);
      StripCommasNoComma(DecimalString(c.n));
      DecimalValue(StripCommas(CellText(c)))
    else
      DecimalValue(StripCommas(CellText(c)))
  }

  /** A numeric cell reads as the number it holds. */
  lemma NumCellCount(n: nat)
    ensures IsCount(Num(n)) && CountValue(Num(n)) == n
  {
    DecimalRoundTrip(n);
    var t := DecimalString(n);
    assert ',' !in t;
    StripCommasNoComma(t);
  }

  /** The text `1,234` reads as 1234. */
  lemma CommaCountExample()
    ensures IsCount(Str("1,234")) && CountValue(Str("1,234")) == 1234
  {
    StripCommasExample();
    assert "1234"[..3] == "123";
    ThreeDigitValue("123");
    assert DecimalValue("1234") == 1234;
    assert AllDigits("1234");
  }

  lemma StripCommasExample()
    ensures StripCommas("1,234") == "1234"
  {
    assert "1,234" == "1" + [','] + "234";
    CommaIgnored("1", "234");
    assert "1" + "234" == "1234";
    StripCommasNoComma("1234");
  }
}
