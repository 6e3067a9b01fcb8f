/**
 * What the extractor reads off a spreadsheet's file name: the reporting year
 * (a Republic-of-China era year written as three digits before 年), the
 * name of its CSV mirror (every `.xls` rewritten to `.csv`), and whether the
 * aggregator picks the file up at all (the name ends in `.xls`).
 */
module FileNames {
  import opened Wrappers
  import opened Decimal

  /** Republic-era year y is Gregorian year y + 1911. */
  const RocEraOffset := 1911

  // ---------------------------------------------------------------- year

  /** Three ASCII digits immediately followed by 年 start at index i of s. */
  predicate YearTokenAt(s: string, i: int) {
    0 <= i && i + 4 <= |s| &&
    IsAsciiDigit(s[i]) && IsAsciiDigit(s[i + 1]) && IsAsciiDigit(s[i + 2]) && s[i + 3] == '年'
  }

  /** i is where a left-to-right regular-expression search for the token first succeeds. */
  predicate LeftmostYearToken(s: string, i: int) {
    YearTokenAt(s, i) && forall j :: 0 <= j < i ==> !YearTokenAt(s, j)
  }

  /** The first index at or after `from` where a year token starts. */
  function FindYearToken(s: string, from: nat): (r: Option<nat>)
    ensures r.Some? ==> from <= r.value && YearTokenAt(s, r.value)
    ensures r.Some? ==> forall j :: from <= j < r.value ==> !YearTokenAt(s, j)
    ensures r.None? ==> forall j :: from <= j ==> !YearTokenAt(s, j)
    decreases |s| - from
  {
    if |s| < from + 4 then None
    else if YearTokenAt(s, from) then Some(from)
    else FindYearToken(s, from + 1)
  }

  /**
   * The Gregorian year named by a file name, or None when the name holds no
   * year token: the leftmost token's three digits as a number, plus 1911.
   */
  function ParseYear(name: string): (r: Option<int>)
    ensures r.Some? <==> exists i :: YearTokenAt(name, i)
    ensures r.Some? ==>
      exists i :: LeftmostYearToken(name, i) && r.value == DecimalValue(name[i..i + 3]) + RocEraOffset
    ensures r.Some? ==> RocEraOffset <= r.value < RocEraOffset + 1000
  {
    match FindYearToken(name, 0)
    case None => None
    case Some(i) =>
      ThreeDigitValue(name[i..i + 3]);
      assert LeftmostYearToken(name, i);
      Some(DecimalValue(name[i..i + 3]) + RocEraOffset)
  }

  /** The year is read from the digits of the leftmost token, whichever other tokens follow. */
  lemma ParseYearAt(name: string, i: int)
    requires LeftmostYearToken(name, i)
    ensures ParseYear(name) ==
      Some(100 * DigitValue(name[i]) + 10 * DigitValue(name[i + 1]) + DigitValue(name[i + 2]) + RocEraOffset)
  {
    var r := FindYearToken(name, 0);
    assert YearTokenAt(name, i);
    assert r.Some?;
    assert r.value == i;
    ThreeDigitValue(name[i..i + 3]);
  }

  /** A file of the 112th Republic year is a 2023 file. */
  lemma ParseYearExample()
    ensures ParseYear("人口112年.xls") == Some(2023)
  {
    var name := "人口112年.xls";
    assert !YearTokenAt(name, 0) && !YearTokenAt(name, 1) && YearTokenAt(name, 2);
    assert FindYearToken(name, 0) == Some(2);
    ThreeDigitValue(name[2..5]);
  }

  /** Digits before the one that starts the leftmost token do not count: 1112年 is year 112. */
  lemma ParseYearLongerRunExample()
    ensures ParseYear("1112年") == Some(2023)
  {
    var name := "1112年";
    assert !YearTokenAt(name, 0) && YearTokenAt(name, 1);
    assert FindYearToken(name, 0) == Some(1);
    ThreeDigitValue(name[1..4]);
  }

  // ---------------------------------------------------------- extension

  /** The four characters `.xls` start at index i of s. */
  predicate XlsAt(s: string, i: int) {
    0 <= i && i + 4 <= |s| && s[i] == '.' && s[i + 1] == 'x' && s[i + 2] == 'l' && s[i + 3] == 's'
  }

  /** Python's `s.endswith('.xls')`. */
  predicate EndsWithXls(s: string)
    ensures EndsWithXls(s) <==> 4 <= |s| && s[|s| - 4..] == ".xls"
  {
    4 <= |s| && XlsAt(s, |s| - 4)
  }

  /**
   * Python's `s.replace('.xls', '.csv')`: scan left to right and rewrite each
   * occurrence, resuming after it.
   */
  function MirrorName(s: string): (r: string)
    ensures |r| == |s|
    decreases |s|
  {
    if s == [] then []
    else if XlsAt(s, 0) then ".csv" + MirrorName(s[4..])
    else [s[0]] + MirrorName(s[1..])
  }

  /**
   * Where index i sits inside an occurrence of `.xls` in s: 0 to 3, or -1 when
   * it is in none. Occurrences never overlap, so there is at most one.
   */
  function XlsOffset(s: string, i: int): (k: int)
    ensures -1 <= k <= 3
    ensures k >= 0 ==> XlsAt(s, i - k)
    ensures k >= 0 ==> forall j :: i - 3 <= j <= i && XlsAt(s, j) ==> j == i - k
    ensures k == -1 ==> !XlsAt(s, i) && !XlsAt(s, i - 1) && !XlsAt(s, i - 2) && !XlsAt(s, i - 3)
  {
    if XlsAt(s, i) then 0
    else if XlsAt(s, i - 1) then 1
    else if XlsAt(s, i - 2) then 2
    else if XlsAt(s, i - 3) then 3
    else -1
  }

  /** Index i is part of some occurrence of `.xls` in s. */
  predicate CoveredByXls(s: string, i: int) {
    XlsOffset(s, i) >= 0
  }

  /** The character at index i of the rewritten name, defined position by position. */
  function MirrorCharAt(s: string, i: int): char
    requires 0 <= i < |s|
  {
    var k := XlsOffset(s, i);
    if k < 0 then s[i] else ".csv"[k]
  }

  lemma XlsAtSuffix(s: string, d: nat, j: int)
    requires d <= |s|
    ensures XlsAt(s[d..], j) <==> 0 <= j && XlsAt(s, j + d)
  {
  }

  lemma {:induction false} MirrorNamePointwise(s: string)
    ensures forall i :: 0 <= i < |s| ==> MirrorName(s)[i] == MirrorCharAt(s, i)
    decreases |s|
  {
    if s == [] {
    } else if XlsAt(s, 0) {
      var t := s[4..];
      MirrorNamePointwise(t);
      forall i | 0 <= i < |s| ensures MirrorName(s)[i] == MirrorCharAt(s, i) {
        if i < 4 {
          assert XlsOffset(s, i) == i;
        } else {
          XlsAtSuffix(s, 4, i - 4);
          XlsAtSuffix(s, 4, i - 4 - 1);
          XlsAtSuffix(s, 4, i - 4 - 2);
          XlsAtSuffix(s, 4, i - 4 - 3);
          assert XlsOffset(s, i) == XlsOffset(t, i - 4);
        }
      }
    } else {
      var t := s[1..];
      MirrorNamePointwise(t);
      forall i | 0 <= i < |s| ensures MirrorName(s)[i] == MirrorCharAt(s, i) {
        if i == 0 {
          assert XlsOffset(s, 0) == -1;
        } else {
          XlsAtSuffix(s, 1, i - 1);
          XlsAtSuffix(s, 1, i - 1 - 1);
          XlsAtSuffix(s, 1, i - 1 - 2);
          XlsAtSuffix(s, 1, i - 1 - 3);
          assert XlsOffset(s, i) == XlsOffset(t, i - 1);
        }
      }
    }
  }

  /**
   * The mirror name is the file name with every occurrence of `.xls` turned
   * into `.csv` and every other character left where it was.
   */
  lemma MirrorNameSpec(s: string)
    ensures |MirrorName(s)| == |s|
    ensures forall j :: XlsAt(s, j) ==> MirrorName(s)[j..j + 4] == ".csv"
    ensures forall i :: 0 <= i < |s| && !CoveredByXls(s, i) ==> MirrorName(s)[i] == s[i]
  {
    MirrorNamePointwise(s);
    var r := MirrorName(s);
    forall j | XlsAt(s, j) ensures r[j..j + 4] == ".csv" {
      assert XlsOffset(s, j) == 0 && XlsOffset(s, j + 1) == 1;
      assert XlsOffset(s, j + 2) == 2 && XlsOffset(s, j + 3) == 3;
    }
  }

  /** No `.xls` is left in the mirror name, and none is created by the rewrite. */
  lemma MirrorNameHasNoXls(s: string)
    ensures forall i :: !XlsAt(MirrorName(s), i)
  {
    MirrorNamePointwise(s);
    var r := MirrorName(s);
    forall i | 0 <= i ensures !XlsAt(r, i) {
      if i + 4 <= |r| && r[i] == '.' && r[i + 1] == 'x' && r[i + 2] == 'l' {
        // 'x' and 'l' do not occur in ".csv", so both are original characters;
        // then no occurrence starts at i + 1, and r[i + 3] cannot be the 's' of ".csv".
        assert XlsOffset(s, i + 1) < 0 && s[i + 1] == 'x';
        assert XlsOffset(s, i + 2) < 0 && s[i + 2] == 'l';
        assert !XlsAt(s, i + 1);
        if XlsOffset(s, i + 3) < 0 {
          assert XlsOffset(s, i) != 0;
          assert XlsOffset(s, i) < 0 && s[i] == '.';
        }
        assert r[i + 3] != 's';
      }
    }
  }

  /** A name without `.xls` is its own mirror name. */
  lemma MirrorNameWithoutXls(s: string)
    requires forall i :: !XlsAt(s, i)
    ensures MirrorName(s) == s
  {
    MirrorNamePointwise(s);
  }

  /** Rewriting a second time changes nothing. */
  lemma MirrorNameIdempotent(s: string)
    ensures MirrorName(MirrorName(s)) == MirrorName(s)
  {
    MirrorNameHasNoXls(s);
    MirrorNameWithoutXls(MirrorName(s));
  }

  /** The mirror of a file the aggregator processes is a `.csv` name. */
  lemma MirrorOfXlsFileIsCsv(s: string)
    requires EndsWithXls(s)
    ensures |MirrorName(s)| == |s|
    ensures MirrorName(s)[|s| - 4..] == ".csv"
  {
    MirrorNameSpec(s);
  }
}
