/**
 * The aggregator: run the extractor over the `.xls` files of a directory
 * listing, keep the successful results in listing order, and write their
 * concatenation as one combined table, or nothing when no file succeeded.
 */
module Aggregator {
  import opened Wrappers
  import opened FileNames
  import opened Extractor
  import opened Filtering

  /** A directory entry: a file name and what reading it as a spreadsheet gives. */
  datatype Entry = Entry(name: string, sheet: Sheet)

  /** The entry is processed and its extraction succeeds. */
  predicate Succeeds(e: Entry) {
    EndsWithXls(e.name) && Extracted(e.name, e.sheet).Some?
  }

  /** An entry succeeds exactly when its name ends in `.xls` and holds a year token, and its sheet is readable. */
  lemma SucceedsIff(e: Entry)
    ensures Succeeds(e) <==> EndsWithXls(e.name) && e.sheet.Sheet? && exists i :: YearTokenAt(e.name, i)
  {
  }

  /** Every processed file whose year is found has rows this model converts (see `RowsConvert`). */
  predicate EntriesConvert(entries: seq<Entry>) {
    forall i :: 0 <= i < |entries| && EndsWithXls(entries[i].name) ==>
      (entries[i].sheet.Sheet? && ParseYear(entries[i].name).Some? ==> RowsConvert(entries[i].sheet.rows))
  }

  /** The successful extractions, in listing order. */
  function Successes(entries: seq<Entry>): (xs: seq<Extraction>)
    ensures |xs| <= |entries|
  {
    if entries == [] then []
    else
      var last := entries[|entries| - 1];
      Successes(entries[..|entries| - 1]) +
        (if Succeeds(last) then [Extracted(last.name, last.sheet).value] else [])
  }

  /** The indices of the succeeding entries, in increasing order. */
  function SucceedingIndices(entries: seq<Entry>): (q: seq<nat>)
    ensures |q| <= |entries|
  {
    Positions(entries, Succeeds)
  }

  /** pandas' `concat`: the records of every extraction, one table after another. */
  function Combined(xs: seq<Extraction>): seq<Record> {
    if xs == [] then [] else Combined(xs[..|xs| - 1]) + xs[|xs| - 1].records
  }

  /** The names of the mirrors the extractions wrote. */
  function Mirrors(xs: seq<Extraction>): seq<string> {
    if xs == [] then [] else Mirrors(xs[..|xs| - 1]) + [xs[|xs| - 1].mirror]
  }

  /** The k-th mirror is the k-th extraction's. */
  lemma {:induction false} MirrorsByIndex(xs: seq<Extraction>)
    ensures |Mirrors(xs)| == |xs|
    ensures forall k :: 0 <= k < |xs| ==> Mirrors(xs)[k] == xs[k].mirror
  {
    if xs != [] {
      var n := |xs| - 1;
      MirrorsByIndex(xs[..n]);
      forall k | 0 <= k < n ensures xs[..n][k] == xs[k] {
      }
    }
  }

  /** The number of records over all extractions. */
  function RecordCount(xs: seq<Extraction>): nat {
    if xs == [] then 0 else RecordCount(xs[..|xs| - 1]) + |xs[|xs| - 1].records|
  }

  /** Exactly the succeeding entries are listed, each once, in listing order. */
  lemma SucceedingIndicesSpec(entries: seq<Entry>)
    ensures forall k :: 0 <= k < |SucceedingIndices(entries)| ==>
      SucceedingIndices(entries)[k] < |entries| && Succeeds(entries[SucceedingIndices(entries)[k]])
    ensures forall k, l :: 0 <= k < l < |SucceedingIndices(entries)| ==>
      SucceedingIndices(entries)[k] < SucceedingIndices(entries)[l]
    ensures forall i :: 0 <= i < |entries| && Succeeds(entries[i]) ==> i in SucceedingIndices(entries)
  {
    PositionsSpec(entries, Succeeds);
  }

  /**
   * The k-th kept result is the extraction of the k-th succeeding entry:
   * only `.xls` files whose extraction succeeded contribute, none of them
   * is skipped, and listing order is kept.
   */
  lemma {:induction false} SuccessesByIndex(entries: seq<Entry>)
    ensures |Successes(entries)| == |SucceedingIndices(entries)|
    ensures forall k :: 0 <= k < |Successes(entries)| ==>
      SucceedingIndices(entries)[k] < |entries| && Succeeds(entries[SucceedingIndices(entries)[k]]) &&
      Some(Successes(entries)[k]) ==
        Extracted(entries[SucceedingIndices(entries)[k]].name, entries[SucceedingIndices(entries)[k]].sheet)
  {
    SucceedingIndicesSpec(entries);
    if entries != [] {
      var n := |entries| - 1;
      SuccessesByIndex(entries[..n]);
      assert forall i :: 0 <= i < n ==> entries[..n][i] == entries[i];
    }
  }

  /**
   * The mirrors written are those of the succeeding entries, in listing
   * order: the k-th is the mirror name of the k-th succeeding file.
   */
  lemma MirrorsOfSuccesses(entries: seq<Entry>)
    ensures |Mirrors(Successes(entries))| == |SucceedingIndices(entries)|
    ensures forall k :: 0 <= k < |SucceedingIndices(entries)| ==>
      SucceedingIndices(entries)[k] < |entries| &&
      Mirrors(Successes(entries))[k] == MirrorName(entries[SucceedingIndices(entries)[k]].name)
  {
    SuccessesByIndex(entries);
    MirrorsByIndex(Successes(entries));
  }

  /** Listings are processed entry by entry: the results of a + b are those of a, then of b. */
  lemma {:induction false} SuccessesAppend(a: seq<Entry>, b: seq<Entry>)
    ensures Successes(a + b) == Successes(a) + Successes(b)
    decreases |b|
  {
    if b == [] {
      assert a + b == a;
    } else {
      var n := |b| - 1;
      assert (a + b)[..|a + b| - 1] == a + b[..n];
      SuccessesAppend(a, b[..n]);
    }
  }

  /** A listing with no succeeding entry (for one, with no `.xls` file) yields no result. */
  lemma {:induction false} NoSuccessNoResult(entries: seq<Entry>)
    requires forall i :: 0 <= i < |entries| ==> !Succeeds(entries[i])
    ensures Successes(entries) == []
  {
    if entries != [] {
      var n := |entries| - 1;
      assert !Succeeds(entries[n]);
      NoSuccessNoResult(entries[..n]);
    }
  }

  /** Concatenating two lists of tables is concatenating their combined tables. */
  lemma {:induction false} CombinedAppend(xs: seq<Extraction>, ys: seq<Extraction>)
    ensures Combined(xs + ys) == Combined(xs) + Combined(ys)
    decreases |ys|
  {
    if ys == [] {
      assert xs + ys == xs;
    } else {
      var n := |ys| - 1;
      assert (xs + ys)[..|xs + ys| - 1] == xs + ys[..n];
      CombinedAppend(xs, ys[..n]);
    }
  }

  /** The combined table has as many rows as the per-file tables together. */
  lemma {:induction false} CombinedLength(xs: seq<Extraction>)
    ensures |Combined(xs)| == RecordCount(xs)
  {
    if xs != [] {
      CombinedLength(xs[..|xs| - 1]);
    }
  }

  /** Two succeeding files give their records file by file, then row by row. */
  lemma TwoFiles(e1: Entry, e2: Entry)
    requires Succeeds(e1) && Succeeds(e2)
    ensures Combined(Successes([e1, e2])) ==
      Extracted(e1.name, e1.sheet).value.records + Extracted(e2.name, e2.sheet).value.records
    ensures |Combined(Successes([e1, e2]))| ==
      |Extracted(e1.name, e1.sheet).value.records| + |Extracted(e2.name, e2.sheet).value.records|
  {
    var x1, x2 := Extracted(e1.name, e1.sheet).value, Extracted(e2.name, e2.sheet).value;
    assert [e1, e2][..1] == [e1];
    assert [e1][..0] == [];
    assert Successes([e1, e2]) == [x1, x2];
    assert [x1, x2][..1] == [x1];
    assert [x1][..0] == [];
    assert Combined([x1]) == x1.records;
  }

  /**
   * Process a directory listing. Only names ending in `.xls` are extracted;
   * failures are dropped; the kept tables are concatenated in listing order
   * and returned as the combined table to write, or None when there is
   * nothing to write. `mirrors` lists the CSV mirrors written on the way.
   */
  method ProcessAllFiles(entries: seq<Entry>) returns (combined: Option<seq<Record>>, mirrors: seq<string>)
    requires EntriesConvert(entries)
    ensures combined.None? <==> Successes(entries) == []
    ensures combined.Some? ==> combined.value == Combined(Successes(entries))
    ensures mirrors == Mirrors(Successes(entries))
  {
    var allResults: seq<Extraction> := [];
    mirrors := [];
    for i := 0 to |entries|
      invariant allResults == Successes(entries[..i])
      invariant mirrors == Mirrors(allResults)
    {
      var entry := entries[i];
      assert entries[..i + 1][..i] == entries[..i];
      if EndsWithXls(entry.name) {
        var result := ProcessExcel(entry.name, entry.sheet);
        if result.Some? {
          allResults := allResults + [result.value];
          mirrors := mirrors + [result.value.mirror];
        }
      }
    }
    assert entries[..|entries|] == entries;
    if |allResults| > 0 {
      combined := Some(Combined(allResults));
    } else {
      combined := None;
    }
  }
}
