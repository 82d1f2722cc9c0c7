/**
 * The row de-duplication loop of `src/load_and_clean_pharmacies.py`: rows of
 * every CSV file, in file order, are kept on their first occurrence, a row
 * being compared as its ordered tuple of (column, value) pairs.
 */
module Pharmacies {
  import opened Options
  import opened Sequences
  import opened Records

  /**
   * A CSV row as `tuple(row.items())`: its (column, value) pairs in column
   * order. `csv.DictReader` gives a column missing from a short line the
   * value `None`, which differs from an empty string.
   */
  type Row = seq<(string, Option<string>)>

  /** `row[column]` on the row's dict: the value of the column's pair, `None` when there is no such column. */
  function Lookup(row: Row, column: string): (v: Option<Option<string>>)
    ensures v.Some? <==> exists i | 0 <= i < |row| :: row[i].0 == column
    ensures v.Some? ==> (column, v.value) in row
  {
    if row == [] then None
    else if row[0].0 == column then Some(row[0].1)
    else
      var v := Lookup(row[1..], column);
      assert forall i | 1 <= i < |row| :: row[i] == row[1..][i - 1];
      v
  }

  /**
   * The pharmacy a row contributes to the chain recommendations, whose
   * `groupby(['ndc', 'chain'])` drops a missing chain: `None` when either
   * column is missing or was filled with `None`. The npi filter reads only
   * the `npi` column, as `Lookup(row, "npi")`.
   */
  function PharmacyOf(row: Row): (p: Option<Pharmacy>)
    ensures p.Some? <==> Lookup(row, "npi").Some? && Lookup(row, "npi").value.Some?
                         && Lookup(row, "chain").Some? && Lookup(row, "chain").value.Some?
    ensures p.Some? ==> ("npi", Some(p.value.npi)) in row && ("chain", Some(p.value.chain)) in row
    ensures p.Some? ==> Lookup(row, "npi") == Some(Some(p.value.npi))
  {
    match (Lookup(row, "npi"), Lookup(row, "chain"))
    case (Some(Some(npi)), Some(Some(chain))) => Some(Pharmacy(npi, chain))
    case _ => None
  }

  /** A column filled with `None` and the same column left empty are two rows, and only the second yields a pharmacy. */
  lemma MissingDiffersFromEmpty()
    ensures var short: Row := [("npi", Some("1234567890")), ("chain", None)];
            var blank: Row := [("npi", Some("1234567890")), ("chain", Some(""))];
            && Dedup([short, blank]) == [short, blank]
            && PharmacyOf(short).None?
            && PharmacyOf(blank) == Some(Pharmacy("1234567890", ""))
  {
    var short: Row := [("npi", Some("1234567890")), ("chain", None)];
    var blank: Row := [("npi", Some("1234567890")), ("chain", Some(""))];
    assert short != blank by { assert short[1] != blank[1]; }
    var xs := [short, blank];
    assert xs[..1] == [short] && xs[..1][..0] == [];
    assert Dedup([short]) == [short];
    assert blank !in xs[..1];
  }

  /**
   * The npi filter and the chain grouping see a short row differently: the
   * filter reads the npi of a row whose chain is `None`, which yields no
   * pharmacy for the grouping, and a row without an `npi` column has no
   * value for the filter to read (a KeyError there).
   */
  lemma NpiReadWithoutChain()
    ensures var short: Row := [("npi", Some("1234567890")), ("chain", None)];
            Lookup(short, "npi") == Some(Some("1234567890")) && PharmacyOf(short).None?
    ensures Lookup([("chain", Some("CVS"))], "npi").None?
  {
  }

  /**
   * A CSV file as the reader delivers it: the rows it yields, and whether
   * reading it then raised. An exception ends the whole load (the handler
   * sits outside the file loop) and the rows kept so far are returned.
   */
  datatype CsvFile = CsvFile(rows: seq<Row>, raises: bool)

  /** Some file of `files` raises. */
  predicate Halts(files: seq<CsvFile>) {
    exists k | 0 <= k < |files| :: files[k].raises
  }

  /** The rows of each file, file by file. */
  function FileRows(files: seq<CsvFile>): seq<seq<Row>> {
    seq(|files|, k requires 0 <= k < |files| => files[k].rows)
  }

  /**
   * The rows the loop sees: every file's rows in order, up to and including
   * the first file that raises; when no file raises, all rows of all files.
   */
  function RowsRead(files: seq<CsvFile>): (r: seq<Row>)
    ensures !Halts(files) ==> r == Flatten(FileRows(files))
  {
    if files == [] then []
    else
      var init := files[..|files| - 1];
      DropLastFile(files);
      if Halts(init) then RowsRead(init) else RowsRead(init) + files[|files| - 1].rows
  }

  lemma DropLastFile(files: seq<CsvFile>)
    requires files != []
    ensures !Halts(files) ==> !Halts(files[..|files| - 1])
    ensures FileRows(files)[..|files| - 1] == FileRows(files[..|files| - 1])
  {
    assert forall j | 0 <= j < |files| - 1 :: files[..|files| - 1][j] == files[j];
  }

  lemma HaltsPrefix(files: seq<CsvFile>, k: nat)
    requires k < |files| && !Halts(files[..k]) && files[k].raises
    ensures Halts(files[..k + 1])
  {
    assert files[..k + 1][k] == files[k];
  }

  /** Once a prefix of the files has raised, later files are not read. */
  lemma {:induction false} HaltIsFinal(files: seq<CsvFile>, k: nat)
    requires k <= |files| && Halts(files[..k])
    ensures RowsRead(files) == RowsRead(files[..k])
    decreases |files| - k
  {
    if k < |files| {
      var init := files[..|files| - 1];
      assert init[..k] == files[..k];
      HaltIsFinal(init, k);
      var j :| 0 <= j < k && files[..k][j].raises;
      assert init[j] == files[..k][j];
    } else {
      assert files[..k] == files;
    }
  }

  /** One step of the first-occurrence pass: a row already kept is skipped, a new one is appended. */
  lemma DedupSnoc(xs: seq<Row>, y: Row)
    ensures Dedup(xs + [y]) == if y in Dedup(xs) then Dedup(xs) else Dedup(xs) + [y]
  {
    assert (xs + [y])[..|xs|] == xs;
    DedupMember(xs, y);
  }

  /** The rows already emitted, as a set: what `seen` holds. */
  function Emitted(rows: seq<Row>): set<Row> {
    set r | r in rows
  }

  lemma EmittedSnoc(rows: seq<Row>, row: Row)
    ensures Emitted(rows + [row]) == Emitted(rows) + {row}
    ensures row in Emitted(rows) <==> row in rows
  {
  }

  /** The inner loop over one file's rows, extending the kept rows and the `seen` set. */
  method KeepNewRows(rows: seq<Row>, pharmacies0: seq<Row>, seen0: set<Row>, ghost before: seq<Row>)
    returns (pharmacies: seq<Row>, seen: set<Row>)
    requires pharmacies0 == Dedup(before) && seen0 == Emitted(pharmacies0)
    ensures pharmacies == Dedup(before + rows) && seen == Emitted(pharmacies)
  {
    pharmacies, seen := pharmacies0, seen0;
    assert before + rows[..0] == before;
    for j := 0 to |rows|
      invariant pharmacies == Dedup(before + rows[..j])
      invariant seen == Emitted(pharmacies)
    {
      var row := rows[j];
      assert before + rows[..j + 1] == (before + rows[..j]) + [row];
      DedupSnoc(before + rows[..j], row);
      EmittedSnoc(pharmacies, row);
      if row !in seen {
        seen := seen + {row};
        pharmacies := pharmacies + [row];
      }
    }
    assert rows[..|rows|] == rows;
  }

  /**
   * `load_and_clean_pharmacies` over files already opened: the result is the
   * first occurrence of every row read, in reading order.
   */
  method LoadAndCleanPharmacies(files: seq<CsvFile>) returns (pharmacies: seq<Row>)
    ensures pharmacies == Dedup(RowsRead(files))
  {
    pharmacies := [];
    var seen: set<Row> := {};
    assert seen == Emitted(pharmacies);
    if files == [] {
      return;
    }
    var k := 0;
    while k < |files|
      invariant 0 <= k <= |files|
      invariant !Halts(files[..k])
      invariant pharmacies == Dedup(RowsRead(files[..k]))
      invariant seen == Emitted(pharmacies)
    {
      assert files[..k + 1][..k] == files[..k];
      pharmacies, seen := KeepNewRows(files[k].rows, pharmacies, seen, RowsRead(files[..k]));
      if files[k].raises {
        HaltsPrefix(files, k);
        HaltIsFinal(files, k + 1);
        return;
      }
      assert !Halts(files[..k + 1]) by {
        assert forall j | 0 <= j < k + 1 :: files[..k + 1][j] == files[j];
        assert forall j | 0 <= j < k :: files[..k][j] == files[j];
      }
      k := k + 1;
    }
    assert files[..k] == files;
  }

  /**
   * The result has no two identical rows, holds every row read and nothing
   * else, and lists rows in the order of their first occurrence.
   */
  lemma CleanPharmaciesProperties(files: seq<CsvFile>)
    ensures NoDup(Dedup(RowsRead(files)))
    ensures forall r :: r in Dedup(RowsRead(files)) <==> r in RowsRead(files)
    ensures forall i, j | 0 <= i < j < |Dedup(RowsRead(files))| ::
              FirstIndex(RowsRead(files), Dedup(RowsRead(files))[i]) < FirstIndex(RowsRead(files), Dedup(RowsRead(files))[j])
  {
    var xs := RowsRead(files);
    DedupNoDup(xs);
    forall r
      ensures r in Dedup(xs) <==> r in xs
    {
      DedupMember(xs, r);
    }
    DedupFirstOccurrenceOrder(xs);
  }

  /** Cleaning the cleaned rows again, as one file, changes nothing. */
  lemma CleanPharmaciesIdempotent(files: seq<CsvFile>)
    ensures Dedup(RowsRead([CsvFile(Dedup(RowsRead(files)), false)])) == Dedup(RowsRead(files))
  {
    var once := Dedup(RowsRead(files));
    var again := [CsvFile(once, false)];
    assert again[..0] == [];
    assert RowsRead(again) == once;
    DedupIdempotent(RowsRead(files));
  }

}
