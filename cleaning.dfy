/** `clean_data`: choose the reader by file extension, keep the rows of the target
    organism, backfill missing genes from `Entry Name`, keep `Gene` and the sample
    intensity columns, and name repeated genes as isoforms. Reading the upload and
    writing the CSV text are outside the model: the reader is a parameter and the
    result is the table that would be written. */
module Cleaning {
  import opened Options
  import opened Sequences
  import opened Strings
  import opened Tables
  import opened Isoforms

  /** The two readers: comma-separated, or tab-separated without quoting. */
  datatype Format = Csv | Tsv

  /** How `clean_data` ends: it returns None, returns the cleaned table (as CSV text),
      or raises `KeyError` for a column the upload lacks. */
  datatype Outcome = NoOutput | Cleaned(table: Table) | KeyError(column: string)

  predicate IsEither(c: char, lower: char, upper: char) {
    c == lower || c == upper
  }

  /** Lines 99-104: the reader chosen for an extension. The CSV reader is chosen exactly
      for `.csv` and the TSV reader exactly for `.tsv`, each letter in either case; any
      other extension chooses none. */
  function FileFormat(fileExtension: string): (r: Option<Format>)
    ensures r == Some(Csv) <==>
      |fileExtension| == 4 && fileExtension[0] == '.' && IsEither(fileExtension[1], 'c', 'C')
      && IsEither(fileExtension[2], 's', 'S') && IsEither(fileExtension[3], 'v', 'V')
    ensures r == Some(Tsv) <==>
      |fileExtension| == 4 && fileExtension[0] == '.' && IsEither(fileExtension[1], 't', 'T')
      && IsEither(fileExtension[2], 's', 'S') && IsEither(fileExtension[3], 'v', 'V')
  {
    var lower := ToLower(fileExtension);
    if lower == ".csv" then Some(Csv) else if lower == ".tsv" then Some(Tsv) else None
  }

  /** `'Intensity' in col`. */
  predicate IsIntensityColumn(column: string) {
    Contains(column, "Intensity")
  }

  /** The condition of the comprehension at line 113. */
  predicate IsSampleIntensityColumn(column: string) {
    Contains(column, "Intensity") && !Contains(column, "MaxLFQ") && !Contains(column, "Unique")
    && !Contains(column, "Total")
  }

  /** The column `Gene` is never taken for an intensity column. */
  lemma GeneIsNotIntensity()
    ensures !IsIntensityColumn(GENE)
  {
  }

  /** Line 113: `Gene`, then every sample intensity column, in source order. */
  function ColumnsToKeep(columns: seq<string>): (r: seq<string>)
    ensures |r| >= 1 && r[0] == GENE
    ensures forall c :: c in r[1..] <==> c in columns && IsSampleIntensityColumn(c)
    ensures IsSubsequence(r[1..], columns)
  {
    var sample := Filter(columns, IsSampleIntensityColumn);
    assert ([GENE] + sample)[1..] == sample;
    [GENE] + sample
  }

  /** Line 122: the columns whose name contains `Intensity`. */
  function IntensityColumns(columns: seq<string>): (r: seq<string>)
    ensures forall c :: c in r <==> c in columns && IsIntensityColumn(c)
    ensures IsSubsequence(r, columns)
  {
    Filter(columns, IsIntensityColumn)
  }

  /** The intensity columns found at line 122 are exactly the sample intensity
      columns chosen at line 113, in the same order. */
  lemma KeptIntensityColumns(columns: seq<string>)
    ensures IntensityColumns(ColumnsToKeep(columns)) == Filter(columns, IsSampleIntensityColumn)
  {
    var sample := Filter(columns, IsSampleIntensityColumn);
    assert ([GENE] + sample)[1..] == sample;
    FilterKeepsAll(sample, IsIntensityColumn);
  }

  /** Whether a row's `Organism` cell is the target species; a species of None matches no row. */
  predicate MatchesSpecies(row: Row, targetSpecies: Option<string>) {
    targetSpecies.Some? && Lookup(row, ORGANISM) == Value(targetSpecies.value)
  }

  /** Line 107: the rows of the target organism, in their original order. */
  function SpeciesRows(rows: seq<Row>, targetSpecies: Option<string>): (r: seq<Row>)
    ensures forall i :: 0 <= i < |r| ==> targetSpecies.Some? && Lookup(r[i], ORGANISM) == Value(targetSpecies.value)
    ensures forall i :: 0 <= i < |rows| && MatchesSpecies(rows[i], targetSpecies) ==> rows[i] in r
    ensures |r| == Count(rows, row => MatchesSpecies(row, targetSpecies))
    ensures IsSubsequence(r, rows)
    ensures targetSpecies.None? ==> r == []
  {
    Filter(rows, row => MatchesSpecies(row, targetSpecies))
  }

  /** The gene a row is identified by after line 110: its `Gene`, or else its `Entry Name`. */
  function FilledGene(row: Row): Cell {
    if Lookup(row, GENE).Missing? then Lookup(row, ENTRY_NAME) else Lookup(row, GENE)
  }

  /** Line 110: a missing `Gene` takes the row's own `Entry Name`; nothing else changes. */
  function BackfillGene(rows: seq<Row>): (r: seq<Row>)
    ensures |r| == |rows|
    ensures forall i :: 0 <= i < |rows| && Lookup(rows[i], GENE).Missing? ==>
      Lookup(r[i], GENE) == Lookup(rows[i], ENTRY_NAME)
    ensures forall i :: 0 <= i < |rows| && Lookup(rows[i], GENE).Value? ==> r[i] == rows[i]
    ensures forall i, c :: 0 <= i < |rows| && c != GENE ==> Lookup(r[i], c) == Lookup(rows[i], c)
  {
    seq(|rows|, i requires 0 <= i < |rows| =>
      if Lookup(rows[i], GENE).Missing? then rows[i][GENE := Lookup(rows[i], ENTRY_NAME)] else rows[i])
  }

  /** Line 116: every row cut down to the given columns. */
  function Project(rows: seq<Row>, columns: seq<string>): (r: seq<Row>)
    ensures |r| == |rows|
    ensures forall i :: 0 <= i < |rows| ==> r[i].Keys <= set c | c in columns
    ensures forall i, c :: 0 <= i < |rows| && c in columns ==> Lookup(r[i], c) == Lookup(rows[i], c)
  {
    seq(|rows|, i requires 0 <= i < |rows| => map c | c in columns && c in rows[i] :: rows[i][c])
  }

  /** The identifying gene of every row. */
  function FilledGenes(rows: seq<Row>): (genes: seq<Cell>)
    ensures |genes| == |rows|
  {
    seq(|rows|, i requires 0 <= i < |rows| => FilledGene(rows[i]))
  }

  /** The first required column the upload lacks, in the order lines 107 and 110 read them. */
  function MissingRequiredColumn(columns: seq<string>): (r: Option<string>)
    ensures r.None? <==> ORGANISM in columns && GENE in columns && ENTRY_NAME in columns
    ensures r.Some? ==> r.value !in columns
  {
    if ORGANISM !in columns then Some(ORGANISM)
    else if GENE !in columns then Some(GENE)
    else if ENTRY_NAME !in columns then Some(ENTRY_NAME)
    else None
  }

  /** What cleaning `df` for `targetSpecies` must produce. A missing required column
      raises `KeyError`. Otherwise the header is `Gene` and the sample intensity columns;
      there is one row per row of the target organism, in order; each row has exactly
      the header's keys, copies that row's intensity cells, and carries the isoform
      identifier of that row's backfilled gene. */
  ghost predicate IsCleaningOf(r: Outcome, targetSpecies: Option<string>, df: Table) {
    match MissingRequiredColumn(df.columns)
    case Some(column) => r == KeyError(column)
    case None =>
      var intensity := Filter(df.columns, IsSampleIntensityColumn);
      var kept := SpeciesRows(df.rows, targetSpecies);
      var identifiers := Identifiers(FilledGenes(kept));
      && r.Cleaned?
      && r.table.columns == [GENE] + intensity
      && |r.table.rows| == |kept|
      && forall i :: 0 <= i < |kept| ==>
        && r.table.rows[i].Keys == {GENE} + (set c | c in intensity)
        && r.table.rows[i][GENE] == identifiers[i]
        && forall c :: c in intensity ==> r.table.rows[i][c] == Lookup(kept[i], c)
  }

  /** The specification leaves no choice: cleaning the same table for the same species
      twice gives the same outcome. */
  lemma CleaningIsDeterministic(r1: Outcome, r2: Outcome, targetSpecies: Option<string>, df: Table)
    requires IsCleaningOf(r1, targetSpecies, df) && IsCleaningOf(r2, targetSpecies, df)
    ensures r1 == r2
  {
    if MissingRequiredColumn(df.columns).None? {
      var intensity := Filter(df.columns, IsSampleIntensityColumn);
      var kept := SpeciesRows(df.rows, targetSpecies);
      var rows1, rows2 := r1.table.rows, r2.table.rows;
      forall i | 0 <= i < |kept|
        ensures rows1[i] == rows2[i]
      {
        assert rows1[i].Keys == rows2[i].Keys;
        forall c | c in rows1[i]
          ensures rows1[i][c] == rows2[i][c]
        {
          if c != GENE {
            assert c in intensity;
          }
        }
      }
      assert rows1 == rows2;
    }
  }

  /** Lines 107-152 on the parsed upload `df`. */
  method CleanTable(targetSpecies: Option<string>, df: Table) returns (r: Outcome)
    ensures IsCleaningOf(r, targetSpecies, df)
  {
    if ORGANISM !in df.columns {
      return KeyError(ORGANISM);
    }
    var filteredDataRow := SpeciesRows(df.rows, targetSpecies);
    if GENE !in df.columns {
      return KeyError(GENE);
    }
    if ENTRY_NAME !in df.columns {
      return KeyError(ENTRY_NAME);
    }
    ghost var kept := filteredDataRow;
    filteredDataRow := BackfillGene(filteredDataRow);
    var columnsToKeep := ColumnsToKeep(df.columns);
    var filteredDataColumn := Project(filteredDataRow, columnsToKeep);
    var intensityColumns := IntensityColumns(columnsToKeep);
    var rowsWithIdentifiers := AddIsoformIdentifiers(filteredDataColumn, intensityColumns);
    r := Cleaned(Table([GENE] + intensityColumns, rowsWithIdentifiers));

    KeptIntensityColumns(df.columns);
    GeneIsNotIntensity();
    assert GENE !in intensityColumns;
    assert forall c :: c in intensityColumns ==> c in columnsToKeep;
    assert GeneCells(filteredDataColumn) == FilledGenes(kept);
    IsoformRowsShape(filteredDataColumn, intensityColumns);
  }

  /** Lines 92-104 and the call of lines 107-152: no upload or an unsupported extension
      gives None; otherwise the upload is read with the reader for its extension and
      cleaned. `dataContents` is the decoded upload text and `readTable` stands for
      `pandas.read_csv` with the chosen format's separator. */
  method CleanData(targetSpecies: Option<string>, dataContents: Option<string>, fileExtension: string,
                   readTable: (Format, string) -> Table) returns (r: Outcome)
    ensures r.NoOutput? <==> dataContents.None? || FileFormat(fileExtension).None?
    ensures dataContents.Some? && FileFormat(fileExtension).Some? ==>
      IsCleaningOf(r, targetSpecies, readTable(FileFormat(fileExtension).value, dataContents.value))
  {
    if dataContents.None? {
      return NoOutput;
    }
    var decoded := dataContents.value;
    var df: Table;
    if ToLower(fileExtension) == ".csv" {
      df := readTable(Csv, decoded);
    } else if ToLower(fileExtension) == ".tsv" {
      df := readTable(Tsv, decoded);
    } else {
      return NoOutput;
    }
    r := CleanTable(targetSpecies, df);
  }
}
