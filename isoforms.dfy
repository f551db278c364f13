/** Isoform identifiers for repeated genes: the loop of `clean_data` that walks
    the rows in order with a per-gene counter, renames the k-th row of a gene
    (k >= 2) to `{gene}_{k}`, and copies the intensity cells of every row. */
module Isoforms {
  import opened Strings
  import opened Tables

  /** The number of times `g` occurs in `genes`. */
  function CountOf(genes: seq<Cell>, g: Cell): (n: nat)
    ensures n <= |genes|
  {
    if genes == [] then 0
    else CountOf(genes[..|genes| - 1], g) + (if genes[|genes| - 1] == g then 1 else 0)
  }

  /** Appending one gene adds one to its own count and leaves the others unchanged. */
  lemma CountOfSnoc(genes: seq<Cell>, x: Cell, g: Cell)
    ensures CountOf(genes + [x], g) == CountOf(genes, g) + (if x == g then 1 else 0)
  {
  }

  /** Which occurrence of its gene the row at `i` is, counting from 1. */
  function Occurrence(genes: seq<Cell>, i: nat): (k: nat)
    requires i < |genes|
    ensures 1 <= k <= i + 1
  {
    assert genes[..i + 1][..i] == genes[..i];
    CountOf(genes[..i + 1], genes[i])
  }

  /** The identifier of the k-th row of a gene: the bare gene for the first, else `{gene}_{k}`. */
  function IsoformName(gene: Cell, k: nat): (r: Cell)
    ensures k <= 1 ==> r == gene
    ensures k > 1 ==> r.Value? && r != gene
    ensures k > 1 ==> |r.text| > |CellText(gene)| + 1 && r.text[..|CellText(gene)| + 1] == CellText(gene) + "_"
  {
    if k <= 1 then gene
    else
      var prefix := CellText(gene) + "_";
      var text := prefix + NatToDecimal(k);
      assert text[..|prefix|] == prefix;
      Value(text)
  }

  /** A suffixed name is the gene, an underscore, and digits that read back as the count. */
  lemma IsoformNameReadsBack(gene: Cell, k: nat)
    requires k > 1
    ensures var text := IsoformName(gene, k).text; var n := |CellText(gene)| + 1;
      IsDigits(text[n..]) && DecimalValue(text[n..]) == k
  {
    var prefix := CellText(gene) + "_";
    assert (prefix + NatToDecimal(k))[|prefix|..] == NatToDecimal(k);
    DecimalRoundTrip(k);
  }

  /** Spelled out, the suffixed name is the gene's text, `_` and the count in decimal. */
  lemma IsoformNameText(gene: Cell, k: nat)
    requires k > 1
    ensures IsoformName(gene, k) == Value(CellText(gene) + "_" + NatToDecimal(k))
  {
  }

  /** The identifier of every row, given the genes of the rows in order. */
  function Identifiers(genes: seq<Cell>): (r: seq<Cell>)
    ensures |r| == |genes|
  {
    seq(|genes|, i requires 0 <= i < |genes| => IsoformName(genes[i], Occurrence(genes, i)))
  }

  /** The identifier of row `i` depends only on the genes before it. */
  lemma IdentifierAt(genes: seq<Cell>, i: nat)
    requires i < |genes|
    ensures Identifiers(genes)[i] == IsoformName(genes[i], CountOf(genes[..i], genes[i]) + 1)
  {
    assert genes[..i + 1] == genes[..i] + [genes[i]];
    CountOfSnoc(genes[..i], genes[i], genes[i]);
  }

  /** The `Gene` cell of every row. */
  function GeneCells(rows: seq<Row>): seq<Cell>
  {
    seq(|rows|, i requires 0 <= i < |rows| => Lookup(rows[i], GENE))
  }

  /** The output row built for one input row: `Gene` holds the identifier and every
      intensity column holds the input row's cell (an intensity column named `Gene`
      would overwrite the identifier, as a later dictionary assignment does). */
  function IsoformRow(identifier: Cell, row: Row, intensityColumns: seq<string>): (r: Row)
  {
    map k | k in [GENE] + intensityColumns :: if k in intensityColumns then Lookup(row, k) else identifier
  }

  /** The keys and cells of one output row. */
  lemma IsoformRowContents(identifier: Cell, row: Row, intensityColumns: seq<string>)
    ensures IsoformRow(identifier, row, intensityColumns).Keys == {GENE} + set c | c in intensityColumns
    ensures forall c :: c in intensityColumns ==> IsoformRow(identifier, row, intensityColumns)[c] == Lookup(row, c)
    ensures GENE !in intensityColumns ==> IsoformRow(identifier, row, intensityColumns)[GENE] == identifier
  {
  }

  /** The rows the loop produces: one per input row, in input order. */
  function IsoformRows(rows: seq<Row>, intensityColumns: seq<string>): (r: seq<Row>)
    ensures |r| == |rows|
  {
    var identifiers := Identifiers(GeneCells(rows));
    seq(|rows|, i requires 0 <= i < |rows| => IsoformRow(identifiers[i], rows[i], intensityColumns))
  }

  /** Every output row has the same keys, `Gene` and the intensity columns; its
      intensity cells are those of the input row at the same position, and its
      `Gene` cell is that row's identifier. */
  lemma IsoformRowsShape(rows: seq<Row>, intensityColumns: seq<string>)
    ensures forall i :: 0 <= i < |rows| ==>
      IsoformRows(rows, intensityColumns)[i].Keys == {GENE} + set c | c in intensityColumns
    ensures forall i, c :: 0 <= i < |rows| && c in intensityColumns ==>
      IsoformRows(rows, intensityColumns)[i][c] == Lookup(rows[i], c)
    ensures GENE !in intensityColumns ==> forall i :: 0 <= i < |rows| ==>
      IsoformRows(rows, intensityColumns)[i][GENE] == Identifiers(GeneCells(rows))[i]
  {
  }

  /** The invariant of `gene_counts`: it maps exactly the genes in `seen` to the
      number of times each occurs there. */
  ghost predicate CountsAgree(counts: map<Cell, nat>, seen: seq<Cell>) {
    forall g :: (g in counts ==> 1 <= counts[g] == CountOf(seen, g)) && (g !in counts ==> CountOf(seen, g) == 0)
  }

  /** Lines 134-140, one turn of the counter: the count of `gene` goes up by one (or
      starts at one), and the row is named after that count. */
  method CountGene(geneCounts: map<Cell, nat>, gene: Cell) returns (updated: map<Cell, nat>, geneWithIdentifier: Cell)
    requires forall g :: g in geneCounts ==> geneCounts[g] >= 1
    ensures updated == geneCounts[gene := (if gene in geneCounts then geneCounts[gene] else 0) + 1]
    ensures geneWithIdentifier == IsoformName(gene, updated[gene])
  {
    updated := geneCounts;
    if gene in updated {
      updated := updated[gene := updated[gene] + 1];
      geneWithIdentifier := Value(CellText(gene) + "_" + NatToDecimal(updated[gene]));
    } else {
      updated := updated[gene := 1];
      geneWithIdentifier := gene;
    }
  }

  /** Counting the next row's gene keeps `CountsAgree`, and the count then names the row. */
  lemma CounterStep(genes: seq<Cell>, i: nat, counts: map<Cell, nat>, updated: map<Cell, nat>)
    requires i < |genes|
    requires CountsAgree(counts, genes[..i])
    requires updated == counts[genes[i] := (if genes[i] in counts then counts[genes[i]] else 0) + 1]
    ensures CountsAgree(updated, genes[..i + 1])
    ensures forall g :: g in updated ==> updated[g] >= 1
    ensures Identifiers(genes)[i] == IsoformName(genes[i], updated[genes[i]])
  {
    var gene := genes[i];
    assert genes[..i + 1] == genes[..i] + [gene];
    forall g
      ensures CountOf(genes[..i + 1], g) == CountOf(genes[..i], g) + (if g == gene then 1 else 0)
    {
      CountOfSnoc(genes[..i], gene, g);
    }
    IdentifierAt(genes, i);
  }

  /** Lines 143-145: the dictionary for one output row, filled column by column. */
  method BuildRow(identifier: Cell, row: Row, intensityColumns: seq<string>) returns (entry: Row)
    ensures entry == IsoformRow(identifier, row, intensityColumns)
  {
    entry := map[GENE := identifier];
    var j := 0;
    while j < |intensityColumns|
      invariant 0 <= j <= |intensityColumns|
      invariant entry.Keys == {GENE} + set c | c in intensityColumns[..j]
      invariant forall c :: c in intensityColumns[..j] ==> entry[c] == Lookup(row, c)
      invariant GENE !in intensityColumns[..j] ==> entry[GENE] == identifier
    {
      var col := intensityColumns[j];
      assert intensityColumns[..j + 1] == intensityColumns[..j] + [col];
      entry := entry[col := Lookup(row, col)];
      j := j + 1;
    }
    assert intensityColumns[..j] == intensityColumns;
    IsoformRowContents(identifier, row, intensityColumns);
  }

  /** The rows up to `i` inclusive are those before `i` and the output row of `i`. */
  lemma IsoformRowsStep(rows: seq<Row>, intensityColumns: seq<string>, i: nat)
    requires i < |rows|
    ensures IsoformRows(rows, intensityColumns)[..i + 1] ==
      IsoformRows(rows, intensityColumns)[..i] + [IsoformRow(Identifiers(GeneCells(rows))[i], rows[i], intensityColumns)]
  {
  }

  /** Lines 132-149: the `gene_counts` loop. After `i` rows, `geneCounts` maps each
      gene seen so far to the number of rows with that gene among the first `i`. */
  method AddIsoformIdentifiers(rows: seq<Row>, intensityColumns: seq<string>) returns (rowsWithIdentifiers: seq<Row>)
    ensures rowsWithIdentifiers == IsoformRows(rows, intensityColumns)
  {
    ghost var genes := GeneCells(rows);
    ghost var expected := IsoformRows(rows, intensityColumns);
    var geneCounts: map<Cell, nat> := map[];
    rowsWithIdentifiers := [];
    var i := 0;
    while i < |rows|
      invariant 0 <= i <= |rows|
      invariant CountsAgree(geneCounts, genes[..i])
      invariant forall g :: g in geneCounts ==> geneCounts[g] >= 1
      invariant rowsWithIdentifiers == expected[..i]
    {
      var gene := Lookup(rows[i], GENE);
      var geneWithIdentifier;
      ghost var before := geneCounts;
      geneCounts, geneWithIdentifier := CountGene(geneCounts, gene);
      CounterStep(genes, i, before, geneCounts);
      var identifierAndIntensity := BuildRow(geneWithIdentifier, rows[i], intensityColumns);
      IsoformRowsStep(rows, intensityColumns, i);
      rowsWithIdentifiers := rowsWithIdentifiers + [identifierAndIntensity];
      i := i + 1;
    }
    assert expected[..i] == expected;
  }

  /** A gene is counted zero times exactly when it does not occur. */
  lemma {:induction false} CountOfZeroIff(genes: seq<Cell>, g: Cell)
    ensures CountOf(genes, g) == 0 <==> g !in genes
  {
    if genes != [] {
      var n := |genes| - 1;
      CountOfZeroIff(genes[..n], g);
      assert genes == genes[..n] + [genes[n]];
    }
  }

  /** The identifiers of a prefix of the rows do not depend on the rows after it. */
  lemma IdentifiersOfPrefix(genes: seq<Cell>, n: nat)
    requires n <= |genes|
    ensures Identifiers(genes)[..n] == Identifiers(genes[..n])
  {
    forall i | 0 <= i < n
      ensures Identifiers(genes)[i] == Identifiers(genes[..n])[i]
    {
      assert genes[..i + 1] == genes[..n][..i + 1];
    }
  }

  /** The naming rule row by row: the first row of a gene keeps the bare gene; a later
      one is `{gene}_{k}`, where k >= 2 is the number of rows of that gene up to and
      including it. */
  lemma IdentifierRule(genes: seq<Cell>, i: nat)
    requires i < |genes|
    ensures genes[i] !in genes[..i] ==> Identifiers(genes)[i] == genes[i]
    ensures genes[i] in genes[..i] ==>
      var k := CountOf(genes[..i + 1], genes[i]);
      k >= 2 && Identifiers(genes)[i] == Value(CellText(genes[i]) + "_" + NatToDecimal(k))
  {
    var g, before := genes[i], genes[..i];
    IdentifierAt(genes, i);
    CountOfZeroIff(before, g);
    assert genes[..i + 1] == before + [g];
    CountOfSnoc(before, g, g);
    if g in before {
      IsoformNameText(g, CountOf(before, g) + 1);
    }
  }

  /** The identifiers of the rows whose gene is `g`, in row order. */
  function NamesOf(names: seq<Cell>, genes: seq<Cell>, g: Cell): (r: seq<Cell>)
    requires |names| == |genes|
    ensures |r| == CountOf(genes, g)
  {
    if genes == [] then []
    else
      var n := |genes| - 1;
      NamesOf(names[..n], genes[..n], g) + (if genes[n] == g then [names[n]] else [])
  }

  /** `gene`, `gene_2`, `gene_3`, ..., `gene_n`. */
  function ExpectedNames(gene: Cell, n: nat): (r: seq<Cell>)
    ensures |r| == n
  {
    seq(n, k requires 0 <= k < n => IsoformName(gene, k + 1))
  }

  lemma ExpectedNamesSnoc(gene: Cell, n: nat)
    ensures ExpectedNames(gene, n + 1) == ExpectedNames(gene, n) + [IsoformName(gene, n + 1)]
  {
  }

  /** The n rows of gene `g`, wherever they stand, are named `g`, `g_2`, ..., `g_n`
      in row order. */
  lemma {:induction false} IsoformNamesInOrder(genes: seq<Cell>, g: Cell)
    ensures NamesOf(Identifiers(genes), genes, g) == ExpectedNames(g, CountOf(genes, g))
  {
    if genes != [] {
      var n := |genes| - 1;
      var prefix := genes[..n];
      IsoformNamesInOrder(prefix, g);
      IdentifiersOfPrefix(genes, n);
      IdentifierAt(genes, n);
      var ids := Identifiers(genes);
      assert NamesOf(ids, genes, g) == NamesOf(Identifiers(prefix), prefix, g) + (if genes[n] == g then [ids[n]] else []);
      if genes[n] == g {
        ExpectedNamesSnoc(g, CountOf(prefix, g));
      }
    }
  }

  /** Two different counts never give one gene the same name. */
  lemma IsoformNameInjective(gene: Cell, a: nat, b: nat)
    requires 1 <= a && 1 <= b && a != b
    ensures IsoformName(gene, a) != IsoformName(gene, b)
  {
    if a > 1 && b > 1 {
      var prefix := CellText(gene) + "_";
      var x, y := prefix + NatToDecimal(a), prefix + NatToDecimal(b);
      if x == y {
        assert x[|prefix|..] == NatToDecimal(a) && y[|prefix|..] == NatToDecimal(b);
        NatToDecimalInjective(a, b);
      }
    } else if a == 1 {
      assert gene.Value? ==> |IsoformName(gene, b).text| > |gene.text|;
    } else {
      assert gene.Value? ==> |IsoformName(gene, a).text| > |gene.text|;
    }
  }

  /** Within one gene the names are pairwise distinct. */
  lemma ExpectedNamesDistinct(gene: Cell, n: nat)
    ensures forall i, j :: 0 <= i < j < n ==> ExpectedNames(gene, n)[i] != ExpectedNames(gene, n)[j]
  {
    forall i, j | 0 <= i < j < n
      ensures ExpectedNames(gene, n)[i] != ExpectedNames(gene, n)[j]
    {
      IsoformNameInjective(gene, i + 1, j + 1);
    }
  }

  /** Across genes the names can collide: a second `X` is renamed `X_2`, the name
      an input row may already carry. */
  lemma SuffixedNameCanCollide()
    ensures Identifiers([Value("X"), Value("X"), Value("X_2")]) == [Value("X"), Value("X_2"), Value("X_2")]
  {
    var genes := [Value("X"), Value("X"), Value("X_2")];
    assert genes[..0] == [] && genes[..1] == [Value("X")] && genes[..2] == [Value("X"), Value("X")];
    IdentifierAt(genes, 0);
    IdentifierAt(genes, 1);
    IdentifierAt(genes, 2);
    assert CountOf(genes[..1], Value("X")) == 1;
    assert CountOf(genes[..2], Value("X_2")) == 0;
    assert NatToDecimal(2) == "2";
    assert Value("X" + "_" + "2") == Value("X_2");
  }
}
