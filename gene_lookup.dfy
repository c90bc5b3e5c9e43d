/**
 * What the page does with the ranked output: the gene selectors, and the
 * lookup of the selected gene's measurement rows and statistics row, in
 * single-gene mode and in compare mode.
 */
module GeneLookup {
  import opened Wrappers
  import opened GeneStats
  import opened SignificanceFilter

  /** Taking row 0 of an empty selection of the statistics table fails. */
  datatype LookupError = NoStatsRow

  /** Everything shown for one gene: its name, its measurement rows and its statistics row. */
  datatype GeneView = GeneView(gene: Gene, rows: seq<MeasurementRecord>, stat: GeneStatRecord)

  /** The row belongs to the selected gene; with nothing selected no row does. */
  predicate IsSelected(selected: Option<Gene>, row: MeasurementRecord)
  {
    selected.Some? && selected.value == row.gene
  }

  /**
   * The measurement rows whose gene equals the selection, in table order.
   * No gene selected compares unequal to every row, so nothing is kept.
   */
  function RowsFor(m: seq<MeasurementRecord>, selected: Option<Gene>): (r: seq<MeasurementRecord>)
  {
    if m == [] then []
    else (if IsSelected(selected, m[0]) then [m[0]] else []) + RowsFor(m[1..], selected)
  }

  /** Each row of the selected gene is kept as often as it occurs in the table, and no other row is. */
  lemma {:induction false} RowsForCount(m: seq<MeasurementRecord>, selected: Option<Gene>, x: MeasurementRecord)
    ensures multiset(RowsFor(m, selected))[x] == if IsSelected(selected, x) then multiset(m)[x] else 0
  {
    if m != [] {
      assert m == [m[0]] + m[1..];
      RowsForCount(m[1..], selected, x);
    }
  }

  /** The row selection works row by row, so the kept rows stay in their original order. */
  lemma {:induction false} RowsForAppend(a: seq<MeasurementRecord>, b: seq<MeasurementRecord>, selected: Option<Gene>)
    ensures RowsFor(a + b, selected) == RowsFor(a, selected) + RowsFor(b, selected)
  {
    if a == [] {
      assert a + b == b;
    } else {
      assert (a + b)[1..] == a[1..] + b;
      RowsForAppend(a[1..], b, selected);
    }
  }

  /** The position of the first statistics row for gene `g`, or None when the table has none. */
  function FirstStatIndex(stats: seq<GeneStatRecord>, g: Gene): (r: Option<nat>)
    ensures r.None? <==> forall i :: 0 <= i < |stats| ==> stats[i].gene != g
    ensures r.Some? ==> r.value < |stats| && stats[r.value].gene == g
    ensures r.Some? ==> forall j :: 0 <= j < r.value ==> stats[j].gene != g
  {
    if stats == [] then None
    else if stats[0].gene == g then Some(0)
    else
      match FirstStatIndex(stats[1..], g)
      case None => None
      case Some(i) => Some(i + 1)
  }

  /**
   * Resolves one selected gene: its measurement rows and the first
   * statistics row with its name. Fails when nothing is selected or the
   * statistics table has no row for the gene.
   */
  function Resolve(selected: Option<Gene>, m: seq<MeasurementRecord>, stats: seq<GeneStatRecord>): (r: Result<GeneView, LookupError>)
    ensures r.Ok? <==> selected.Some? && exists i :: 0 <= i < |stats| && stats[i].gene == selected.value
    ensures r.Ok? ==> r.value.gene == selected.value && r.value.rows == RowsFor(m, selected)
    ensures r.Ok? ==> exists i :: 0 <= i < |stats| && stats[i] == r.value.stat && stats[i].gene == r.value.gene
                                    && forall j :: 0 <= j < i ==> stats[j].gene != r.value.gene
  {
    match selected
    case None => Err(NoStatsRow)
    case Some(g) =>
      match FirstStatIndex(stats, g)
      case None => Err(NoStatsRow)
      case Some(i) => Ok(GeneView(g, RowsFor(m, selected), stats[i]))
  }

  /**
   * What a gene selector holds: nothing when its list is empty, otherwise
   * the entry at the chosen position (which must be a valid position).
   */
  function Pick(genes: seq<Gene>, choice: nat): (r: Option<Gene>)
    requires genes == [] || choice < |genes|
    ensures r.None? <==> genes == []
    ensures r.Some? ==> r.value in genes && r.value == genes[choice]
  {
    if genes == [] then None else Some(genes[choice])
  }

  /** The starting position of the Gene B selector in compare mode. */
  function DefaultSecondIndex(genes: seq<Gene>): (i: nat)
    ensures genes == [] || i < |genes|
    ensures i != 0 <==> |genes| > 1
    ensures i <= 1
  {
    if |genes| > 1 then 1 else 0
  }

  /**
   * The two default selections of compare mode name different entries when
   * the first two listed genes differ, and the same entry for a one-gene list.
   */
  lemma CompareDefaultsValid(genes: seq<Gene>)
    ensures |genes| > 1 && genes[0] != genes[1] ==> Pick(genes, 0) != Pick(genes, DefaultSecondIndex(genes))
    ensures |genes| == 1 ==> Pick(genes, 0) == Pick(genes, DefaultSecondIndex(genes))
  {
  }

  /** The gene names of the ranked output, most significant first. */
  function RankedGenes(stats: seq<GeneStatRecord>, pThresh: real, dThresh: real): (genes: seq<Gene>)
    ensures |genes| == |FilterAndRank(stats, pThresh, dThresh)|
    ensures forall i :: 0 <= i < |genes| ==> genes[i] == FilterAndRank(stats, pThresh, dThresh)[i].gene
    ensures forall g :: g in genes ==> exists x :: x in stats && Retained(x, pThresh, dThresh) && x.gene == g
  {
    var ranked := FilterAndRank(stats, pThresh, dThresh);
    var genes := GeneList(ranked);
    assert forall g :: g in genes ==> exists x :: x in stats && Retained(x, pThresh, dThresh) && x.gene == g by {
      forall g | g in genes ensures exists x :: x in stats && Retained(x, pThresh, dThresh) && x.gene == g {
        var i :| 0 <= i < |genes| && genes[i] == g;
        RankedMembership(stats, pThresh, dThresh, ranked[i]);
      }
    }
    genes
  }

  /** Every gene offered by a selector has a statistics row, so resolving it never fails. */
  lemma RankedGeneResolves(stats: seq<GeneStatRecord>, m: seq<MeasurementRecord>, pThresh: real, dThresh: real, g: Gene)
    requires g in RankedGenes(stats, pThresh, dThresh)
    ensures Resolve(Some(g), m, stats).Ok?
    ensures Resolve(Some(g), m, stats).value.rows == RowsFor(m, Some(g))
  {
    var x :| x in stats && Retained(x, pThresh, dThresh) && x.gene == g;
    var i :| 0 <= i < |stats| && stats[i] == x;
    ResolveAt(stats, m, g, i);
  }

  /** A gene with a statistics row at some position resolves to its measurement rows. */
  lemma ResolveAt(stats: seq<GeneStatRecord>, m: seq<MeasurementRecord>, g: Gene, i: nat)
    requires i < |stats| && stats[i].gene == g
    ensures Resolve(Some(g), m, stats).Ok?
    ensures Resolve(Some(g), m, stats).value.rows == RowsFor(m, Some(g))
  {
  }

  /** No two rows of the statistics table share a gene name. */
  predicate UniqueGenes(stats: seq<GeneStatRecord>)
  {
    forall i, j :: 0 <= i < j < |stats| ==> stats[i].gene != stats[j].gene
  }

  /**
   * With one statistics row per gene, the row shown for a ranked gene is
   * exactly the ranked row itself.
   */
  lemma ResolvedStatIsRankedRow(stats: seq<GeneStatRecord>, m: seq<MeasurementRecord>, pThresh: real, dThresh: real, x: GeneStatRecord)
    requires UniqueGenes(stats)
    requires x in FilterAndRank(stats, pThresh, dThresh)
    ensures Resolve(Some(x.gene), m, stats) == Ok(GeneView(x.gene, RowsFor(m, Some(x.gene)), x))
  {
    RankedMembership(stats, pThresh, dThresh, x);
    var k :| 0 <= k < |stats| && stats[k] == x;
    var r := Resolve(Some(x.gene), m, stats);
    var i :| 0 <= i < |stats| && stats[i] == r.value.stat && stats[i].gene == r.value.gene
               && forall j :: 0 <= j < i ==> stats[j].gene != r.value.gene;
    assert i == k;
  }

  /**
   * Single-gene mode: the gene chosen from the ranked list is resolved.
   * It fails exactly when no gene passes the filter.
   */
  function SingleGeneView(stats: seq<GeneStatRecord>, m: seq<MeasurementRecord>, pThresh: real, dThresh: real, choice: nat): (r: Result<GeneView, LookupError>)
    requires RankedGenes(stats, pThresh, dThresh) == [] || choice < |RankedGenes(stats, pThresh, dThresh)|
    ensures r.Err? <==> FilterAndRank(stats, pThresh, dThresh) == []
    ensures r.Ok? ==> r.value.gene == FilterAndRank(stats, pThresh, dThresh)[choice].gene
    ensures r.Ok? ==> r.value.rows == RowsFor(m, Some(r.value.gene)) && r == Resolve(Some(r.value.gene), m, stats)
  {
    var genes := RankedGenes(stats, pThresh, dThresh);
    var selected := Pick(genes, choice);
    if genes == [] then Resolve(selected, m, stats)
    else
      RankedGeneResolves(stats, m, pThresh, dThresh, selected.value);
      Resolve(selected, m, stats)
  }

  /**
   * Compare mode: two independent selections from the ranked list,
   * resolved in turn; the first failure stops the page.
   */
  function CompareView(stats: seq<GeneStatRecord>, m: seq<MeasurementRecord>, pThresh: real, dThresh: real, choiceA: nat, choiceB: nat): (r: Result<(GeneView, GeneView), LookupError>)
    requires RankedGenes(stats, pThresh, dThresh) == [] || choiceA < |RankedGenes(stats, pThresh, dThresh)|
    requires RankedGenes(stats, pThresh, dThresh) == [] || choiceB < |RankedGenes(stats, pThresh, dThresh)|
    ensures r.Err? <==> FilterAndRank(stats, pThresh, dThresh) == []
    ensures r.Ok? ==> r.value.0.gene == FilterAndRank(stats, pThresh, dThresh)[choiceA].gene
    ensures r.Ok? ==> r.value.1.gene == FilterAndRank(stats, pThresh, dThresh)[choiceB].gene
    ensures r.Ok? ==> r.value.0.rows == RowsFor(m, Some(r.value.0.gene)) && Resolve(Some(r.value.0.gene), m, stats) == Ok(r.value.0)
    ensures r.Ok? ==> r.value.1.rows == RowsFor(m, Some(r.value.1.gene)) && Resolve(Some(r.value.1.gene), m, stats) == Ok(r.value.1)
  {
    var a := SingleGeneView(stats, m, pThresh, dThresh, choiceA);
    var b := SingleGeneView(stats, m, pThresh, dThresh, choiceB);
    match a
    case Err(e) => Err(e)
    case Ok(va) =>
      match b
      case Err(e) => Err(e)
      case Ok(vb) => Ok((va, vb))
  }

  /**
   * Compare mode with the selectors at their starting positions: Gene A is
   * the top-ranked gene, Gene B the second when there is one and the top
   * one again otherwise; an empty ranking leaves nothing to show.
   */
  lemma {:induction false} CompareDefaults(stats: seq<GeneStatRecord>, m: seq<MeasurementRecord>, pThresh: real, dThresh: real)
    ensures var genes := RankedGenes(stats, pThresh, dThresh);
            var r := CompareView(stats, m, pThresh, dThresh, 0, DefaultSecondIndex(genes));
            && (r.Err? <==> genes == [])
            && (r.Ok? ==> r.value.0.gene == genes[0])
            && (r.Ok? && |genes| > 1 ==> r.value.1.gene == genes[1])
            && (r.Ok? && |genes| == 1 ==> r.value.1.gene == genes[0])
  {
  }
}
