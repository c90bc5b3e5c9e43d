/**
 * The two tables the gene browser reads, and the per-record tests the
 * significance filter applies to rows of the statistics table.
 */
module GeneStats {
  import opened Wrappers

  type Gene = string

  /** One row of the long-format CNA / protein table: many rows per gene. */
  datatype MeasurementRecord = MeasurementRecord(gene: Gene, cna: int, protein: real)

  /**
   * One row of the per-gene statistics table. For each comparison
   * (Amplification vs Neutral, Deletion vs Neutral) it holds a t-statistic,
   * a p-value and a Cohen's d; any of them may be missing.
   */
  datatype GeneStatRecord = GeneStatRecord(
    gene: Gene,
    ampT: Option<real>, ampP: Option<real>, ampD: Option<real>,
    delT: Option<real>, delP: Option<real>, delD: Option<real>)

  /** The four columns the filter needs are all present (the t-statistics are not required). */
  predicate Complete(r: GeneStatRecord)
  {
    r.ampP.Some? && r.delP.Some? && r.ampD.Some? && r.delD.Some?
  }

  predicate AllComplete(s: seq<GeneStatRecord>)
  {
    forall x :: x in s ==> Complete(x)
  }

  function Abs(x: real): (r: real)
    ensures r >= 0.0 && (r == x || r == -x)
  {
    if x < 0.0 then -x else x
  }

  /** One comparison clears the bar: p strictly below its cutoff, |d| at or above its cutoff. */
  predicate SidePasses(p: real, d: real, pThresh: real, dThresh: real)
  {
    p < pThresh && Abs(d) >= dThresh
  }

  /** A complete record is significant when at least one of its two comparisons clears the bar. */
  predicate Significant(r: GeneStatRecord, pThresh: real, dThresh: real)
    requires Complete(r)
  {
    || SidePasses(r.ampP.value, r.ampD.value, pThresh, dThresh)
    || SidePasses(r.delP.value, r.delD.value, pThresh, dThresh)
  }

  /** A record the whole filter keeps: complete, then significant. */
  predicate Retained(r: GeneStatRecord, pThresh: real, dThresh: real)
  {
    Complete(r) && Significant(r, pThresh, dThresh)
  }

  /** The "Min P-value" column: the smaller of the two p-values of a complete record. */
  function RankKey(r: GeneStatRecord): (k: real)
    requires Complete(r)
    ensures k <= r.ampP.value && k <= r.delP.value
    ensures k == r.ampP.value || k == r.delP.value
  {
    if r.ampP.value <= r.delP.value then r.ampP.value else r.delP.value
  }

  /** Records in non-decreasing order of their ranking key. */
  predicate SortedByKey(s: seq<GeneStatRecord>)
    requires AllComplete(s)
  {
    forall i, j :: 0 <= i < j < |s| ==> RankKey(s[i]) <= RankKey(s[j])
  }

  /**
   * Boundary behaviour of the significance test: a side whose p-value equals
   * the cutoff never qualifies, a side whose |d| equals the cutoff does
   * when its p-value is below the cutoff.
   */
  lemma SideBoundaries(p: real, d: real, pThresh: real, dThresh: real)
    ensures p == pThresh ==> !SidePasses(p, d, pThresh, dThresh)
    ensures p < pThresh && Abs(d) == dThresh ==> SidePasses(p, d, pThresh, dThresh)
    ensures p < pThresh && d == -dThresh && dThresh >= 0.0 ==> SidePasses(p, d, pThresh, dThresh)
  {
  }

  /**
   * At record level: p-values both equal to the cutoff exclude the record;
   * an effect size equal to the cutoff, with its p-value below, admits it.
   */
  lemma RecordBoundaries(r: GeneStatRecord, pThresh: real, dThresh: real)
    requires Complete(r)
    ensures r.ampP.value == pThresh && r.delP.value == pThresh ==> !Significant(r, pThresh, dThresh)
    ensures r.ampP.value < pThresh && Abs(r.ampD.value) == dThresh ==> Significant(r, pThresh, dThresh)
    ensures r.delP.value < pThresh && Abs(r.delD.value) == dThresh ==> Significant(r, pThresh, dThresh)
  {
  }

  /** Either side alone suffices: a strong amplification result outweighs a null deletion result. */
  lemma AmplificationSideAlone()
    ensures Retained(GeneStatRecord("G", None, Some(0.01), Some(0.5), None, Some(0.9), Some(0.0)), 0.05, 0.3)
    ensures Retained(GeneStatRecord("G", None, Some(0.9), Some(0.0), None, Some(0.01), Some(-0.5)), 0.05, 0.3)
  {
  }

  /**
   * Loosening the cutoffs (a larger p cutoff, a smaller effect cutoff) never
   * turns a significant record into an insignificant one.
   */
  lemma SignificantMonotone(r: GeneStatRecord, p1: real, d1: real, p2: real, d2: real)
    requires Complete(r) && p2 <= p1 && d1 <= d2
    ensures Significant(r, p2, d2) ==> Significant(r, p1, d1)
  {
  }

  /** Every record the filter keeps has a ranking key below the p cutoff. */
  lemma RetainedKeyBelowCutoff(r: GeneStatRecord, pThresh: real, dThresh: real)
    requires Retained(r, pThresh, dThresh)
    ensures RankKey(r) < pThresh
    ensures RankKey(r) <= r.ampP.value && RankKey(r) <= r.delP.value
  {
  }
}
