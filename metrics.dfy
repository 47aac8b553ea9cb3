/**
 * Named access to a node's statistics and the comparisons built on them:
 * `Get` and `Compare` (pool/pool.go:130-168) and the ranking relation
 * `before` (pool/pool.go:202-205).  They only read the statistics, so they
 * are functions of a Stats snapshot.
 */
module Metrics {
  import opened Probing

  /** The metric names `Get` and `Compare` recognise, and every other name. */
  datatype Metric = Total | Okcnt | Failcnt | Timeout | Usability | Last | Count | Unknown

  /** The string the source switches on for a recognised metric. */
  function NameOf(m: Metric): string
    requires m != Unknown
  {
    match m
    case Total => "total"
    case Okcnt => "okcnt"
    case Failcnt => "failcnt"
    case Timeout => "timeout"
    case Usability => "usability"
    case Last => "last"
    case Count => "count"
  }

  /** The metric a name selects; any name not in the switch is Unknown. */
  function ParseMetric(name: string): (m: Metric)
    ensures m != Unknown ==> NameOf(m) == name
  {
    if name == "total" then Total
    else if name == "okcnt" then Okcnt
    else if name == "failcnt" then Failcnt
    else if name == "timeout" then Timeout
    else if name == "usability" then Usability
    else if name == "last" then Last
    else if name == "count" then Count
    else Unknown
  }

  /** Every recognised name parses back to its own metric. */
  lemma ParseNameOf(m: Metric)
    requires m != Unknown
    ensures ParseMetric(NameOf(m)) == m
  {
  }

  /** Metrics on which a larger value is better. */
  predicate HigherIsBetter(m: Metric) { m == Total || m == Okcnt || m == Usability || m == Last }

  /** Metrics on which a smaller value is better. */
  predicate LowerIsBetter(m: Metric) { m == Failcnt || m == Timeout || m == Count }

  /**
   * The value of metric `m` in `s`, and 0 for an unknown name.  On a
   * well-formed node the success and failure counts never exceed the
   * number of probes and usability is a percentage.
   */
  function Get(s: Stats, m: Metric): (v: int)
    ensures m == Unknown ==> v == 0
    ensures WellFormed(s) && (m == Okcnt || m == Failcnt) ==> 0 <= v <= s.total
    ensures WellFormed(s) && m == Usability ==> 0 <= v <= 100
  {
    match m
    case Total => s.total
    case Okcnt => s.okcnt
    case Failcnt => s.failcnt
    case Timeout => s.timeout
    case Usability => s.usability
    case Last => s.last
    case Count => s.count
    case Unknown => 0
  }

  /**
   * `a.Compare(b, m)`: whether `a` strictly beats `b` on metric `m`.  A
   * win needs the two values to differ, and an unknown name never wins.
   */
  predicate Compare(a: Stats, b: Stats, m: Metric)
    ensures Compare(a, b, m) ==> m != Unknown && Get(a, m) != Get(b, m)
  {
    match m
    case Total => b.total < a.total
    case Okcnt => b.okcnt < a.okcnt
    case Failcnt => b.failcnt > a.failcnt
    case Timeout => b.timeout > a.timeout
    case Usability => b.usability < a.usability
    case Last => b.last < a.last
    case Count => b.count > a.count
    case Unknown => false
  }

  /**
   * `Compare` agrees with `Get`: larger wins on total, okcnt, usability and
   * last, smaller wins on failcnt, timeout and count, and nothing else wins.
   */
  lemma CompareByDirection(a: Stats, b: Stats, m: Metric)
    ensures Compare(a, b, m) <==>
      (HigherIsBetter(m) && Get(b, m) < Get(a, m)) || (LowerIsBetter(m) && Get(a, m) < Get(b, m))
  {
  }

  /** For every metric `Compare` is a strict order: irreflexive and transitive. */
  lemma CompareIsStrictOrder(a: Stats, b: Stats, c: Stats, m: Metric)
    ensures !Compare(a, a, m)
    ensures Compare(a, b, m) ==> !Compare(b, a, m)
    ensures Compare(a, b, m) && Compare(b, c, m) ==> Compare(a, c, m)
  {
  }

  /**
   * `a.before(b)`: `a` ranks ahead of `b` when it has strictly higher
   * usability AND a strictly later last probe, that is, when it wins on
   * both of those metrics.
   */
  predicate Before(a: Stats, b: Stats)
    ensures Before(a, b) <==> Compare(a, b, Usability) && Compare(a, b, Last)
  {
    b.usability < a.usability && b.last < a.last
  }

  /** `Before` is a strict partial order. */
  lemma BeforeIsStrictPartialOrder(a: Stats, b: Stats, c: Stats)
    ensures !Before(a, a)
    ensures Before(a, b) ==> !Before(b, a)
    ensures Before(a, b) && Before(b, c) ==> Before(a, c)
  {
  }

  /** Neither of two nodes ranks ahead of the other. */
  predicate Incomparable(a: Stats, b: Stats)
  {
    !Before(a, b) && !Before(b, a)
  }

  /**
   * `Before` is not a strict weak order: incomparability is not
   * transitive, so a sort driven by it promises no particular order for
   * comparable pairs separated by incomparable ones, already among
   * statistics that probe rounds can produce.
   */
  lemma BeforeIsNotStrictWeak()
    ensures exists a: Stats, b: Stats, c: Stats ::
      WellFormed(a) && WellFormed(b) && WellFormed(c) &&
      Incomparable(a, b) && Incomparable(b, c) && Before(a, c)
  {
    var a := Stats(100, 2, 0, 0, 2, 2, 0);
    var b := Stats(100, 3, 0, 0, 3, 0, 0);
    var c := Stats(100, 1, 0, 0, 1, 1, 0);
    assert WellFormed(a) && WellFormed(b) && WellFormed(c);
    assert Incomparable(a, b) && Incomparable(b, c) && Before(a, c);
  }

  /**
   * A node with usability 80 probed at t1 ranks ahead of one with
   * usability 50 probed earlier at t2.
   */
  lemma DominantNodeRanksFirst(a: Stats, b: Stats)
    requires a.usability == 80 && b.usability == 50 && b.last < a.last
    ensures Before(a, b) && !Before(b, a)
  {
  }
}
