/**
 * Per-node statistics of the proxy pool and the bookkeeping of one probe
 * round (pool/pool.go:87-124), as values.
 *
 * The source keeps each statistic in its own atomic int64 field; here they
 * are gathered into one record so that a round can be specified as a
 * function from the old statistics to the new ones.  The node class in
 * module Node applies that function to its fields in place.
 */
module Probing {

  /** The seven statistics of a proxy node, named as in the source. */
  datatype Stats = Stats(
    total: int,      // probes issued
    okcnt: int,      // probes whose connection passed the checker
    failcnt: int,    // failed probes since the last successful one
    timeout: int,    // round-trip, in milliseconds, of the last successful probe
    usability: int,  // percentage of probes that succeeded
    last: int,       // start time, in Unix nanoseconds, of the last probe
    count: int)      // traffic connections handed out by Dial and not yet closed

  /** A freshly created node: every statistic is zero. */
  const Zero := Stats(0, 0, 0, 0, 0, 0, 0)

  const NsPerMs := 1000000

  /** What one probe observed. */
  datatype Outcome =
    | DialError                 // the dialer returned an error
    | Rejected                  // dialed, but the checker did not accept the connection
    | Accepted(elapsedNs: nat)  // dialed and accepted; nanoseconds since the round began

  /** One probe round: its outcome and the clock reading taken when it began. */
  datatype Probe = Probe(outcome: Outcome, now: int)

  predicate Succeeded(p: Probe) { p.outcome.Accepted? }

  /**
   * The usability percentage for `ok` successes out of `total` probes,
   * truncated toward zero.  It reaches 100 exactly when every probe
   * succeeded and is 0 exactly when fewer than one in a hundred did.
   */
  function Percent(ok: int, total: int): (p: int)
    requires 0 <= ok <= total && 0 < total
    ensures 0 <= p <= 100
    ensures p == 100 <==> ok == total
    ensures p == 0 <==> ok * 100 < total
  {
    var p := ok * 100 / total;
    DivisionBelow(ok * 100, total, 1);
    DivisionBelow(ok * 100, total, 100);
    DivisionBelow(ok * 100, total, 101);
    p
  }

  /** Truncated division `x / d` falls below `k` exactly when `x` falls below `k * d`. */
  lemma DivisionBelow(x: int, d: int, k: int)
    requires 0 <= x && 0 < d
    ensures 0 <= x / d
    ensures x / d < k <==> x < k * d
  {
    var q, r := x / d, x % d;
    assert x == q * d + r && 0 <= r < d;
    if q < 0 {
      MulMonotone(q, -1, d);
    }
    if q < k {
      MulMonotone(q + 1, k, d);
      assert (q + 1) * d == q * d + d;
    } else {
      MulMonotone(k, q, d);
    }
  }

  lemma MulMonotone(a: int, b: int, d: int)
    requires a <= b && 0 <= d
    ensures a * d <= b * d
  {
  }

  /**
   * The invariant the probe loop keeps: successes never exceed probes, the
   * failure streak never exceeds the failed probes, and usability is the
   * success percentage (0 before the first probe).
   */
  ghost predicate WellFormed(s: Stats)
  {
    && 0 <= s.okcnt <= s.total
    && 0 <= s.failcnt <= s.total - s.okcnt
    && 0 <= s.timeout
    && s.usability == (if s.total == 0 then 0 else Percent(s.okcnt, s.total))
  }

  /**
   * The statistics after one probe round.  Every round counts one probe; an
   * accepted connection counts a success, ends the failure streak and
   * records the round-trip in whole milliseconds; a dial error or a rejected
   * connection extends the failure streak.  The round then refreshes the
   * usability percentage and the last-probe time.  The in-use connection
   * count is not touched.
   */
  function Step(s: Stats, p: Probe): (t: Stats)
    requires WellFormed(s)
    ensures WellFormed(t)
    ensures t.total == s.total + 1 && t.last == p.now && t.count == s.count
    ensures Succeeded(p) ==> t.okcnt == s.okcnt + 1 && t.failcnt == 0
    ensures Succeeded(p) ==> t.timeout == p.outcome.elapsedNs / NsPerMs
    ensures !Succeeded(p) ==> t.okcnt == s.okcnt && t.failcnt == s.failcnt + 1 && t.timeout == s.timeout
    ensures 0 <= t.usability <= 100
  {
    var total := s.total + 1;
    match p.outcome
    case Accepted(ns) =>
      s.(total := total, okcnt := s.okcnt + 1, failcnt := 0, timeout := ns / NsPerMs,
         usability := Percent(s.okcnt + 1, total), last := p.now)
    case _ =>
      s.(total := total, failcnt := s.failcnt + 1,
         usability := Percent(s.okcnt, total), last := p.now)
  }

  /** The statistics after the rounds `ps`, in order, starting from `s`. */
  function Run(s: Stats, ps: seq<Probe>): (r: Stats)
    requires WellFormed(s)
    ensures WellFormed(r)
    ensures r.total == s.total + |ps| && r.count == s.count
    decreases |ps|
  {
    if ps == [] then s else Step(Run(s, ps[..|ps| - 1]), ps[|ps| - 1])
  }

  /** Running one more round extends the run by one Step. */
  lemma RunSnoc(s: Stats, ps: seq<Probe>, p: Probe)
    requires WellFormed(s)
    ensures Run(s, ps + [p]) == Step(Run(s, ps), p)
  {
    assert (ps + [p])[..|ps|] == ps;
  }

  /** The number of accepted probes in `ps`. */
  function Successes(ps: seq<Probe>): nat
  {
    if ps == [] then 0
    else Successes(ps[..|ps| - 1]) + (if Succeeded(ps[|ps| - 1]) then 1 else 0)
  }

  /** The number of failed probes at the end of `ps`, after its last success. */
  function TrailingFailures(ps: seq<Probe>): nat
  {
    if ps == [] || Succeeded(ps[|ps| - 1]) then 0 else TrailingFailures(ps[..|ps| - 1]) + 1
  }

  /**
   * Over any sequence of rounds, `okcnt` grows by the number of successes
   * and `failcnt` is the length of the final run of failures, continuing the
   * old streak when no round succeeded.
   */
  lemma {:induction false} RunCounts(s: Stats, ps: seq<Probe>)
    requires WellFormed(s)
    ensures Run(s, ps).okcnt == s.okcnt + Successes(ps)
    ensures Run(s, ps).failcnt ==
      (if Successes(ps) == 0 then s.failcnt + |ps| else TrailingFailures(ps))
    decreases |ps|
  {
    if ps != [] {
      var init := ps[..|ps| - 1];
      RunCounts(s, init);
      if !Succeeded(ps[|ps| - 1]) && Successes(init) != 0 {
        assert TrailingFailures(ps) == TrailingFailures(init) + 1;
      }
    }
  }

  /**
   * A node whose dialer always fails: after N rounds from a fresh node,
   * N probes were issued, none succeeded, usability is 0 and the failure
   * streak is N.
   */
  lemma AllDialErrors(ps: seq<Probe>)
    requires forall i :: 0 <= i < |ps| ==> ps[i].outcome == DialError
    ensures Run(Zero, ps).total == |ps|
    ensures Run(Zero, ps).okcnt == 0
    ensures Run(Zero, ps).failcnt == |ps|
    ensures Run(Zero, ps).usability == 0
  {
    NoSuccesses(ps);
    RunCounts(Zero, ps);
  }

  lemma {:induction false} NoSuccesses(ps: seq<Probe>)
    requires forall i :: 0 <= i < |ps| ==> !Succeeded(ps[i])
    ensures Successes(ps) == 0
    decreases |ps|
  {
    if ps != [] {
      NoSuccesses(ps[..|ps| - 1]);
    }
  }

  /**
   * A node whose dialer succeeds and whose checker accepts: after its first
   * round it is fully usable and its round-trip is not negative.
   */
  lemma FirstRoundAccepted(p: Probe)
    requires Succeeded(p)
    ensures Step(Zero, p).usability == 100
    ensures Step(Zero, p).timeout >= 0
  {
  }
}
