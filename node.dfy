/**
 * A proxy node (pool/pool.go:52-128, 170-177, 304-311) and the connection
 * wrapper it hands out (pool/pool.go:39-50).
 *
 * Every atomic field of the source is a plain field here, and a
 * compare-and-swap is "test the field, then set it".  The probe goroutine
 * started by StartCheck is a sequential loop over the observations it
 * makes, one Tick per evaluation of its loop guard; the dialer, the checker
 * and the clock are not called but supply their answers in those Ticks.
 */
module Node {
  import opened Probing
  import Backoff

  datatype Option<T> = None | Some(value: T)

  /**
   * What the probe loop observes at one evaluation of its guard: whether a
   * Close() from elsewhere arrived before it, what the checker's IsExit()
   * answers, and, should the loop go on, how the round's probe turns out.
   */
  datatype Tick = Tick(closeRequested: bool, isExit: bool, probe: Probe)

  /** A guard evaluation that lets the loop run another round on an open node. */
  predicate Quiet(t: Tick) { !t.closeRequested && !t.isExit }

  /** The number of ticks before the first one that is not quiet. */
  function QuietPrefix(ticks: seq<Tick>): (n: nat)
    ensures n <= |ticks|
    ensures forall j :: 0 <= j < n ==> Quiet(ticks[j])
    ensures n < |ticks| ==> !Quiet(ticks[n])
  {
    if ticks == [] || !Quiet(ticks[0]) then 0 else 1 + QuietPrefix(ticks[1..])
  }

  /** The rounds the loop runs when it starts with `exit` equal to `exit0`. */
  function RoundsRun(exit0: nat, ticks: seq<Tick>): (n: nat)
    ensures n <= |ticks|
  {
    if exit0 != 0 then 0 else QuietPrefix(ticks)
  }

  /** Whether the loop has stopped by the last tick. */
  predicate Stops(exit0: nat, ticks: seq<Tick>)
  {
    RoundsRun(exit0, ticks) < |ticks|
  }

  /** The `exit` flag once the loop has processed `ticks`. */
  function ExitAfter(exit0: nat, ticks: seq<Tick>): nat
  {
    if exit0 != 0 then exit0
    else if Stops(exit0, ticks) && ticks[RoundsRun(exit0, ticks)].closeRequested then 1
    else 0
  }

  /** The probes of the rounds in `ticks`. */
  function Probes(ticks: seq<Tick>): (ps: seq<Probe>)
    ensures |ps| == |ticks|
    ensures forall j :: 0 <= j < |ticks| ==> ps[j] == ticks[j].probe
  {
    seq(|ticks|, j requires 0 <= j < |ticks| => ticks[j].probe)
  }

  lemma ProbesSnoc(ticks: seq<Tick>, i: nat)
    requires i < |ticks|
    ensures Probes(ticks[..i + 1]) == Probes(ticks[..i]) + [ticks[i].probe]
  {
  }

  /** A run flag: the source only ever swaps it between 0 and 1. */
  type Flag = x: int | 0 <= x <= 1

  class ProxyNode {
    var flags: Flag     // 1 while a probe loop runs
    var exit: Flag      // 1 once the node was asked to stop
    var total: int
    var okcnt: int
    var failcnt: int
    var timeout: int
    var usability: int
    var last: int
    var count: int

    /** The statistics held in the fields. */
    function Snapshot(): Stats
      reads this`total, this`okcnt, this`failcnt, this`timeout, this`usability, this`last, this`count
    {
      Stats(total, okcnt, failcnt, timeout, usability, last, count)
    }

    ghost predicate Valid()
      reads this
    {
      WellFormed(Snapshot())
    }

    /** `&proxyNode{fn: fn}`: all counters and flags zero. */
    constructor ()
      ensures Valid() && Snapshot() == Zero && flags == 0 && exit == 0
    {
      flags, exit := 0, 0;
      total, okcnt, failcnt, timeout, usability, last, count := 0, 0, 0, 0, 0, 0, 0;
    }

    /** Asks the probe loop to stop: `exit` goes from 0 to 1, and otherwise stays. */
    method Close()
      modifies this`exit
      ensures exit == if old(exit) == 0 then 1 else old(exit)
    {
      if exit == 0 {
        exit := 1;
      }
    }

    /**
     * One pass of the probe loop's body.  The statistics change as Step
     * says; the pause returned, in seconds, is the backoff for a third of
     * the failure streak.
     */
    method ProbeRound(p: Probe) returns (pause: nat)
      requires Valid()
      modifies this
      ensures Valid()
      ensures Snapshot() == Step(old(Snapshot()), p)
      ensures flags == old(flags) && exit == old(exit)
      ensures pause == Backoff.Escalated(failcnt / 3)
    {
      total := total + 1;
      match p.outcome {
        case Accepted(ns) =>
          okcnt := okcnt + 1;
          failcnt := 0;
          timeout := ns / NsPerMs;
        case _ =>
          failcnt := failcnt + 1;
      }
      usability := Percent(okcnt, total);
      last := p.now;
      pause := Backoff.Slow(failcnt / 3);
    }

    /**
     * Starts the probe loop unless one is already running.  A started loop
     * runs the rounds of the quiet ticks; at the first tick where a Close()
     * has arrived, the checker reports exit, or `exit` was already set, it
     * stops and clears `flags`.  If the ticks run out first, the loop is
     * still running and `flags` stays 1.
     */
    method StartCheck(ticks: seq<Tick>) returns (started: bool, rounds: nat)
      requires Valid()
      modifies this
      ensures Valid()
      ensures started == (old(flags) == 0)
      ensures !started ==> Snapshot() == old(Snapshot()) && flags == old(flags) && exit == old(exit)
      ensures started ==> rounds == RoundsRun(old(exit), ticks)
      ensures started ==> Snapshot() == Run(old(Snapshot()), Probes(ticks[..rounds]))
      ensures started ==> exit == ExitAfter(old(exit), ticks)
      ensures started ==> flags == if Stops(old(exit), ticks) then 0 else 1
    {
      started := flags == 0;
      rounds := 0;
      if !started {
        return;
      }
      flags := 1;
      ghost var s0, exit0 := Snapshot(), exit;
      var stopped := false;
      while rounds < |ticks| && !stopped
        invariant Valid() && flags == 1
        invariant rounds <= RoundsRun(exit0, ticks)
        invariant stopped ==> rounds == RoundsRun(exit0, ticks) < |ticks|
        invariant exit == if stopped then ExitAfter(exit0, ticks) else exit0
        invariant Snapshot() == Run(s0, Probes(ticks[..rounds]))
        decreases |ticks| - rounds, if stopped then 0 else 1
      {
        var t := ticks[rounds];
        if t.closeRequested {
          Close();
        }
        if t.isExit || exit != 0 {
          assert exit0 == 0 ==> !Quiet(t);
          stopped := true;
        } else {
          assert exit0 == 0 && Quiet(t);
          ProbesSnoc(ticks, rounds);
          RunSnoc(s0, Probes(ticks[..rounds]), t.probe);
          var _ := ProbeRound(t.probe);
          rounds := rounds + 1;
        }
      }
      if stopped {
        flags := 0;
      }
    }

    /**
     * Opens a traffic connection.  `dialErr` is the dialer's error, None
     * when it connected.  On success `count` goes up by one and the caller
     * gets a wrapper bound to this node; on failure the error is returned
     * unchanged and nothing else changes.
     */
    method Dial(dialErr: Option<string>) returns (conn: ProxyConn?, err: Option<string>)
      modifies this`count
      ensures err == dialErr
      ensures conn != null <==> dialErr == None
      ensures conn != null ==> fresh(conn) && conn.node == this
      ensures count == old(count) + if dialErr == None then 1 else 0
    {
      if dialErr == None {
        count := count + 1;
        conn := new ProxyConn(this);
        err := None;
      } else {
        conn := null;
        err := dialErr;
      }
    }
  }

  /** `NewProxyNode(fn)`: a fresh node, or nil when no dialer is given. */
  method NewProxyNode(hasDialer: bool) returns (node: ProxyNode?)
    ensures (node != null) == hasDialer
    ensures node != null ==> fresh(node) && node.Valid() && node.Snapshot() == Zero
    ensures node != null ==> node.flags == 0 && node.exit == 0
  {
    if hasDialer {
      node := new ProxyNode();
    } else {
      node := null;
    }
  }

  /** A traffic connection handed out by Dial, wrapping the dialed one. */
  class ProxyConn {
    var node: ProxyNode?

    constructor (node: ProxyNode?)
      ensures this.node == node
    {
      this.node := node;
    }

    /**
     * Closes the connection: the owning node's `count` drops by one.
     * Nothing guards against a second Close, which drops it again.
     */
    method Close()
      modifies if node == null then {} else {node}
      ensures node == old(node)
      ensures node != null ==> node.count == old(node.count) - 1
      ensures node != null ==> node.Snapshot() == old(node.Snapshot()).(count := old(node.count) - 1)
      ensures node != null ==> node.flags == old(node.flags) && node.exit == old(node.exit)
    {
      if node != null {
        node.count := node.count - 1;
      }
    }
  }

  /** Two Closes of one wrapper lower the node's count twice. */
  method CloseTwice(node: ProxyNode) returns (before: int, after: int)
    modifies node
    ensures after == before - 2
  {
    var conn, _ := node.Dial(None);
    before := node.count;
    conn.Close();
    conn.Close();
    after := node.count;
  }
}
