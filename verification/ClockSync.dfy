/** What one process measures: the ping-pong of esync_master, and the rounds of vt_esync. */
module ClockSync {
  import opened SyncRounds

  const LOOP_COUNT: nat := 20

  /** One ping-pong: sent and received on the master's clock, answered on the slave's. */
  datatype Exchange = Exchange(tsend: int, tslave: int, trecv: int)

  datatype Phase = Phase(id1: nat, id2: nat, t1: int, t2: int, t3: int, t4: int)

  predicate ShortestForth(p: Phase, ex: seq<Exchange>) {
    && (exists i :: 0 <= i < |ex| && p.t1 == ex[i].tsend && p.t2 == ex[i].tslave)
    && (forall i :: 0 <= i < |ex| ==> p.t2 - p.t1 <= ex[i].tslave - ex[i].tsend)
  }

  predicate ShortestBack(p: Phase, ex: seq<Exchange>) {
    && (exists i :: 0 <= i < |ex| && p.t3 == ex[i].tslave && p.t4 == ex[i].trecv)
    && (forall i :: 0 <= i < |ex| ==> p.t4 - p.t3 <= ex[i].trecv - ex[i].tslave)
  }

  /** What the master saves for its exchange with the slave. */
  predicate IsPhase(p: Phase, master: nat, slave: nat, ex: seq<Exchange>) {
    p.id1 == master && p.id2 == slave && ShortestForth(p, ex) && ShortestBack(p, ex)
  }

  /** esync_master, given the stamps the exchanges produce. */
  method Master(slave: nat, masterid: nat, ex: seq<Exchange>) returns (p: Phase)
    requires |ex| == LOOP_COUNT
    ensures IsPhase(p, masterid, slave, ex)
  {
    var t1, t2 := ex[0].tsend, ex[0].tslave;
    var t3, t4 := t2, ex[0].trecv;
    for i := 1 to LOOP_COUNT
      invariant ShortestForth(Phase(masterid, slave, t1, t2, t3, t4), ex[..i])
      invariant ShortestBack(Phase(masterid, slave, t1, t2, t3, t4), ex[..i])
    {
      ghost var p0 := Phase(masterid, slave, t1, t2, t3, t4);
      var tsend, tslave, trecv := ex[i].tsend, ex[i].tslave, ex[i].trecv;
      if tslave - tsend < t2 - t1 {
        t1, t2 := tsend, tslave;
      }
      if trecv - tslave < t4 - t3 {
        t3, t4 := tslave, trecv;
      }
      KeepsShortest(p0, Phase(masterid, slave, t1, t2, t3, t4), ex, i);
    }
    p := Phase(masterid, slave, t1, t2, t3, t4);
    assert ex[..LOOP_COUNT] == ex;
  }

  lemma KeepsShortest(p0: Phase, p: Phase, ex: seq<Exchange>, i: nat)
    requires i < |ex| && ShortestForth(p0, ex[..i]) && ShortestBack(p0, ex[..i])
    requires if ex[i].tslave - ex[i].tsend < p0.t2 - p0.t1 then p.t1 == ex[i].tsend && p.t2 == ex[i].tslave
             else p.t1 == p0.t1 && p.t2 == p0.t2
    requires if ex[i].trecv - ex[i].tslave < p0.t4 - p0.t3 then p.t3 == ex[i].tslave && p.t4 == ex[i].trecv
             else p.t3 == p0.t3 && p.t4 == p0.t4
    ensures ShortestForth(p, ex[..i + 1]) && ShortestBack(p, ex[..i + 1])
  {
    var a, b := ex[..i], ex[..i + 1];
    assert forall j :: 0 <= j < i ==> b[j] == a[j];
    assert b[i] == ex[i];
  }

  /** The slave's clock shows offset more than the master's; no message travels back in time. */
  predicate Explains(offset: int, e: Exchange) {
    && e.tsend <= e.tslave - offset
    && e.tslave - offset <= e.trecv
  }

  /** The four stamps bracket the clock offset: an offset is possible for every exchange
      iff it lies in [t3 - t4, t2 - t1]. No exchange gives a tighter interval. */
  lemma OffsetBracket(p: Phase, master: nat, slave: nat, ex: seq<Exchange>, offset: int)
    requires IsPhase(p, master, slave, ex)
    ensures (forall i :: 0 <= i < |ex| ==> Explains(offset, ex[i])) <==> p.t3 - p.t4 <= offset <= p.t2 - p.t1
  {
    var i :| 0 <= i < |ex| && p.t1 == ex[i].tsend && p.t2 == ex[i].tslave;
    var j :| 0 <= j < |ex| && p.t3 == ex[j].tslave && p.t4 == ex[j].trecv;
    if forall i :: 0 <= i < |ex| ==> Explains(offset, ex[i]) {
      assert Explains(offset, ex[i]) && Explains(offset, ex[j]);
    }
  }

  // ----- the rounds of one process -----

  /** The rounds below upTo in which the process is a master, the last one first. */
  function MasterRounds(id: nat, n: nat, upTo: nat): seq<nat>
    requires n >= 1
  {
    if upTo == 0 then []
    else if id < Partner(id, n, upTo - 1) < n then [upTo - 1] + MasterRounds(id, n, upTo - 1)
    else MasterRounds(id, n, upTo - 1)
  }

  predicate PhasesOf(phases: seq<Phase>, id: nat, n: nat, upTo: nat, exchanges: seq<seq<Exchange>>)
    requires n >= 1 && upTo <= |exchanges|
  {
    var rounds := MasterRounds(id, n, upTo);
    && |phases| == |rounds|
    && forall i :: 0 <= i < |rounds| ==>
        && rounds[i] < upTo
        && IsPhase(phases[i], id, Partner(id, n, rounds[i]), exchanges[rounds[i]])
  }

  lemma AnotherPhase(p: Phase, phases: seq<Phase>, id: nat, n: nat, r: nat, exchanges: seq<seq<Exchange>>)
    requires n >= 1 && r < |exchanges| && PhasesOf(phases, id, n, r, exchanges)
    requires id < Partner(id, n, r) < n && IsPhase(p, id, Partner(id, n, r), exchanges[r])
    ensures PhasesOf([p] + phases, id, n, r + 1, exchanges)
  {
    hide Partner, IsPhase;
    assert MasterRounds(id, n, r + 1) == [r] + MasterRounds(id, n, r);
  }

  /** The loop of vt_esync: saved phases are put in front of the list. */
  method Measure(myrank: nat, numnodes: nat, exchanges: seq<seq<Exchange>>) returns (phases: seq<Phase>)
    requires myrank < numnodes && |exchanges| == Slots(numnodes)
    requires forall r :: 0 <= r < |exchanges| ==> |exchanges[r]| == LOOP_COUNT
    ensures PhasesOf(phases, myrank, numnodes, Slots(numnodes), exchanges)
  {
    hide Partner, IsPhase;
    phases := [];
    for i := 0 to Slots(numnodes)
      invariant PhasesOf(phases, myrank, numnodes, i, exchanges)
    {
      var partnerid := Partner(myrank, numnodes, i);
      if partnerid < numnodes {
        if myrank < partnerid {
          var p := Master(partnerid, myrank, exchanges[i]);
          AnotherPhase(p, phases, myrank, numnodes, i, exchanges);
          phases := [p] + phases;
        }
      }
    }
  }

  /** How often a list of rounds pairs id with y. */
  function Records(rounds: seq<nat>, id: nat, y: nat, n: nat): nat
    requires n >= 1
  {
    if |rounds| == 0 then 0
    else (if Partner(id, n, rounds[0]) == y then 1 else 0) + Records(rounds[1..], id, y, n)
  }

  /** Of two processes that are measured against each other, the lower one saves the pair, exactly
      once over all rounds; the higher one never does. */
  lemma PairRecordedOnce(x: nat, y: nat, n: nat)
    requires x < n && y < n
    ensures Records(MasterRounds(x, n, Slots(n)), x, y, n) == if x < y && Measured(x, y, n) then 1 else 0
  {
    SlotsWithinHalf(n);
    RecordsUpTo(x, y, n, Slots(n));
  }

  lemma {:induction false} RecordsUpTo(x: nat, y: nat, n: nat, upTo: nat)
    requires x < n && y < n && upTo <= Half(n)
    ensures Records(MasterRounds(x, n, upTo), x, y, n) ==
            if x < y && exists round :: 0 <= round < upTo && Partner(x, n, round) == y then 1 else 0
  {
    if upTo > 0 {
      RecordsUpTo(x, y, n, upTo - 1);
      var r := upTo - 1;
      if x < Partner(x, n, r) < n {
        assert ([r] + MasterRounds(x, n, r))[1..] == MasterRounds(x, n, r);
      }
      if Partner(x, n, r) == y {
        forall round | 0 <= round < r && Partner(x, n, round) == y ensures false {
          NoPairRepeats(x, n, round, r);
        }
      }
    }
  }
}
