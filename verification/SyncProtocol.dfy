/** n processes running the rounds of vt_esync at their own speed, with a first-in first-out
    channel from every process to every other. */
module SyncProtocol {
  import opened SyncRounds
  import opened ClockSync

  /** A message carries its tag; round says in which round it was sent. */
  datatype Msg = Msg(round: nat, tag: nat)

  /** A process in its script of one round: the master sends in even steps and receives in odd
      ones, the slave the other way round. Message i belongs to steps 2i and 2i + 1. */
  datatype Proc = Proc(round: nat, step: nat)

  datatype State = State(procs: seq<Proc>, chan: map<(nat, nat), seq<Msg>>)

  const SCRIPT: nat := 2 * LOOP_COUNT

  function Queue(s: State, from: nat, to: nat): seq<Msg> {
    if (from, to) in s.chan then s.chan[(from, to)] else []
  }

  predicate Sends(p: nat, q: nat, step: nat) {
    p < q <==> step % 2 == 0
  }

  /** The message a receive with this tag matches; |q| if there is none. */
  function FirstWithTag(q: seq<Msg>, tag: nat): (i: nat)
    ensures i <= |q|
    ensures i < |q| ==> q[i].tag == tag
  {
    if |q| == 0 || q[0].tag == tag then 0 else 1 + FirstWithTag(q[1..], tag)
  }

  predicate Enabled(n: nat, s: State, p: nat)
    requires n >= 1
  {
    && p < |s.procs|
    && s.procs[p].round < Slots(n)
    && var Proc(round, step) := s.procs[p];
      var q := Partner(p, n, round);
      q >= n || Sends(p, q, step) || FirstWithTag(Queue(s, q, p), step / 2) < |Queue(s, q, p)|
  }

  function Advance(x: Proc): Proc {
    if x.step + 1 < SCRIPT then Proc(x.round, x.step + 1) else Proc(x.round + 1, 0)
  }

  function Act(n: nat, s: State, p: nat): State
    requires n >= 1 && Enabled(n, s, p)
  {
    var Proc(round, step) := s.procs[p];
    var q := Partner(p, n, round);
    if q >= n then s.(procs := s.procs[p := Proc(round + 1, 0)])
    else
      var procs := s.procs[p := Advance(s.procs[p])];
      if Sends(p, q, step) then
        State(procs, s.chan[(p, q) := Queue(s, p, q) + [Msg(round, step / 2)]])
      else
        var i := FirstWithTag(Queue(s, q, p), step / 2);
        State(procs, s.chan[(q, p) := Queue(s, q, p)[..i] + Queue(s, q, p)[i + 1..]])
  }

  function Start(n: nat): State {
    State(seq(n, _ => Proc(0, 0)), map[])
  }

  predicate AllDone(n: nat, s: State) {
    forall p :: 0 <= p < |s.procs| ==> s.procs[p].round == Slots(n)
  }

  // ----- the invariant -----

  predicate ProcOk(n: nat, p: nat, x: Proc)
    requires n >= 1
  {
    && x.round <= Slots(n) && x.step < SCRIPT
    && (x.round == Slots(n) || Partner(p, n, x.round) >= n ==> x.step == 0)
  }

  /** How far a process has come in the script of a round. */
  function Pos(x: Proc, round: nat): nat {
    if x.round > round then SCRIPT else if x.round == round then x.step else 0
  }

  /** Messages a, ..., b - 1 of a round. */
  function Pending(round: nat, a: nat, b: nat): seq<Msg> {
    if a < b then seq(b - a, i requires 0 <= i => Msg(round, a + i)) else []
  }

  /** Master at step m and slave at step s of their round are never more than one message apart. */
  predicate InStep(m: nat, s: nat) {
    && (s + 1) / 2 <= (m + 1) / 2 <= (s + 1) / 2 + 1
    && m / 2 <= s / 2 <= m / 2 + 1
  }

  predicate PairOk(n: nat, s: State, p: nat, q: nat)
    requires n >= 1 && p < |s.procs| && q < |s.procs|
  {
    if Opposite(p, q, n) && p < q then
      var r := MeetRound(p, q, n);
      var m, l := Pos(s.procs[p], r), Pos(s.procs[q], r);
      && InStep(m, l)
      && Queue(s, p, q) == Pending(r, (l + 1) / 2, (m + 1) / 2)
      && Queue(s, q, p) == Pending(r, m / 2, l / 2)
    else
      p == q || !Opposite(p, q, n) ==> Queue(s, p, q) == []
  }

  ghost predicate Inv(n: nat, s: State) {
    && n >= 1 && |s.procs| == n
    && (forall p :: 0 <= p < n ==> ProcOk(n, p, s.procs[p]))
    && (forall p, q :: 0 <= p < n && 0 <= q < n ==> PairOk(n, s, p, q))
  }

  lemma StartInv(n: nat)
    requires n >= 1
    ensures Inv(n, Start(n))
  {
  }

  /** In the invariant, what a process waits for is the only message on its channel. */
  lemma WaitsForTheOnlyMessage(n: nat, s: State, p: nat)
    requires Inv(n, s) && Enabled(n, s, p)
    requires
      var q := Partner(p, n, s.procs[p].round);
      q < n && !Sends(p, q, s.procs[p].step)
    ensures
      var Proc(round, step) := s.procs[p];
      Queue(s, Partner(p, n, round), p) == [Msg(round, step / 2)]
  {
    var Proc(round, step) := s.procs[p];
    var q := Partner(p, n, round);
    SlotsWithinHalf(n);
    PartnerIffMeet(p, q, n, round);
    assert PairOk(n, s, p, q) && PairOk(n, s, q, p);
    assert Queue(s, q, p) != [];
  }

  /** Partners meet in their round. */
  lemma PartnersMeet(n: nat, s: State, p: nat)
    requires Inv(n, s) && Enabled(n, s, p) && Partner(p, n, s.procs[p].round) < n
    ensures
      var Proc(round, _) := s.procs[p];
      var q := Partner(p, n, round);
      && p != q && Opposite(p, q, n) && Opposite(q, p, n)
      && MeetRound(p, q, n) == MeetRound(q, p, n) == round
      && round < Slots(n) && s.procs[p].step < SCRIPT && |s.procs| == n
      && PairOk(n, s, p, q) && PairOk(n, s, q, p)
  {
    hide Partner, MeetRound, Slots;
    assert ProcOk(n, p, s.procs[p]);
    var round := s.procs[p].round;
    var q := Partner(p, n, round);
    SlotsWithinHalf(n);
    RoundIsMatching(p, n, round);
    PartnerIffMeet(p, q, n, round);
    PartnerIffMeet(q, p, n, round);
  }

  lemma FirstOfOne(m: Msg)
    ensures FirstWithTag([m], m.tag) == 0 && [m][..0] + [m][1..] == []
  {
  }

  lemma AdvancePos(x: Proc)
    requires x.step < SCRIPT
    ensures Pos(x, x.round) == x.step && Pos(Advance(x), x.round) == x.step + 1
  {
  }

  // What one step makes of a pair in step, with the master at m and the slave at l.

  lemma MasterSends(r: nat, m: nat, l: nat)
    requires InStep(m, l) && m % 2 == 0
    ensures InStep(m + 1, l)
    ensures Pending(r, (l + 1) / 2, (m + 1) / 2) + [Msg(r, m / 2)] == Pending(r, (l + 1) / 2, (m + 2) / 2)
    ensures Pending(r, m / 2, l / 2) == Pending(r, (m + 1) / 2, l / 2)
  {
  }

  lemma MasterReceives(r: nat, m: nat, l: nat)
    requires InStep(m, l) && m % 2 == 1 && Pending(r, m / 2, l / 2) != []
    ensures InStep(m + 1, l)
    ensures Pending(r, (l + 1) / 2, (m + 1) / 2) == Pending(r, (l + 1) / 2, (m + 2) / 2)
    ensures Pending(r, (m + 1) / 2, l / 2) == []
  {
  }

  lemma SlaveReceives(r: nat, m: nat, l: nat)
    requires InStep(m, l) && l % 2 == 0 && Pending(r, (l + 1) / 2, (m + 1) / 2) != []
    ensures InStep(m, l + 1)
    ensures Pending(r, (l + 2) / 2, (m + 1) / 2) == []
    ensures Pending(r, m / 2, l / 2) == Pending(r, m / 2, (l + 1) / 2)
  {
  }

  lemma SlaveSends(r: nat, m: nat, l: nat)
    requires InStep(m, l) && l % 2 == 1
    ensures InStep(m, l + 1)
    ensures Pending(r, (l + 1) / 2, (m + 1) / 2) == Pending(r, (l + 2) / 2, (m + 1) / 2)
    ensures Pending(r, m / 2, l / 2) + [Msg(r, l / 2)] == Pending(r, m / 2, (l + 1) / 2)
  {
  }

  lemma PairAfterMasterStep(n: nat, s: State, p: nat)
    requires Inv(n, s) && Enabled(n, s, p) && p < Partner(p, n, s.procs[p].round) < n
    ensures
      var q := Partner(p, n, s.procs[p].round);
      PairOk(n, Act(n, s, p), p, q) && PairOk(n, Act(n, s, p), q, p)
  {
    hide Partner, MeetRound, Slots, FirstWithTag, Inv, Opposite, InStep, Pending, Advance, Pos;
    var Proc(round, step) := s.procs[p];
    var q := Partner(p, n, round);
    PartnersMeet(n, s, p);
    AdvancePos(s.procs[p]);
    var l := Pos(s.procs[q], round);
    if step % 2 == 0 {
      MasterSends(round, step, l);
    } else {
      WaitsForTheOnlyMessage(n, s, p);
      FirstOfOne(Msg(round, step / 2));
      MasterReceives(round, step, l);
    }
  }

  lemma PairAfterSlaveStep(n: nat, s: State, p: nat)
    requires Inv(n, s) && Enabled(n, s, p) && Partner(p, n, s.procs[p].round) < p
    ensures
      var q := Partner(p, n, s.procs[p].round);
      PairOk(n, Act(n, s, p), p, q) && PairOk(n, Act(n, s, p), q, p)
  {
    hide Partner, MeetRound, Slots, FirstWithTag, Opposite, InStep, Pending, Advance, Pos;
    var Proc(round, step) := s.procs[p];
    var q := Partner(p, n, round);
    PartnersMeet(n, s, p);
    hide Inv;
    AdvancePos(s.procs[p]);
    var m := Pos(s.procs[q], round);
    if step % 2 == 1 {
      SlaveSends(round, m, step);
    } else {
      WaitsForTheOnlyMessage(n, s, p);
      FirstOfOne(Msg(round, step / 2));
      SlaveReceives(round, m, step);
    }
  }

  lemma MeetIsSymmetric(x: nat, y: nat, n: nat)
    requires n >= 1
    ensures MeetRound(x, y, n) == MeetRound(y, x, n)
  {
  }

  lemma OtherPairs(n: nat, s: State, p: nat, x: nat, y: nat)
    requires Inv(n, s) && Enabled(n, s, p) && x < n && y < n
    requires
      var q := Partner(p, n, s.procs[p].round);
      !(x == p && y == q) && !(x == q && y == p)
    ensures PairOk(n, Act(n, s, p), x, y)
  {
    hide Partner, MeetRound, Slots, InStep, Pending, FirstWithTag, Sends;
    MeetIsSymmetric(p, x, n);
    MeetIsSymmetric(p, y, n);
    var round := s.procs[p].round;
    SlotsWithinHalf(n);
    PartnerIffMeet(p, x, n, round);
    PartnerIffMeet(p, y, n, round);
    assert PairOk(n, s, x, y);
  }

  lemma ActInv(n: nat, s: State, p: nat)
    requires Inv(n, s) && Enabled(n, s, p)
    ensures Inv(n, Act(n, s, p))
  {
    hide Partner, MeetRound, Slots;
    var s' := Act(n, s, p);
    var q := Partner(p, n, s.procs[p].round);
    forall x, y | 0 <= x < n && 0 <= y < n ensures PairOk(n, s', x, y) {
      if (x == p && y == q) || (x == q && y == p) {
        PartnersMeet(n, s, p);
        if p < q {
          PairAfterMasterStep(n, s, p);
        } else {
          PairAfterSlaveStep(n, s, p);
        }
      } else {
        OtherPairs(n, s, p, x, y);
      }
    }
  }

  // ----- no deadlock -----

  lemma {:induction false} LowestRound(procs: seq<Proc>) returns (p: nat)
    requires |procs| > 0
    ensures p < |procs|
    ensures forall x :: 0 <= x < |procs| ==> procs[p].round <= procs[x].round
  {
    if |procs| == 1 {
      p := 0;
    } else {
      p := LowestRound(procs[1..]);
      assert forall x :: 1 <= x < |procs| ==> procs[x] == procs[1..][x - 1];
      p := if procs[0].round <= procs[p + 1].round then 0 else p + 1;
    }
  }

  /** Whenever not all processes are done, one of them can take a step. */
  lemma Progress(n: nat, s: State)
    requires Inv(n, s)
    ensures AllDone(n, s) || exists p :: 0 <= p < n && Enabled(n, s, p)
  {
    hide Partner, MeetRound, Slots;
    var p := LowestRound(s.procs);
    var Proc(round, step) := s.procs[p];
    if round < Slots(n) && !Enabled(n, s, p) {
      var q := Partner(p, n, round);
      SlotsWithinHalf(n);
      PartnerIffMeet(p, q, n, round);
      PartnerIffMeet(q, p, n, round);
      RoundIsMatching(p, n, round);
      assert PairOk(n, s, p, q) && PairOk(n, s, q, p);
      assert ProcOk(n, p, s.procs[p]) && ProcOk(n, q, s.procs[q]);
      assert Enabled(n, s, q);
    }
  }

  /** When all are done, no message is left over. */
  lemma NothingLeftOver(n: nat, s: State, p: nat, q: nat)
    requires Inv(n, s) && AllDone(n, s) && p < n && q < n
    ensures Queue(s, p, q) == []
  {
    assert PairOk(n, s, p, q) && PairOk(n, s, q, p);
  }

  // ----- runs -----

  function Left(n: nat, procs: seq<Proc>): int {
    if |procs| == 0 then 0
    else (Slots(n) - procs[0].round) * SCRIPT - procs[0].step + Left(n, procs[1..])
  }

  lemma {:induction false} LeftAfter(n: nat, procs: seq<Proc>, p: nat, x: Proc)
    requires p < |procs|
    ensures Left(n, procs[p := x]) - Left(n, procs) ==
            (procs[p].round - x.round) * SCRIPT + procs[p].step - x.step
  {
    if p > 0 {
      assert procs[p := x][1..] == procs[1..][p - 1 := x];
      LeftAfter(n, procs[1..], p - 1, x);
    }
  }

  lemma ActLeavesLess(n: nat, s: State, p: nat)
    requires Inv(n, s) && Enabled(n, s, p)
    ensures Left(n, Act(n, s, p).procs) < Left(n, s.procs)
  {
    hide Partner, Slots, Queue, PairOk;
    assert ProcOk(n, p, s.procs[p]);
    LeftAfter(n, s.procs, p, Act(n, s, p).procs[p]);
  }

  lemma {:induction false} LeftNonNegative(n: nat, procs: seq<Proc>)
    requires forall p :: 0 <= p < |procs| ==> procs[p].round <= Slots(n) && procs[p].step < SCRIPT
    requires forall p :: 0 <= p < |procs| && procs[p].round == Slots(n) ==> procs[p].step == 0
    ensures Left(n, procs) >= 0
  {
    if |procs| > 0 {
      LeftNonNegative(n, procs[1..]);
    }
  }

  lemma {:induction false} LeftAtStart(n: nat, k: nat)
    ensures Left(n, seq(k, _ => Proc(0, 0))) == k * Slots(n) * SCRIPT
  {
    if k > 0 {
      assert seq(k, _ => Proc(0, 0))[1..] == seq(k - 1, _ => Proc(0, 0));
      LeftAtStart(n, k - 1);
      assert k * Slots(n) == (k - 1) * Slots(n) + Slots(n);
    }
  }

  /** A schedule names the process that takes each step. */
  predicate Schedule(n: nat, s: State, ps: seq<nat>)
    requires n >= 1
    decreases |ps|
  {
    |ps| > 0 ==> Enabled(n, s, ps[0]) && Schedule(n, Act(n, s, ps[0]), ps[1..])
  }

  function After(n: nat, s: State, ps: seq<nat>): State
    requires n >= 1 && Schedule(n, s, ps)
    decreases |ps|
  {
    if |ps| == 0 then s else After(n, Act(n, s, ps[0]), ps[1..])
  }

  lemma {:induction false} RunInv(n: nat, s: State, ps: seq<nat>)
    requires Inv(n, s) && Schedule(n, s, ps)
    ensures Inv(n, After(n, s, ps))
    ensures |ps| + Left(n, After(n, s, ps).procs) <= Left(n, s.procs)
    decreases |ps|
  {
    hide Partner, MeetRound, Slots, Queue;
    if |ps| > 0 {
      var p := ps[0];
      ActInv(n, s, p);
      ActLeavesLess(n, s, p);
      RunInv(n, Act(n, s, p), ps[1..]);
    }
  }

  /** From every reachable state either all processes are done, with empty channels, or one can
      go on; and no run is longer than the scripts of all processes together. */
  lemma EveryRunCompletes(n: nat, ps: seq<nat>)
    requires n >= 1 && Schedule(n, Start(n), ps)
    ensures
      var s := After(n, Start(n), ps);
      && (AllDone(n, s) || exists p :: 0 <= p < n && Enabled(n, s, p))
      && (AllDone(n, s) ==> forall p, q :: 0 <= p < n && 0 <= q < n ==> Queue(s, p, q) == [])
    ensures |ps| <= n * Slots(n) * 40
  {
    var s := After(n, Start(n), ps);
    StartInv(n);
    RunInv(n, Start(n), ps);
    Progress(n, s);
    LeftAtStart(n, n);
    assert forall p :: 0 <= p < n ==> ProcOk(n, p, s.procs[p]);
    LeftNonNegative(n, s.procs);
    if AllDone(n, s) {
      forall p, q | 0 <= p < n && 0 <= q < n ensures Queue(s, p, q) == [] {
        NothingLeftOver(n, s, p, q);
      }
    }
  }

  /** In every reachable state a process that can receive finds exactly the message its partner
      of this round sent it for this exchange. */
  lemma EveryMessageAsIntended(n: nat, ps: seq<nat>, p: nat)
    requires n >= 1 && Schedule(n, Start(n), ps)
    requires
      var s := After(n, Start(n), ps);
      Enabled(n, s, p) && Partner(p, n, s.procs[p].round) < n &&
      !Sends(p, Partner(p, n, s.procs[p].round), s.procs[p].step)
    ensures
      var s := After(n, Start(n), ps);
      var Proc(round, step) := s.procs[p];
      Queue(s, Partner(p, n, round), p) == [Msg(round, step / 2)]
  {
    StartInv(n);
    RunInv(n, Start(n), ps);
    WaitsForTheOnlyMessage(n, After(n, Start(n), ps), p);
  }

  /** Sends that wait for their receive would change nothing. In every reachable state a slave about
      to send finds its master in the receive of this very exchange, and a master that can finish its
      receive, and with it wait for its own send, finds that send received. */
  lemma SendsNeverWait(n: nat, ps: seq<nat>, p: nat)
    requires n >= 1 && Schedule(n, Start(n), ps)
    requires
      var s := After(n, Start(n), ps);
      Enabled(n, s, p) && Partner(p, n, s.procs[p].round) < n
    ensures
      var s := After(n, Start(n), ps);
      var Proc(round, step) := s.procs[p];
      var q := Partner(p, n, round);
      && (q < p && Sends(p, q, step) ==> q < |s.procs| && s.procs[q] == Proc(round, step))
      && (p < q && !Sends(p, q, step) ==> Queue(s, p, q) == [])
  {
    hide Partner, MeetRound, Slots;
    var s := After(n, Start(n), ps);
    StartInv(n);
    RunInv(n, Start(n), ps);
    PartnersMeet(n, s, p);
    if p < Partner(p, n, s.procs[p].round) && s.procs[p].step % 2 == 1 {
      WaitsForTheOnlyMessage(n, s, p);
    }
  }
}
