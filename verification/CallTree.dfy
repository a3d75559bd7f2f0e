/** The function statistics of vt_otf_sum.c on values: rows found by linear search, the call
    stack, and what they must agree with, a forest of timed calls. */
module CallTree {

  /** Number of calls, exclusive and inclusive time. */
  datatype Stat = Stat(cnt: int, excl: int, incl: int) {
    function Plus(o: Stat): Stat {
      Stat(cnt + o.cnt, excl + o.excl, incl + o.incl)
    }
  }

  datatype Row = Row(rid: nat, stat: Stat)

  datatype Frame = Frame(row: nat, hexcl: int, hincl: int)

  datatype Stack = Bottom | Push(top: Frame, below: Stack)

  datatype Profile = Profile(rows: seq<Row>, stack: Stack)

  datatype Event = Enter(rid: nat, time: int) | Leave(time: int)

  /** The first row of a region; |rows| if there is none. */
  function Find(rows: seq<Row>, rid: nat): (i: nat)
    ensures i <= |rows|
    ensures i < |rows| ==> rows[i].rid == rid
    ensures forall j :: 0 <= j < i ==> rows[j].rid != rid
  {
    if |rows| == 0 || rows[0].rid == rid then 0 else 1 + Find(rows[1..], rid)
  }

  function WithRow(rows: seq<Row>, rid: nat): (rows': seq<Row>)
    ensures Find(rows, rid) < |rows'| && rows'[Find(rows, rid)].rid == rid
    ensures SameIds(rows, rows') && (Distinct(rows) ==> Distinct(rows'))
  {
    if Find(rows, rid) < |rows| then rows else rows + [Row(rid, Stat(0, 0, 0))]
  }

  function AddTo(rows: seq<Row>, i: nat, d: Stat): (rows': seq<Row>)
    requires i < |rows|
    ensures |rows'| == |rows| && SameIds(rows, rows') && (Distinct(rows) ==> Distinct(rows'))
  {
    rows[i := Row(rows[i].rid, rows[i].stat.Plus(d))]
  }

  predicate Distinct(rows: seq<Row>) {
    forall i, j :: 0 <= i < j < |rows| ==> rows[i].rid != rows[j].rid
  }

  /** Rows keep their place and their region. */
  predicate SameIds(rows: seq<Row>, rows': seq<Row>) {
    |rows| <= |rows'| && forall i :: 0 <= i < |rows| ==> rows'[i].rid == rows[i].rid
  }

  predicate InRange(stack: Stack, n: nat) {
    stack.Push? ==> stack.top.row < n && InRange(stack.below, n)
  }

  predicate Ok(s: Profile) {
    Distinct(s.rows) && InRange(s.stack, |s.rows|)
  }

  /** The time stamp of the frame on top is moved to t. */
  function Resume(stack: Stack, t: int): (stack': Stack)
    ensures forall n: nat :: InRange(stack, n) ==> InRange(stack', n)
  {
    if stack.Bottom? then stack else Push(stack.top.(hexcl := t), stack.below)
  }

  /** VTSum_enter. */
  function EnterStep(s: Profile, rid: nat, time: int): (s': Profile)
    requires Ok(s)
    ensures Ok(s')
  {
    var i := Find(s.rows, rid);
    var rows := AddTo(WithRow(s.rows, rid), i, Stat(1, 0, 0));
    InRangeMore(s.stack, |s.rows|, |rows|);
    Profile(
      if s.stack.Push? then AddTo(rows, s.stack.top.row, Stat(0, time - s.stack.top.hexcl, 0)) else rows,
      Push(Frame(i, time, time), s.stack))
  }

  /** VTSum_exit; the source aborts on an empty stack. */
  function LeaveStep(s: Profile, time: int): (s': Profile)
    requires Ok(s)
    ensures Ok(s')
  {
    match s.stack
    case Bottom => s
    case Push(t, below) =>
      Profile(AddTo(s.rows, t.row, Stat(0, time - t.hexcl, time - t.hincl)), Resume(below, time))
  }

  lemma {:induction false} InRangeMore(stack: Stack, n: nat, m: nat)
    requires InRange(stack, n) && n <= m
    ensures InRange(stack, m)
  {
    if stack.Push? {
      InRangeMore(stack.below, n, m);
    }
  }

  function Step(s: Profile, e: Event): (s': Profile)
    requires Ok(s)
    ensures Ok(s')
  {
    match e
    case Enter(rid, time) => EnterStep(s, rid, time)
    case Leave(time) => LeaveStep(s, time)
  }

  function Run(s: Profile, es: seq<Event>): (s': Profile)
    requires Ok(s)
    ensures Ok(s')
    decreases |es|
  {
    if |es| == 0 then s else Run(Step(s, es[0]), es[1..])
  }

  lemma {:induction false} RunAppend(s: Profile, a: seq<Event>, b: seq<Event>)
    requires Ok(s)
    ensures Run(s, a + b) == Run(Run(s, a), b)
    decreases |a|
  {
    if |a| == 0 {
      assert a + b == b;
    } else {
      assert (a + b)[1..] == a[1..] + b;
      RunAppend(Step(s, a[0]), a[1..], b);
    }
  }

  lemma RunNothing(s: Profile)
    requires Ok(s)
    ensures Run(s, []) == s
  {
  }

  // ----- the call tree -----

  datatype Call = Call(rid: nat, enter: int, leave: int, children: seq<Call>)

  function Events(c: Call): seq<Event>
    decreases c, 1
  {
    [Enter(c.rid, c.enter)] + ForestEvents(c.children) + [Leave(c.leave)]
  }

  function ForestEvents(cs: seq<Call>): seq<Event>
    decreases cs, 0
  {
    if |cs| == 0 then [] else Events(cs[0]) + ForestEvents(cs[1..])
  }

  function Duration(c: Call): int {
    c.leave - c.enter
  }

  function Durations(cs: seq<Call>): int {
    if |cs| == 0 then 0 else Duration(cs[0]) + Durations(cs[1..])
  }

  /** One node: one call, its duration without its children's, and its duration. */
  function NodeStat(c: Call): Stat {
    Stat(1, Duration(c) - Durations(c.children), Duration(c))
  }

  function CallStat(c: Call, rid: nat): Stat
    decreases c, 1
  {
    (if c.rid == rid then NodeStat(c) else Stat(0, 0, 0)).Plus(ForestStat(c.children, rid))
  }

  /** The sum over all nodes of the region, at any depth. */
  function ForestStat(cs: seq<Call>, rid: nat): Stat
    decreases cs, 0
  {
    if |cs| == 0 then Stat(0, 0, 0) else CallStat(cs[0], rid).Plus(ForestStat(cs[1..], rid))
  }

  /** What a node adds to the sums of its region, in plain numbers. */
  lemma NodeCounts(c: Call, rid: nat)
    ensures
      var s, below := CallStat(c, rid), ForestStat(c.children, rid);
      && s.cnt == below.cnt + (if c.rid == rid then 1 else 0)
      && s.incl == below.incl + (if c.rid == rid then c.leave - c.enter else 0)
      && s.excl == below.excl + (if c.rid == rid then c.leave - c.enter - Durations(c.children) else 0)
  {
  }

  /** Forests add up call by call. */
  lemma ForestCounts(c: Call, cs: seq<Call>, rid: nat)
    ensures
      var s, first, rest := ForestStat([c] + cs, rid), CallStat(c, rid), ForestStat(cs, rid);
      && s.cnt == first.cnt + rest.cnt && s.incl == first.incl + rest.incl && s.excl == first.excl + rest.excl
    ensures ForestStat([], rid) == Stat(0, 0, 0)
    ensures Durations([c] + cs) == c.leave - c.enter + Durations(cs) && Durations([]) == 0
    ensures ForestEvents([c] + cs) ==
            [Enter(c.rid, c.enter)] + ForestEvents(c.children) + [Leave(c.leave)] + ForestEvents(cs)
    ensures ForestEvents([]) == []
  {
    assert ([c] + cs)[1..] == cs;
  }

  function StatOf(rows: seq<Row>, rid: nat): Stat {
    var i := Find(rows, rid);
    if i < |rows| then rows[i].stat else Stat(0, 0, 0)
  }

  // ----- the profile is the call tree -----

  /** The time between the end of the last child, or time t, and the start of the next. */
  function Gaps(cs: seq<Call>, t: int): int {
    if |cs| == 0 then 0 else cs[0].enter - t + Gaps(cs[1..], cs[0].leave)
  }

  function EndTime(cs: seq<Call>, t: int): int {
    if |cs| == 0 then t else EndTime(cs[1..], cs[0].leave)
  }

  lemma {:induction false} GapsAndDurations(cs: seq<Call>, t: int)
    ensures Gaps(cs, t) + Durations(cs) == EndTime(cs, t) - t
  {
    if |cs| > 0 {
      GapsAndDurations(cs[1..], cs[0].leave);
    }
  }

  /** The frame on top was last touched at time t. */
  predicate Current(s: Profile, t: int) {
    s.stack.Push? ==> s.stack.top.hexcl == t
  }

  /** What the frame on top gains outside its callees. */
  function TopGain(s: Profile, rid: nat, gap: int): Stat
    requires Ok(s)
  {
    if s.stack.Push? && s.rows[s.stack.top.row].rid == rid then Stat(0, gap, 0) else Stat(0, 0, 0)
  }

  /** Only the time stamp of the frame on top has moved, to time t. */
  predicate Resumed(s: Profile, s': Profile, t: int) {
    SameIds(s.rows, s'.rows) && s'.stack == Resume(s.stack, t)
  }

  lemma StatOfAddTo(rows: seq<Row>, i: nat, d: Stat, r: nat)
    requires Distinct(rows) && i < |rows|
    ensures Distinct(AddTo(rows, i, d))
    ensures StatOf(AddTo(rows, i, d), r) == StatOf(rows, r).Plus(if rows[i].rid == r then d else Stat(0, 0, 0))
  {
    FindSameIds(rows, AddTo(rows, i, d), r);
  }

  lemma {:induction false} FindSameIds(rows: seq<Row>, rows': seq<Row>, r: nat)
    requires SameIds(rows, rows') && |rows| == |rows'|
    ensures Find(rows', r) == Find(rows, r)
  {
    if |rows| > 0 {
      FindSameIds(rows[1..], rows'[1..], r);
    }
  }

  lemma StatOfWithRow(rows: seq<Row>, rid: nat, r: nat)
    requires Distinct(rows)
    ensures Distinct(WithRow(rows, rid))
    ensures StatOf(WithRow(rows, rid), r) == StatOf(rows, r)
  {
    var rows' := WithRow(rows, rid);
    if Find(rows, r) < |rows| {
      assert Find(rows', r) == Find(rows, r);
    }
  }

  lemma EnterEffect(s: Profile, rid: nat, time: int, t: int, r: nat)
    requires Ok(s) && Current(s, t)
    ensures
      var s' := EnterStep(s, rid, time);
      && Ok(s') && SameIds(s.rows, s'.rows)
      && s'.rows[s'.stack.top.row].rid == rid
      && StatOf(s'.rows, r) ==
         StatOf(s.rows, r).Plus(if r == rid then Stat(1, 0, 0) else Stat(0, 0, 0))
           .Plus(TopGain(s, r, time - t))
  {
    hide Find, StatOf, AddTo, WithRow, Distinct;
    var i, rows := Find(s.rows, rid), WithRow(s.rows, rid);
    StatOfWithRow(s.rows, rid, r);
    StatOfAddTo(rows, i, Stat(1, 0, 0), r);
    InRangeMore(s.stack, |s.rows|, |rows|);
    if s.stack.Push? {
      StatOfAddTo(AddTo(rows, i, Stat(1, 0, 0)), s.stack.top.row, Stat(0, time - t, 0), r);
    }
  }

  /** One call from enter to leave, whatever is on the stack. */
  lemma {:induction false} RunCall(s: Profile, c: Call, t: int, r: nat)
    requires Ok(s) && Current(s, t)
    ensures
      var s' := Run(s, Events(c));
      && Resumed(s, s', c.leave)
      && StatOf(s'.rows, r) == StatOf(s.rows, r).Plus(CallStat(c, r))
           .Plus(TopGain(s, r, c.enter - t))
    decreases c, 1
  {
    hide Run, Events, ForestEvents, ForestStat, Find, StatOf, AddTo, WithRow, Distinct;
    var s1 := Step(s, Enter(c.rid, c.enter));
    var s2 := Run(s1, ForestEvents(c.children));
    EnterRunLeave(s, c);
    EnterEffect(s, c.rid, c.enter, t, r);
    RunForest(s1, c.children, c.enter, r);
    var t2 := s2.stack.top;
    StatOfAddTo(s2.rows, t2.row, Stat(0, c.leave - t2.hexcl, c.leave - t2.hincl), r);
    GapsAndDurations(c.children, c.enter);
  }

  lemma EnterRunLeave(s: Profile, c: Call)
    requires Ok(s)
    ensures Run(s, Events(c)) ==
            Step(Run(Step(s, Enter(c.rid, c.enter)), ForestEvents(c.children)), Leave(c.leave))
  {
    hide EnterStep, LeaveStep, Distinct;
    var open, body, close := [Enter(c.rid, c.enter)], ForestEvents(c.children), [Leave(c.leave)];
    RunAppend(s, open + body, close);
    RunAppend(s, open, body);
    assert open[1..] == [] && close[1..] == [];
  }

  /** A forest of calls, one after the other, below the frame on top, which resumed at time t. */
  lemma {:induction false} RunForest(s: Profile, cs: seq<Call>, t: int, r: nat)
    requires Ok(s) && Current(s, t)
    ensures
      var s' := Run(s, ForestEvents(cs));
      && Resumed(s, s', EndTime(cs, t))
      && StatOf(s'.rows, r) == StatOf(s.rows, r).Plus(ForestStat(cs, r)).Plus(TopGain(s, r, Gaps(cs, t)))
    decreases cs, 0
  {
    hide Run, Events, Find, StatOf, Ok, Resumed, TopGain, CallStat;
    if |cs| == 0 {
      RunNothing(s);
      ResumedNow(s, t, r);
    } else {
      var s1 := Run(s, Events(cs[0]));
      RunAppend(s, Events(cs[0]), ForestEvents(cs[1..]));
      RunCall(s, cs[0], t, r);
      ResumedOnce(s, s1, cs[0].leave, r, cs[0].enter - t, Gaps(cs[1..], cs[0].leave));
      RunForest(s1, cs[1..], cs[0].leave, r);
      ResumedTwice(s, s1, Run(s, ForestEvents(cs)), cs[0].leave, EndTime(cs, t));
    }
  }

  lemma ResumedNow(s: Profile, t: int, r: nat)
    requires Ok(s) && Current(s, t)
    ensures Resumed(s, s, t) && TopGain(s, r, 0) == Stat(0, 0, 0)
  {
  }

  lemma ResumedOnce(s: Profile, s1: Profile, t: int, r: nat, g: int, h: int)
    requires Ok(s) && Ok(s1) && Resumed(s, s1, t)
    ensures Current(s1, t)
    ensures TopGain(s, r, g).Plus(TopGain(s1, r, h)) == TopGain(s, r, g + h)
  {
    hide Distinct;
  }

  lemma ResumedTwice(s: Profile, s1: Profile, s2: Profile, t1: int, t2: int)
    requires Resumed(s, s1, t1) && Resumed(s1, s2, t2)
    ensures Resumed(s, s2, t2)
  {
  }

  /** Count, exclusive and inclusive time of every region are those of the call tree. */
  lemma ProfileIsCallTree(cs: seq<Call>, r: nat)
    ensures StatOf(Run(Profile([], Bottom), ForestEvents(cs)).rows, r) == ForestStat(cs, r)
    ensures Run(Profile([], Bottom), ForestEvents(cs)).stack == Bottom
  {
    hide Run, ForestEvents, ForestStat, Find;
    RunForest(Profile([], Bottom), cs, 0, r);
  }

  // ----- exclusive times add up to the busy time -----

  function TotalExcl(rows: seq<Row>): int {
    if |rows| == 0 then 0 else rows[0].stat.excl + TotalExcl(rows[1..])
  }

  lemma {:induction false} TotalAddTo(rows: seq<Row>, i: nat, d: Stat)
    requires i < |rows|
    ensures TotalExcl(AddTo(rows, i, d)) == TotalExcl(rows) + d.excl
  {
    if i > 0 {
      assert AddTo(rows, i, d)[1..] == AddTo(rows[1..], i - 1, d);
      TotalAddTo(rows[1..], i - 1, d);
    }
  }

  lemma {:induction false} TotalAppend(rows: seq<Row>, row: Row)
    ensures TotalExcl(rows + [row]) == TotalExcl(rows) + row.stat.excl
  {
    if |rows| == 0 {
      assert [row][1..] == [];
    } else {
      assert (rows + [row])[1..] == rows[1..] + [row];
      TotalAppend(rows[1..], row);
    }
  }

  lemma TotalWithRow(rows: seq<Row>, rid: nat)
    ensures TotalExcl(WithRow(rows, rid)) == TotalExcl(rows)
  {
    TotalAppend(rows, Row(rid, Stat(0, 0, 0)));
  }

  function Depth(stack: Stack): nat {
    if stack.Bottom? then 0 else 1 + Depth(stack.below)
  }

  /** The time covered by es, counted only while at least one region is open;
      depth regions are open before es, since time t. */
  function Busy(depth: nat, t: int, es: seq<Event>): int
    decreases |es|
  {
    if |es| == 0 then 0
    else
      var depth' := if es[0].Enter? then depth + 1 else if depth > 0 then depth - 1 else 0;
      (if depth > 0 then es[0].time - t else 0) + Busy(depth', es[0].time, es[1..])
  }

  lemma StepTotal(s: Profile, e: Event, t: int)
    requires Ok(s) && Current(s, t)
    ensures Current(Step(s, e), e.time)
    ensures Depth(Step(s, e).stack) ==
            if e.Enter? then Depth(s.stack) + 1 else if s.stack.Push? then Depth(s.stack) - 1 else 0
    ensures TotalExcl(Step(s, e).rows) == TotalExcl(s.rows) + if s.stack.Push? then e.time - t else 0
  {
    hide Find, WithRow, AddTo, TotalExcl, Distinct;
    match e
    case Enter(rid, time) =>
      var i, rows := Find(s.rows, rid), WithRow(s.rows, rid);
      TotalWithRow(s.rows, rid);
      TotalAddTo(rows, i, Stat(1, 0, 0));
      if s.stack.Push? {
        TotalAddTo(AddTo(rows, i, Stat(1, 0, 0)), s.stack.top.row, Stat(0, time - t, 0));
      }
    case Leave(time) =>
      if s.stack.Push? {
        TotalAddTo(s.rows, s.stack.top.row, Stat(0, time - t, time - s.stack.top.hincl));
      }
  }

  /** After every event of any run the exclusive times of all regions add up to the time so far
      during which the stack was not empty. */
  lemma {:induction false} ExclusiveIsBusyTime(s: Profile, t: int, es: seq<Event>)
    requires Ok(s) && Current(s, t)
    ensures TotalExcl(Run(s, es).rows) == TotalExcl(s.rows) + Busy(Depth(s.stack), t, es)
    decreases |es|
  {
    hide Step, Current, TotalExcl, Ok;
    if |es| > 0 {
      StepTotal(s, es[0], t);
      ExclusiveIsBusyTime(Step(s, es[0]), es[0].time, es[1..]);
    }
  }
}
