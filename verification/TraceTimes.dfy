/** Time stamps: a caller whose stamps follow the clock gets a log in time order, although
    flush marks are written in between and events are moved behind the flush they cause. */
module TraceTimes {
  import opened Options
  import opened TraceRecords
  import opened TraceLog
  import opened TraceRuns

  predicate Before(es: seq<Entry>, last: nat) {
    forall i :: 0 <= i < |es| && es[i].rec.Event? ==> es[i].rec.time <= last
  }

  /** Events stand in the order of their time stamps, none later than last. */
  predicate InOrder(es: seq<Entry>, last: nat) {
    && Before(es, last)
    && forall i, j :: 0 <= i < j < |es| && es[i].rec.Event? && es[j].rec.Event? ==>
        es[i].rec.time <= es[j].rec.time
  }

  /** The caller's stamps are taken from a clock that last showed `last`. */
  predicate ClockOk(last: nat, op: Op) {
    match op
    case WriteDef(_, begin, end) => last <= begin <= end
    case WriteEvent(_, time, _, _, end) => last <= time <= end
    case Flush(begin, end) => last <= begin <= end
    case SetMark(time) => last <= time
    case _ => true
  }

  /** The clock after the call; a rewind turns it back to the mark. */
  function Clock(cfg: Config, s: Log, last: nat, op: Op): nat
    requires OpOk(cfg, s, op)
  {
    match op
    case WriteDef(_, _, end) => end
    case WriteEvent(_, time, _, _, end) => if Fits(cfg, s, Stamped(op, time).Size()) then time else end
    case Flush(_, end) => end
    case SetMark(time) => time
    case Rewind => if s.mark.Some? then s.mark.value.time else last
    case _ => last
  }

  predicate RunClockOk(cfg: Config, s: Log, last: nat, ops: seq<Op>)
    requires Inv(cfg, s) && RunOk(cfg, s, ops)
    decreases |ops|
  {
    |ops| > 0 ==>
      && ClockOk(last, ops[0])
      && (StepInv(cfg, s, ops[0]); RunClockOk(cfg, Step(cfg, s, ops[0]), Clock(cfg, s, last, ops[0]), ops[1..]))
  }

  function RunClock(cfg: Config, s: Log, last: nat, ops: seq<Op>): nat
    requires Inv(cfg, s) && RunOk(cfg, s, ops)
    decreases |ops|
  {
    if |ops| == 0 then last
    else
      StepInv(cfg, s, ops[0]);
      RunClock(cfg, Step(cfg, s, ops[0]), Clock(cfg, s, last, ops[0]), ops[1..])
  }

  predicate Timed(s: Log, last: nat) {
    && InOrder(s.stream + s.buf, last)
    && (s.mark.Some? ==>
          && s.mark.value.index <= |s.buf|
          && Before(s.stream + s.buf[..s.mark.value.index], s.mark.value.time)
          && s.mark.value.time <= last)
  }

  lemma InOrderSnoc(es: seq<Entry>, e: Entry, last: nat, next: nat)
    requires InOrder(es, last) && last <= next
    requires e.rec.Event? ==> last <= e.rec.time <= next
    ensures InOrder(es + [e], next)
  {
  }

  lemma AppendTimed(s: Log, r: Record, writer: Writer, last: nat, next: nat)
    requires Timed(s, last) && last <= next
    requires r.Event? ==> last <= r.time <= next
    ensures Timed(Append(s, r, writer), next)
  {
    var e := Entry(r, writer);
    InOrderSnoc(s.stream + s.buf, e, last, next);
    assert (s.stream + s.buf) + [e] == s.stream + (s.buf + [e]);
    if s.mark.Some? {
      assert (s.buf + [e])[..s.mark.value.index] == s.buf[..s.mark.value.index];
    }
  }

  lemma FlushTimed(cfg: Config, s: Log, begin: nat, end: nat, last: nat)
    requires Timed(s, last) && last <= begin <= end
    requires cfg.notice.Def?
    ensures Timed(FlushStep(cfg, s, begin, end), end)
  {
    hide Fill;
    if s.cntr > 0 {
      var es := s.stream + s.buf;
      var marks := FlushMarks(cfg, s, begin, end);
      if s.traceOn {
        InOrderSnoc(es, marks[0], last, begin);
        if s.cntr > 1 {
          InOrderSnoc(es + [marks[0]], marks[1], begin, end);
          assert es + marks == (es + [marks[0]]) + [marks[1]];
        }
      } else {
        assert es + marks == es;
      }
      assert InOrder(es + marks, end);
      assert (s.stream + (s.buf + marks)) + [] == es + marks;
      var clean := Emptied(cfg, s, begin, end);
      assert Timed(clean, end);
      if s.cntr == 1 {
        var enter := EnterMark(cfg.off, end);
        AppendTimed(clean, enter, LimitNote, end, end);
        var off := if s.traceOn then Append(clean, enter, LimitNote) else clean;
        AppendTimed(off.(traceOn := false), cfg.notice, LimitNote, end, end);
      }
    }
  }

  lemma RewindTimed(s: Log, last: nat)
    requires Timed(s, last) && s.mark.Some?
    ensures Timed(RewindStep(s), s.mark.value.time)
  {
    var k := s.mark.value.index;
    var kept, defs := s.stream + s.buf[..k], DefsOnly(s.buf[k..]);
    var es := s.stream + s.buf;
    DefsOnlyFrom(s.buf[k..]);
    assert forall i :: 0 <= i < |kept| ==> kept[i] == es[i];
    assert InOrder(kept, s.mark.value.time);
    assert InOrder(kept + defs, s.mark.value.time);
    var buf := RewindStep(s).buf;
    assert s.stream + buf == kept + defs;
    assert buf[..|buf|] == buf;
  }

  lemma StepTimed(cfg: Config, s: Log, last: nat, op: Op)
    requires Inv(cfg, s) && OpOk(cfg, s, op) && Timed(s, last) && ClockOk(last, op)
    ensures Timed(Step(cfg, s, op), Clock(cfg, s, last, op))
  {
    match op
    case WriteDef(r, begin, end) =>
      if Fits(cfg, s, r.Size()) {
        AppendTimed(s, r, Caller, last, end);
      } else {
        FlushTimed(cfg, s, begin, end, last);
        AppendTimed(FlushStep(cfg, s, begin, end), r, Caller, end, end);
      }
    case WriteEvent(_, time, _, _, end) =>
      if Fits(cfg, s, Stamped(op, time).Size()) {
        AppendTimed(s, Stamped(op, time), Caller, last, time);
      } else {
        FlushTimed(cfg, s, time, end, last);
        if s.cntr > 1 {
          AppendTimed(FlushStep(cfg, s, time, end), Stamped(op, end), Caller, end, end);
        }
      }
    case Flush(begin, end) => FlushTimed(cfg, s, begin, end, last);
    case SetMark(time) => assert s.buf[..|s.buf|] == s.buf;
    case Rewind =>
      if s.mark.Some? {
        RewindTimed(s, last);
      }
    case SetStatus(_) =>
    case Close => assert (s.stream + s.buf) + [] == s.stream + s.buf;
  }

  /** Stream and buffer together stay in time order over every run. */
  lemma {:induction false} RunInOrder(cfg: Config, s: Log, last: nat, ops: seq<Op>)
    requires Inv(cfg, s) && RunOk(cfg, s, ops) && RunClockOk(cfg, s, last, ops) && Timed(s, last)
    ensures Timed(Run(cfg, s, ops), RunClock(cfg, s, last, ops))
    decreases |ops|
  {
    if |ops| > 0 {
      StepInv(cfg, s, ops[0]);
      StepTimed(cfg, s, last, ops[0]);
      RunInOrder(cfg, Step(cfg, s, ops[0]), Clock(cfg, s, last, ops[0]), ops[1..]);
    }
  }
}
