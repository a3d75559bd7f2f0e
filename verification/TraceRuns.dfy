/** Whole runs of a trace buffer: fidelity to an unbounded log, the flush limit,
    the bound on memory, and the order of time stamps. */
module TraceRuns {
  import opened Options
  import opened TraceRecords
  import opened TraceLog

  predicate RunOk(cfg: Config, s: Log, ops: seq<Op>)
    requires Inv(cfg, s)
    decreases |ops|
  {
    |ops| > 0 ==>
      && OpOk(cfg, s, ops[0])
      && (StepInv(cfg, s, ops[0]); RunOk(cfg, Step(cfg, s, ops[0]), ops[1..]))
  }

  function Run(cfg: Config, s: Log, ops: seq<Op>): (s': Log)
    requires Inv(cfg, s) && RunOk(cfg, s, ops)
    ensures Inv(cfg, s')
    decreases |ops|
  {
    if |ops| == 0 then s
    else
      StepInv(cfg, s, ops[0]);
      Run(cfg, Step(cfg, s, ops[0]), ops[1..])
  }

  // ----- the unbounded log -----

  /** A log without a buffer: records are kept for ever, a rewind cuts back to the mark
      and keeps the definitions behind it. */
  datatype Ideal = Ideal(log: seq<Record>, mark: Option<nat>)

  datatype IdealOp = Put(rec: Record) | SetIdealMark | CutBack | DropMark

  function Defs(rs: seq<Record>): seq<Record> {
    if |rs| == 0 then []
    else (if rs[0].Def? then [rs[0]] else []) + Defs(rs[1..])
  }

  function IdealStep(i: Ideal, op: IdealOp): Ideal {
    match op
    case Put(r) => i.(log := i.log + [r])
    case SetIdealMark => i.(mark := Some(|i.log|))
    case CutBack =>
      if i.mark.None? || i.mark.value > |i.log| then i
      else
        var log := i.log[..i.mark.value] + Defs(i.log[i.mark.value..]);
        Ideal(log, Some(|log|))
    case DropMark => i.(mark := None)
  }

  function IdealRun(i: Ideal, ops: seq<IdealOp>): Ideal
    decreases |ops|
  {
    if |ops| == 0 then i else IdealRun(IdealStep(i, ops[0]), ops[1..])
  }

  lemma {:induction false} IdealRunAppend(i: Ideal, a: seq<IdealOp>, b: seq<IdealOp>)
    ensures IdealRun(i, a + b) == IdealRun(IdealRun(i, a), b)
    decreases |a|
  {
    if |a| == 0 {
      assert a + b == b;
    } else {
      assert (a + b)[1..] == a[1..] + b;
      IdealRunAppend(IdealStep(i, a[0]), a[1..], b);
    }
  }

  /** What one call amounts to for the unbounded log. An event is lost only when it does not fit
      and the flush it asks for is the last permitted one, or comes after it. */
  function Meaning(cfg: Config, s: Log, op: Op): seq<IdealOp>
    requires OpOk(cfg, s, op)
  {
    var flushed := if s.cntr > 0 then [DropMark] else [];
    match op
    case WriteDef(r, _, _) => (if Fits(cfg, s, r.Size()) then [] else flushed) + [Put(r)]
    case WriteEvent(_, time, _, _, end) =>
      if Fits(cfg, s, Stamped(op, time).Size()) then [Put(Stamped(op, time))]
      else if s.cntr <= 1 then flushed
      else flushed + [Put(Stamped(op, end))]
    case Flush(_, _) => flushed
    case SetMark(_) => [SetIdealMark]
    case Rewind => if s.mark.Some? then [CutBack] else []
    case SetStatus(_) => []
    case Close => [DropMark]
  }

  function RunMeaning(cfg: Config, s: Log, ops: seq<Op>): seq<IdealOp>
    requires Inv(cfg, s) && RunOk(cfg, s, ops)
    decreases |ops|
  {
    if |ops| == 0 then []
    else
      StepInv(cfg, s, ops[0]);
      Meaning(cfg, s, ops[0]) + RunMeaning(cfg, Step(cfg, s, ops[0]), ops[1..])
  }

  /** The caller's records among es, in order. */
  function CallerRecs(es: seq<Entry>): seq<Record> {
    if |es| == 0 then []
    else (if es[0].writer.Caller? then [es[0].rec] else []) + CallerRecs(es[1..])
  }

  lemma {:induction false} CallerRecsAppend(a: seq<Entry>, b: seq<Entry>)
    ensures CallerRecs(a + b) == CallerRecs(a) + CallerRecs(b)
  {
    if |a| == 0 {
      assert a + b == b;
    } else {
      assert (a + b)[1..] == a[1..] + b;
      CallerRecsAppend(a[1..], b);
      var first := if a[0].writer.Caller? then [a[0].rec] else [];
      assert first + (CallerRecs(a[1..]) + CallerRecs(b)) == (first + CallerRecs(a[1..])) + CallerRecs(b);
    }
  }

  lemma CallerRecsOne(e: Entry)
    ensures CallerRecs([e]) == if e.writer.Caller? then [e.rec] else []
  {
    assert [e][1..] == [];
  }

  lemma {:induction false} CallerDefs(es: seq<Entry>)
    ensures CallerRecs(DefsOnly(es)) == Defs(CallerRecs(es))
  {
    if |es| > 0 {
      CallerDefs(es[1..]);
      var rest := DefsOnly(es[1..]);
      if es[0].rec.Def? {
        assert ([es[0]] + rest)[1..] == rest;
      } else {
        assert [] + rest == rest;
      }
      if es[0].writer.Caller? {
        assert ([es[0].rec] + CallerRecs(es[1..]))[1..] == CallerRecs(es[1..]);
      } else {
        assert [] + CallerRecs(es[1..]) == CallerRecs(es[1..]);
      }
    }
  }

  /** Stream and buffer together, without the tracer's own records, are the unbounded log. */
  ghost predicate Related(s: Log, i: Ideal) {
    && i.log == CallerRecs(s.stream) + CallerRecs(s.buf)
    && (s.mark.None? ==> i.mark.None?)
    && (s.mark.Some? ==> s.mark.value.index <= |s.buf|)
    && (s.mark.Some? ==>
          i.mark == Some(|CallerRecs(s.stream)| + |CallerRecs(s.buf[..s.mark.value.index])|))
  }

  lemma AppendRelated(s: Log, i: Ideal, r: Record, writer: Writer)
    requires Related(s, i)
    ensures Related(Append(s, r, writer), if writer.Caller? then IdealStep(i, Put(r)) else i)
  {
    CallerRecsAppend(s.buf, [Entry(r, writer)]);
    CallerRecsOne(Entry(r, writer));
    if s.mark.Some? {
      var k := s.mark.value.index;
      assert (s.buf + [Entry(r, writer)])[..k] == s.buf[..k];
    }
  }

  lemma MarksAreNotCallers(cfg: Config, s: Log, begin: nat, end: nat)
    ensures CallerRecs(FlushMarks(cfg, s, begin, end)) == []
  {
    var m := FlushMarks(cfg, s, begin, end);
    if s.traceOn {
      assert CallerRecs(m) == CallerRecs(m[1..]);
      if s.cntr > 1 {
        assert CallerRecs(m[1..]) == CallerRecs(m[1..][1..]);
      }
    }
  }

  lemma FlushRelated(cfg: Config, s: Log, i: Ideal, begin: nat, end: nat)
    requires Related(s, i)
    ensures Related(FlushStep(cfg, s, begin, end), if s.cntr > 0 then IdealStep(i, DropMark) else i)
  {
    if s.cntr > 0 {
      var marks := FlushMarks(cfg, s, begin, end);
      var whole := s.buf + marks;
      MarksAreNotCallers(cfg, s, begin, end);
      CallerRecsAppend(s.buf, marks);
      CallerRecsAppend(s.stream, whole);
      var clean, i' := Emptied(cfg, s, begin, end), IdealStep(i, DropMark);
      assert Related(clean, i');
      if s.cntr == 1 {
        var enter := EnterMark(cfg.off, end);
        AppendRelated(clean, i', enter, LimitNote);
        var off := if s.traceOn then Append(clean, enter, LimitNote) else clean;
        AppendRelated(off.(traceOn := false), i', cfg.notice, LimitNote);
      }
    }
  }

  lemma RewindRelated(s: Log, i: Ideal)
    requires Related(s, i) && s.mark.Some?
    ensures Related(RewindStep(s), IdealStep(i, CutBack))
  {
    hide CallerRecs, DefsOnly, Defs;
    var k := s.mark.value.index;
    var before, behind := s.buf[..k], s.buf[k..];
    assert CallerRecs(s.buf) == CallerRecs(before) + CallerRecs(behind) by {
      CallerRecsAppend(before, behind);
      assert s.buf == before + behind;
    }
    CallerRecsAppend(before, DefsOnly(behind));
    CallerDefs(behind);
    CutAt(CallerRecs(s.stream) + CallerRecs(before), CallerRecs(behind), i.log, i.mark.value);
    var s' := RewindStep(s);
    assert s'.buf[..|s'.buf|] == s'.buf;
  }

  lemma CutAt(a: seq<Record>, b: seq<Record>, log: seq<Record>, m: nat)
    requires log == a + b && m == |a|
    ensures log[..m] == a && log[m..] == b
  {
  }

  lemma IdealOne(i: Ideal, op: IdealOp)
    ensures IdealRun(i, [op]) == IdealStep(i, op)
  {
    assert [op][1..] == [];
  }

  lemma IdealTwo(i: Ideal, a: IdealOp, b: IdealOp)
    ensures IdealRun(i, [a] + [b]) == IdealStep(IdealStep(i, a), b)
  {
    IdealRunAppend(i, [a], [b]);
    IdealOne(i, a);
    IdealOne(IdealStep(i, a), b);
  }

  /** One call on the bounded buffer does what its meaning does on the unbounded log. */
  lemma StepIsIdeal(cfg: Config, s: Log, i: Ideal, op: Op)
    requires Inv(cfg, s) && OpOk(cfg, s, op) && Related(s, i)
    ensures Related(Step(cfg, s, op), IdealRun(i, Meaning(cfg, s, op)))
  {
    match op
    case WriteDef(r, begin, end) =>
      IdealOne(i, Put(r));
      IdealTwo(i, DropMark, Put(r));
      assert [] + [Put(r)] == [Put(r)];
      if Fits(cfg, s, r.Size()) {
        AppendRelated(s, i, r, Caller);
      } else {
        FlushRelated(cfg, s, i, begin, end);
        AppendRelated(FlushStep(cfg, s, begin, end), if s.cntr > 0 then IdealStep(i, DropMark) else i, r, Caller);
      }
    case WriteEvent(_, time, _, _, end) =>
      WriteEventIsIdeal(cfg, s, i, op);
    case Flush(begin, end) =>
      IdealOne(i, DropMark);
      FlushRelated(cfg, s, i, begin, end);
    case SetMark(time) =>
      IdealOne(i, SetIdealMark);
      assert s.buf[..|s.buf|] == s.buf;
    case Rewind =>
      IdealOne(i, CutBack);
      if s.mark.Some? {
        RewindRelated(s, i);
      }
    case SetStatus(_) =>
    case Close =>
      IdealOne(i, DropMark);
      CallerRecsAppend(s.stream, s.buf);
  }

  lemma WriteEventIsIdeal(cfg: Config, s: Log, i: Ideal, op: Op)
    requires op.WriteEvent?
    requires Inv(cfg, s) && OpOk(cfg, s, op) && Related(s, i)
    ensures Related(Step(cfg, s, op), IdealRun(i, Meaning(cfg, s, op)))
  {
    var early, late := Stamped(op, op.time), Stamped(op, op.end);
    IdealOne(i, Put(early));
    IdealOne(i, DropMark);
    IdealTwo(i, DropMark, Put(late));
    if Fits(cfg, s, early.Size()) {
      AppendRelated(s, i, early, Caller);
    } else {
      FlushRelated(cfg, s, i, op.time, op.end);
      if s.cntr > 1 {
        AppendRelated(FlushStep(cfg, s, op.time, op.end), IdealStep(i, DropMark), late, Caller);
      }
    }
  }

  /** Log fidelity: over any run, nothing the caller wrote is lost, repeated or reordered,
      except what the caller rewound and the events refused at the flush limit. */
  lemma {:induction false} RunIsIdeal(cfg: Config, s: Log, i: Ideal, ops: seq<Op>)
    requires Inv(cfg, s) && RunOk(cfg, s, ops) && Related(s, i)
    ensures Related(Run(cfg, s, ops), IdealRun(i, RunMeaning(cfg, s, ops)))
    decreases |ops|
  {
    if |ops| > 0 {
      StepInv(cfg, s, ops[0]);
      var s1 := Step(cfg, s, ops[0]);
      var m0, m1 := Meaning(cfg, s, ops[0]), RunMeaning(cfg, s1, ops[1..]);
      StepIsIdeal(cfg, s, i, ops[0]);
      RunIsIdeal(cfg, s1, IdealRun(i, m0), ops[1..]);
      IdealRunAppend(i, m0, m1);
    }
  }

  /** A log just opened. */
  function Opened(cntr: nat): Log {
    Log([], [], cntr, None, true, 0)
  }

  /** The records a run puts and never cuts, when it contains no rewind. */
  function PutRecords(ops: seq<IdealOp>): seq<Record> {
    if |ops| == 0 then []
    else (if ops[0].Put? then [ops[0].rec] else []) + PutRecords(ops[1..])
  }

  lemma {:induction false} IdealLogIsPuts(i: Ideal, ops: seq<IdealOp>)
    requires forall k :: 0 <= k < |ops| ==> !ops[k].CutBack?
    ensures IdealRun(i, ops).log == i.log + PutRecords(ops)
    decreases |ops|
  {
    if |ops| > 0 {
      IdealLogIsPuts(IdealStep(i, ops[0]), ops[1..]);
    }
  }

  /** After a run that ends with the close, the stream alone is the unbounded log. */
  lemma ClosedRun(cfg: Config, cntr: nat, ops: seq<Op>)
    requires cfg.Valid() && cntr < UINT32 && |ops| > 0 && ops[|ops| - 1].Close?
    requires RunOk(cfg, Opened(cntr), ops)
    ensures CallerRecs(Run(cfg, Opened(cntr), ops).stream) ==
            IdealRun(Ideal([], None), RunMeaning(cfg, Opened(cntr), ops)).log
  {
    RunIsIdeal(cfg, Opened(cntr), Ideal([], None), ops);
    CloseEmpties(cfg, Opened(cntr), ops);
  }

  /** Without rewinds it is just the accepted records, in order. */
  lemma ClosedRunWithoutRewind(cfg: Config, cntr: nat, ops: seq<Op>)
    requires cfg.Valid() && cntr < UINT32 && |ops| > 0 && ops[|ops| - 1].Close?
    requires RunOk(cfg, Opened(cntr), ops) && forall k :: 0 <= k < |ops| ==> !ops[k].Rewind?
    ensures CallerRecs(Run(cfg, Opened(cntr), ops).stream) == PutRecords(RunMeaning(cfg, Opened(cntr), ops))
  {
    ClosedRun(cfg, cntr, ops);
    NothingCut(cfg, Opened(cntr), ops);
    IdealLogIsPuts(Ideal([], None), RunMeaning(cfg, Opened(cntr), ops));
  }

  lemma {:induction false} NothingCut(cfg: Config, s: Log, ops: seq<Op>)
    requires Inv(cfg, s) && RunOk(cfg, s, ops) && forall k :: 0 <= k < |ops| ==> !ops[k].Rewind?
    ensures forall k :: 0 <= k < |RunMeaning(cfg, s, ops)| ==> !RunMeaning(cfg, s, ops)[k].CutBack?
    decreases |ops|
  {
    if |ops| > 0 {
      StepInv(cfg, s, ops[0]);
      NothingCut(cfg, Step(cfg, s, ops[0]), ops[1..]);
      assert forall k :: 0 <= k < |Meaning(cfg, s, ops[0])| ==> !Meaning(cfg, s, ops[0])[k].CutBack?;
    }
  }

  lemma {:induction false} CloseEmpties(cfg: Config, s: Log, ops: seq<Op>)
    requires Inv(cfg, s) && |ops| > 0 && ops[|ops| - 1].Close? && RunOk(cfg, s, ops)
    ensures Run(cfg, s, ops).buf == []
    decreases |ops|
  {
    StepInv(cfg, s, ops[0]);
    if |ops| > 1 {
      CloseEmpties(cfg, Step(cfg, s, ops[0]), ops[1..]);
    }
  }

  // ----- the flush limit -----

  /** When the flush of a call, if it makes one, begins and ends. */
  function FlushTimes(op: Op): (nat, nat) {
    match op
    case WriteDef(_, begin, end) => (begin, end)
    case WriteEvent(_, time, _, _, end) => (time, end)
    case Flush(begin, end) => (begin, end)
    case _ => (0, 0)
  }

  function Flushes(ops: seq<IdealOp>): nat {
    if |ops| == 0 then 0 else (if ops[0].DropMark? then 1 else 0) + Flushes(ops[1..])
  }

  lemma {:induction false} FlushesAppend(a: seq<IdealOp>, b: seq<IdealOp>)
    ensures Flushes(a + b) == Flushes(a) + Flushes(b)
  {
    if |a| == 0 {
      assert a + b == b;
    } else {
      assert (a + b)[1..] == a[1..] + b;
      FlushesAppend(a[1..], b);
    }
  }

  lemma StepFlushes(cfg: Config, s: Log, op: Op)
    requires Inv(cfg, s) && OpOk(cfg, s, op) && !op.Close?
    ensures Flushes(Meaning(cfg, s, op)) + Step(cfg, s, op).cntr == s.cntr
  {
    assert Flushes([DropMark]) == 1 by { assert [DropMark][1..] == []; }
    match op
    case WriteDef(r, _, _) =>
      assert Flushes([Put(r)]) == 0;
      FlushesAppend([DropMark], [Put(r)]);
      FlushesAppend([], [Put(r)]);
    case WriteEvent(_, time, _, _, end) =>
      assert Flushes([Put(Stamped(op, time))]) == 0;
      assert Flushes([Put(Stamped(op, end))]) == 0;
      FlushesAppend([DropMark], [Put(Stamped(op, end))]);
    case _ =>
  }

  /** Every effective intermediate flush takes one from the counter, and nothing else does:
      a run makes at most as many as the counter allowed at the start. */
  lemma {:induction false} FlushesAreCounted(cfg: Config, s: Log, ops: seq<Op>)
    requires Inv(cfg, s) && RunOk(cfg, s, ops)
    requires forall k :: 0 <= k < |ops| ==> !ops[k].Close?
    ensures Flushes(RunMeaning(cfg, s, ops)) + Run(cfg, s, ops).cntr == s.cntr
    decreases |ops|
  {
    if |ops| > 0 {
      StepInv(cfg, s, ops[0]);
      var s1 := Step(cfg, s, ops[0]);
      var m0 := Meaning(cfg, s, ops[0]);
      FlushesAreCounted(cfg, s1, ops[1..]);
      FlushesAppend(m0, RunMeaning(cfg, s1, ops[1..]));
      StepFlushes(cfg, s, ops[0]);
    }
  }

  /** The flush marks of a kind. */
  function Marks(es: seq<Entry>, kind: nat): nat {
    if |es| == 0 then 0
    else (if es[0].writer.FlushMark? && es[0].rec.kind == kind then 1 else 0) + Marks(es[1..], kind)
  }

  lemma {:induction false} MarksAppend(a: seq<Entry>, b: seq<Entry>, kind: nat)
    ensures Marks(a + b, kind) == Marks(a, kind) + Marks(b, kind)
  {
    if |a| == 0 {
      assert a + b == b;
    } else {
      assert (a + b)[1..] == a[1..] + b;
      MarksAppend(a[1..], b, kind);
    }
  }

  /** No mark ever waits in the buffer. */
  predicate NoMarks(s: Log) {
    forall i :: 0 <= i < |s.buf| ==> !s.buf[i].writer.FlushMark?
  }

  lemma {:induction false} NoMarksIn(es: seq<Entry>, kind: nat)
    requires forall i :: 0 <= i < |es| ==> !es[i].writer.FlushMark?
    ensures Marks(es, kind) == 0
  {
    if |es| > 0 {
      NoMarksIn(es[1..], kind);
    }
  }

  lemma MarksOne(e: Entry, kind: nat)
    ensures Marks([e], kind) == if e.writer.FlushMark? && e.rec.kind == kind then 1 else 0
  {
    assert [e][1..] == [];
  }

  /** The marks of a kind an effective flush in state s writes. */
  function MarksDue(s: Log, kind: nat): nat {
    if s.traceOn && (kind == KIND_ENTER || (kind == KIND_LEAVE && s.cntr > 1)) then 1 else 0
  }

  lemma FlushMarkCount(cfg: Config, s: Log, begin: nat, end: nat, kind: nat)
    requires NoMarks(s) && s.cntr > 0
    ensures
      var s' := FlushStep(cfg, s, begin, end);
      NoMarks(s') && Marks(s'.stream, kind) == Marks(s.stream, kind) + MarksDue(s, kind)
  {
    var marks := FlushMarks(cfg, s, begin, end);
    MarksAppend(s.stream, s.buf + marks, kind);
    MarksAppend(s.buf, marks, kind);
    NoMarksIn(s.buf, kind);
    if s.traceOn {
      MarksOne(marks[0], kind);
      if s.cntr > 1 {
        MarksOne(marks[1], kind);
        MarksAppend([marks[0]], [marks[1]], kind);
        assert marks == [marks[0]] + [marks[1]];
      }
    }
  }

  lemma RewindHasNoMarks(s: Log)
    requires NoMarks(s) && s.mark.Some? && s.mark.value.index <= |s.buf|
    ensures NoMarks(RewindStep(s))
  {
    DefsOnlyFrom(s.buf[s.mark.value.index..]);
  }

  lemma {:induction false} DefsOnlyFrom(es: seq<Entry>)
    ensures forall e :: e in DefsOnly(es) ==> e in es && e.rec.Def?
  {
    if |es| > 0 {
      DefsOnlyFrom(es[1..]);
    }
  }

  lemma StepMarks(cfg: Config, s: Log, op: Op, kind: nat)
    requires Inv(cfg, s) && OpOk(cfg, s, op) && NoMarks(s)
    ensures NoMarks(Step(cfg, s, op))
    ensures Marks(Step(cfg, s, op).stream, kind) ==
            Marks(s.stream, kind) + if DoesFlush(cfg, s, op) then MarksDue(s, kind) else 0
  {
    hide Fill, Marks;
    var (begin, end) := FlushTimes(op);
    if s.cntr > 0 {
      FlushMarkCount(cfg, s, begin, end, kind);
    }
    if op.Rewind? && s.mark.Some? {
      RewindHasNoMarks(s);
    }
    if op.Close? {
      MarksAppend(s.stream, s.buf, kind);
      NoMarksIn(s.buf, kind);
    }
  }

  /** The marks due over a run. */
  function RunMarks(cfg: Config, s: Log, ops: seq<Op>, kind: nat): nat
    requires Inv(cfg, s) && RunOk(cfg, s, ops)
    decreases |ops|
  {
    if |ops| == 0 then 0
    else
      StepInv(cfg, s, ops[0]);
      (if DoesFlush(cfg, s, ops[0]) then MarksDue(s, kind) else 0) +
      RunMarks(cfg, Step(cfg, s, ops[0]), ops[1..], kind)
  }

  /** Over every run, tracing switched off and on or not, the stream gets one enter mark for each
      effective flush that finds tracing on, and one leave mark for each of these but the one that
      uses up the limit. */
  lemma {:induction false} MarksAreCounted(cfg: Config, s: Log, ops: seq<Op>, kind: nat)
    requires Inv(cfg, s) && RunOk(cfg, s, ops) && NoMarks(s)
    ensures NoMarks(Run(cfg, s, ops))
    ensures Marks(Run(cfg, s, ops).stream, kind) == Marks(s.stream, kind) + RunMarks(cfg, s, ops, kind)
    decreases |ops|
  {
    if |ops| > 0 {
      StepInv(cfg, s, ops[0]);
      StepMarks(cfg, s, ops[0], kind);
      MarksAreCounted(cfg, Step(cfg, s, ops[0]), ops[1..], kind);
    }
  }

  /** Only Close and switching the tracer status are left out. */
  predicate PlainOps(ops: seq<Op>) {
    forall k :: 0 <= k < |ops| ==> !ops[k].Close? && !ops[k].SetStatus?
  }

  lemma StepMarksDue(cfg: Config, s: Log, op: Op)
    requires Inv(cfg, s) && OpOk(cfg, s, op) && !op.Close? && !op.SetStatus? && (s.traceOn <==> s.cntr > 0)
    ensures
      var s' := Step(cfg, s, op);
      s'.cntr == (if DoesFlush(cfg, s, op) then s.cntr - 1 else s.cntr) && (s'.traceOn <==> s'.cntr > 0)
  {
    hide Fill;
  }

  /** While tracing is on throughout, the marks follow from the counter alone. */
  lemma {:induction false} MarksFollowCounter(cfg: Config, s: Log, ops: seq<Op>)
    requires Inv(cfg, s) && RunOk(cfg, s, ops) && PlainOps(ops) && (s.traceOn <==> s.cntr > 0)
    ensures
      var left := Run(cfg, s, ops).cntr;
      && left <= s.cntr
      && RunMarks(cfg, s, ops, KIND_ENTER) == s.cntr - left
      && RunMarks(cfg, s, ops, KIND_LEAVE) == s.cntr - left - (if s.cntr > 0 && left == 0 then 1 else 0)
    decreases |ops|
  {
    if |ops| > 0 {
      StepInv(cfg, s, ops[0]);
      StepMarksDue(cfg, s, ops[0]);
      MarksFollowCounter(cfg, Step(cfg, s, ops[0]), ops[1..]);
    }
  }

  // ----- memory -----

  /** The bytes the flush in state s fills: the old contents and its own marks. */
  function FlushPeak(s: Log): nat {
    Fill(s.buf) + MARK * (if !s.traceOn then 0 else if s.cntr > 1 then 2 else 1)
  }

  /** Whether the call flushes with effect. */
  predicate DoesFlush(cfg: Config, s: Log, op: Op)
    requires OpOk(cfg, s, op)
  {
    s.cntr > 0 &&
    match op
    case WriteDef(r, _, _) => !Fits(cfg, s, r.Size())
    case WriteEvent(_, time, _, _, _) => !Fits(cfg, s, Stamped(op, time).Size())
    case Flush(_, _) => true
    case _ => false
  }

  /** A call stays inside the alloc bytes of the buffer iff it does not flush, or the flush
      finds room for its marks. */
  lemma StepPeak(cfg: Config, s: Log, op: Op, alloc: nat)
    requires Inv(cfg, s) && OpOk(cfg, s, op) && s.high <= alloc && cfg.size <= alloc
    ensures Step(cfg, s, op).high <= alloc <==> (DoesFlush(cfg, s, op) ==> FlushPeak(s) <= alloc)
  {
    hide Fill, FlushMarks;
    var (begin, end) := FlushTimes(op);
    if DoesFlush(cfg, s, op) {
      FlushHigh(cfg, s, begin, end, alloc);
      if !op.Flush? {
        FlushInv(cfg, s, begin, end);
        var r := if op.WriteDef? then op.def else Stamped(op, end);
        if op.WriteEvent? {
          StampedSize(op, begin, end);
        }
        if op.WriteDef? || s.cntr > 1 {
          AppendInv(cfg, FlushStep(cfg, s, begin, end), r, Caller);
        }
      }
    } else if op.WriteDef? {
      AppendInv(cfg, s, op.def, Caller);
    } else if op.WriteEvent? && Fits(cfg, s, Stamped(op, op.time).Size()) {
      AppendInv(cfg, s, Stamped(op, op.time), Caller);
    }
  }

  lemma FlushHigh(cfg: Config, s: Log, begin: nat, end: nat, alloc: nat)
    requires Inv(cfg, s) && s.high <= alloc && cfg.size <= alloc && begin < UINT64 && end < UINT64 && s.cntr > 0
    ensures FlushStep(cfg, s, begin, end).high <= alloc <==> FlushPeak(s) <= alloc
  {
    FillAppend(s.buf, FlushMarks(cfg, s, begin, end));
    FlushMarksFill(cfg, s, begin, end);
    FlushInv(cfg, s, begin, end);
  }

  /** Every flush of the run finds room for its marks. */
  predicate FlushesHaveRoom(cfg: Config, s: Log, ops: seq<Op>, alloc: nat)
    requires Inv(cfg, s) && RunOk(cfg, s, ops)
    decreases |ops|
  {
    |ops| > 0 ==>
      && (DoesFlush(cfg, s, ops[0]) ==> FlushPeak(s) <= alloc)
      && (StepInv(cfg, s, ops[0]); FlushesHaveRoom(cfg, Step(cfg, s, ops[0]), ops[1..], alloc))
  }

  lemma StepHigh(cfg: Config, s: Log, op: Op)
    requires Inv(cfg, s) && OpOk(cfg, s, op)
    ensures s.high <= Step(cfg, s, op).high
  {
    hide Fill, FlushMarks, FlushStep;
    var (begin, end) := FlushTimes(op);
    FlushInv(cfg, s, begin, end);
    FlushGrows(cfg, s, begin, end);
  }

  lemma FlushGrows(cfg: Config, s: Log, begin: nat, end: nat)
    ensures s.high <= FlushStep(cfg, s, begin, end).high
  {
    hide Fill, FlushMarks;
  }

  lemma {:induction false} HighOnlyGrows(cfg: Config, s: Log, ops: seq<Op>)
    requires Inv(cfg, s) && RunOk(cfg, s, ops)
    ensures s.high <= Run(cfg, s, ops).high
    decreases |ops|
  {
    if |ops| > 0 {
      StepInv(cfg, s, ops[0]);
      StepHigh(cfg, s, ops[0]);
      HighOnlyGrows(cfg, Step(cfg, s, ops[0]), ops[1..]);
    }
  }

  /** A run stays inside its allocation iff each of its flushes finds room for its marks. */
  lemma {:induction false} RunStaysInside(cfg: Config, s: Log, ops: seq<Op>, alloc: nat)
    requires Inv(cfg, s) && RunOk(cfg, s, ops) && s.high <= alloc && cfg.size <= alloc
    ensures Run(cfg, s, ops).high <= alloc <==> FlushesHaveRoom(cfg, s, ops, alloc)
    decreases |ops|
  {
    if |ops| > 0 {
      StepInv(cfg, s, ops[0]);
      StepPeak(cfg, s, ops[0], alloc);
      var s1 := Step(cfg, s, ops[0]);
      if s1.high <= alloc {
        RunStaysInside(cfg, s1, ops[1..], alloc);
      } else {
        HighOnlyGrows(cfg, s1, ops[1..]);
      }
    }
  }

  /** With two marks set aside, as the notes in the source ask, no run leaves its allocation. */
  lemma {:induction false} TwoMarksSuffice(cfg: Config, s: Log, ops: seq<Op>)
    requires Inv(cfg, s) && RunOk(cfg, s, ops)
    ensures FlushesHaveRoom(cfg, s, ops, cfg.size + 2 * MARK)
    decreases |ops|
  {
    if |ops| > 0 {
      StepInv(cfg, s, ops[0]);
      TwoMarksSuffice(cfg, Step(cfg, s, ops[0]), ops[1..]);
    }
  }

  /** The reserve as VTGen_open computes it. The macro has no outer parentheses, so the factor 2
      lands inside its condition, not on its value. */
  function ReserveAsWritten(bytes: nat): nat {
    if 2 * (bytes % WORD) != 0 then (bytes / WORD + 1) * WORD else bytes
  }

  /** It therefore sets aside one mark, and a flush has room iff it writes no leave mark
      or the buffer is not filled into its last mark. */
  lemma ReserveAsWrittenIsOneMark(cfg: Config, s: Log, alloc: nat)
    requires Inv(cfg, s) && alloc == cfg.size + ReserveAsWritten(MARK)
    ensures ReserveAsWritten(MARK) == AlignLength(MARK) == MARK
    ensures FlushPeak(s) <= alloc <==> (s.traceOn && s.cntr > 1 ==> Fill(s.buf) + MARK <= cfg.size)
  {
  }

  /** The ordinary case: with tracing on and another flush permitted, every enter or leave event that
      does not fit overruns the reserve as written, and every one that fits does not. */
  lemma EventFlushOverruns(cfg: Config, s: Log, op: Op)
    requires Inv(cfg, s) && OpOk(cfg, s, op) && op.WriteEvent? && Stamped(op, op.time).Size() <= MARK
    requires s.traceOn && s.cntr > 1 && s.high <= cfg.size + MARK
    ensures Step(cfg, s, op).high > cfg.size + ReserveAsWritten(MARK) <==>
            !Fits(cfg, s, Stamped(op, op.time).Size())
  {
    StepPeak(cfg, s, op, cfg.size + MARK);
  }

  function Repeat(op: Op, n: nat): (ops: seq<Op>)
    ensures |ops| == n
    ensures n > 0 ==> ops[0] == op && ops[1..] == Repeat(op, n - 1)
  {
    seq(n, _ => op)
  }

  lemma {:induction false} EventsOverrun(cfg: Config, s: Log, op: Op, n: nat)
    requires Inv(cfg, s) && op.WriteEvent? && op.etime.None? && op.end < UINT64
    requires Stamped(op, op.time).Valid() && Stamped(op, op.time).Size() == MARK
    requires s.traceOn && s.cntr > 1 && s.high <= cfg.size + MARK
    requires Fill(s.buf) + n * MARK <= cfg.size < Fill(s.buf) + (n + 1) * MARK
    ensures RunOk(cfg, s, Repeat(op, n + 1))
    ensures Run(cfg, s, Repeat(op, n + 1)).high > cfg.size + ReserveAsWritten(MARK)
    decreases n
  {
    hide Fill, FlushStep;
    var r := Stamped(op, op.time);
    assert OpOk(cfg, s, op);
    StepInv(cfg, s, op);
    EventFlushOverruns(cfg, s, op);
    var s' := Step(cfg, s, op);
    if n == 0 {
      assert Repeat(op, 1)[1..] == [];
      assert Run(cfg, s, Repeat(op, 1)) == s';
    } else {
      AppendInv(cfg, s, r, Caller);
      EventsOverrun(cfg, s', op, n - 1);
    }
  }

  /** So in a buffer of any size that permits two or more flushes, as many enter events as fit and
      one more leave the allocation. */
  lemma OneMarkIsNotEnough(cfg: Config, cntr: nat, region: nat, time: nat, end: nat)
    requires cfg.Valid() && 2 <= cntr < UINT32 && region < UINT32 && time < UINT64 && end < UINT64
    ensures
      var enter := WriteEvent(KIND_ENTER, time, None, Bytes(region, 4) + Bytes(0, 4), end);
      var ops := Repeat(enter, cfg.size / MARK + 1);
      var s := Opened(cntr);
      && Inv(cfg, s) && RunOk(cfg, s, ops)
      && Run(cfg, s, ops).high > cfg.size + ReserveAsWritten(MARK)
  {
    var enter := WriteEvent(KIND_ENTER, time, None, Bytes(region, 4) + Bytes(0, 4), end);
    EmptyFill();
    assert Stamped(enter, time) == EnterMark(region, time);
    EventsOverrun(cfg, Opened(cntr), enter, cfg.size / MARK);
  }

  lemma EmptyFill()
    ensures Fill([]) == 0
  {
  }
}
