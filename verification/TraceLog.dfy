/** What a trace buffer means, without its memory: the records already written to the stream,
    the records still buffered, and how each call changes them. The class in TraceBuffer is
    proved to take exactly these steps; here the steps are related to an unbounded log that
    has no buffer, no flushes and no flush marks. */
module TraceLog {
  import opened Options
  import opened TraceRecords

  /** Who wrote a record: the caller, or the tracer itself to mark a flush or the end of tracing. */
  datatype Writer = Caller | FlushMark | LimitNote

  datatype Entry = Entry(rec: Record, writer: Writer)

  datatype Mark = Mark(index: nat, time: nat)

  datatype Log = Log(stream: seq<Entry>, buf: seq<Entry>, cntr: nat, mark: Option<Mark>, traceOn: bool, high: nat)

  /** size: usable bytes; region and off: ids of the regions for flushing and for tracing switched off;
      notice: the comment about the flush limit. */
  datatype Config = Config(size: nat, region: nat, off: nat, notice: Record) {
    predicate Valid() {
      region < UINT32 && off < UINT32 && notice.Valid() && notice.Def? && MARK + notice.Size() <= size
    }
  }

  datatype Op =
    | WriteDef(def: Record, begin: nat, end: nat)
    | WriteEvent(kind: nat, time: nat, etime: Option<nat>, body: seq<byte>, end: nat)
    | Flush(begin: nat, end: nat)
    | SetMark(time: nat)
    | Rewind
    | SetStatus(on: bool)
    | Close

  function Recs(es: seq<Entry>): (rs: seq<Record>)
    ensures |rs| == |es|
    ensures forall i :: 0 <= i < |es| ==> rs[i] == es[i].rec
  {
    seq(|es|, i requires 0 <= i < |es| => es[i].rec)
  }

  lemma RecsAppend(a: seq<Entry>, b: seq<Entry>)
    ensures Recs(a + b) == Recs(a) + Recs(b)
  {
  }

  function Fill(es: seq<Entry>): nat {
    |EncodeAll(Recs(es))|
  }

  lemma FillAppend(a: seq<Entry>, b: seq<Entry>)
    ensures Fill(a + b) == Fill(a) + Fill(b)
  {
    RecsAppend(a, b);
    EncodeAllAppend(Recs(a), Recs(b));
  }

  lemma FillOne(e: Entry)
    ensures Fill([e]) == e.rec.Size()
  {
    assert Recs([e]) == [e.rec];
    EncodeOne(e.rec);
  }

  function Max(a: nat, b: nat): nat {
    if a < b then b else a
  }

  // ----- the flush marks -----

  const MARK: nat := 24  // aligned size of VTBuf_Entry_EnterLeave

  function EnterMark(region: nat, time: nat): (r: Record)
    ensures r.Size() == MARK && (region < UINT32 && time < UINT64 ==> r.Valid())
  {
    Event(KIND_ENTER, time, Bytes(region, 4) + Bytes(0, 4))
  }

  function LeaveMark(time: nat): (r: Record)
    ensures r.Size() == MARK && (time < UINT64 ==> r.Valid())
  {
    Event(KIND_LEAVE, time, Bytes(0, 4) + Bytes(0, 4))
  }

  /** The marks an intermediate flush adds behind the old contents. */
  function FlushMarks(cfg: Config, s: Log, begin: nat, end: nat): seq<Entry> {
    var enter := Entry(EnterMark(cfg.region, begin), FlushMark);
    var leave := Entry(LeaveMark(end), FlushMark);
    if !s.traceOn then [] else if s.cntr > 1 then [enter, leave] else [enter]
  }

  lemma FlushMarksFill(cfg: Config, s: Log, begin: nat, end: nat)
    ensures Fill(FlushMarks(cfg, s, begin, end)) == MARK * |FlushMarks(cfg, s, begin, end)|
  {
    if s.traceOn {
      var enter := Entry(EnterMark(cfg.region, begin), FlushMark);
      var leave := Entry(LeaveMark(end), FlushMark);
      FillOne(enter);
      FillOne(leave);
      FillAppend([enter], [leave]);
      assert [enter] + [leave] == [enter, leave];
    }
  }

  // ----- steps -----

  function Append(s: Log, r: Record, writer: Writer): Log {
    var buf := s.buf + [Entry(r, writer)];
    s.(buf := buf, high := Max(s.high, Fill(buf)))
  }

  predicate Fits(cfg: Config, s: Log, bytes: nat) {
    Fill(s.buf) + bytes <= cfg.size
  }

  /** Contents and marks go to the stream. */
  function Emptied(cfg: Config, s: Log, begin: nat, end: nat): Log
    requires s.cntr > 0
  {
    var whole := s.buf + FlushMarks(cfg, s, begin, end);
    Log(s.stream + whole, [], s.cntr - 1, None, s.traceOn, Max(s.high, Fill(whole)))
  }

  /** Behind the last permitted flush tracing is switched off for good: if it was on, this is entered as
      a region, and a notice is written. */
  function SwitchedOff(cfg: Config, s: Log, end: nat): Log {
    var off := if s.traceOn then Append(s, EnterMark(cfg.off, end), LimitNote) else s;
    Append(off.(traceOn := false), cfg.notice, LimitNote)
  }

  /** An intermediate flush; without effect once the counter is 0. */
  function FlushStep(cfg: Config, s: Log, begin: nat, end: nat): Log {
    if s.cntr == 0 then s
    else if s.cntr > 1 then Emptied(cfg, s, begin, end)
    else SwitchedOff(cfg, Emptied(cfg, s, begin, end), end)
  }

  /** The bytes in the buffer after the last permitted flush. */
  function LimitFill(cfg: Config, s: Log): nat {
    (if s.traceOn then MARK else 0) + cfg.notice.Size()
  }

  function CloseStep(s: Log): Log {
    Log(s.stream + s.buf, [], if s.cntr > 0 then s.cntr - 1 else 0, None, s.traceOn, s.high)
  }

  /** The record of an event whose time stamp was moved from time to newTime;
      the duration of an event with an end time is kept. */
  function Stamped(op: Op, newTime: nat): Record
    requires op.WriteEvent?
    requires op.etime.Some? ==> op.time <= op.etime.value
  {
    Event(op.kind, newTime,
      if op.etime.None? then op.body else Bytes(op.etime.value - op.time + newTime, 8) + op.body)
  }

  lemma StampedSize(op: Op, t: nat, u: nat)
    requires op.WriteEvent?
    requires op.etime.Some? ==> op.time <= op.etime.value
    ensures Stamped(op, t).Size() == Stamped(op, u).Size()
  {
  }

  function DefsOnly(es: seq<Entry>): seq<Entry> {
    if |es| == 0 then []
    else (if es[0].rec.Def? then [es[0]] else []) + DefsOnly(es[1..])
  }

  function RewindStep(s: Log): Log
    requires s.mark.Some? ==> s.mark.value.index <= |s.buf|
  {
    if s.mark.None? then s
    else
      var m := s.mark.value;
      var buf := s.buf[..m.index] + DefsOnly(s.buf[m.index..]);
      s.(buf := buf, mark := Some(Mark(|buf|, m.time)))
  }

  /** Writing a definition, whether or not there is room for it. */
  function DefStep(cfg: Config, s: Log, r: Record, begin: nat, end: nat): Log {
    Append(if Fits(cfg, s, r.Size()) then s else FlushStep(cfg, s, begin, end), r, Caller)
  }

  /** Once the last permitted flush is used up there must be room left. */
  predicate RoomForDef(cfg: Config, s: Log, r: Record) {
    s.cntr > 1 || Fits(cfg, s, r.Size()) || (s.cntr == 1 && LimitFill(cfg, s) + r.Size() <= cfg.size)
  }

  /** What the source demands of the caller of op in state s. */
  predicate OpOk(cfg: Config, s: Log, op: Op) {
    match op
    case WriteDef(r, begin, end) =>
      && r.Def? && r.Valid() && r.Size() <= cfg.size && begin < UINT64 && end < UINT64
      && RoomForDef(cfg, s, r)
    case WriteEvent(kind, time, etime, body, end) =>
      && (etime.Some? ==> time <= etime.value)
      && Stamped(op, time).Valid() && Stamped(op, time).Size() <= cfg.size && end < UINT64
    case Flush(begin, end) => begin < UINT64 && end < UINT64
    case _ => true
  }

  function Step(cfg: Config, s: Log, op: Op): Log
    requires OpOk(cfg, s, op)
    requires s.mark.Some? ==> s.mark.value.index <= |s.buf|
  {
    match op
    case WriteDef(r, begin, end) => DefStep(cfg, s, r, begin, end)
    case WriteEvent(_, time, _, _, end) =>
      var r := Stamped(op, time);
      if Fits(cfg, s, r.Size()) then Append(s, r, Caller)
      else
        var s' := FlushStep(cfg, s, time, end);
        if s'.cntr == 0 then s' else Append(s', Stamped(op, end), Caller)
    case Flush(begin, end) => FlushStep(cfg, s, begin, end)
    case SetMark(time) => s.(mark := Some(Mark(|s.buf|, time)))
    case Rewind => RewindStep(s)
    case SetStatus(on) => s.(traceOn := on && s.cntr > 0)
    case Close => CloseStep(s)
  }

  // ----- the invariant of every run -----

  predicate Inv(cfg: Config, s: Log) {
    && cfg.Valid()
    && AllValid(Recs(s.buf))
    && Fill(s.buf) <= cfg.size
    && s.cntr < UINT32
    && (s.mark.Some? ==> s.mark.value.index <= |s.buf|)
    && Fill(s.buf) <= s.high
  }

  lemma AppendInv(cfg: Config, s: Log, r: Record, writer: Writer)
    requires Inv(cfg, s) && r.Valid() && Fits(cfg, s, r.Size())
    ensures Inv(cfg, Append(s, r, writer))
    ensures Fill(Append(s, r, writer).buf) == Fill(s.buf) + r.Size()
  {
    FillAppend(s.buf, [Entry(r, writer)]);
    FillOne(Entry(r, writer));
  }

  lemma FlushInv(cfg: Config, s: Log, begin: nat, end: nat)
    requires Inv(cfg, s) && begin < UINT64 && end < UINT64
    ensures Inv(cfg, FlushStep(cfg, s, begin, end))
    ensures s.cntr > 0 ==>
      && Fill(FlushStep(cfg, s, begin, end).buf) == (if s.cntr == 1 then LimitFill(cfg, s) else 0)
      && Emptied(cfg, s, begin, end).high <= FlushStep(cfg, s, begin, end).high
      && FlushStep(cfg, s, begin, end).high <= Max(Emptied(cfg, s, begin, end).high, cfg.size)
  {
    if s.cntr == 1 {
      var clean, enter := Emptied(cfg, s, begin, end), EnterMark(cfg.off, end);
      if s.traceOn {
        AppendInv(cfg, clean, enter, LimitNote);
      }
      hide Fill;
      var off := if s.traceOn then Append(clean, enter, LimitNote) else clean;
      AppendInv(cfg, off.(traceOn := false), cfg.notice, LimitNote);
    }
  }

  /** A definition stays within the usable size iff there is room for it. The source does not look:
      without room it writes past the end. */
  lemma DefStaysInsideIffRoom(cfg: Config, s: Log, r: Record, begin: nat, end: nat)
    requires Inv(cfg, s) && r.Def? && r.Valid() && r.Size() <= cfg.size && begin < UINT64 && end < UINT64
    ensures Fill(DefStep(cfg, s, r, begin, end).buf) <= cfg.size <==> RoomForDef(cfg, s, r)
  {
    var s' := if Fits(cfg, s, r.Size()) then s else FlushStep(cfg, s, begin, end);
    FlushInv(cfg, s, begin, end);
    FillAppend(s'.buf, [Entry(r, Caller)]);
    FillOne(Entry(r, Caller));
  }

  lemma {:induction false} DefsOnlyFill(es: seq<Entry>)
    requires AllValid(Recs(es))
    ensures AllValid(Recs(DefsOnly(es))) && Fill(DefsOnly(es)) <= Fill(es)
  {
    if |es| > 0 {
      assert forall i :: 0 <= i < |es| - 1 ==> Recs(es[1..])[i] == Recs(es)[i + 1];
      DefsOnlyFill(es[1..]);
      FillAppend([es[0]], es[1..]);
      assert [es[0]] + es[1..] == es;
      FillAppend([es[0]], DefsOnly(es[1..]));
      assert [] + DefsOnly(es[1..]) == DefsOnly(es[1..]);
    }
  }

  lemma ValidSplit(es: seq<Entry>, k: nat)
    requires k <= |es| && AllValid(Recs(es))
    ensures AllValid(Recs(es[..k])) && AllValid(Recs(es[k..]))
  {
    assert forall i :: 0 <= i < |es| - k ==> Recs(es[k..])[i] == Recs(es)[i + k];
  }

  lemma RewindInv(cfg: Config, s: Log)
    requires Inv(cfg, s) && s.mark.Some?
    ensures Inv(cfg, RewindStep(s))
  {
    var k := s.mark.value.index;
    var before, defs := s.buf[..k], DefsOnly(s.buf[k..]);
    ValidSplit(s.buf, k);
    DefsOnlyFill(s.buf[k..]);
    RecsAppend(before, defs);
    assert Fill(before + defs) <= Fill(s.buf) by {
      FillAppend(before, s.buf[k..]);
      assert before + s.buf[k..] == s.buf;
      FillAppend(before, defs);
    }
  }

  lemma StepInv(cfg: Config, s: Log, op: Op)
    requires Inv(cfg, s) && OpOk(cfg, s, op)
    ensures Inv(cfg, Step(cfg, s, op))
  {
    match op
    case WriteDef(r, begin, end) =>
      if Fits(cfg, s, r.Size()) {
        AppendInv(cfg, s, r, Caller);
      } else {
        FlushInv(cfg, s, begin, end);
        AppendInv(cfg, FlushStep(cfg, s, begin, end), r, Caller);
      }
    case WriteEvent(_, time, _, _, end) =>
      var r := Stamped(op, time);
      if Fits(cfg, s, r.Size()) {
        AppendInv(cfg, s, r, Caller);
      } else {
        FlushInv(cfg, s, time, end);
        StampedSize(op, time, end);
        if FlushStep(cfg, s, time, end).cntr > 0 {
          AppendInv(cfg, FlushStep(cfg, s, time, end), Stamped(op, end), Caller);
        }
      }
    case Flush(begin, end) => FlushInv(cfg, s, begin, end);
    case Rewind =>
      if s.mark.Some? {
        RewindInv(cfg, s);
      }
    case _ =>
  }
}
