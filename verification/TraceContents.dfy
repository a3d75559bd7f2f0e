/** What the calls write, record by record and in the numbers of the byte format. */
module TraceContents {
  import opened Options
  import opened TraceRecords
  import opened TraceLog
  import opened TraceRuns

  /** Kind, size and time stamp stand where the entry structures have them. */
  lemma RecordLayout(r: Record)
    requires r.Valid()
    ensures
      var b := Encode(r);
      && |b| == r.Size() && Value(b[0..4]) == r.kind && Value(b[4..8]) == |b|
      && (r.Event? ==> |b| >= 16 && Value(b[8..16]) == r.time && b[16..] == r.body)
      && (r.Def? ==> b[8..] == r.body)
  {
    DecodeEncode(r, Encode(r));
    assert Encode(r)[..r.Size()] == Encode(r);
  }

  lemma ValueOf(first: byte, rest: seq<byte>)
    ensures Value([first] + rest) == first + 256 * Value(rest)
  {
    assert ([first] + rest)[1..] == rest;
  }

  /** The first byte is the least significant one. */
  lemma LittleEndian(a: byte, b: byte, c: byte, d: byte)
    ensures Value([a, b, c, d]) == a + 256 * b + 65536 * c + 16777216 * d
  {
    ValueOf(d, []);
    ValueOf(c, [d]);
    ValueOf(b, [c, d]);
    ValueOf(a, [b, c, d]);
    assert [d] + [] == [d] && [c] + [d] == [c, d] && [b] + [c, d] == [b, c, d] && [a] + [b, c, d] == [a, b, c, d];
    assert Value([]) == 0;
  }

  lemma TwoWords(a: nat, b: nat)
    requires a < UINT32 && b < UINT32
    ensures
      var body := Bytes(a, 4) + Bytes(b, 4);
      |body| == 8 && Value(body[0..4]) == a && Value(body[4..8]) == b
  {
    WordRanges();
    ValueOfBytes(a, 4);
    ValueOfBytes(b, 4);
    var body := Bytes(a, 4) + Bytes(b, 4);
    assert body[0..4] == Bytes(a, 4) && body[4..8] == Bytes(b, 4);
  }

  /** An effective flush: contents first, then, with tracing on, an enter (kind 12) of the flush region at
      its begin and, if another flush is permitted, a leave (kind 13) at its end. */
  lemma FlushWrites(cfg: Config, s: Log, begin: nat, end: nat)
    requires cfg.Valid() && s.cntr > 0
    ensures
      var s' := FlushStep(cfg, s, begin, end);
      var n := |s.stream| + |s.buf|;
      && s'.cntr == s.cntr - 1 && s'.mark == None
      && |s'.stream| == n + (if !s.traceOn then 0 else if s.cntr > 1 then 2 else 1)
      && s'.stream[..n] == s.stream + s.buf
      && (s.traceOn ==>
            var Entry(r, writer) := s'.stream[n];
            && writer == FlushMark && r.Event? && r.kind == 12 && r.time == begin && |r.body| == 8
            && Value(r.body[0..4]) == cfg.region && Value(r.body[4..8]) == 0)
      && (s.traceOn && s.cntr > 1 ==>
            var Entry(r, writer) := s'.stream[n + 1];
            && writer == FlushMark && r.Event? && r.kind == 13 && r.time == end && |r.body| == 8
            && Value(r.body[0..4]) == 0 && Value(r.body[4..8]) == 0)
  {
    TwoWords(cfg.region, 0);
    TwoWords(0, 0);
    var marks := FlushMarks(cfg, s, begin, end);
    var s' := FlushStep(cfg, s, begin, end);
    assert s'.stream == (s.stream + s.buf) + marks;
  }

  /** What is in the buffer after an effective flush: nothing, or, after the last one, the notice behind
      an enter of the region for tracing switched off, if tracing was on. */
  lemma FlushLeaves(cfg: Config, s: Log, begin: nat, end: nat)
    requires cfg.Valid() && s.cntr > 0
    ensures
      var s' := FlushStep(cfg, s, begin, end);
      && (s.cntr > 1 ==> s'.buf == [] && s'.traceOn == s.traceOn)
      && (s.cntr == 1 ==>
            && !s'.traceOn && |s'.buf| == (if s.traceOn then 2 else 1)
            && s'.buf[|s'.buf| - 1] == Entry(cfg.notice, LimitNote))
      && (s.cntr == 1 && s.traceOn ==>
            var Entry(r, writer) := s'.buf[0];
            && writer == LimitNote && r.Event? && r.kind == 12 && r.time == end && |r.body| == 8
            && Value(r.body[0..4]) == cfg.off && Value(r.body[4..8]) == 0)
  {
    hide Fill;
    TwoWords(cfg.off, 0);
  }

  /** An event is appended with its own kind and content: with its own time if it fits, with the end of
      the flush otherwise, and an end time moved by as much. After the last permitted flush it is not. */
  lemma EventWrites(cfg: Config, s: Log, op: Op)
    requires Inv(cfg, s) && OpOk(cfg, s, op) && op.WriteEvent?
    ensures
      var s' := Step(cfg, s, op);
      var fits := Fill(s.buf) + 16 + (if op.etime.None? then 0 else 8) + |op.body| <= cfg.size;
      var time := if fits then op.time else op.end;
      var body := if op.etime.None? then op.body else Bytes(op.etime.value + time - op.time, 8) + op.body;
      var e := Entry(Event(op.kind, time, body), Caller);
      && (fits ==> s'.stream == s.stream && s'.buf == s.buf + [e])
      && (!fits && s.cntr > 1 ==> s'.buf == [e])
      && (!fits && s.cntr == 1 ==> forall x :: x in s'.buf ==> x.writer == LimitNote)
      && (!fits && s.cntr == 0 ==> s' == s)
  {
    hide Fill, FlushMarks;
    FlushEmpties(cfg, s, op.time, op.end);
  }

  lemma FlushEmpties(cfg: Config, s: Log, begin: nat, end: nat)
    ensures s.cntr > 1 ==> FlushStep(cfg, s, begin, end).buf == []
    ensures s.cntr == 1 ==> forall x :: x in FlushStep(cfg, s, begin, end).buf ==> x.writer == LimitNote
    ensures FlushStep(cfg, s, begin, end).cntr == if s.cntr > 0 then s.cntr - 1 else 0
  {
    hide Fill, FlushMarks;
  }

  /** A definition is appended as it is. */
  lemma DefWrites(cfg: Config, s: Log, r: Record, begin: nat, end: nat)
    ensures
      var s' := DefStep(cfg, s, r, begin, end);
      && |s'.buf| > 0 && s'.buf[|s'.buf| - 1] == Entry(r, Caller)
      && (Fill(s.buf) + r.Size() <= cfg.size || s.cntr == 0 ==>
            s'.stream == s.stream && s'.buf == s.buf + [Entry(r, Caller)])
      && (Fill(s.buf) + r.Size() > cfg.size && s.cntr > 1 ==> s'.buf == [Entry(r, Caller)])
      && (Fill(s.buf) + r.Size() > cfg.size && s.cntr == 1 ==>
            forall k :: 0 <= k < |s'.buf| - 1 ==> s'.buf[k].writer == LimitNote)
  {
    hide Fill, FlushMarks;
    FlushEmpties(cfg, s, begin, end);
  }

  /** A rewind passes on what lies behind the mark definition by definition. */
  lemma RewindFilters(a: seq<Entry>, b: seq<Entry>, e: Entry)
    ensures DefsOnly(a + b) == DefsOnly(a) + DefsOnly(b)
    ensures DefsOnly([e]) == if e.rec.Def? then [e] else []
  {
    DefsOnlyAppend(a, b);
    assert [e][1..] == [];
  }

  lemma {:induction false} DefsOnlyAppend(a: seq<Entry>, b: seq<Entry>)
    ensures DefsOnly(a + b) == DefsOnly(a) + DefsOnly(b)
  {
    if |a| == 0 {
      assert a + b == b;
    } else {
      assert (a + b)[1..] == a[1..] + b;
      DefsOnlyAppend(a[1..], b);
      var first := if a[0].rec.Def? then [a[0]] else [];
      assert first + (DefsOnly(a[1..]) + DefsOnly(b)) == (first + DefsOnly(a[1..])) + DefsOnly(b);
    }
  }

  /** What the calls mean for the unbounded log. */
  lemma MeaningOfWrites(cfg: Config, s: Log, op: Op)
    requires Inv(cfg, s) && OpOk(cfg, s, op)
    ensures op.WriteDef? ==>
      var puts := Meaning(cfg, s, op);
      && |puts| > 0 && puts[|puts| - 1] == Put(op.def)
      && (forall k :: 0 <= k < |puts| - 1 ==> puts[k] == DropMark)
      && |puts| == if Fill(s.buf) + op.def.Size() <= cfg.size || s.cntr == 0 then 1 else 2
    ensures op.WriteEvent? ==>
      var fits := Fill(s.buf) + 16 + (if op.etime.None? then 0 else 8) + |op.body| <= cfg.size;
      var time := if fits then op.time else op.end;
      var body := if op.etime.None? then op.body else Bytes(op.etime.value + time - op.time, 8) + op.body;
      Meaning(cfg, s, op) ==
        (if fits || s.cntr == 0 then [] else [DropMark]) +
        (if fits || s.cntr > 1 then [Put(Event(op.kind, time, body))] else [])
    ensures op.Flush? ==> Meaning(cfg, s, op) == if s.cntr > 0 then [DropMark] else []
    ensures op.Close? ==> Meaning(cfg, s, op) == [DropMark]
    ensures op.SetMark? ==> Meaning(cfg, s, op) == [SetIdealMark]
    ensures op.Rewind? ==> Meaning(cfg, s, op) == if s.mark.Some? then [CutBack] else []
    ensures op.SetStatus? ==> Meaning(cfg, s, op) == []
  {
    hide Fill;
  }
}
