/** The trace buffer itself: records as bytes in one array, written, replayed and compacted in place. */
module TraceBuffer {
  import opened Options
  import opened TraceRecords
  import opened TraceLog
  import opened TraceContents
  import MemMove

  // ----- reading packed memory -----

  lemma EncodeAllSplit(rs: seq<Record>, i: nat)
    requires i <= |rs|
    ensures EncodeAll(rs) == EncodeAll(rs[..i]) + EncodeAll(rs[i..])
  {
    var a, b := rs[..i], rs[i..];
    assert rs == a + b;
    EncodeAllAppend(a, b);
  }

  /** In packed memory the bytes behind record i start with the header of record i. */
  lemma ReadRecord(rs: seq<Record>, i: nat, rest: seq<byte>)
    requires i < |rs| && rs[i].Valid() && rest == EncodeAll(rs[i..])
    ensures |rest| >= rs[i].Size() >= HEADER
    ensures KindAt(rest) == rs[i].kind && LengthAt(rest) == rs[i].Size()
    ensures IsDefKind(rs[i].kind) == rs[i].Def?
    ensures KindAt(rest[..rs[i].Size()]) == rs[i].kind
    ensures Decode(rest[..rs[i].Size()]) == rs[i]
    ensures rest[rs[i].Size()..] == EncodeAll(rs[i + 1..])
    ensures |EncodeAll(rs[..i + 1])| == |EncodeAll(rs[..i])| + rs[i].Size()
  {
    EncodeAllAt(rs, i);
    DecodeEncode(rs[i], rest);
  }

  lemma OnlyNothingIsEmpty(rs: seq<Record>)
    ensures |EncodeAll(rs)| == 0 <==> rs == []
  {
  }

  /** The replay appends the leave mark, and nothing else. */
  ghost function AfterReplay(s: Log, lastFlush: bool, end: nat): Log {
    if !lastFlush && s.cntr > 1 && s.traceOn && |s.buf| > 0 then Append(s, LeaveMark(end), FlushMark) else s
  }

  /** Enter mark and leave mark, appended one at a time, are the marks of the flush. */
  lemma ReplayedBuffer(cfg: Config, s: Log, begin: nat, end: nat)
    requires Fill(s.buf) <= s.high
    ensures
      var entered := if s.traceOn then Append(s, EnterMark(cfg.region, begin), FlushMark) else s;
      var replayed := AfterReplay(entered, false, end);
      var whole := s.buf + FlushMarks(cfg, s, begin, end);
      replayed.buf == whole && replayed.high == Max(s.high, Fill(whole))
  {
    if s.traceOn {
      var enter, leave := Entry(EnterMark(cfg.region, begin), FlushMark), Entry(LeaveMark(end), FlushMark);
      assert (s.buf + [enter]) + [leave] == s.buf + [enter, leave];
      FillAppend(s.buf, [enter]);
      FillAppend(s.buf + [enter], [leave]);
    } else {
      assert s.buf + [] == s.buf;
    }
  }

  class TraceBuffer {
    const mem: array<byte>
    const cfg: Config
    var pos: nat
    var flushcntr: nat
    var markPos: Option<nat>
    var markTime: nat
    var traceOn: bool
    var otf: seq<Record>      // the records handed to the writer stream

    ghost var log: Log        // what the buffer stands for

    /** Memory up to pos is tiled by the buffered records. */
    ghost predicate Packed()
      reads this, mem
    {
      && AllValid(Recs(log.buf))
      && pos == Fill(log.buf) <= mem.Length
      && mem[..pos] == EncodeAll(Recs(log.buf))
      && flushcntr == log.cntr && traceOn == log.traceOn
    }

    ghost predicate Marked()
      reads this
    {
      && (markPos.Some? <==> log.mark.Some?)
      && (log.mark.Some? ==>
            && log.mark.value.index <= |log.buf|
            && markPos.value == Fill(log.buf[..log.mark.value.index])
            && markTime == log.mark.value.time)
    }

    ghost predicate Valid()
      reads this, mem
    {
      && Inv(cfg, log)
      && mem.Length == cfg.size + 2 * MARK
      && Packed() && Marked()
      && otf == Recs(log.stream)
    }

    /** The array stands for the addresses the buffer may touch: cfg.size usable bytes and room for
        two marks. Of these, bufferSize bytes are allocated; log.high says how many were used. */
    constructor Open(bufferSize: nat, reserve: nat, maxFlushes: nat, region: nat, off: nat,
                     notice: Record)
      requires reserve <= bufferSize && maxFlushes < UINT32
      requires Config(bufferSize - reserve, region, off, notice).Valid()
      ensures Valid() && fresh(mem)
      ensures cfg == Config(bufferSize - reserve, region, off, notice)
      ensures log == Log([], [], if maxFlushes == 0 then UINT32 - 1 else maxFlushes, None, true, 0)
    {
      var cntr := if maxFlushes == 0 then UINT32 - 1 else maxFlushes;
      cfg := Config(bufferSize - reserve, region, off, notice);
      mem := new byte[bufferSize - reserve + 2 * MARK](_ => 0);
      pos, flushcntr, markPos, markTime, traceOn, otf := 0, cntr, None, 0, true, [];
      log := Log([], [], cntr, None, true, 0);
    }

    /** The buffered bytes parse back to the buffered records, and pos is word aligned. */
    lemma ParseBuffer()
      requires Valid()
      ensures Parse(mem[..pos]) == Some(Recs(log.buf))
      ensures pos % WORD == 0 && pos <= cfg.size
    {
      ParseEncodeAll(Recs(log.buf));
      EncodeAllAligned(Recs(log.buf));
    }

    /** Writes one record at pos and jumps behind it. */
    method Put(r: Record, ghost writer: Writer)
      requires Packed() && r.Valid() && pos + r.Size() <= mem.Length
      modifies `pos, `log, mem
      ensures Packed()
      ensures old(Marked()) ==> Marked()
      ensures log == Append(old(log), r, writer)
      ensures pos == old(pos) + r.Size()
    {
      hide EncodeAll, Encode;
      WriteBytes(mem, pos, Encode(r));
      EncodeAllSnoc(Recs(log.buf), r);
      assert Recs(log.buf + [Entry(r, writer)]) == Recs(log.buf) + [r];
      if log.mark.Some? && log.mark.value.index <= |log.buf| {
        assert (log.buf + [Entry(r, writer)])[..log.mark.value.index] == log.buf[..log.mark.value.index];
      }
      pos := pos + r.Size();
      log := Append(log, r, writer);
    }

    /** VTGen_flush: replays the buffer to the stream. The end of the replay moves while it runs,
        since the leave mark is appended when the last record is reached. The stream gets the contents;
        if the flush is an intermediate one and tracing is on, an enter (kind 12) of the flush region;
        and a leave (kind 13) if another flush is permitted. */
    method Flush(lastFlush: bool, begin: nat, end: nat) returns (etime: Option<nat>)
      requires Valid() && begin < UINT64 && end < UINT64
      modifies this, mem
      ensures Valid()
      ensures log == if lastFlush then CloseStep(old(log)) else FlushStep(cfg, old(log), begin, end)
      ensures etime == if !lastFlush && old(log.cntr) > 1 && (old(pos) > 0 || old(traceOn)) then Some(end) else None
      ensures lastFlush || old(flushcntr) > 0 ==>
        var n := |old(otf)| + |old(log).buf|;
        && |otf| == n + (if lastFlush || !old(traceOn) then 0 else if old(flushcntr) > 1 then 2 else 1)
        && otf[..n] == old(otf) + Recs(old(log).buf)
        && (!lastFlush && old(traceOn) ==>
              && otf[n].Event? && otf[n].kind == 12 && otf[n].time == begin && |otf[n].body| == 8
              && Value(otf[n].body[0..4]) == cfg.region && Value(otf[n].body[4..8]) == 0)
        && (!lastFlush && old(traceOn) && old(flushcntr) > 1 ==>
              && otf[n + 1].Event? && otf[n + 1].kind == 13 && otf[n + 1].time == end && |otf[n + 1].body| == 8
              && Value(otf[n + 1].body[0..4]) == 0 && Value(otf[n + 1].body[4..8]) == 0)
    {
      hide EncodeAll, Encode, Value, Bytes;
      etime := None;
      if !lastFlush && flushcntr == 0 {
        return;
      }
      ghost var s := log;
      if !lastFlush && traceOn {
        Put(EnterMark(cfg.region, begin), FlushMark);
      }
      etime := Replay(lastFlush, end);
      ReplayedBuffer(cfg, s, begin, end);
      SetBack();
      if !lastFlush && flushcntr == 0 {
        SwitchOff(end);
      }
      FlushInv(cfg, s, begin, end);
      hide FlushStep, CloseStep, Recs;
      StreamOfFlush(s, lastFlush, begin, end);
    }

    /** What the stream holds after the flush of what stood for s. */
    lemma StreamOfFlush(s: Log, lastFlush: bool, begin: nat, end: nat)
      requires otf == Recs(log.stream) && cfg.Valid() && (lastFlush || s.cntr > 0)
      requires log == if lastFlush then CloseStep(s) else FlushStep(cfg, s, begin, end)
      ensures
        var n := |s.stream| + |s.buf|;
        && |otf| == n + (if lastFlush || !s.traceOn then 0 else if s.cntr > 1 then 2 else 1)
        && otf[..n] == Recs(s.stream) + Recs(s.buf)
        && (!lastFlush && s.traceOn ==>
              && otf[n].Event? && otf[n].kind == 12 && otf[n].time == begin && |otf[n].body| == 8
              && Value(otf[n].body[0..4]) == cfg.region && Value(otf[n].body[4..8]) == 0)
        && (!lastFlush && s.traceOn && s.cntr > 1 ==>
              && otf[n + 1].Event? && otf[n + 1].kind == 13 && otf[n + 1].time == end && |otf[n + 1].body| == 8
              && Value(otf[n + 1].body[0..4]) == 0 && Value(otf[n + 1].body[4..8]) == 0)
    {
      if !lastFlush {
        hide FlushStep, Value;
        FlushWrites(cfg, s, begin, end);
      }
    }

    /** What follows the last permitted flush: vt_trace_off, which enters its region if tracing is on,
        and the notice. */
    method SwitchOff(end: nat)
      requires Packed() && Marked() && cfg.Valid() && pos == 0 && cfg.size <= mem.Length && end < UINT64
      modifies `pos, `log, `traceOn, mem
      ensures Packed() && Marked() && log == SwitchedOff(cfg, old(log), end) && !traceOn
    {
      if traceOn {
        Put(EnterMark(cfg.off, end), LimitNote);
      }
      traceOn := false;
      log := log.(traceOn := false);
      Put(cfg.notice, LimitNote);
    }

    /** The end of the flush: the buffer is empty, the flush counted, the mark forgotten. */
    method SetBack()
      requires Packed() && otf == Recs(log.stream) + Recs(log.buf)
      modifies `pos, `flushcntr, `markPos, `markTime, `log
      ensures Packed() && Marked() && otf == Recs(log.stream) && pos == 0
      ensures log == Log(old(log).stream + old(log).buf, [], if old(log).cntr > 0 then old(log).cntr - 1 else 0,
                         None, old(log).traceOn, old(log).high)
    {
      hide EncodeAll;
      pos := 0;
      OnlyNothingIsEmpty([]);
      if flushcntr > 0 {
        flushcntr := flushcntr - 1;
      }
      markPos, markTime := None, 0;
      RecsAppend(log.stream, log.buf);
      log := Log(log.stream + log.buf, [], flushcntr, None, traceOn, log.high);
    }

    /** Hands the record at p to the writer stream. */
    method Emit(p: nat, ghost rs: seq<Record>, ghost i: nat) returns (length: nat)
      requires Packed() && rs == Recs(log.buf) && i < |rs| && p == |EncodeAll(rs[..i])|
      modifies `otf
      ensures otf == old(otf) + [rs[i]]
      ensures length > 0
      ensures p + length == |EncodeAll(rs[..i + 1])| <= pos
      ensures p + length == pos <==> i + 1 == |rs|
    {
      EncodeAllSplit(rs, i);
      assert mem[p..pos] == EncodeAll(rs[i..]);
      ReadRecord(rs, i, mem[p..pos]);
      length := LengthAt(mem[p..pos]);
      otf := otf + [Decode(mem[p..pos][..length])];
      EncodeAllSplit(rs, i + 1);
      OnlyNothingIsEmpty(rs[i + 1..]);
    }

    /** The leave mark, when the replay has reached the last record. */
    method MarkEnd(lastFlush: bool, end: nat) returns (etime: Option<nat>)
      requires Packed() && end < UINT64 && |log.buf| > 0
      requires pos + (if lastFlush || !traceOn then 0 else MARK) <= mem.Length
      modifies `pos, `log, mem
      ensures Packed() && log == AfterReplay(old(log), lastFlush, end)
      ensures Recs(old(log).buf) <= Recs(log.buf)
      ensures pos == old(pos) || (pos == old(pos) + MARK && |log.buf| == |old(log).buf| + 1)
      ensures pos == old(pos) ==> log == old(log)
      ensures etime == if !lastFlush && old(log.cntr) > 1 then Some(end) else None
    {
      etime := None;
      if !lastFlush && flushcntr > 1 {
        if traceOn {
          Put(LeaveMark(end), FlushMark);
        }
        etime := Some(end);
      }
    }

    /** The replay loop; log.stream is brought up to date by the caller. */
    method Replay(lastFlush: bool, end: nat) returns (etime: Option<nat>)
      requires Packed() && end < UINT64
      requires otf == Recs(log.stream)
      requires pos + (if lastFlush || !traceOn then 0 else MARK) <= mem.Length
      modifies `pos, `log, `otf, mem
      ensures Packed()
      ensures log == AfterReplay(old(log), lastFlush, end)
      ensures otf == Recs(log.stream) + Recs(log.buf)
      ensures etime == if !lastFlush && old(log.cntr) > 1 && old(pos) > 0 then Some(end) else None
    {
      hide EncodeAll;
      etime := None;
      var p, endFlushMarked := 0, false;
      ghost var i: nat := 0;
      ghost var s, rs, out := log, Recs(log.buf), otf;
      OnlyNothingIsEmpty(rs);
      OnlyNothingIsEmpty(rs[..0]);
      while p < pos
        invariant Packed() && rs == Recs(log.buf)
        invariant i <= |rs| && p == |EncodeAll(rs[..i])| <= pos
        invariant p < pos <==> i < |rs|
        invariant otf == out + rs[..i]
        invariant log == if endFlushMarked then AfterReplay(s, lastFlush, end) else s
        invariant endFlushMarked <==> 0 < |s.buf| <= i
        invariant etime == if endFlushMarked && !lastFlush && s.cntr > 1 then Some(end) else None
        decreases if endFlushMarked then 0 else 1, pos - p
      {
        ghost var was := rs;
        var length := Emit(p, rs, i);
        assert rs[..i + 1] == rs[..i] + [rs[i]];
        if !endFlushMarked && p + length >= pos {
          etime := MarkEnd(lastFlush, end);
          rs := Recs(log.buf);
          assert rs[..i + 1] == was[..i + 1];
          endFlushMarked := true;
        }
        p := p + length;
        i := i + 1;
      }
      assert rs[..i] == rs;
    }

    /** VTGen_write_DEF_*: content is the structure behind its header, before alignment. It is the last
        record in the buffer, behind what was there before, or behind what a flush has left. */
    method WriteDef(kind: nat, content: seq<byte>, begin: nat, end: nat)
      requires Valid() && OpOk(cfg, log, Op.WriteDef(Def(kind, Padded(content)), begin, end))
      modifies this, mem
      ensures Valid()
      ensures log == Step(cfg, old(log), Op.WriteDef(Def(kind, Padded(content)), begin, end))
      ensures
        var fits := old(pos) + 8 + |Padded(content)| <= cfg.size;
        var e := Entry(Def(kind, Padded(content)), Caller);
        && |log.buf| > 0 && log.buf[|log.buf| - 1] == e
        && (fits || old(flushcntr) == 0 ==> log.buf == old(log).buf + [e] && otf == old(otf))
        && (!fits && old(flushcntr) > 1 ==> log.buf == [e])
        && (!fits && old(flushcntr) == 1 ==> forall k :: 0 <= k < |log.buf| - 1 ==> log.buf[k].writer == LimitNote)
    {
      DefWrites(cfg, log, Def(kind, Padded(content)), begin, end);
      var r := Def(kind, Padded(content));
      StepInv(cfg, log, Op.WriteDef(r, begin, end));
      if pos > cfg.size - r.Size() {
        FlushInv(cfg, log, begin, end);
        var _ := Flush(false, begin, end);
      }
      AppendInv(cfg, log, r, Caller);
      Put(r, Caller);
    }

    /** VTGEN_ALLOC_EVENT: makes room, and moves the time stamp behind the flush that took. */
    method MakeRoomForEvent(bytes: nat, time: nat, end: nat) returns (newTime: nat, dropped: bool)
      requires Valid() && bytes <= cfg.size && time < UINT64 && end < UINT64
      modifies this, mem
      ensures Valid()
      ensures log == if Fits(cfg, old(log), bytes) then old(log) else FlushStep(cfg, old(log), time, end)
      ensures dropped <==> !Fits(cfg, old(log), bytes) && old(log.cntr) <= 1
      ensures !Fits(cfg, old(log), bytes) ==> (dropped <==> log.cntr == 0)
      ensures !dropped ==> Fits(cfg, log, bytes)
      ensures newTime == if Fits(cfg, old(log), bytes) || dropped then time else end
    {
      newTime, dropped := time, false;
      if pos > cfg.size - bytes {
        FlushInv(cfg, log, time, end);
        var etime := Flush(false, time, end);
        if etime.Some? {
          newTime := etime.value;
        }
        dropped := flushcntr == 0;
      }
    }

    /** VTGen_write_* for an event. It is appended with its own kind and content, at its own time if it
        fits, and at the end of the flush otherwise; at the flush limit it is dropped. */
    method WriteEvent(kind: nat, time: nat, content: seq<byte>, end: nat) returns (newTime: nat)
      requires Valid() && OpOk(cfg, log, Op.WriteEvent(kind, time, None, Padded(content), end))
      modifies this, mem
      ensures Valid()
      ensures log == Step(cfg, old(log), Op.WriteEvent(kind, time, None, Padded(content), end))
      ensures newTime == if Fits(cfg, old(log), Event(kind, time, Padded(content)).Size()) || old(log.cntr) <= 1
                         then time else end
      ensures
        var fits := old(pos) + 16 + |Padded(content)| <= cfg.size;
        var e := Entry(Event(kind, newTime, Padded(content)), Caller);
        && newTime == (if fits || old(flushcntr) <= 1 then time else end)
        && (fits ==> log.buf == old(log).buf + [e] && otf == old(otf))
        && (!fits && old(flushcntr) > 1 ==> log.buf == [e])
        && (!fits && old(flushcntr) == 1 ==> forall x :: x in log.buf ==> x.writer == LimitNote)
        && (!fits && old(flushcntr) == 0 ==> log == old(log))
    {
      EventWrites(cfg, log, Op.WriteEvent(kind, time, None, Padded(content), end));
      hide EncodeAll, FlushStep, DefStep, RewindStep, CloseStep, Fill, Recs, Bytes, Encode, AllValid;
      ghost var op := Op.WriteEvent(kind, time, None, Padded(content), end);
      var dropped;
      StampedSize(op, time, end);
      newTime, dropped := MakeRoomForEvent(Event(kind, time, Padded(content)).Size(), time, end);
      if !dropped {
        var r := Event(kind, newTime, Padded(content));
        AppendInv(cfg, log, r, Caller);
        Put(r, Caller);
      }
    }

    /** VTGen_write_FILE_OPERATION: the end time moves along with the start time, in the record too. When
        the event is refused the end time is left reduced to the duration. */
    method WriteFileOperation(kind: nat, time: nat, etime: nat, content: seq<byte>, end: nat)
      returns (newTime: nat, newEtime: nat)
      requires Valid() && OpOk(cfg, log, Op.WriteEvent(kind, time, Some(etime), Padded(content), end))
      modifies this, mem
      ensures Valid()
      ensures log == Step(cfg, old(log), Op.WriteEvent(kind, time, Some(etime), Padded(content), end))
      ensures
        var op := Op.WriteEvent(kind, time, Some(etime), Padded(content), end);
        if !Fits(cfg, old(log), Stamped(op, time).Size()) && old(log.cntr) <= 1
        then newTime == time && newEtime == etime - time
        else newEtime - newTime == etime - time
      ensures
        var fits := old(pos) + 24 + |Padded(content)| <= cfg.size;
        var e := Entry(Event(kind, newTime, Bytes(newEtime, 8) + Padded(content)), Caller);
        && (fits || old(flushcntr) > 1 ==> newEtime - newTime == etime - time)
        && (fits ==> newTime == time && log.buf == old(log).buf + [e] && otf == old(otf))
        && (!fits && old(flushcntr) > 1 ==> newTime == end && log.buf == [e])
        && (!fits && old(flushcntr) == 1 ==> forall x :: x in log.buf ==> x.writer == LimitNote)
        && (!fits && old(flushcntr) == 0 ==> log == old(log))
    {
      EventWrites(cfg, log, Op.WriteEvent(kind, time, Some(etime), Padded(content), end));
      hide EncodeAll, FlushStep, DefStep, RewindStep, CloseStep, Fill, Recs, Bytes, Encode, AllValid, Padded, Value;
      ghost var op := Op.WriteEvent(kind, time, Some(etime), Padded(content), end);
      var dropped;
      newEtime := etime - time;
      StampedSize(op, time, end);
      newTime, dropped := MakeRoomForEvent(Event(kind, time, Bytes(0, 8) + Padded(content)).Size(), time, end);
      if !dropped {
        newEtime := newEtime + newTime;
        var r := Event(kind, newTime, Bytes(newEtime, 8) + Padded(content));
        assert r == Stamped(op, newTime);
        AppendInv(cfg, log, r, Caller);
        Put(r, Caller);
      }
    }

    method SetRewindMark(time: nat)
      requires Valid()
      modifies this
      ensures Valid() && log == Step(cfg, old(log), Op.SetMark(time))
      ensures markPos == Some(pos) && markTime == time && pos == old(pos) && log.buf == old(log).buf
    {
      markPos, markTime := Some(pos), time;
      log := Step(cfg, log, Op.SetMark(time));
      assert log.buf[..|log.buf|] == log.buf;
    }

    /** Switches the tracer status, without effect on the buffer. Once the flush limit has switched
        tracing off it stays off. */
    method SetStatus(on: bool)
      requires Valid()
      modifies `traceOn, `log
      ensures Valid() && log == Step(cfg, old(log), Op.SetStatus(on))
      ensures traceOn <==> on && flushcntr > 0
      ensures log == old(log).(traceOn := traceOn)
    {
      traceOn := on && flushcntr > 0;
      log := log.(traceOn := traceOn);
    }

    /** VTGen_rewind: slides the definitions behind the mark down onto it and drops the events.
        Returns the time of the mark; without a mark nothing happens, as in vt_rewind. */
    method Rewind() returns (time: Option<nat>)
      requires Valid()
      modifies this, mem
      ensures Valid()
      ensures log == RewindStep(old(log))
      ensures time == if old(log.mark).Some? then Some(old(log.mark).value.time) else None
      ensures otf == old(otf) && flushcntr == old(flushcntr)
      ensures old(markPos).None? ==> log == old(log)
      ensures old(markPos).Some? ==>
        var m := old(log).mark.value.index;
        && time == Some(old(markTime)) && markPos == Some(pos) && markTime == old(markTime)
        && log.buf == old(log).buf[..m] + DefsOnly(old(log).buf[m..])
    {
      hide EncodeAll, DefsOnly;
      if markPos.None? {
        return None;
      }
      ghost var m, es := log.mark.value.index, log.buf;
      EncodeAllSplit(Recs(es), m);
      KeptStart(es, m);
      assert mem[markPos.value..pos] == EncodeAll(Recs(es)[m..]);
      RewindInv(cfg, log);
      var mark := Compact(mem, markPos.value, pos, es, m);
      assert es[m..|es|] == es[m..];
      markPos, pos, time := Some(mark), mark, Some(markTime);
      log := RewindStep(log);
      assert log.buf[..|log.buf|] == log.buf;
    }

    /** VTGen_close. */
    method Close()
      requires Valid()
      modifies this, mem
      ensures Valid() && log == CloseStep(old(log)) && log.buf == []
      ensures otf == old(otf) + Recs(old(log).buf) && markPos == None
      ensures flushcntr == if old(flushcntr) > 0 then old(flushcntr) - 1 else 0
    {
      var _ := Flush(true, 0, 0);
      RecsAppend(old(log).stream, old(log).buf);
    }
  }

  /** What the rewind to index m has kept when it has come to index k. */
  ghost function Kept(es: seq<Entry>, m: nat, k: nat): seq<Entry>
    requires m <= k <= |es|
  {
    es[..m] + DefsOnly(es[m..k])
  }

  lemma KeptStart(es: seq<Entry>, m: nat)
    requires m <= |es|
    ensures Kept(es, m, m) == es[..m] && Recs(es[..m]) == Recs(es)[..m]
  {
    assert es[m..m] == [];
  }

  /** Going on by one record keeps it iff it is a definition. */
  lemma KeptNext(es: seq<Entry>, m: nat, k: nat)
    requires m <= k < |es|
    ensures Recs(Kept(es, m, k + 1)) ==
            Recs(Kept(es, m, k)) + (if es[k].rec.Def? then [es[k].rec] else [])
  {
    assert es[m..k + 1] == es[m..k] + [es[k]];
    DefsOnlySnoc(es[m..k], es[k]);
    var next := if es[k].rec.Def? then [es[k]] else [];
    assert Kept(es, m, k + 1) == Kept(es, m, k) + next;
    RecsAppend(Kept(es, m, k), next);
  }

  lemma {:induction false} DefsOnlySnoc(es: seq<Entry>, e: Entry)
    ensures DefsOnly(es + [e]) == DefsOnly(es) + (if e.rec.Def? then [e] else [])
  {
    if |es| == 0 {
      assert es + [e] == [e];
      assert [e][1..] == [];
    } else {
      assert (es + [e])[1..] == es[1..] + [e];
      DefsOnlySnoc(es[1..], e);
      var first, next := if es[0].rec.Def? then [es[0]] else [], if e.rec.Def? then [e] else [];
      assert first + (DefsOnly(es[1..]) + next) == (first + DefsOnly(es[1..])) + next;
    }
  }

  /** The loop of the rewind: p runs over the unread records, mark follows behind. */
  method Compact(mem: array<byte>, oldMark: nat, pos: nat, ghost es: seq<Entry>, ghost m: nat) returns (mark: nat)
    requires m <= |es| && AllValid(Recs(es)) && oldMark <= pos <= mem.Length
    requires mem[..oldMark] == EncodeAll(Recs(es[..m]))
    requires mem[oldMark..pos] == EncodeAll(Recs(es)[m..])
    modifies mem
    ensures mark == Fill(Kept(es, m, |es|)) <= pos
    ensures mem[..mark] == EncodeAll(Recs(Kept(es, m, |es|)))
  {
    hide EncodeAll, DefsOnly;
    ghost var rs := Recs(es);
    ghost var k: nat := m;
    OnlyNothingIsEmpty(rs[m..]);
    KeptStart(es, m);
    mark := oldMark;
    var p := mark;
    while p < pos
      invariant m <= k <= |es| && mark <= p <= pos
      invariant p < pos <==> k < |es|
      invariant mark == Fill(Kept(es, m, k))
      invariant mem[..mark] == EncodeAll(Recs(Kept(es, m, k)))
      invariant mem[p..pos] == EncodeAll(rs[k..])
    {
      KeptNext(es, m, k);
      var length;
      length, mark := KeepOrDrop(mem, p, mark, pos, Recs(Kept(es, m, k)), rs, k);
      p := p + length;
      k := k + 1;
    }
  }

  method WriteBytes(mem: array<byte>, at: nat, b: seq<byte>)
    requires at + |b| <= mem.Length
    modifies mem
    ensures mem[..at + |b|] == old(mem[..at]) + b
  {
    forall i | 0 <= i < |b| {
      mem[at + i] := b[i];
    }
  }

  /** One round of the rewind: the record at p is slid down to mark if it is a definition.
      What lies before mark stays, and what is still unread behind p is not clobbered. */
  method KeepOrDrop(mem: array<byte>, p: nat, mark: nat, pos: nat,
                    ghost kept: seq<Record>, ghost rs: seq<Record>, ghost k: nat)
    returns (length: nat, newMark: nat)
    requires mark <= p < pos <= mem.Length && k < |rs| && rs[k].Valid()
    requires mem[..mark] == EncodeAll(kept) && mem[p..pos] == EncodeAll(rs[k..])
    modifies mem
    ensures length == rs[k].Size() && p + length <= pos && newMark <= p + length
    ensures mem[..newMark] == EncodeAll(kept + (if rs[k].Def? then [rs[k]] else []))
    ensures newMark == mark + if rs[k].Def? then length else 0
    ensures mem[p + length..pos] == EncodeAll(rs[k + 1..])
    ensures p + length < pos <==> k + 1 < |rs|
  {
    hide EncodeAll;
    ReadRecord(rs, k, mem[p..pos]);
    OnlyNothingIsEmpty(rs[k + 1..]);
    length, newMark := LengthAt(mem[p..pos]), mark;
    assert mem[p..p + length] == Encode(rs[k]) && mem[p + length..pos] == EncodeAll(rs[k + 1..]) by {
      EncodeAllAt(rs, k);
      assert mem[p..p + length] == mem[p..pos][..length];
      assert mem[p + length..pos] == mem[p..pos][length..];
    }
    if IsDefKind(KindAt(mem[p..pos])) {
      EncodeAllSnoc(kept, rs[k]);
      Slide(mem, mark, p, length, pos);
      newMark := mark + length;
    } else {
      assert kept + [] == kept;
    }
  }

  method Slide(mem: array<byte>, mark: nat, p: nat, length: nat, pos: nat)
    requires mark <= p && p + length <= pos <= mem.Length
    modifies mem
    ensures mem[..mark + length] == old(mem[..mark]) + old(mem[p..p + length])
    ensures mem[p + length..pos] == old(mem[p + length..pos])
  {
    if p != mark {
      MemMove.Move(mem, mark, p, length);
      assert forall j :: mark + length <= j < mem.Length ==> mem[..][j] == old(mem[..])[j];
    } else {
      assert mem[..mark + length] == mem[..mark] + mem[p..p + length];
    }
  }
}
