/** The asynchronous task buffer of one CUDA device: entries of two sizes in a byte buffer, a pool
    of preallocated events, and the flush that writes the tasks to the trace. */
module CudaDevice {
  import opened CudaConversion
  import opened CudaSerial

  /** On every stream tasks are written one after the other. */
  ghost predicate Ordered(ss: seq<Span>) {
    forall i, j :: 0 <= i < j < |ss| && ss[i].stream == ss[j].stream ==> ss[i].stop <= ss[j].strt
  }

  ghost predicate Between(ss: seq<Span>, from: int, to: int) {
    forall i :: 0 <= i < |ss| ==> from <= ss[i].strt <= to && from <= ss[i].stop <= to
  }

  lemma OneAfterTheOther(a: seq<Span>, b: seq<Span>, t: int, u: int)
    requires Between(a, 0, t) && Between(b, t, u) && 0 <= t <= u
    ensures Between(a + b, 0, u)
    ensures Ordered(a) && Ordered(b) ==> Ordered(a + b)
    ensures StartsBeforeStops(a) && StartsBeforeStops(b) ==> StartsBeforeStops(a + b)
  {
  }

  class CudaDevice {
    const sizes: Sizes
    const bufSize: nat
    const concurrentKernels: bool
    var buf: seq<Task>            // the entries between asyncbuf and buf_pos
    var bufPos: nat               // bytes in use
    var evtPos: nat               // events in use
    var strtEvt: real             // sync.strtEvt, by its time on the device
    var strtTime: nat             // sync.strtTime
    var lastTime: nat             // sync.lastTime
    var trace: seq<Span>          // the tasks written so far

    /** Entries and events are claimed together; events follow each other on every stream;
        everything written lies before the last flush, and that before the last synchronous call;
        on a concurrent device every task is written with its start before its stop. */
    ghost predicate Valid()
      reads this
    {
      && sizes.Valid() && sizes.memcpy <= bufSize
      && (forall i :: 0 <= i < |buf| ==> sizes.Enabled(buf[i].kind))
      && bufPos == BytesOf(buf, sizes) && evtPos == |buf|
      && InEventOrder(buf, map[], Anchor(strtEvt, strtTime))
      && strtTime <= lastTime
      && Between(trace, 0, strtTime)
      && (concurrentKernels ==> StartsBeforeStops(trace))
    }

    /** No entry lies behind the end of the buffer. */
    predicate InBounds()
      reads this
    {
      bufPos <= bufSize
    }

    constructor (asked: nat, sizes: Sizes, concurrentKernels: bool, syncEvt: real, syncTime: nat)
      requires sizes.Valid() && sizes.memcpy <= DEF_ASYNC_BSIZE
      ensures Valid() && InBounds() && Ordered(trace)
      ensures this.sizes == sizes && this.concurrentKernels == concurrentKernels
      ensures bufSize == (if asked < sizes.memcpy then 8192 else asked) && buf == [] && trace == []
      ensures strtEvt == syncEvt && strtTime == syncTime == lastTime
    {
      this.sizes, this.concurrentKernels := sizes, concurrentKernels;
      bufSize := BufferSize(asked, sizes);
      buf, bufPos, evtPos, trace := [], 0, 0, [];
      strtEvt, strtTime, lastTime := syncEvt, syncTime, syncTime;
    }

    /** As long as the entries stay in the buffer, the pool does not run out of events. */
    lemma PoolNeverRunsOut()
      requires Valid() && InBounds()
      ensures evtPos == |buf| <= EventPool(bufSize, sizes)
    {
      PoolSuffices(buf, sizes, bufSize);
    }

    /** A synchronous call that ends at host time `time`. */
    method Synchronous(time: nat)
      requires Valid() && lastTime <= time
      modifies `lastTime
      ensures Valid() && lastTime == time
    {
      lastTime := time;
    }

    /** What a flush synchronized at device time evt and host time `time` writes. */
    ghost function Output(evt: real, time: nat): seq<Span>
      reads this
      requires strtEvt < evt
    {
      var w := Window(lastTime, time, (time - strtTime) as real / (evt - strtEvt));
      Written(Convert(buf, map[], Anchor(strtEvt, strtTime), w), 0, concurrentKernels)
    }

    /** What a flush writes lies between the last synchronous call and the synchronization, and keeps
        the trace in order. */
    lemma OutputFollows(evt: real, time: nat)
      requires Valid() && strtEvt < evt && lastTime <= time
      ensures Between(Output(evt, time), lastTime, time)
      ensures Between(trace + Output(evt, time), 0, time)
      ensures Ordered(trace) ==> Ordered(trace + Output(evt, time))
      ensures StartsBeforeStops(trace) && (concurrentKernels || OneKernelStream(PlacesOf(buf))) ==>
        StartsBeforeStops(trace + Output(evt, time))
    {
      hide Convert, Written, InEventOrder, Ordered, StartsBeforeStops, OneKernelStream;
      var start := Anchor(strtEvt, strtTime);
      var w := Window(lastTime, time, (time - strtTime) as real / (evt - strtEvt));
      FactorNonNegative(time - strtTime, evt - strtEvt);
      NewSpans(buf, start, w, concurrentKernels);
      if concurrentKernels || OneKernelStream(PlacesOf(buf)) {
        OneStreamIsSafe(buf, start, w, concurrentKernels);
      }
      OneAfterTheOther(trace, Output(evt, time), strtTime, time);
    }

    /** What becomes of the i-th task: with f ticks per millisecond between the synchronizations, it takes
        its time on the device times f, less a fraction of a tick, if it stops inside the window; and it
        starts as far behind the task before it on its stream, or behind the last flush. On a device
        without concurrent kernels a kernel may lose the time it is made to wait. */
    lemma OutputLength(evt: real, time: nat, p: int, i: nat)
      requires Valid() && strtEvt < evt && lastTime <= time && -1 <= p < i < |buf|
      requires p >= 0 ==> buf[p].stream == buf[i].stream
      requires forall k :: p < k < i ==> buf[k].stream != buf[i].stream
      ensures
        var t, s := buf[i], Output(evt, time)[i];
        var f := (time - strtTime) as real / (evt - strtEvt);
        var evt0 := if p >= 0 then buf[p].stop else strtEvt;
        var time0 := if p >= 0 then Output(evt, time)[p].stop else strtTime;
        && s.kind == t.kind && s.stream == t.stream
        && (s.stop < time ==> (s.stop - s.strt) as real <= (t.stop - t.strt) * f)
        && (concurrentKernels || t.kind.Memcpy? ==>
              && (s.stop < time ==> (t.stop - t.strt) * f < (s.stop - s.strt) as real + 1.0)
              && (lastTime < s.strt < time ==>
                    (s.strt - time0) as real <= (t.strt - evt0) * f < (s.strt - time0) as real + 1.0))
    {
      hide Convert, Written, InEventOrder, Converted;
      FactorNonNegative(time - strtTime, evt - strtEvt);
      var w := Window(lastTime, time, (time - strtTime) as real / (evt - strtEvt));
      var a := if p >= 0 then Anchor(buf[p].stop, Output(evt, time)[p].stop) else Anchor(strtEvt, strtTime);
      LengthInFlush(buf, Anchor(strtEvt, strtTime), w, concurrentKernels, p, i, a,
        (buf[i].strt - a.evt) * w.factor, (buf[i].stop - buf[i].strt) * w.factor);
    }

    /** VTCUDAflush with a synchronization at device time evt and host time `time`.
        When the synchronization fails nothing is written and nothing is reset. */
    method Flush(syncOk: bool, evt: real, time: nat)
      requires Valid() && strtEvt < evt && lastTime <= time
      modifies this
      ensures Valid() && (old(Ordered(trace)) ==> Ordered(trace))
      ensures !syncOk || |old(buf)| == 0 ==>
        buf == old(buf) && trace == old(trace) && strtEvt == old(strtEvt) && lastTime == old(lastTime)
      ensures syncOk && |old(buf)| > 0 ==>
        && buf == [] && strtEvt == evt && strtTime == lastTime == time
        && trace == old(trace) + old(Output(evt, time))
      ensures old(StartsBeforeStops(trace)) && OneKernelStream(PlacesOf(old(buf))) ==> StartsBeforeStops(trace)
    {
      if bufPos == 0 {
        NothingBuffered();
        return;
      }
      if !syncOk {
        return;
      }
      var w := Window(lastTime, time, (time - strtTime) as real / (evt - strtEvt));
      hide InEventOrder, Between, Ordered, StartsBeforeStops, OneKernelStream, Convert, Written;
      var out := WriteTasks(buf, Anchor(strtEvt, strtTime), w, concurrentKernels);
      OutputFollows(evt, time);
      trace := trace + out;
      SetBack(evt, time);
    }

    /** The end of the flush: the window begins anew, entry and event buffer are empty. */
    method SetBack(evt: real, time: nat)
      requires sizes.Valid() && sizes.memcpy <= bufSize
      requires Between(trace, 0, time) && (concurrentKernels ==> StartsBeforeStops(trace))
      modifies `strtEvt, `strtTime, `lastTime, `buf, `bufPos, `evtPos
      ensures Valid() && buf == [] && strtEvt == evt && strtTime == lastTime == time
    {
      hide Between, StartsBeforeStops;
      strtEvt, strtTime, lastTime := evt, time, time;
      buf, bufPos, evtPos := [], 0, 0;
    }

    /** The events of t come behind those of all buffered tasks of its stream. */
    ghost predicate Next(t: Task)
      reads this
    {
      && sizes.Enabled(t.kind) && strtEvt <= t.strt <= t.stop
      && forall i :: 0 <= i < |buf| && buf[i].stream == t.stream ==> buf[i].stop <= t.strt
    }

    /** Takes the entry at buf_pos and the event at evtbuf_pos. */
    method Claim(t: Task)
      requires Valid() && Next(t)
      modifies `buf, `bufPos, `evtPos
      ensures Valid()
      ensures buf == old(buf) + [t] && bufPos == old(bufPos) + sizes.Of(t.kind)
    {
      BytesSnoc(buf, t, sizes);
      buf := buf + [t];
      bufPos := bufPos + sizes.Of(t.kind);
      evtPos := evtPos + 1;
    }

    /** addMemcpy2Buf. From inside the buffer, the new entry stays inside iff it fits or the
        flush that is to make room can synchronize. */
    method AddMemcpy(t: Task, syncOk: bool, evt: real, time: nat)
      requires Valid() && t.kind.Memcpy? && Next(t) && strtEvt < evt && lastTime <= time
      requires bufPos + sizes.memcpy > bufSize ==> evt <= t.strt
      modifies this
      ensures Valid() && (old(Ordered(trace)) ==> Ordered(trace))
      ensures old(StartsBeforeStops(trace)) && OneKernelStream(PlacesOf(old(buf))) ==> StartsBeforeStops(trace)
      ensures old(InBounds()) ==> (InBounds() <==> syncOk || old(bufPos) + sizes.memcpy <= bufSize)
      ensures buf == (if old(bufPos) + sizes.memcpy > bufSize && syncOk then [] else old(buf)) + [t]
      ensures bufPos == (if old(bufPos) + sizes.memcpy > bufSize && syncOk then 0 else old(bufPos)) + sizes.memcpy
      ensures strtEvt == if old(bufPos) + sizes.memcpy > bufSize && syncOk then evt else old(strtEvt)
    {
      if bufPos + sizes.memcpy > bufSize {
        EmptyFits();
        Flush(syncOk, evt, time);
      }
      Claim(t);
    }

    lemma EmptyFits()
      requires Valid()
      ensures bufPos + sizes.kernel > bufSize || bufPos + sizes.memcpy > bufSize ==> |buf| > 0
    {
    }

    /** The buffer part of cudaConfigureCall: makes room for the kernel to be launched. */
    method Configure(syncOk: bool, evt: real, time: nat)
      requires Valid() && strtEvt < evt && lastTime <= time
      modifies this
      ensures Valid() && (old(Ordered(trace)) ==> Ordered(trace))
      ensures old(StartsBeforeStops(trace)) && OneKernelStream(PlacesOf(old(buf))) ==> StartsBeforeStops(trace)
      ensures old(InBounds()) ==> InBounds()
      ensures old(InBounds()) ==>
        (bufPos + sizes.kernel <= bufSize <==> syncOk || old(bufPos) + sizes.kernel <= bufSize)
      ensures if old(bufPos) + sizes.kernel > bufSize && syncOk then buf == [] && strtEvt == evt && lastTime == time
              else buf == old(buf) && strtEvt == old(strtEvt) && lastTime == old(lastTime)
    {
      if bufPos + sizes.kernel > bufSize {
        EmptyFits();
        Flush(syncOk, evt, time);
      }
    }

    /** The buffer part of cudaLaunch, which relies on the room cudaConfigureCall has made. */
    method Launch(t: Task)
      requires Valid() && t.kind.Kernel? && Next(t)
      modifies `buf, `bufPos, `evtPos
      ensures Valid() && buf == old(buf) + [t]
      ensures bufPos == old(bufPos) + sizes.kernel
    {
      Claim(t);
    }

    /** A kernel call: nothing else is buffered between its two parts. */
    method Call(t: Task, syncOk: bool, evt: real, time: nat)
      requires Valid() && InBounds() && t.kind.Kernel? && Next(t) && strtEvt < evt && lastTime <= time
      requires bufPos + sizes.kernel > bufSize ==> evt <= t.strt
      modifies this
      ensures Valid() && (old(Ordered(trace)) ==> Ordered(trace))
      ensures old(StartsBeforeStops(trace)) && OneKernelStream(PlacesOf(old(buf))) ==> StartsBeforeStops(trace)
      ensures InBounds() <==> syncOk || old(bufPos) + sizes.kernel <= bufSize
    {
      Configure(syncOk, evt, time);
      Launch(t);
    }

    /** A copy buffered between the two parts of a kernel call may take the room made for the kernel.
        With p bytes in use after the first part has made room, and p' when the copy has, the kernel
        stays inside iff both fit behind p'. */
    method CopyInBetween(copy: Task, kernel: Task, syncOk: bool, evt: real, time: nat,
                         syncOk': bool, evt': real, time': nat)
      requires Valid() && InBounds() && copy.kind.Memcpy? && kernel.kind.Kernel? && Next(copy) && Next(kernel)
      requires copy.stream == kernel.stream ==> copy.stop <= kernel.strt
      requires strtEvt < evt < evt' <= copy.strt && evt' <= kernel.strt && lastTime <= time <= time'
      modifies this
      ensures Valid() && (old(Ordered(trace)) ==> Ordered(trace))
      ensures old(StartsBeforeStops(trace)) && OneKernelStream(PlacesOf(old(buf))) ==> StartsBeforeStops(trace)
      ensures
        var p := if old(bufPos) + sizes.kernel > bufSize && syncOk then 0 else old(bufPos);
        var p' := if p + sizes.memcpy > bufSize && syncOk' then 0 else p;
        bufPos == p' + sizes.memcpy + sizes.kernel && (InBounds() <==> p' + sizes.memcpy + sizes.kernel <= bufSize)
    {
      Configure(syncOk, evt, time);
      AddMemcpy(copy, syncOk', evt', time');
      Launch(kernel);
    }

    lemma NothingBuffered()
      requires Valid() && bufPos == 0
      ensures buf == []
    {
    }
  }

  /** The first task of those left, and what is left behind it. */
  lemma ConvertOne(ts: seq<Task>, k: nat, anchors: map<nat, Anchor>, start: Anchor, w: Window, spans: seq<Span>)
    requires k < |ts| == |spans| && spans[k..] == Convert(ts[k..], anchors, start, w)
    ensures
      var span := Converted(ts[k], AnchorOf(anchors, start, ts[k].stream), w);
      && spans[k] == span
      && spans[k + 1..] == Convert(ts[k + 1..], anchors[ts[k].stream := Anchor(ts[k].stop, span.stop)], start, w)
  {
    assert ts[k..][1..] == ts[k + 1..];
    assert spans[k..][0] == spans[k] && spans[k..][1..] == spans[k + 1..];
  }

  lemma WriteOne(spans: seq<Span>, k: nat, serial: int, concurrent: bool, written: seq<Span>)
    requires k < |spans| == |written| && written[k..] == Written(spans[k..], serial, concurrent)
    ensures
      var s := spans[k];
      && written[k] == (if s.kind.Kernel? && s.strt < serial && !concurrent then s.(strt := serial) else s)
      && written[k + 1..] == Written(spans[k + 1..], if s.kind.Kernel? then s.stop else serial, concurrent)
  {
    assert spans[k..][1..] == spans[k + 1..];
    assert written[k..][0] == written[k] && written[k..][1..] == written[k + 1..];
  }

  /** The loop of the flush. */
  method WriteTasks(ts: seq<Task>, start: Anchor, w: Window, concurrentKernels: bool) returns (out: seq<Span>)
    ensures out == Written(Convert(ts, map[], start, w), 0, concurrentKernels)
  {
    hide Ticks, Convert, Written;
    var anchors: map<nat, Anchor> := map[];
    var serialKernelTime := 0;
    out := [];
    ghost var spans := Convert(ts, anchors, start, w);
    ghost var written := Written(spans, 0, concurrentKernels);
    assert ts[0..] == ts && spans[0..] == spans && written[0..] == written;
    for k := 0 to |ts|
      invariant spans[k..] == Convert(ts[k..], anchors, start, w)
      invariant written[k..] == Written(spans[k..], serialKernelTime, concurrentKernels)
      invariant out == written[..k]
    {
      ConvertOne(ts, k, anchors, start, w, spans);
      WriteOne(spans, k, serialKernelTime, concurrentKernels, written);
      var t := ts[k];
      var a := if t.stream in anchors then anchors[t.stream] else start;
      var strt := a.time + Ticks(t.strt - a.evt, w.factor);
      if strt < w.lastTime {
        strt := w.lastTime;
      }
      var stop := strt + Ticks(t.stop - t.strt, w.factor);
      if stop > w.stopTime {
        stop := w.stopTime;
        if strt > w.stopTime {
          strt := w.stopTime;
        }
      }
      assert spans[k] == Span(t.kind, t.stream, strt, stop);
      anchors := anchors[t.stream := Anchor(t.stop, stop)];
      if t.kind.Kernel? {
        if strt < serialKernelTime && !concurrentKernels {
          strt := serialKernelTime;
        }
        serialKernelTime := stop;
      }
      out := out + [Span(t.kind, t.stream, strt, stop)];
    }
  }

  lemma ConvertedFrom(ts: seq<Task>, start: Anchor, w: Window, p: int, i: nat, a: Anchor)
    requires InEventOrder(ts, map[], start) && -1 <= p < i < |ts| && (p >= 0 ==> ts[p].stream == ts[i].stream)
    requires forall k :: p < k < i ==> ts[k].stream != ts[i].stream
    requires a == if p >= 0 then Anchor(ts[p].stop, Convert(ts, map[], start, w)[p].stop) else start
    ensures Convert(ts, map[], start, w)[i] == Converted(ts[i], a, w)
    ensures a.evt <= ts[i].strt <= ts[i].stop
  {
    hide Convert, Converted;
    if p >= 0 {
      ConvertNext(ts, map[], start, w, p, i);
    } else {
      ConvertFirst(ts, map[], start, w, i);
    }
  }

  /** The length of a task and of the gap before it, as written. */
  lemma LengthInFlush(ts: seq<Task>, start: Anchor, w: Window, concurrent: bool, p: int, i: nat, a: Anchor,
                      toStart: real, toStop: real)
    requires InEventOrder(ts, map[], start) && w.lastTime <= w.stopTime && w.factor >= 0.0
    requires -1 <= p < i < |ts| && (p >= 0 ==> ts[p].stream == ts[i].stream)
    requires forall k :: p < k < i ==> ts[k].stream != ts[i].stream
    requires a == if p < 0 then start
                  else Anchor(ts[p].stop, Written(Convert(ts, map[], start, w), 0, concurrent)[p].stop)
    requires toStart == (ts[i].strt - a.evt) * w.factor && toStop == (ts[i].stop - ts[i].strt) * w.factor
    ensures
      var t, s := ts[i], Written(Convert(ts, map[], start, w), 0, concurrent)[i];
      && s.kind == t.kind && s.stream == t.stream
      && (s.stop < w.stopTime ==> (s.stop - s.strt) as real <= toStop)
      && (concurrent || t.kind.Memcpy? ==>
            && (s.stop < w.stopTime ==> toStop < (s.stop - s.strt) as real + 1.0)
            && (w.lastTime < s.strt < w.stopTime ==>
                  (s.strt - a.time) as real <= toStart < (s.strt - a.time) as real + 1.0))
  {
    hide Convert, Written, Converted;
    var ss := Convert(ts, map[], start, w);
    WrittenMovesStarts(ss, 0, concurrent, i);
    if p >= 0 {
      WrittenMovesStarts(ss, 0, concurrent, p);
    }
    ConvertedFrom(ts, start, w, p, i, a);
    hide InEventOrder;
    LengthInside(ts[i], a, w, ss[i], toStart, toStop);
    if concurrent || ts[i].kind.Memcpy? {
      WrittenAsConverted(ss, 0, concurrent, i);
    }
  }

  /** What one flush writes lies between the last synchronous call and the synchronization,
      in order on every stream. */
  lemma NewSpans(ts: seq<Task>, start: Anchor, w: Window, concurrent: bool)
    requires InEventOrder(ts, map[], start) && start.time <= w.lastTime <= w.stopTime
    requires w.factor >= 0.0 && 0 <= w.stopTime
    ensures
      var out := Written(Convert(ts, map[], start, w), 0, concurrent);
      Between(out, w.lastTime, w.stopTime) && Ordered(out)
  {
    hide Convert, Written, InEventOrder;
    var ss := Convert(ts, map[], start, w);
    var out := Written(ss, 0, concurrent);
    forall i | 0 <= i < |ts|
      ensures ss[i].stream == ts[i].stream && w.lastTime <= ss[i].strt <= ss[i].stop <= w.stopTime
    {
      ConvertAt(ts, map[], start, w, i);
    }
    forall i | 0 <= i < |ts|
      ensures out[i] == ss[i].(strt := out[i].strt) && ss[i].strt <= out[i].strt <= w.stopTime
    {
      WrittenMovesStarts(ss, 0, concurrent, i);
      WrittenBounded(ss, 0, concurrent, w.stopTime, i);
    }
    forall i, j | 0 <= i < j < |ts| && out[i].stream == out[j].stream ensures out[i].stop <= out[j].strt {
      ConvertPair(ts, map[], start, w, i, j);
    }
  }
}
