/** Conversion of measured CUDA tasks to host time stamps (VTCUDAflush), and the sizes of the
    task buffer and the event pool. */
module CudaConversion {

  datatype Kind = Kernel | Memcpy

  /** A buffered task with the times, in milliseconds on the device, of its two events. */
  datatype Task = Task(kind: Kind, stream: nat, strt: real, stop: real)

  /** A task as written to the trace, in host ticks. */
  datatype Span = Span(kind: Kind, stream: nat, strt: int, stop: int)

  /** The anchor of a stream: an event and the host time it stands for. */
  datatype Anchor = Anchor(evt: real, time: int)

  /** The window of one flush: the last synchronous call, the flush's sync time, and the
      number of ticks per millisecond. */
  datatype Window = Window(lastTime: int, stopTime: int, factor: real)

  function AnchorOf(anchors: map<nat, Anchor>, start: Anchor, stream: nat): Anchor {
    if stream in anchors then anchors[stream] else start
  }

  /** (uint64_t)(diff * factorX). */
  function Ticks(diff: real, factor: real): int {
    (diff * factor).Floor
  }

  /** One task: relative to its stream's anchor, clamped to the window. */
  function Converted(t: Task, a: Anchor, w: Window): Span {
    var s := a.time + Ticks(t.strt - a.evt, w.factor);
    var strt := if s < w.lastTime then w.lastTime else s;
    var stop := strt + Ticks(t.stop - t.strt, w.factor);
    if stop > w.stopTime then Span(t.kind, t.stream, if strt > w.stopTime then w.stopTime else strt, w.stopTime)
    else Span(t.kind, t.stream, strt, stop)
  }

  /** All tasks in buffer order; each moves the anchor of its stream. */
  function Convert(ts: seq<Task>, anchors: map<nat, Anchor>, start: Anchor, w: Window): (spans: seq<Span>)
    ensures |spans| == |ts|
    decreases |ts|
  {
    if |ts| == 0 then []
    else
      var t := ts[0];
      var span := Converted(t, AnchorOf(anchors, start, t.stream), w);
      [span] + Convert(ts[1..], anchors[t.stream := Anchor(t.stop, span.stop)], start, w)
  }

  // ----- order on each stream -----

  /** Tasks of one stream run one after the other, and none before the event of its anchor. */
  ghost predicate InEventOrder(ts: seq<Task>, anchors: map<nat, Anchor>, start: Anchor) {
    && (forall i :: 0 <= i < |ts| ==> AnchorOf(anchors, start, ts[i].stream).evt <= ts[i].strt <= ts[i].stop)
    && (forall i, j :: 0 <= i < j < |ts| && ts[i].stream == ts[j].stream ==> ts[i].stop <= ts[j].strt)
  }

  lemma TicksNonNegative(diff: real, factor: real)
    requires diff >= 0.0 && factor >= 0.0
    ensures Ticks(diff, factor) >= 0
  {
    assert diff * factor >= 0.0;
  }

  lemma ConvertedInWindow(t: Task, a: Anchor, w: Window)
    requires a.evt <= t.strt <= t.stop && w.factor >= 0.0 && w.lastTime <= w.stopTime && a.time <= w.stopTime
    ensures
      var s := Converted(t, a, w);
      w.lastTime <= s.strt <= s.stop <= w.stopTime && a.time <= s.strt
  {
    TicksNonNegative(t.strt - a.evt, w.factor);
    TicksNonNegative(t.stop - t.strt, w.factor);
  }

  lemma TicksAreWhole(diff: real, factor: real)
    ensures Ticks(diff, factor) as real <= diff * factor < Ticks(diff, factor) as real + 1.0
  {
  }

  /** How long tasks take on the host. A start inside the window lies behind its anchor by the event gap
      times the factor, less a fraction of a tick, and a stop inside behind its start likewise, also when
      the start was moved to the last synchronous call. Only what lies outside is moved, to the end of
      the window that it passed. */
  lemma ConvertedLength(t: Task, a: Anchor, w: Window)
    requires w.lastTime <= w.stopTime && a.evt <= t.strt <= t.stop && w.factor >= 0.0
    ensures
      var s := Converted(t, a, w);
      var toStart, toStop := (t.strt - a.evt) * w.factor, (t.stop - t.strt) * w.factor;
      && s.kind == t.kind && s.stream == t.stream
      && (w.lastTime < s.strt < w.stopTime || w.lastTime as real <= a.time as real + toStart <= w.stopTime as real ==>
            (s.strt - a.time) as real <= toStart < (s.strt - a.time) as real + 1.0)
      && (a.time as real + toStart < w.lastTime as real ==> s.strt == w.lastTime)
      && (s.stop < w.stopTime ==> (s.stop - s.strt) as real <= toStop < (s.stop - s.strt) as real + 1.0)
      && (s.strt as real + toStop >= w.stopTime as real + 1.0 ==> s.stop == w.stopTime)
  {
    TicksNonNegative(t.stop - t.strt, w.factor);
    TicksAreWhole(t.strt - a.evt, w.factor);
    TicksAreWhole(t.stop - t.strt, w.factor);
    LengthOf(t, a, w, (t.strt - a.evt) * w.factor, (t.stop - t.strt) * w.factor);
  }

  lemma LengthOf(t: Task, a: Anchor, w: Window, toStart: real, toStop: real)
    requires w.lastTime <= w.stopTime && Ticks(t.stop - t.strt, w.factor) >= 0
    requires
      var n, m := Ticks(t.strt - a.evt, w.factor), Ticks(t.stop - t.strt, w.factor);
      n as real <= toStart < n as real + 1.0 && m as real <= toStop < m as real + 1.0
    ensures
      var s := Converted(t, a, w);
      && s.kind == t.kind && s.stream == t.stream
      && (w.lastTime < s.strt < w.stopTime || w.lastTime as real <= a.time as real + toStart <= w.stopTime as real ==>
            (s.strt - a.time) as real <= toStart < (s.strt - a.time) as real + 1.0)
      && (a.time as real + toStart < w.lastTime as real ==> s.strt == w.lastTime)
      && (s.stop < w.stopTime ==> (s.stop - s.strt) as real <= toStop < (s.stop - s.strt) as real + 1.0)
      && (s.strt as real + toStop >= w.stopTime as real + 1.0 ==> s.stop == w.stopTime)
  {
    hide Ticks;
  }

  /** The same for what lies inside the window. */
  lemma LengthInside(t: Task, a: Anchor, w: Window, s: Span, toStart: real, toStop: real)
    requires w.lastTime <= w.stopTime && a.evt <= t.strt <= t.stop && w.factor >= 0.0 && s == Converted(t, a, w)
    requires toStart == (t.strt - a.evt) * w.factor && toStop == (t.stop - t.strt) * w.factor
    ensures s.kind == t.kind && s.stream == t.stream
    ensures s.stop < w.stopTime ==> (s.stop - s.strt) as real <= toStop < (s.stop - s.strt) as real + 1.0
    ensures w.lastTime < s.strt < w.stopTime ==>
      (s.strt - a.time) as real <= toStart < (s.strt - a.time) as real + 1.0
  {
    ConvertedLength(t, a, w);
  }

  ghost predicate AnchorsBelow(anchors: map<nat, Anchor>, start: Anchor, stopTime: int) {
    start.time <= stopTime && forall s :: s in anchors ==> anchors[s].time <= stopTime
  }

  /** The factor of a flush takes the whole window to its sync time, without rounding. */
  lemma EndOfWindowIsExact(start: Anchor, evt: real, lastTime: int, stopTime: int, kind: Kind, stream: nat)
    requires start.evt < evt && start.time <= lastTime <= stopTime
    ensures
      var w := Window(lastTime, stopTime, (stopTime - start.time) as real / (evt - start.evt));
      Converted(Task(kind, stream, evt, evt), start, w) == Span(kind, stream, stopTime, stopTime)
  {
    var ms, ticks := evt - start.evt, (stopTime - start.time) as real;
    assert ms * (ticks / ms) == ticks;
    assert (evt - evt) * (ticks / ms) == 0.0;
  }

  lemma TailInOrder(ts: seq<Task>, anchors: map<nat, Anchor>, start: Anchor, w: Window)
    requires |ts| > 0 && InEventOrder(ts, anchors, start) && AnchorsBelow(anchors, start, w.stopTime)
    requires w.factor >= 0.0 && w.lastTime <= w.stopTime
    ensures
      var span := Converted(ts[0], AnchorOf(anchors, start, ts[0].stream), w);
      var anchors' := anchors[ts[0].stream := Anchor(ts[0].stop, span.stop)];
      InEventOrder(ts[1..], anchors', start) && AnchorsBelow(anchors', start, w.stopTime)
  {
    hide Converted;
    ConvertedInWindow(ts[0], AnchorOf(anchors, start, ts[0].stream), w);
    assert forall i :: 0 <= i < |ts[1..]| ==> ts[1..][i] == ts[i + 1];
  }

  /** A task lies in the window, starts before it stops, and not before its stream's anchor. */
  lemma {:induction false} ConvertAt(ts: seq<Task>, anchors: map<nat, Anchor>, start: Anchor, w: Window, i: nat)
    requires i < |ts| && InEventOrder(ts, anchors, start) && AnchorsBelow(anchors, start, w.stopTime)
    requires w.factor >= 0.0 && w.lastTime <= w.stopTime
    ensures
      var s := Convert(ts, anchors, start, w)[i];
      && s.kind == ts[i].kind && s.stream == ts[i].stream
      && w.lastTime <= s.strt <= s.stop <= w.stopTime
      && AnchorOf(anchors, start, ts[i].stream).time <= s.strt
    decreases |ts|
  {
    var a := AnchorOf(anchors, start, ts[0].stream);
    var span := Converted(ts[0], a, w);
    ConvertedInWindow(ts[0], a, w);
    if i > 0 {
      hide Converted, InEventOrder, AnchorsBelow;
      TailInOrder(ts, anchors, start, w);
      ConvertAt(ts[1..], anchors[ts[0].stream := Anchor(ts[0].stop, span.stop)], start, w, i - 1);
    }
  }

  /** A task starts after every earlier task of its stream has stopped. */
  lemma {:induction false} ConvertPair(ts: seq<Task>, anchors: map<nat, Anchor>, start: Anchor, w: Window,
                                          i: nat, j: nat)
    requires i < j < |ts| && ts[i].stream == ts[j].stream
    requires InEventOrder(ts, anchors, start) && AnchorsBelow(anchors, start, w.stopTime)
    requires w.factor >= 0.0 && w.lastTime <= w.stopTime
    ensures Convert(ts, anchors, start, w)[i].stop <= Convert(ts, anchors, start, w)[j].strt
    decreases |ts|
  {
    hide Converted, InEventOrder, AnchorsBelow;
    var span := Converted(ts[0], AnchorOf(anchors, start, ts[0].stream), w);
    var anchors' := anchors[ts[0].stream := Anchor(ts[0].stop, span.stop)];
    TailInOrder(ts, anchors, start, w);
    if i == 0 {
      ConvertAt(ts[1..], anchors', start, w, j - 1);
    } else {
      ConvertPair(ts[1..], anchors', start, w, i - 1, j - 1);
    }
  }

  /** The first task of a stream is converted relative to the start of the window. */
  lemma {:induction false} ConvertFirst(ts: seq<Task>, anchors: map<nat, Anchor>, start: Anchor, w: Window, i: nat)
    requires i < |ts| && forall k :: 0 <= k < i ==> ts[k].stream != ts[i].stream
    ensures Convert(ts, anchors, start, w)[i] == Converted(ts[i], AnchorOf(anchors, start, ts[i].stream), w)
    decreases |ts|
  {
    hide Converted;
    if i > 0 {
      var span := Converted(ts[0], AnchorOf(anchors, start, ts[0].stream), w);
      assert forall k :: 0 <= k < i - 1 ==> ts[1..][k] == ts[k + 1];
      ConvertFirst(ts[1..], anchors[ts[0].stream := Anchor(ts[0].stop, span.stop)], start, w, i - 1);
    }
  }

  /** Any other task is converted relative to the task before it on its stream. */
  lemma {:induction false} ConvertNext(ts: seq<Task>, anchors: map<nat, Anchor>, start: Anchor, w: Window,
                                       p: nat, i: nat)
    requires p < i < |ts| && ts[p].stream == ts[i].stream
    requires forall k :: p < k < i ==> ts[k].stream != ts[i].stream
    ensures
      var ss := Convert(ts, anchors, start, w);
      ss[i] == Converted(ts[i], Anchor(ts[p].stop, ss[p].stop), w)
    decreases |ts|
  {
    hide Converted;
    var span := Converted(ts[0], AnchorOf(anchors, start, ts[0].stream), w);
    var anchors' := anchors[ts[0].stream := Anchor(ts[0].stop, span.stop)];
    assert forall k :: 0 <= k < |ts| - 1 ==> ts[1..][k] == ts[k + 1];
    if p > 0 {
      ConvertNext(ts[1..], anchors', start, w, p - 1, i - 1);
    } else {
      ConvertFirst(ts[1..], anchors', start, w, i - 1);
    }
  }

  // ----- devices that run one kernel at a time -----

  /** What is written: without concurrent kernels a kernel does not start before the kernel
      written before it has stopped. */
  function Written(ss: seq<Span>, serial: int, concurrent: bool): (out: seq<Span>)
    ensures |out| == |ss|
    decreases |ss|
  {
    if |ss| == 0 then []
    else if ss[0].kind.Memcpy? then [ss[0]] + Written(ss[1..], serial, concurrent)
    else
      [if ss[0].strt < serial && !concurrent then ss[0].(strt := serial) else ss[0]]
      + Written(ss[1..], ss[0].stop, concurrent)
  }

  lemma {:induction false} WrittenMovesStarts(ss: seq<Span>, serial: int, concurrent: bool, i: nat)
    requires i < |ss|
    ensures
      var o := Written(ss, serial, concurrent)[i];
      o == ss[i].(strt := o.strt) && ss[i].strt <= o.strt
    decreases |ss|
  {
    if i > 0 {
      WrittenMovesStarts(ss[1..], if ss[0].kind.Memcpy? then serial else ss[0].stop, concurrent, i - 1);
    }
  }

  /** Copies, and all tasks of a concurrent device, are written as converted. */
  lemma {:induction false} WrittenAsConverted(ss: seq<Span>, serial: int, concurrent: bool, i: nat)
    requires i < |ss| && (concurrent || ss[i].kind.Memcpy?)
    ensures Written(ss, serial, concurrent)[i] == ss[i]
    decreases |ss|
  {
    if i > 0 {
      WrittenAsConverted(ss[1..], if ss[0].kind.Memcpy? then serial else ss[0].stop, concurrent, i - 1);
    }
  }

  /** On a device without concurrent kernels a kernel waits for the kernel before it in the buffer, and
      for no other. */
  lemma {:induction false} KernelWaits(ss: seq<Span>, serial: int, p: int, i: nat)
    requires -1 <= p < i < |ss| && ss[i].kind.Kernel? && (p >= 0 ==> ss[p].kind.Kernel?)
    requires forall k :: p < k < i ==> ss[k].kind.Memcpy?
    ensures
      var free := if p >= 0 then ss[p].stop else serial;
      Written(ss, serial, false)[i] == ss[i].(strt := if ss[i].strt < free then free else ss[i].strt)
    decreases |ss|
  {
    if i > 0 {
      assert forall k :: 0 <= k < |ss| - 1 ==> ss[1..][k] == ss[k + 1];
      var next := if ss[0].kind.Memcpy? then serial else ss[0].stop;
      KernelWaits(ss[1..], next, if p > 0 then p - 1 else -1, i - 1);
    }
  }

  lemma {:induction false} WrittenBounded(ss: seq<Span>, serial: int, concurrent: bool, bound: int, i: nat)
    requires i < |ss| && serial <= bound
    requires forall j :: 0 <= j < |ss| ==> ss[j].strt <= bound && ss[j].stop <= bound
    ensures Written(ss, serial, concurrent)[i].strt <= bound
    decreases |ss|
  {
    if i > 0 {
      WrittenBounded(ss[1..], if ss[0].kind.Memcpy? then serial else ss[0].stop, concurrent, bound, i - 1);
    }
  }

  ghost predicate StartsBeforeStops(ss: seq<Span>) {
    forall i :: 0 <= i < |ss| ==> ss[i].strt <= ss[i].stop
  }

  // ----- sizes -----

  /** Byte sizes of the two entry structures, and which of them are recorded. */
  datatype Sizes = Sizes(kernel: nat, memcpy: nat, kernels: bool, memcpys: bool) {
    predicate Valid() {
      0 < kernel <= memcpy && (kernels || memcpys)
    }

    function Of(kind: Kind): nat {
      if kind.Kernel? then kernel else memcpy
    }

    predicate Enabled(kind: Kind) {
      if kind.Kernel? then kernels else memcpys
    }

    /** minTaskSize of cudartwrap_init. */
    function MinTask(): nat {
      var m := kernel + memcpy;
      var m' := if kernels then kernel else m;
      if memcpys && memcpy < m' then memcpy else m'
    }
  }

  const DEF_ASYNC_BSIZE: nat := 8192

  /** The buffer size cudartwrap_init settles on for the size asked for. */
  function BufferSize(asked: nat, sizes: Sizes): nat {
    if asked < sizes.memcpy then DEF_ASYNC_BSIZE else asked
  }

  function EventPool(bufSize: nat, sizes: Sizes): nat
    requires sizes.Valid()
  {
    bufSize / sizes.MinTask()
  }

  /** The pool holds as many events as the smallest recorded entries fit the buffer, no more and no less. */
  lemma PoolIsExact(bufSize: nat, sizes: Sizes)
    requires sizes.Valid()
    ensures
      var least := if sizes.kernels then sizes.kernel else sizes.memcpy;
      && EventPool(bufSize, sizes) * least <= bufSize < (EventPool(bufSize, sizes) + 1) * least
      && (sizes.kernels ==> least <= sizes.kernel) && (sizes.memcpys ==> least <= sizes.memcpy)
  {
    var least := sizes.MinTask();
    DivisionBelow(bufSize, least);
    assert bufSize == bufSize / least * least + bufSize % least;
  }

  function BytesOf(ts: seq<Task>, sizes: Sizes): nat {
    if |ts| == 0 then 0 else sizes.Of(ts[0].kind) + BytesOf(ts[1..], sizes)
  }

  lemma {:induction false} BytesSnoc(ts: seq<Task>, t: Task, sizes: Sizes)
    ensures BytesOf(ts + [t], sizes) == BytesOf(ts, sizes) + sizes.Of(t.kind)
  {
    if |ts| == 0 {
      assert [t][1..] == [];
      assert ts + [t] == [t];
    } else {
      assert (ts + [t])[1..] == ts[1..] + [t];
      BytesSnoc(ts[1..], t, sizes);
    }
  }

  lemma {:induction false} BytesAtLeast(ts: seq<Task>, sizes: Sizes)
    requires sizes.Valid() && forall i :: 0 <= i < |ts| ==> sizes.Enabled(ts[i].kind)
    ensures |ts| * sizes.MinTask() <= BytesOf(ts, sizes)
  {
    if |ts| > 0 {
      BytesAtLeast(ts[1..], sizes);
    }
  }

  /** As long as the entries fit the buffer, their events fit the pool. */
  lemma PoolSuffices(ts: seq<Task>, sizes: Sizes, bufSize: nat)
    requires sizes.Valid() && forall i :: 0 <= i < |ts| ==> sizes.Enabled(ts[i].kind)
    requires BytesOf(ts, sizes) <= bufSize
    ensures |ts| <= EventPool(bufSize, sizes)
  {
    BytesAtLeast(ts, sizes);
    QuotientAtLeast(|ts|, sizes.MinTask(), bufSize);
  }

  lemma QuotientAtLeast(k: nat, m: nat, b: nat)
    requires m > 0 && k * m <= b
    ensures k <= b / m
  {
    DivisionBelow(b, m);
    Multiples(b / m + 1, k, m);
  }

  lemma DivisionBelow(b: nat, m: nat)
    requires m > 0
    ensures b < (b / m + 1) * m
  {
    assert b == b / m * m + b % m;
  }

  lemma Multiples(a: nat, b: nat, m: nat)
    ensures a <= b ==> a * m <= b * m
  {
    if a <= b {
      assert b * m == a * m + (b - a) * m;
    }
  }
}
