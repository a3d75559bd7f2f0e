/** Devices that run one kernel at a time: when the flush writes their kernels as starting before
    they stop. */
module CudaSerial {
  import opened CudaConversion

  /** No kernel stops before the kernel in front of it in the buffer. */
  predicate KernelsStopInOrder(ss: seq<Span>, serial: int)
    decreases |ss|
  {
    |ss| > 0 ==>
      if ss[0].kind.Memcpy? then KernelsStopInOrder(ss[1..], serial)
      else serial <= ss[0].stop && KernelsStopInOrder(ss[1..], ss[0].stop)
  }

  /** On a device without concurrent kernels every written task starts before it stops iff the
      kernels stop in buffer order. */
  lemma {:induction false} SerialKernels(ss: seq<Span>, serial: int)
    requires StartsBeforeStops(ss)
    ensures StartsBeforeStops(Written(ss, serial, false)) <==> KernelsStopInOrder(ss, serial)
    decreases |ss|
  {
    if |ss| > 0 {
      var next := if ss[0].kind.Memcpy? then serial else ss[0].stop;
      var out, rest := Written(ss, serial, false), Written(ss[1..], next, false);
      SerialKernels(ss[1..], next);
      assert out[1..] == rest;
      assert StartsBeforeStops(out) <==> out[0].strt <= out[0].stop && StartsBeforeStops(rest) by {
        assert forall i :: 0 <= i < |rest| ==> rest[i] == out[i + 1];
        assert forall i :: 0 < i < |out| ==> out[i] == rest[i - 1];
      }
    }
  }

  /** With concurrent kernels nothing is moved. */
  lemma {:induction false} ConcurrentKernels(ss: seq<Span>, serial: int)
    ensures Written(ss, serial, true) == ss
    decreases |ss|
  {
    if |ss| > 0 {
      ConcurrentKernels(ss[1..], if ss[0].kind.Memcpy? then serial else ss[0].stop);
    }
  }

  /** Kernels that follow each other stop in buffer order, whatever the copies in between do. */
  lemma {:induction false} FollowingKernels(ss: seq<Span>, serial: int)
    requires StartsBeforeStops(ss)
    requires forall i, j :: 0 <= i < j < |ss| && ss[i].kind.Kernel? && ss[j].kind.Kernel? ==> ss[i].stop <= ss[j].strt
    requires forall i :: 0 <= i < |ss| && ss[i].kind.Kernel? ==> serial <= ss[i].strt
    ensures KernelsStopInOrder(ss, serial)
    decreases |ss|
  {
    if |ss| > 0 {
      var rest := ss[1..];
      assert forall i :: 0 <= i < |rest| ==> rest[i] == ss[i + 1];
      FollowingKernels(rest, if ss[0].kind.Memcpy? then serial else ss[0].stop);
    }
  }

  /** In a buffer whose kernels stop in order any two of them do. */
  lemma {:induction false} AnyTwoKernels(ss: seq<Span>, serial: int, i: nat, j: nat)
    requires KernelsStopInOrder(ss, serial) && i < j < |ss| && ss[i].kind.Kernel? && ss[j].kind.Kernel?
    ensures serial <= ss[i].stop <= ss[j].stop
    decreases |ss|
  {
    var next := if ss[0].kind.Memcpy? then serial else ss[0].stop;
    if i > 0 {
      AnyTwoKernels(ss[1..], next, i - 1, j - 1);
    } else {
      OneKernel(ss[1..], next, j - 1);
    }
  }

  lemma {:induction false} OneKernel(ss: seq<Span>, serial: int, j: nat)
    requires KernelsStopInOrder(ss, serial) && j < |ss| && ss[j].kind.Kernel?
    ensures serial <= ss[j].stop
    decreases |ss|
  {
    if j > 0 {
      OneKernel(ss[1..], if ss[0].kind.Memcpy? then serial else ss[0].stop, j - 1);
    }
  }

  /** A copy and two kernels, one after the other, on a device that runs one kernel at a time. The
      copy's stream loses 0.9 ticks, so its kernel, the last task, is written as starting after it stopped. */
  lemma LostTicksGoWrong()
    ensures
      var ts := [Task(Memcpy, 1, 0.0, 0.9), Task(Kernel, 0, 1.0, 2.0), Task(Kernel, 1, 2.0, 2.5)];
      var start, w := Anchor(0.0, 0), Window(0, 10, 1.0);
      && InEventOrder(ts, map[], start)
      && Written(Convert(ts, map[], start, w), 0, false) ==
           [Span(Memcpy, 1, 0, 0), Span(Kernel, 0, 1, 2), Span(Kernel, 1, 2, 1)]
  {
    var ts := [Task(Memcpy, 1, 0.0, 0.9), Task(Kernel, 0, 1.0, 2.0), Task(Kernel, 1, 2.0, 2.5)];
    var start, w := Anchor(0.0, 0), Window(0, 10, 1.0);
    var ss := Convert(ts, map[], start, w);
    LostTicks(w);
    InTurn();
    hide Convert, Converted, Written, InEventOrder, Ticks;
    ConvertFirst(ts, map[], start, w, 0);
    ConvertFirst(ts, map[], start, w, 1);
    ConvertNext(ts, map[], start, w, 0, 2);
    assert ss == [Span(Memcpy, 1, 0, 0), Span(Kernel, 0, 1, 2), Span(Kernel, 1, 1, 1)];
    StartMovedBehindStop();
  }

  lemma LostTicks(w: Window)
    requires w == Window(0, 10, 1.0)
    ensures Converted(Task(Memcpy, 1, 0.0, 0.9), Anchor(0.0, 0), w) == Span(Memcpy, 1, 0, 0)
    ensures Converted(Task(Kernel, 0, 1.0, 2.0), Anchor(0.0, 0), w) == Span(Kernel, 0, 1, 2)
    ensures Converted(Task(Kernel, 1, 2.0, 2.5), Anchor(0.9, 0), w) == Span(Kernel, 1, 1, 1)
  {
    hide Ticks;
    TicksAre(0.0, 0);
    TicksAre(0.9, 0);
    TicksAre(1.0, 1);
    TicksAre(2.0 - 0.9, 1);
    TicksAre(2.5 - 2.0, 0);
  }

  lemma TicksAre(diff: real, n: int)
    requires n as real <= diff < n as real + 1.0
    ensures Ticks(diff, 1.0) == n
  {
  }

  lemma InTurn()
    ensures InEventOrder([Task(Memcpy, 1, 0.0, 0.9), Task(Kernel, 0, 1.0, 2.0), Task(Kernel, 1, 2.0, 2.5)],
              map[], Anchor(0.0, 0))
  {
  }

  lemma StartMovedBehindStop()
    ensures Written([Span(Memcpy, 1, 0, 0), Span(Kernel, 0, 1, 2), Span(Kernel, 1, 1, 1)], 0, false) ==
            [Span(Memcpy, 1, 0, 0), Span(Kernel, 0, 1, 2), Span(Kernel, 1, 2, 1)]
  {
    var ss := [Span(Memcpy, 1, 0, 0), Span(Kernel, 0, 1, 2), Span(Kernel, 1, 1, 1)];
    var out := [Span(Kernel, 1, 2, 1)];
    assert ss[1..] == [ss[1], ss[2]] && ss[1..][1..] == [ss[2]] && [ss[2]][1..] == [];
    assert Written([ss[2]], 2, false) == out;
    assert Written(ss[1..], 0, false) == [ss[1]] + out;
  }

  // ----- which buffers are safe -----

  /** A buffered task without its times. */
  datatype Place = Place(kind: Kind, stream: nat)

  /** All kernels run on the same stream; copies may run anywhere. */
  predicate OneKernelStream(places: seq<Place>) {
    forall i, j :: 0 <= i < j < |places| && places[i].kind.Kernel? && places[j].kind.Kernel? ==>
      places[i].stream == places[j].stream
  }

  function PlacesOf(ts: seq<Task>): (places: seq<Place>)
    ensures |places| == |ts|
    ensures forall i :: 0 <= i < |ts| ==> places[i] == Place(ts[i].kind, ts[i].stream)
  {
    seq(|ts|, i requires 0 <= i < |ts| => Place(ts[i].kind, ts[i].stream))
  }

  /** What a flush may find: tasks in order on their streams between the two synchronizations, and a
      window that fits these. */
  ghost predicate FlushInput(ts: seq<Task>, start: Anchor, evt: real, w: Window) {
    && InEventOrder(ts, map[], start)
    && start.evt < evt && (forall i :: 0 <= i < |ts| ==> ts[i].stop <= evt)
    && 0 <= start.time <= w.lastTime <= w.stopTime
    && w.factor == (w.stopTime - start.time) as real / (evt - start.evt)
  }

  /** The kernels ran one after the other in buffer order. */
  ghost predicate KernelsInTurn(ts: seq<Task>) {
    forall i, j :: 0 <= i < j < |ts| && ts[i].kind.Kernel? && ts[j].kind.Kernel? ==> ts[i].stop <= ts[j].strt
  }

  lemma FactorNonNegative(ticks: nat, ms: real)
    requires ms > 0.0
    ensures ticks as real / ms >= 0.0
  {
  }

  /** On a concurrent device, and whenever all kernels run on one stream, everything written starts
      before it stops. */
  lemma OneStreamIsSafe(ts: seq<Task>, start: Anchor, w: Window, concurrent: bool)
    requires InEventOrder(ts, map[], start) && 0 <= start.time <= w.lastTime <= w.stopTime && w.factor >= 0.0
    requires concurrent || OneKernelStream(PlacesOf(ts))
    ensures StartsBeforeStops(Written(Convert(ts, map[], start, w), 0, concurrent))
  {
    hide Convert, Written, InEventOrder, KernelsStopInOrder;
    var ss := Convert(ts, map[], start, w);
    forall i | 0 <= i < |ts| ensures 0 <= ss[i].strt <= ss[i].stop && ss[i].kind == ts[i].kind {
      ConvertAt(ts, map[], start, w, i);
    }
    if concurrent {
      ConcurrentKernels(ss, 0);
    } else {
      forall i, j | 0 <= i < j < |ss| && ss[i].kind.Kernel? && ss[j].kind.Kernel? ensures ss[i].stop <= ss[j].strt {
        assert PlacesOf(ts)[i].stream == PlacesOf(ts)[j].stream;
        ConvertPair(ts, map[], start, w, i, j);
      }
      FollowingKernels(ss, 0);
      SerialKernels(ss, 0);
    }
  }

  /** The first kernel a and the first kernel b on another stream. */
  lemma FirstSwitch(places: seq<Place>) returns (a: nat, b: nat)
    requires !OneKernelStream(places)
    ensures a < b < |places| && places[a].kind.Kernel? && places[b].kind.Kernel?
    ensures places[a].stream != places[b].stream
    ensures forall k :: 0 <= k < b && places[k].kind.Kernel? ==> k >= a && places[k].stream == places[a].stream
  {
    var i, j :| 0 <= i < j < |places| && places[i].kind.Kernel? && places[j].kind.Kernel? &&
      places[i].stream != places[j].stream;
    a := 0;
    while places[a].kind.Memcpy?
      invariant a <= i
      invariant forall k :: 0 <= k < a ==> places[k].kind.Memcpy?
      decreases i - a
    {
      a := a + 1;
    }
    b := a + 1;
    while b < |places| && (places[b].kind.Memcpy? || places[b].stream == places[a].stream)
      invariant a < b <= |places|
      invariant forall k :: a <= k < b && places[k].kind.Kernel? ==> places[k].stream == places[a].stream
    {
      b := b + 1;
    }
  }

  /** Event times with which the kernels a and b are written wrongly: what b's stream does before b
      ends between two ticks. */
  function BadTask(places: seq<Place>, a: nat, b: nat, k: nat): Task
    requires a < b < |places| && k < |places|
  {
    var Place(kind, stream) := places[k];
    if k == a then Task(kind, stream, 1.0, 2.0)
    else if k < b && stream == places[b].stream then Task(kind, stream, 0.9, 0.9)
    else if k < a then Task(kind, stream, 0.0, 0.0)
    else Task(kind, stream, 2.0, 2.0)
  }

  function BadTasks(places: seq<Place>, a: nat, b: nat): (ts: seq<Task>)
    requires a < b < |places|
    ensures |ts| == |places|
    ensures forall k :: 0 <= k < |places| ==> ts[k] == BadTask(places, a, b, k)
  {
    seq(|places|, k requires 0 <= k < |places| => BadTask(places, a, b, k))
  }

  /** The task before task i on its stream; -1 if it is the first. */
  lemma Before(ts: seq<Task>, i: nat) returns (p: int)
    requires i < |ts|
    ensures -1 <= p < i
    ensures p >= 0 ==> ts[p].stream == ts[i].stream
    ensures forall k :: p < k < i ==> ts[k].stream != ts[i].stream
  {
    p := i - 1;
    while p >= 0 && ts[p].stream != ts[i].stream
      invariant -1 <= p < i
      invariant forall k :: p < k < i ==> ts[k].stream != ts[i].stream
    {
      p := p - 1;
    }
  }

  /** Until b, its stream stays at time 0. */
  lemma {:induction false} StuckAtZero(places: seq<Place>, a: nat, b: nat, i: nat)
    requires a < b < |places| && places[a].stream != places[b].stream
    requires i < b && places[i].stream == places[b].stream
    ensures Convert(BadTasks(places, a, b), map[], Anchor(0.0, 0), Window(0, 10, 1.0))[i].stop == 0
  {
    hide Convert, Ticks;
    var ts, start, w := BadTasks(places, a, b), Anchor(0.0, 0), Window(0, 10, 1.0);
    TicksAre(0.0, 0);
    TicksAre(0.9, 0);
    var p := Before(ts, i);
    assert ts[i].strt == ts[i].stop == 0.9;
    if p >= 0 {
      ConvertNext(ts, map[], start, w, p, i);
      StuckAtZero(places, a, b, p);
    } else {
      ConvertFirst(ts, map[], start, w, i);
    }
  }

  /** b's stream has been busy before b: b is taken to stop at 1, a at 2 or later. */
  lemma LostTicksMisplace(places: seq<Place>, a: nat, b: nat, i: nat)
    requires a < b < |places| && places[a].stream != places[b].stream
    requires i < b && places[i].stream == places[b].stream
    ensures
      var ss := Convert(BadTasks(places, a, b), map[], Anchor(0.0, 0), Window(0, 10, 1.0));
      ss[b].stop < ss[a].stop
  {
    hide Convert, Ticks;
    var ts, start, w := BadTasks(places, a, b), Anchor(0.0, 0), Window(0, 10, 1.0);
    var ss := Convert(ts, map[], start, w);
    TicksAre(0.0, 0);
    TicksAre(1.0, 1);
    TicksAre(2.0 - 0.9, 1);
    var p := Before(ts, b);
    assert ts[i].stream == ts[b].stream;
    ConvertNext(ts, map[], start, w, p, b);
    StuckAtZero(places, a, b, p);
    assert ss[b].stop == 1;
    var q := Before(ts, a);
    if q >= 0 {
      ConvertNext(ts, map[], start, w, q, a);
      BadInOrder(places, a, b, 0);
      ConvertAt(ts, map[], start, w, q);
    } else {
      ConvertFirst(ts, map[], start, w, a);
    }
  }

  /** b is the first on its stream: the last synchronous call at 5 moves both, a by its length more. */
  lemma ClampMisplaces(places: seq<Place>, a: nat, b: nat)
    requires a < b < |places| && forall k :: 0 <= k < b ==> places[k].stream != places[b].stream
    ensures
      var ss := Convert(BadTasks(places, a, b), map[], Anchor(0.0, 0), Window(5, 10, 1.0));
      ss[b].stop < ss[a].stop
  {
    hide Convert, Ticks;
    var ts, start, w := BadTasks(places, a, b), Anchor(0.0, 0), Window(5, 10, 1.0);
    TicksAre(0.0, 0);
    TicksAre(1.0, 1);
    TicksAre(2.0, 2);
    ConvertFirst(ts, map[], start, w, b);
    var q := Before(ts, a);
    if q >= 0 {
      ConvertNext(ts, map[], start, w, q, a);
    } else {
      ConvertFirst(ts, map[], start, w, a);
    }
  }

  lemma BadInOrder(places: seq<Place>, a: nat, b: nat, lastTime: int)
    requires a < b < |places| && places[a].stream != places[b].stream && 0 <= lastTime <= 10
    ensures FlushInput(BadTasks(places, a, b), Anchor(0.0, 0), 10.0, Window(lastTime, 10, 1.0))
  {
  }

  /** Whether buffers with these places are written well whenever the tasks run; inTurn: when their
      kernels run one after the other, as on a device without concurrent kernels. */
  ghost predicate AlwaysWell(places: seq<Place>, concurrent: bool, inTurn: bool) {
    forall ts, start, evt, w ::
      FlushInput(ts, start, evt, w) && PlacesOf(ts) == places && (inTurn ==> KernelsInTurn(ts)) ==>
        StartsBeforeStops(Written(Convert(ts, map[], start, w), 0, concurrent))
  }

  /** A window in which b is taken to stop before a. */
  lemma Misplaced(places: seq<Place>, a: nat, b: nat) returns (w: Window)
    requires a < b < |places| && places[a].stream != places[b].stream
    ensures
      var ts, start := BadTasks(places, a, b), Anchor(0.0, 0);
      && FlushInput(ts, start, 10.0, w)
      && Convert(ts, map[], start, w)[b].stop < Convert(ts, map[], start, w)[a].stop
  {
    hide Convert, FlushInput;
    if forall k :: 0 <= k < b ==> places[k].stream != places[b].stream {
      w := Window(5, 10, 1.0);
      ClampMisplaces(places, a, b);
    } else {
      var i :| 0 <= i < b && places[i].stream == places[b].stream;
      w := Window(0, 10, 1.0);
      LostTicksMisplace(places, a, b, i);
    }
    BadInOrder(places, a, b, w.lastTime);
  }

  /** Two kernels taken to stop in the wrong order are written wrongly. */
  lemma WrongOrderIsWritten(ts: seq<Task>, start: Anchor, w: Window, a: nat, b: nat)
    requires InEventOrder(ts, map[], start) && start.time <= w.lastTime <= w.stopTime && w.factor >= 0.0
    requires a < b < |ts| && ts[a].kind.Kernel? && ts[b].kind.Kernel?
    requires Convert(ts, map[], start, w)[b].stop < Convert(ts, map[], start, w)[a].stop
    ensures !StartsBeforeStops(Written(Convert(ts, map[], start, w), 0, false))
  {
    hide Convert, Written, KernelsStopInOrder, InEventOrder;
    var ss := Convert(ts, map[], start, w);
    forall i | 0 <= i < |ss| ensures ss[i].kind == ts[i].kind && ss[i].strt <= ss[i].stop {
      ConvertAt(ts, map[], start, w, i);
    }
    if KernelsStopInOrder(ss, 0) {
      AnyTwoKernels(ss, 0, a, b);
    }
    SerialKernels(ss, 0);
  }

  lemma TwoStreamsGoWrong(places: seq<Place>, inTurn: bool)
    requires !OneKernelStream(places)
    ensures !AlwaysWell(places, false, inTurn)
  {
    var a, b := FirstSwitch(places);
    var ts, start := BadTasks(places, a, b), Anchor(0.0, 0);
    var w := Misplaced(places, a, b);
    assert PlacesOf(ts) == places && KernelsInTurn(ts);
    hide Convert, Written, InEventOrder, BadTasks, StartsBeforeStops;
    FactorNonNegative(w.stopTime, 10.0);
    WrongOrderIsWritten(ts, start, w, a, b);
  }

  /** A buffer is written with every start before its stop, whenever its tasks run, iff the device is
      concurrent or all kernels of the buffer use one stream. Kernels that run one after the other
      in buffer order make no difference. */
  lemma AlwaysWellIff(places: seq<Place>, concurrent: bool, inTurn: bool)
    ensures AlwaysWell(places, concurrent, inTurn) <==> concurrent || OneKernelStream(places)
  {
    if concurrent || OneKernelStream(places) {
      forall ts, start, evt, w | FlushInput(ts, start, evt, w) && PlacesOf(ts) == places
        ensures StartsBeforeStops(Written(Convert(ts, map[], start, w), 0, concurrent))
      {
        FactorNonNegative(w.stopTime - start.time, evt - start.evt);
        OneStreamIsSafe(ts, start, w, concurrent);
      }
    } else {
      TwoStreamsGoWrong(places, inTurn);
    }
  }
}
