/** Call limits on values: the countdown of every region, and a call stack that remembers with
    each region the countdown its enter saw. */
module CallLimits {

  datatype Entry = Entry(rid: nat, climit: int)

  datatype State = State(countdown: map<nat, int>, stack: seq<Entry>)

  datatype Op = Push(rid: nat, decr: bool) | Pop

  /** The limit a filter file or default limit of `limit` is stored as. */
  function Stored(limit: int): int {
    if limit == -1 || limit == 0 then limit else limit + 1
  }

  predicate CanStep(s: State, op: Op) {
    match op
    case Push(rid, _) => rid in s.countdown
    case Pop => |s.stack| > 0
  }

  function Step(s: State, op: Op): State
    requires CanStep(s, op)
  {
    match op
    case Push(rid, decr) =>
      var c := s.countdown[rid];
      var c' := if decr && c > 0 then c - 1 else c;
      State(s.countdown[rid := c'], s.stack + [Entry(rid, c')])
    case Pop => s.(stack := s.stack[..|s.stack| - 1])
  }

  predicate CanRun(s: State, ops: seq<Op>)
    decreases |ops|
  {
    |ops| > 0 ==> CanStep(s, ops[0]) && CanRun(Step(s, ops[0]), ops[1..])
  }

  function Run(s: State, ops: seq<Op>): State
    requires CanRun(s, ops)
    decreases |ops|
  {
    if |ops| == 0 then s else Run(Step(s, ops[0]), ops[1..])
  }

  // ----- the countdown -----

  /** The counted pushes of a region. */
  function Pushes(ops: seq<Op>, rid: nat): nat {
    if |ops| == 0 then 0 else (if ops[0] == Push(rid, true) then 1 else 0) + Pushes(ops[1..], rid)
  }

  /** What n counted pushes leave of a countdown; a negative one is no limit. */
  function Left(c: int, n: nat): int {
    if c < 0 then c else if c <= n then 0 else c - n
  }

  /** In any interleaving the countdown of a region depends on its own pushes alone. */
  lemma {:induction false} CountdownIsOwnPushes(s: State, ops: seq<Op>, rid: nat)
    requires CanRun(s, ops) && rid in s.countdown
    ensures rid in Run(s, ops).countdown
    ensures Run(s, ops).countdown[rid] == Left(s.countdown[rid], Pushes(ops, rid))
    decreases |ops|
  {
    if |ops| > 0 {
      CountdownIsOwnPushes(Step(s, ops[0]), ops[1..], rid);
    }
  }

  /** For a region with limit L of the filter file, a counted push carries a non-zero limit iff
      there is no limit (L negative), or it is one of the first L. */
  lemma FirstPushesAreRecorded(s: State, ops: seq<Op>, rid: nat, limit: int)
    requires CanRun(s, ops) && rid in s.countdown && s.countdown[rid] == Stored(limit)
    ensures
      var before := Run(s, ops);
      && CanStep(before, Push(rid, true))
      && var after := Step(before, Push(rid, true));
         (after.stack[|after.stack| - 1].climit != 0 <==> limit < 0 || Pushes(ops, rid) < limit)
  {
    CountdownIsOwnPushes(s, ops, rid);
  }

  // ----- the stack -----

  /** The height after ops that start at height h and never take away what lies below; None if they do. */
  function Height(h: nat, ops: seq<Op>): int
    decreases |ops|
  {
    if |ops| == 0 then h
    else if ops[0].Push? then Height(h + 1, ops[1..])
    else if h == 0 then -1
    else Height(h - 1, ops[1..])
  }

  lemma {:induction false} BelowIsKept(s: State, ops: seq<Op>, h: nat)
    requires h <= |s.stack| && Height(h, ops) >= 0
    requires forall i :: 0 <= i < |ops| && ops[i].Push? ==> ops[i].rid in s.countdown
    ensures CanRun(s, ops)
    ensures |Run(s, ops).stack| == |s.stack| - h + Height(h, ops)
    ensures Run(s, ops).stack[..|s.stack| - h] == s.stack[..|s.stack| - h]
    decreases |ops|
  {
    if |ops| > 0 {
      var s' := Step(s, ops[0]);
      assert forall i :: 0 <= i < |ops[1..]| ==> ops[1..][i] == ops[i + 1];
      if ops[0].Push? {
        BelowIsKept(s', ops[1..], h + 1);
        assert s'.stack[..|s.stack| - h] == s.stack[..|s.stack| - h];
      } else {
        BelowIsKept(s', ops[1..], h - 1);
      }
    }
  }

  /** A pop returns the entry of its matching push, whatever balanced calls ran in between and
      whatever they did to the countdown. */
  lemma PopReturnsItsPush(s: State, rid: nat, decr: bool, calls: seq<Op>)
    requires rid in s.countdown && Height(0, calls) == 0
    requires forall i :: 0 <= i < |calls| && calls[i].Push? ==> calls[i].rid in s.countdown
    ensures
      var pushed := Step(s, Push(rid, decr));
      && CanRun(pushed, calls)
      && Run(pushed, calls).stack == pushed.stack
  {
    var pushed := Step(s, Push(rid, decr));
    BelowIsKept(pushed, calls, 0);
    var after := Run(pushed, calls);
    assert after.stack[..|pushed.stack|] == after.stack;
    assert pushed.stack[..|pushed.stack|] == pushed.stack;
  }

  // ----- the recorded trace -----

  datatype Event = Enter(rid: nat) | Leave(rid: nat)

  /** What is written while tracing is on: enters and leaves whose entry has a non-zero limit. */
  function Recorded(s: State, ops: seq<Op>): seq<Event>
    requires CanRun(s, ops)
    decreases |ops|
  {
    if |ops| == 0 then []
    else
      var s' := Step(s, ops[0]);
      var e := if ops[0].Push? then s'.stack[|s'.stack| - 1] else s.stack[|s.stack| - 1];
      (if e.climit == 0 then [] else if ops[0].Push? then [Enter(e.rid)] else [Leave(e.rid)])
      + Recorded(s', ops[1..])
  }

  /** The regions on the stack whose enter was recorded. */
  function Open(stack: seq<Entry>): seq<nat> {
    if |stack| == 0 then []
    else
      var e := stack[|stack| - 1];
      Open(stack[..|stack| - 1]) + (if e.climit == 0 then [] else [e.rid])
  }

  lemma OpenTop(stack: seq<Entry>, e: Entry)
    ensures Open([]) == []
    ensures Open(stack + [e]) == if e.climit == 0 then Open(stack) else Open(stack) + [e.rid]
  {
    assert (stack + [e])[..|stack|] == stack;
    assert Open(stack) + [] == Open(stack);
  }

  /** How often a region is entered in a trace. */
  function Enters(es: seq<Event>, rid: nat): nat {
    if |es| == 0 then 0 else (if es[0] == Enter(rid) then 1 else 0) + Enters(es[1..], rid)
  }

  lemma EntersFirst(e: Event, es: seq<Event>, rid: nat)
    ensures Enters([e] + es, rid) == Enters(es, rid) + if e == Enter(rid) then 1 else 0
    ensures Enters([] + es, rid) == Enters(es, rid)
  {
    assert ([e] + es)[1..] == es && [] + es == es;
  }

  /** With a countdown of c all counted pushes but the one that takes it to 0 and those behind it are
      recorded. */
  lemma {:induction false} EntersAreCounted(s: State, ops: seq<Op>, rid: nat)
    requires CanRun(s, ops) && rid in s.countdown
    requires forall i :: 0 <= i < |ops| && ops[i].Push? && ops[i].rid == rid ==> ops[i].decr
    ensures
      var c, n := s.countdown[rid], Pushes(ops, rid);
      Enters(Recorded(s, ops), rid) == if c < 0 then n else if c == 0 then 0 else if n < c then n else c - 1
    decreases |ops|
  {
    if |ops| > 0 {
      var s' := Step(s, ops[0]);
      assert forall i :: 0 <= i < |ops| - 1 ==> ops[1..][i] == ops[i + 1];
      EntersAreCounted(s', ops[1..], rid);
      var e := if ops[0].Push? then s'.stack[|s'.stack| - 1] else s.stack[|s.stack| - 1];
      EntersFirst(if ops[0].Push? then Enter(e.rid) else Leave(e.rid), Recorded(s', ops[1..]), rid);
    }
  }

  /** While tracing is on a region with limit L of the filter file is entered in the trace exactly as often
      as it is called, but no more than L times; without limit every time. */
  lemma RecordedUpToTheLimit(s: State, ops: seq<Op>, rid: nat, limit: int)
    requires CanRun(s, ops) && rid in s.countdown && s.countdown[rid] == Stored(limit)
    requires forall i :: 0 <= i < |ops| && ops[i].Push? && ops[i].rid == rid ==> ops[i].decr
    ensures Enters(Recorded(s, ops), rid) ==
            if limit < 0 || Pushes(ops, rid) <= limit then Pushes(ops, rid) else limit
  {
    EntersAreCounted(s, ops, rid);
  }

  datatype Nesting = Nested(open: seq<nat>) | Broken

  /** Reads a trace; it breaks at a leave that is not the innermost open region's. */
  function Read(open: seq<nat>, es: seq<Event>): Nesting
    decreases |es|
  {
    if |es| == 0 then Nested(open)
    else match es[0]
      case Enter(rid) => Read(open + [rid], es[1..])
      case Leave(rid) =>
        if |open| > 0 && open[|open| - 1] == rid then Read(open[..|open| - 1], es[1..]) else Broken
  }

  /** The recorded trace reads as well nested, and leaves open exactly the recorded regions
      still on the stack. */
  lemma {:induction false} RecordedIsNested(s: State, ops: seq<Op>)
    requires CanRun(s, ops)
    ensures Read(Open(s.stack), Recorded(s, ops)) == Nested(Open(Run(s, ops).stack))
    decreases |ops|
  {
    if |ops| > 0 {
      var s' := Step(s, ops[0]);
      RecordedIsNested(s', ops[1..]);
      ReadFirst(s, ops[0], Recorded(s', ops[1..]));
    }
  }

  lemma ReadFirst(s: State, op: Op, rest: seq<Event>)
    requires CanStep(s, op)
    ensures
      var s' := Step(s, op);
      var e := if op.Push? then s'.stack[|s'.stack| - 1] else s.stack[|s.stack| - 1];
      var first := if e.climit == 0 then [] else if op.Push? then [Enter(e.rid)] else [Leave(e.rid)];
      Read(Open(s.stack), first + rest) == Read(Open(s'.stack), rest)
  {
    var s' := Step(s, op);
    assert [] + rest == rest;
    if op.Push? {
      var e := s'.stack[|s'.stack| - 1];
      assert s'.stack[..|s'.stack| - 1] == s.stack;
      assert ([Enter(e.rid)] + rest)[1..] == rest;
      assert Open(s.stack) + [] == Open(s.stack);
    } else {
      var e := s.stack[|s.stack| - 1];
      var open := Open(s'.stack);
      assert ([Leave(e.rid)] + rest)[1..] == rest;
      assert (open + [e.rid])[..|open|] == open && open + [] == open;
    }
  }
  // ----- tracing switched off and on -----

  /** While tracing is off nothing is recorded and no push is counted. The region entered for switching
      off belongs to the traced stretch before, and leaving it to the one behind. */
  datatype Stretch = Traced(ops: seq<Op>) | Silent(ops: seq<Op>)

  predicate CanRunAll(s: State, run: seq<Stretch>)
    decreases |run|
  {
    |run| > 0 ==>
      && CanRun(s, run[0].ops)
      && (run[0].Silent? ==> forall i :: 0 <= i < |run[0].ops| ==> run[0].ops[i].Pop? || !run[0].ops[i].decr)
      && CanRunAll(Run(s, run[0].ops), run[1..])
  }

  function RunAll(s: State, run: seq<Stretch>): State
    requires CanRunAll(s, run)
    decreases |run|
  {
    if |run| == 0 then s else RunAll(Run(s, run[0].ops), run[1..])
  }

  function RecordedAll(s: State, run: seq<Stretch>): seq<Event>
    requires CanRunAll(s, run)
    decreases |run|
  {
    if |run| == 0 then []
    else (if run[0].Traced? then Recorded(s, run[0].ops) else []) + RecordedAll(Run(s, run[0].ops), run[1..])
  }

  /** Every region entered while tracing is off is left while it is off, and no other. */
  predicate Balanced(run: seq<Stretch>) {
    forall i :: 0 <= i < |run| && run[i].Silent? ==> Height(0, run[i].ops) == 0
  }

  lemma {:induction false} RegionsStay(s: State, ops: seq<Op>)
    requires CanRun(s, ops) && forall i :: 0 <= i < |ops| ==> ops[i].Pop? || !ops[i].decr
    ensures Run(s, ops).countdown == s.countdown
    ensures forall i :: 0 <= i < |ops| && ops[i].Push? ==> ops[i].rid in s.countdown
    decreases |ops|
  {
    if |ops| > 0 {
      var s' := Step(s, ops[0]);
      assert s'.countdown == s.countdown;
      assert forall i :: 0 <= i < |ops| - 1 ==> ops[1..][i] == ops[i + 1];
      RegionsStay(s', ops[1..]);
    }
  }

  /** A balanced silent stretch leaves no trace, neither in the countdowns nor on the stack. */
  lemma SilentKeeps(s: State, ops: seq<Op>)
    requires CanRun(s, ops) && Height(0, ops) == 0
    requires forall i :: 0 <= i < |ops| ==> ops[i].Pop? || !ops[i].decr
    ensures Run(s, ops) == s
  {
    RegionsStay(s, ops);
    BelowIsKept(s, ops, 0);
    assert Run(s, ops).stack[..|s.stack|] == Run(s, ops).stack && s.stack[..|s.stack|] == s.stack;
  }

  lemma {:induction false} ReadOn(open: seq<nat>, es: seq<Event>, more: seq<Event>)
    requires Read(open, es).Nested?
    ensures Read(open, es + more) == Read(Read(open, es).open, more)
    decreases |es|
  {
    if |es| == 0 {
      assert es + more == more;
    } else {
      assert (es + more)[1..] == es[1..] + more;
      match es[0]
      case Enter(rid) => ReadOn(open + [rid], es[1..], more);
      case Leave(rid) => ReadOn(open[..|open| - 1], es[1..], more);
    }
  }

  /** However often tracing is switched off and on, the recorded trace nests, if every stretch without
      tracing is balanced. */
  lemma {:induction false} RecordedIsNestedWhenSwitched(s: State, run: seq<Stretch>)
    requires CanRunAll(s, run) && Balanced(run)
    ensures Read(Open(s.stack), RecordedAll(s, run)) == Nested(Open(RunAll(s, run).stack))
    decreases |run|
  {
    if |run| > 0 {
      var ops, s' := run[0].ops, Run(s, run[0].ops);
      assert forall i :: 0 <= i < |run| - 1 ==> run[1..][i] == run[i + 1];
      RecordedIsNestedWhenSwitched(s', run[1..]);
      if run[0].Traced? {
        RecordedIsNested(s, ops);
        ReadOn(Open(s.stack), Recorded(s, ops), RecordedAll(s', run[1..]));
      } else {
        SilentKeeps(s, ops);
        assert [] + RecordedAll(s', run[1..]) == RecordedAll(s', run[1..]);
      }
    }
  }

  lemma RunMore(s: State, op: Op, ops: seq<Op>)
    requires CanStep(s, op) && CanRun(Step(s, op), ops)
    ensures CanRun(s, [op] + ops) && Run(s, [op] + ops) == Run(Step(s, op), ops)
  {
    assert ([op] + ops)[1..] == ops;
  }

  lemma LeaveOnly(s: State)
    requires |s.stack| == 1 && s.stack[0].climit != 0
    ensures CanRunAll(s, [Traced([Pop])]) && RecordedAll(s, [Traced([Pop])]) == [Leave(s.stack[0].rid)]
  {
    assert [Pop][1..] == [] && [Traced([Pop])][1..] == [];
    assert Recorded(s, [Pop]) == [Leave(s.stack[0].rid)] + [];
  }

  /** That vt_trace_on finds the call stack as high as vt_trace_off left it is not enough: with region r
      left and region q entered while tracing is off, the trace does not nest. */
  lemma SameLevelIsNotEnough(r: nat, q: nat)
    requires r != q
    ensures
      var s := State(map[r := -1, q := -1], [Entry(r, -1)]);
      var run := [Silent([Pop] + ([Push(q, false)] + []))] + [Traced([Pop])];
      && CanRunAll(s, run) && |Run(s, run[0].ops).stack| == |s.stack|
      && Read(Open(s.stack), RecordedAll(s, run)) == Broken
  {
    var s := State(map[r := -1, q := -1], [Entry(r, -1)]);
    var silent, rest := [Pop] + ([Push(q, false)] + []), [Traced([Pop])];
    var run := [Silent(silent)] + rest;
    var popped := Step(s, Pop);
    RunMore(popped, Push(q, false), []);
    RunMore(s, Pop, [Push(q, false)] + []);
    var s' := Run(s, silent);
    assert s'.stack == [Entry(q, -1)];
    LeaveOnly(s');
    assert run[1..] == rest;
    assert RecordedAll(s, run) == RecordedAll(s', rest);
    assert s.stack[..0] == [] && Open(s.stack) == Open([]) + [r];
    assert Read([r], [Leave(q)]) == Broken;
  }
}
