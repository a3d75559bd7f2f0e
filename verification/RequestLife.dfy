/** The life of MPI requests, on the list of tracked requests in table order. Deleting moves the
    last entry into the gap; what must not change is what each handle finds. */
module RequestLife {
  import opened Options

  datatype Flags = Flags(send: bool, recv: bool, io: bool, persistent: bool, deallocate: bool, active: bool)

  datatype Request = Request(request: nat, flags: Flags, tag: int, dest: int, bytes: int, dtype: nat, comm: nat,
                             matchingid: nat, handleid: nat, fileid: nat, fileop: nat)

  datatype Op =
    | Create(req: Request)
    | Start(h: nat)            // MPI_Start
    | Free(h: nat)             // MPI_Request_free
    | Complete(h: nat)         // vt_check_request after a wait or test
    | Finish(h: nat)           // MPI itself: the communication of a released request is over

  /** The first entry of a handle; |rs| if there is none. */
  function Find(rs: seq<Request>, h: nat): (k: nat)
    ensures k <= |rs|
    ensures k < |rs| ==> rs[k].request == h
    ensures forall j :: 0 <= j < k ==> rs[j].request != h
  {
    if |rs| == 0 || rs[0].request == h then 0 else 1 + Find(rs[1..], h)
  }

  function Lookup(rs: seq<Request>, h: nat): Option<Request> {
    if Find(rs, h) < |rs| then Some(rs[Find(rs, h)]) else None
  }

  /** vt_request_free: the last entry takes the place of entry k. */
  function Remove(rs: seq<Request>, k: nat): seq<Request>
    requires k < |rs|
  {
    rs[k := rs[|rs| - 1]][..|rs| - 1]
  }

  /** What an operation does to the entry it finds; None when it deletes it. */
  function Effect(r: Request, op: Op): Option<Request> {
    match op
    case Create(_) => Some(r)
    case Start(_) =>
      Some(if r.flags.persistent then r.(flags := r.flags.(active := true)) else r)
    case Free(_) =>
      if !r.flags.persistent then Some(r)
      else if r.flags.active then Some(r.(flags := r.flags.(deallocate := true)))
      else None
    case Complete(_) =>
      if r.flags.persistent && !r.flags.active then Some(r)
      else if r.flags.persistent && !r.flags.deallocate then Some(r.(flags := r.flags.(active := false)))
      else None
    case Finish(_) => Some(r)
  }

  /** The operation on the table. What MPI does by itself the table does not see. */
  function Step(rs: seq<Request>, op: Op): seq<Request> {
    if op.Create? then rs + [op.req]
    else if op.Finish? then rs
    else
      var k := Find(rs, op.h);
      if k == |rs| then rs
      else match Effect(rs[k], op)
        case Some(r) => rs[k := r]
        case None => Remove(rs, k)
  }

  function Run(rs: seq<Request>, ops: seq<Op>): seq<Request>
    decreases |ops|
  {
    if |ops| == 0 then rs else Run(Step(rs, ops[0]), ops[1..])
  }

  /** Handle h has at most one entry. */
  ghost predicate One(rs: seq<Request>, h: nat) {
    forall i, j :: 0 <= i < j < |rs| && rs[i].request == h ==> rs[j].request != h
  }

  // ----- one handle on its own -----

  /** The life of handle h, looking at nothing but the operations on h. */
  function LifeStep(l: Option<Request>, op: Op, h: nat): Option<Request> {
    if op.Create? then (if op.req.request == h then Some(op.req) else l)
    else if op.h != h || l.None? then l
    else Effect(l.value, op)
  }

  function Life(l: Option<Request>, ops: seq<Op>, h: nat): Option<Request>
    decreases |ops|
  {
    if |ops| == 0 then l else Life(LifeStep(l, ops[0], h), ops[1..], h)
  }

  /** The handle is taken only while its own history leaves it without an entry. */
  predicate TakenWhenFree(l: Option<Request>, ops: seq<Op>, h: nat)
    decreases |ops|
  {
    |ops| > 0 ==>
      && (ops[0].Create? && ops[0].req.request == h ==> l.None?)
      && TakenWhenFree(LifeStep(l, ops[0], h), ops[1..], h)
  }

  lemma LookupAt(rs: seq<Request>, k: nat, h: nat)
    requires One(rs, h) && k < |rs| && rs[k].request == h
    ensures Lookup(rs, h) == Some(rs[k])
  {
  }

  lemma LookupNone(rs: seq<Request>, h: nat)
    requires forall k :: 0 <= k < |rs| ==> rs[k].request != h
    ensures Lookup(rs, h) == None
  {
  }

  lemma AppendLookup(rs: seq<Request>, r: Request, h: nat)
    requires One(rs, h) && (r.request == h ==> Lookup(rs, h).None?)
    ensures One(rs + [r], h)
    ensures Lookup(rs + [r], h) == if r.request == h then Some(r) else Lookup(rs, h)
  {
    var rs' := rs + [r];
    var k := Find(rs, h);
    if r.request == h {
      LookupAt(rs', |rs|, h);
    } else if k < |rs| {
      LookupAt(rs', k, h);
    } else {
      LookupNone(rs', h);
    }
  }

  /** Changing an entry changes what its own handle finds, and nothing else. */
  lemma UpdateLookup(rs: seq<Request>, k: nat, r: Request, h: nat)
    requires One(rs, h) && k < |rs| && r.request == rs[k].request
    ensures One(rs[k := r], h)
    ensures Lookup(rs[k := r], h) == if r.request == h then Some(r) else Lookup(rs, h)
  {
    var i := Find(rs, h);
    if i < |rs| {
      LookupAt(rs[k := r], i, h);
    } else {
      LookupNone(rs[k := r], h);
    }
  }

  /** Swap-with-last deletes one handle and loses no other, whether or not these are unique. */
  lemma RemoveLookup(rs: seq<Request>, k: nat, h: nat)
    requires One(rs, h) && k < |rs|
    ensures One(Remove(rs, k), h)
    ensures Lookup(Remove(rs, k), h) == if rs[k].request == h then None else Lookup(rs, h)
  {
    var rs', n := Remove(rs, k), |rs| - 1;
    var i := Find(rs, h);
    if i == |rs| || i == k {
      LookupNone(rs', h);
    } else {
      LookupAt(rs', if i == n then k else i, h);
    }
  }

  lemma StepLookup(rs: seq<Request>, op: Op, h: nat)
    requires One(rs, h) && (op.Create? && op.req.request == h ==> Lookup(rs, h).None?)
    ensures One(Step(rs, op), h)
    ensures Lookup(Step(rs, op), h) == LifeStep(Lookup(rs, h), op, h)
  {
    if op.Create? {
      AppendLookup(rs, op.req, h);
    } else {
      var k := Find(rs, op.h);
      if k < |rs| {
        match Effect(rs[k], op)
        case Some(r) => UpdateLookup(rs, k, r, h);
        case None => RemoveLookup(rs, k, h);
      }
    }
  }

  /** Over all runs the table gives for a handle exactly what the history of that handle alone gives,
      and never a second entry, if only this handle is taken while free: whatever is done to the
      others, also when some of these have several entries. */
  lemma {:induction false} TableIsLives(rs: seq<Request>, ops: seq<Op>, h: nat)
    requires One(rs, h) && TakenWhenFree(Lookup(rs, h), ops, h)
    ensures One(Run(rs, ops), h)
    ensures Lookup(Run(rs, ops), h) == Life(Lookup(rs, h), ops, h)
    decreases |ops|
  {
    if |ops| > 0 {
      StepLookup(rs, ops[0], h);
      TableIsLives(Step(rs, ops[0]), ops[1..], h);
    }
  }

  // ----- what the operations do to an entry -----

  /** Started, released and completed, case by case. */
  lemma EntryAfter(rs: seq<Request>, r: Request, h: nat)
    requires One(rs, h) && Lookup(rs, h) == Some(r)
    ensures Lookup(Step(rs, Start(h)), h) ==
            Some(if r.flags.persistent then r.(flags := r.flags.(active := true)) else r)
    ensures Lookup(Step(rs, Free(h)), h) ==
            if r.flags.persistent && !r.flags.active then None
            else Some(if r.flags.persistent then r.(flags := r.flags.(deallocate := true)) else r)
    ensures Lookup(Step(rs, Complete(h)), h) ==
            if r.flags.persistent && !r.flags.active then Some(r)
            else if r.flags.persistent && !r.flags.deallocate then Some(r.(flags := r.flags.(active := false)))
            else None
  {
    StepLookup(rs, Start(h), h);
    StepLookup(rs, Free(h), h);
    StepLookup(rs, Complete(h), h);
  }

  /** A handle without an entry is left alone. */
  lemma NothingToDo(rs: seq<Request>, h: nat)
    requires forall i :: 0 <= i < |rs| ==> rs[i].request != h
    ensures Step(rs, Start(h)) == Step(rs, Free(h)) == Step(rs, Complete(h)) == Step(rs, Finish(h)) == rs
  {
    LookupNone(rs, h);
  }

  /** Whatever happens to a request while its entry lives, the entry keeps what it was created with:
      only the flags active and deallocate change. */
  lemma {:induction false} EntryKeepsItsData(rs: seq<Request>, r: Request, ops: seq<Op>, h: nat)
    requires One(rs, h) && Lookup(rs, h) == Some(r)
    requires forall i :: 0 <= i < |ops| && ops[i].Create? ==> ops[i].req.request != h
    ensures
      match Lookup(Run(rs, ops), h)
      case None => true
      case Some(e) =>
        && e.request == r.request == h && e.tag == r.tag && e.dest == r.dest && e.bytes == r.bytes
        && e.dtype == r.dtype && e.comm == r.comm && e.matchingid == r.matchingid && e.handleid == r.handleid
        && e.fileid == r.fileid && e.fileop == r.fileop && e.flags.send == r.flags.send
        && e.flags.recv == r.flags.recv && e.flags.io == r.flags.io && e.flags.persistent == r.flags.persistent
    decreases |ops|
  {
    if |ops| > 0 {
      var rs' := Step(rs, ops[0]);
      StepLookup(rs, ops[0], h);
      hide One, Step, Lookup;
      match Lookup(rs', h)
      case Some(r') =>
        EntryKeepsItsData(rs', r', ops[1..], h);
      case None =>
        NeverBack(rs', ops[1..], h);
    }
  }

  lemma {:induction false} NeverBack(rs: seq<Request>, ops: seq<Op>, h: nat)
    requires One(rs, h) && Lookup(rs, h) == None
    requires forall i :: 0 <= i < |ops| && ops[i].Create? ==> ops[i].req.request != h
    ensures Lookup(Run(rs, ops), h) == None
    decreases |ops|
  {
    if |ops| > 0 {
      StepLookup(rs, ops[0], h);
      NeverBack(Step(rs, ops[0]), ops[1..], h);
    }
  }

  /** From the creation on: a run that takes the handle while it is free and does not take it again. */
  lemma CreatedDataStays(rs: seq<Request>, r: Request, ops: seq<Op>)
    requires forall i :: 0 <= i < |rs| ==> rs[i].request != r.request
    requires forall i :: 0 <= i < |ops| && ops[i].Create? ==> ops[i].req.request != r.request
    ensures
      match Lookup(Run(Step(rs, Create(r)), ops), r.request)
      case None => true
      case Some(e) =>
        exists active, marked :: e == r.(flags := r.flags.(active := active, deallocate := marked))
  {
    LookupNone(rs, r.request);
    StepLookup(rs, Create(r), r.request);
    hide One, Step, Lookup;
    EntryKeepsItsData(Step(rs, Create(r)), r, ops, r.request);
    match Lookup(Run(Step(rs, Create(r)), ops), r.request)
    case None =>
    case Some(e) =>
      assert e == r.(flags := r.flags.(active := e.flags.active, deallocate := e.flags.deallocate));
  }

  /** A new request is what its handle finds iff the handle has no entry yet (or the same one).
      Otherwise the old entry is found. */
  lemma CreateVisible(rs: seq<Request>, r: Request)
    ensures Lookup(Step(rs, Create(r)), r.request) == Some(r) <==>
            Lookup(rs, r.request).None? || Lookup(rs, r.request) == Some(r)
  {
    FindAppend(rs, r);
  }

  lemma {:induction false} FindAppend(rs: seq<Request>, r: Request)
    ensures Find(rs + [r], r.request) == Find(rs, r.request)
  {
    if |rs| > 0 {
      assert (rs + [r])[1..] == rs[1..] + [r];
      FindAppend(rs[1..], r);
    }
  }

  // ----- the life of a request in MPI -----

  /** The states of a request in sections 3.7 and 3.9 of MPI-2.2. Released: by MPI_Request_free before
      its communication was over. The user has no handle to it any more, and it goes away by itself. */
  datatype MpiState = Unused | Pending | Inactive | Active | Released

  function Handle(op: Op): nat {
    if op.Create? then op.req.request else op.h
  }

  function MpiStep(m: MpiState, op: Op): MpiState {
    match op
    case Create(r) => if r.flags.persistent then Inactive else Pending
    case Start(_) => if m == Inactive then Active else m
    case Free(_) => if m == Inactive then Unused else if m == Pending || m == Active then Released else m
    case Complete(_) => if m == Pending then Unused else if m == Active then Inactive else m
    case Finish(_) => if m == Released then Unused else m
  }

  /** What MPI allows: a handle is given out while not in use, for a request not yet started; an inactive
      request is started; a request the user holds is waited for or released; a released one finishes. */
  predicate Legal(m: MpiState, op: Op) {
    match op
    case Create(r) => m == Unused && !r.flags.active && !r.flags.deallocate
    case Start(_) => m == Inactive
    case Free(_) => m != Unused && m != Released
    case Complete(_) => m != Unused && m != Released
    case Finish(_) => m == Released
  }

  /** The state an entry stands for. */
  function StateOf(l: Option<Request>): MpiState {
    match l
    case None => Unused
    case Some(r) =>
      if !r.flags.persistent then Pending
      else if !r.flags.active then Inactive
      else if r.flags.deallocate then Released
      else Active
  }

  /** Inactive and non-persistent entries are never marked. */
  predicate Regular(l: Option<Request>) {
    l.Some? && (!l.value.flags.persistent || !l.value.flags.active) ==> !l.value.flags.deallocate
  }

  /** The operations the table cannot follow: releasing a pending request, and the end of the
      communication of a request released while active. */
  predicate Unseen(m: MpiState, op: Op) {
    (op.Free? && m == Pending) || op.Finish?
  }

  /** From agreement, entry and MPI still agree after a legal operation iff it is not one of these. */
  lemma EntryFollowsMpi(l: Option<Request>, op: Op, h: nat)
    requires Regular(l) && Handle(op) == h && Legal(StateOf(l), op)
    ensures Regular(LifeStep(l, op, h))
    ensures StateOf(LifeStep(l, op, h)) == MpiStep(StateOf(l), op) <==> !Unseen(StateOf(l), op)
  {
  }

  /** What an operation on any handle does to the state of request h. */
  function MpiNext(m: MpiState, op: Op, h: nat): MpiState {
    if Handle(op) == h then MpiStep(m, op) else m
  }

  function MpiLife(m: MpiState, ops: seq<Op>, h: nat): MpiState
    decreases |ops|
  {
    if |ops| == 0 then m else MpiLife(MpiNext(m, ops[0], h), ops[1..], h)
  }

  /** Every operation on h is legal when it happens. */
  predicate LegalRun(m: MpiState, ops: seq<Op>, h: nat)
    decreases |ops|
  {
    |ops| > 0 ==>
      && (Handle(ops[0]) == h ==> Legal(m, ops[0]))
      && LegalRun(MpiNext(m, ops[0], h), ops[1..], h)
  }

  /** Request h is never released while pending, and never released while active with its
      communication coming to an end. */
  predicate NothingUnseen(m: MpiState, ops: seq<Op>, h: nat)
    decreases |ops|
  {
    |ops| > 0 ==>
      && (Handle(ops[0]) == h ==> !Unseen(m, ops[0]))
      && NothingUnseen(MpiNext(m, ops[0], h), ops[1..], h)
  }

  /** Before the run and after each of its operations the lookup of h gives the state of its request. */
  predicate AlwaysAgree(rs: seq<Request>, m: MpiState, ops: seq<Op>, h: nat)
    decreases |ops|
  {
    && StateOf(Lookup(rs, h)) == m
    && (|ops| > 0 ==> AlwaysAgree(Step(rs, ops[0]), MpiNext(m, ops[0], h), ops[1..], h))
  }

  lemma StepAgrees(rs: seq<Request>, op: Op, h: nat)
    requires One(rs, h) && Regular(Lookup(rs, h)) && (Handle(op) == h ==> Legal(StateOf(Lookup(rs, h)), op))
    ensures One(Step(rs, op), h) && Regular(Lookup(Step(rs, op), h))
    ensures StateOf(Lookup(Step(rs, op), h)) == MpiNext(StateOf(Lookup(rs, h)), op, h) <==>
            !(Handle(op) == h && Unseen(StateOf(Lookup(rs, h)), op))
  {
    hide One, Step, Lookup;
    StepLookup(rs, op, h);
    if Handle(op) == h {
      EntryFollowsMpi(Lookup(rs, h), op, h);
    }
  }

  /** Over any run that is legal in MPI, entry and MPI state of h agree all the time iff h is never
      released while pending and never released while active with that communication ending. Nothing is
      asked of the other handles. */
  lemma {:induction false} AgreesIffNothingUnseen(rs: seq<Request>, ops: seq<Op>, h: nat)
    requires One(rs, h) && Regular(Lookup(rs, h)) && LegalRun(StateOf(Lookup(rs, h)), ops, h)
    ensures AlwaysAgree(rs, StateOf(Lookup(rs, h)), ops, h) <==> NothingUnseen(StateOf(Lookup(rs, h)), ops, h)
    decreases |ops|
  {
    hide One, Step, Lookup, Regular, Unseen;
    if |ops| > 0 {
      var op, m := ops[0], StateOf(Lookup(rs, h));
      StepAgrees(rs, op, h);
      if !(Handle(op) == h && Unseen(m, op)) {
        AgreesIffNothingUnseen(Step(rs, op), ops[1..], h);
      }
    }
  }

  lemma {:induction false} AgreesAtEnd(rs: seq<Request>, m: MpiState, ops: seq<Op>, h: nat)
    requires AlwaysAgree(rs, m, ops, h)
    ensures StateOf(Lookup(Run(rs, ops), h)) == MpiLife(m, ops, h)
    decreases |ops|
  {
    if |ops| > 0 {
      AgreesAtEnd(Step(rs, ops[0]), MpiNext(m, ops[0], h), ops[1..], h);
    }
  }

  /** So over all such runs a handle is in the table iff the request is in use in MPI, and the
      entry's flags are its state. */
  lemma TrackedIffInUse(ops: seq<Op>, h: nat)
    requires LegalRun(Unused, ops, h) && NothingUnseen(Unused, ops, h)
    ensures StateOf(Lookup(Run([], ops), h)) == MpiLife(Unused, ops, h)
    ensures Lookup(Run([], ops), h).Some? <==> MpiLife(Unused, ops, h) != Unused
  {
    assert Lookup([], h) == None;
    AgreesIffNothingUnseen([], ops, h);
    AgreesAtEnd([], Unused, ops, h);
  }

  /** No operation of the run releases h while its communication is not over. */
  predicate NeverReleasedInUse(m: MpiState, ops: seq<Op>, h: nat)
    decreases |ops|
  {
    |ops| > 0 ==>
      && (ops[0] == Free(h) ==> m != Pending && m != Active)
      && NeverReleasedInUse(MpiNext(m, ops[0], h), ops[1..], h)
  }

  lemma {:induction false} ReleasedFinishes(ops: seq<Op>, h: nat)
    requires LegalRun(Released, ops, h) && MpiLife(Released, ops, h) != Released
    ensures !NothingUnseen(Released, ops, h)
    decreases |ops|
  {
    if Handle(ops[0]) != h {
      ReleasedFinishes(ops[1..], h);
    }
  }

  /** When all communication of h is over at the end, as MPI_Finalize asks, that condition is one on the
      calls of the user alone: h is never released while in use. */
  lemma {:induction false} UnseenIffReleasedInUse(m: MpiState, ops: seq<Op>, h: nat)
    requires m != Released && LegalRun(m, ops, h) && MpiLife(m, ops, h) != Released
    ensures NothingUnseen(m, ops, h) <==> NeverReleasedInUse(m, ops, h)
    decreases |ops|
  {
    if |ops| > 0 {
      var m' := MpiNext(m, ops[0], h);
      if m' == Released {
        ReleasedFinishes(ops[1..], h);
      } else {
        UnseenIffReleasedInUse(m', ops[1..], h);
      }
    }
  }

  // ----- what is left behind -----

  lemma RunMore(rs: seq<Request>, op: Op, ops: seq<Op>)
    ensures Run(rs, [op] + ops) == Run(Step(rs, op), ops)
  {
    assert ([op] + ops)[1..] == ops;
  }

  lemma LegalMore(m: MpiState, op: Op, ops: seq<Op>, h: nat)
    requires Handle(op) == h && Legal(m, op) && LegalRun(MpiStep(m, op), ops, h)
    ensures LegalRun(m, [op] + ops, h)
  {
    assert ([op] + ops)[1..] == ops;
  }

  /** A non-persistent request keeps its entry when it is released while pending. When MPI hands out
      its handle again, the lookup finds the old entry. */
  lemma FreedReceiveStays(r: Request, s: Request)
    requires !r.flags.persistent && s.request == r.request && s != r
    requires Legal(Unused, Create(r)) && Legal(Unused, Create(s))
    ensures
      var h := r.request;
      var ops := [Create(r)] + ([Free(h)] + ([Finish(h)] + ([Create(s)] + [])));
      LegalRun(Unused, ops, h) && Lookup(Run([], ops), h) == Some(r)
  {
    var h := r.request;
    var stale := [Create(s)] + [];
    LegalMore(Unused, Create(s), [], h);
    LegalMore(Released, Finish(h), stale, h);
    LegalMore(Pending, Free(h), [Finish(h)] + stale, h);
    LegalMore(Unused, Create(r), [Free(h)] + ([Finish(h)] + stale), h);
    RunMore([], Create(r), [Free(h)] + ([Finish(h)] + stale));
    RunMore([r], Free(h), [Finish(h)] + stale);
    RunMore([r], Finish(h), stale);
    RunMore([r], Create(s), []);
    assert Step([], Create(r)) == [r] && Step([r], Free(h)) == [r] && Step([r], Create(s)) == [r, s];
  }

  /** A persistent request released while active keeps its marked entry too: only a wait or test could
      delete it, and a released request cannot be named in one. */
  lemma FreedActiveStays(r: Request, s: Request)
    requires r.flags.persistent && s.request == r.request
    requires Legal(Unused, Create(r)) && Legal(Unused, Create(s))
    ensures
      var h := r.request;
      var marked := r.(flags := r.flags.(active := true, deallocate := true));
      var ops := [Create(r)] + ([Start(h)] + ([Free(h)] + ([Finish(h)] + ([Create(s)] + []))));
      LegalRun(Unused, ops, h) && Lookup(Run([], ops), h) == Some(marked) && s != marked
  {
    var h := r.request;
    var started := r.(flags := r.flags.(active := true));
    var marked := r.(flags := r.flags.(active := true, deallocate := true));
    var reused := [Finish(h)] + ([Create(s)] + []);
    LegalMore(Unused, Create(s), [], h);
    LegalMore(Released, Finish(h), [Create(s)] + [], h);
    LegalMore(Active, Free(h), reused, h);
    LegalMore(Inactive, Start(h), [Free(h)] + reused, h);
    LegalMore(Unused, Create(r), [Start(h)] + ([Free(h)] + reused), h);
    RunMore([], Create(r), [Start(h)] + ([Free(h)] + reused));
    RunMore([r], Start(h), [Free(h)] + reused);
    RunMore([started], Free(h), reused);
    RunMore([marked], Finish(h), [Create(s)] + []);
    RunMore([marked], Create(s), []);
    assert Step([], Create(r)) == [r] && Step([r], Start(h)) == [started];
    assert Step([started], Free(h)) == [marked] && Step([marked], Create(s)) == [marked, s];
  }

  // ----- batches -----

  /** MPI_Waitall and MPI_Waitsome: every handle of the saved array is looked up afresh. */
  function CompleteAll(rs: seq<Request>, hs: seq<nat>): seq<Request>
    decreases |hs|
  {
    if |hs| == 0 then rs else CompleteAll(Step(rs, Complete(hs[0])), hs[1..])
  }

  lemma CompleteNothing(rs: seq<Request>)
    ensures CompleteAll(rs, []) == rs
  {
  }

  lemma {:induction false} CompleteAllSnoc(rs: seq<Request>, hs: seq<nat>, h: nat)
    ensures CompleteAll(rs, hs + [h]) == Step(CompleteAll(rs, hs), Complete(h))
    decreases |hs|
  {
    if |hs| == 0 {
      assert hs + [h] == [h];
      assert [h][1..] == [];
    } else {
      assert (hs + [h])[1..] == hs[1..] + [h];
      CompleteAllSnoc(Step(rs, Complete(hs[0])), hs[1..], h);
    }
  }

  /** Completing twice is completing once. */
  lemma CompleteIdempotent(l: Option<Request>, h: nat)
    ensures LifeStep(LifeStep(l, Complete(h), h), Complete(h), h) == LifeStep(l, Complete(h), h)
  {
  }

  /** A batch completes exactly the tracked handles it names, each once, and touches no other,
      although every deletion moves an entry. */
  lemma {:induction false} BatchCompletes(rs: seq<Request>, hs: seq<nat>, h: nat)
    requires One(rs, h)
    ensures One(CompleteAll(rs, hs), h)
    ensures Lookup(CompleteAll(rs, hs), h) ==
            if h in hs then LifeStep(Lookup(rs, h), Complete(h), h) else Lookup(rs, h)
    decreases |hs|
  {
    if |hs| > 0 {
      StepLookup(rs, Complete(hs[0]), h);
      BatchCompletes(Step(rs, Complete(hs[0])), hs[1..], h);
      CompleteIdempotent(Lookup(rs, h), h);
      assert h in hs <==> h == hs[0] || h in hs[1..];
    }
  }
}
