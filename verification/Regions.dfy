/** The regions of one thread (rfg_regions.c): a hash table of region infos with their call limits,
    and the call stack whose entries point to them. */
module Regions {
  import opened CallLimits

  const HASH_MAX: nat := 0x3fd

  class RegionInfo {
    const regionId: nat
    const regionName: string
    var callLimit: int
    var callLimitCD: int

    constructor (id: nat, name: string, limit: int)
      ensures regionId == id && regionName == name && callLimit == callLimitCD == limit
    {
      regionId, regionName, callLimit, callLimitCD := id, name, limit, limit;
    }
  }

  datatype StackEntry = StackEntry(rinf: RegionInfo, climitbypush: int)

  /** A filter rule: names that match the pattern get the limit. */
  datatype Assign = Assign(climit: int, pattern: string)

  /** The limit of a region: that of the first rule whose pattern matches its name, else the default. */
  function LimitOf(assigns: seq<Assign>, defaultCallLimit: int, fnmatch: (string, string) -> bool, name: string): int {
    if |assigns| == 0 then defaultCallLimit
    else if fnmatch(assigns[0].pattern, name) then assigns[0].climit
    else LimitOf(assigns[1..], defaultCallLimit, fnmatch, name)
  }

  predicate NoneMatches(assigns: seq<Assign>, fnmatch: (string, string) -> bool, name: string) {
    forall i :: 0 <= i < |assigns| ==> !fnmatch(assigns[i].pattern, name)
  }

  /** Rules that do not match are passed over. */
  lemma {:induction false} LimitBehind(before: seq<Assign>, assigns: seq<Assign>, defaultCallLimit: int,
                                       fnmatch: (string, string) -> bool, name: string)
    requires NoneMatches(before, fnmatch, name)
    ensures LimitOf(before + assigns, defaultCallLimit, fnmatch, name) ==
            LimitOf(assigns, defaultCallLimit, fnmatch, name)
  {
    if |before| == 0 {
      assert before + assigns == assigns;
    } else {
      assert (before + assigns)[1..] == before[1..] + assigns;
      LimitBehind(before[1..], assigns, defaultCallLimit, fnmatch, name);
    }
  }

  /** A region that no rule matches gets the default limit, one that some rule matches the limit of the
      first that does. */
  lemma LimitIsFirstMatchOrDefault(assigns: seq<Assign>, i: nat, defaultCallLimit: int,
                                   fnmatch: (string, string) -> bool, name: string)
    requires i <= |assigns| && forall j :: 0 <= j < i ==> !fnmatch(assigns[j].pattern, name)
    ensures i == |assigns| ==> LimitOf(assigns, defaultCallLimit, fnmatch, name) == defaultCallLimit
    ensures i < |assigns| && fnmatch(assigns[i].pattern, name) ==>
      LimitOf(assigns, defaultCallLimit, fnmatch, name) == assigns[i].climit
  {
    LimitBehind(assigns[..i], assigns[i..], defaultCallLimit, fnmatch, name);
    assert assigns[..i] + assigns[i..] == assigns;
  }

  /** A region is recorded as its first matching rule says: for a rule of limit L, exactly the first L
      counted pushes since the region was added carry a non-zero limit, all of them if L is negative. */
  lemma FirstRuleDecides(assigns: seq<Assign>, i: nat, limit: int, defaultCallLimit: int,
                         fnmatch: (string, string) -> bool, name: string, s: State, ops: seq<Op>, rid: nat)
    requires i < |assigns| && assigns[i].climit == Stored(limit)
    requires fnmatch(assigns[i].pattern, name) && NoneMatches(assigns[..i], fnmatch, name)
    requires CanRun(s, ops) && rid in s.countdown
    requires s.countdown[rid] == LimitOf(assigns, defaultCallLimit, fnmatch, name)
    ensures
      var before := Run(s, ops);
      && CanStep(before, Push(rid, true))
      && var after := Step(before, Push(rid, true));
         (after.stack[|after.stack| - 1].climit != 0 <==> limit < 0 || Pushes(ops, rid) < limit)
  {
    LimitBehind(assigns[..i], assigns[i..], defaultCallLimit, fnmatch, name);
    assert assigns[..i] + assigns[i..] == assigns;
    FirstPushesAreRecorded(s, ops, rid, limit);
  }

  class Regions {
    const htab: array<seq<RegionInfo>>
    const fnmatch: (string, string) -> bool
    var assigns: seq<Assign>
    var defaultCallLimit: int
    var stack: seq<StackEntry>
    ghost var infos: map<nat, RegionInfo>

    /** The chains hold each info once, in the chain of its id. */
    ghost predicate Indexed()
      reads `infos, htab
    {
      && htab.Length == HASH_MAX
      && (forall id :: id in infos ==> infos[id].regionId == id && infos[id] in htab[id % HASH_MAX])
      && (forall h, i :: 0 <= h < HASH_MAX && 0 <= i < |htab[h]| ==>
            var r := htab[h][i];
            r.regionId % HASH_MAX == h && r.regionId in infos && infos[r.regionId] == r)
      && (forall h, i, j :: 0 <= h < HASH_MAX && 0 <= i < j < |htab[h]| ==> htab[h][i] != htab[h][j])
    }

    ghost predicate Valid()
      reads this, htab
    {
      && Indexed()
      && forall i :: 0 <= i < |stack| ==>
          stack[i].rinf.regionId in infos && infos[stack[i].rinf.regionId] == stack[i].rinf
    }

    /** Countdowns and stack as values. */
    ghost function AsState(): State
      reads this, infos.Values
    {
      State(map id | id in infos :: infos[id].callLimitCD,
            seq(|stack|, i requires 0 <= i < |stack| reads this =>
              Entry(stack[i].rinf.regionId, stack[i].climitbypush)))
    }

    constructor (fnmatch: (string, string) -> bool)
      ensures Valid() && fresh(htab)
      ensures AsState() == State(map[], []) && defaultCallLimit == -1 && assigns == []
      ensures this.fnmatch == fnmatch
    {
      this.fnmatch := fnmatch;
      htab := new seq<RegionInfo>[HASH_MAX](_ => []);
      assigns, defaultCallLimit, stack, infos := [], -1, [], map[];
    }

    /** RFG_Filter_setDefaultCallLimit: refuses 0 and what is below -1. */
    method SetDefaultCallLimit(limit: int) returns (ok: bool)
      modifies `defaultCallLimit
      ensures ok <==> limit > 0 || limit == -1
      ensures defaultCallLimit == if ok then Stored(limit) else old(defaultCallLimit)
    {
      if limit == 0 || limit < -1 {
        return false;
      }
      defaultCallLimit := if limit == -1 then limit else limit + 1;
      ok := true;
    }

    /** RFG_Filter_add. */
    method AddAssign(pattern: string, climit: int)
      modifies `assigns
      ensures assigns == old(assigns) + [Assign(climit, pattern)]
    {
      assigns := assigns + [Assign(climit, pattern)];
    }

    /** RFG_Filter_get: the limit of the first rule that matches, else the default. */
    method FilterGet(rname: string) returns (climit: int)
      ensures climit == LimitOf(assigns, defaultCallLimit, fnmatch, rname)
      ensures (forall i :: 0 <= i < |assigns| ==> !fnmatch(assigns[i].pattern, rname)) ==> climit == defaultCallLimit
      ensures forall i ::
        && 0 <= i < |assigns| && fnmatch(assigns[i].pattern, rname)
        && (forall j :: 0 <= j < i ==> !fnmatch(assigns[j].pattern, rname))
        ==> climit == assigns[i].climit
    {
      assert assigns[0..] == assigns;
      for i := 0 to |assigns|
        invariant forall j :: 0 <= j < i ==> !fnmatch(assigns[j].pattern, rname)
        invariant LimitOf(assigns[i..], defaultCallLimit, fnmatch, rname) ==
                  LimitOf(assigns, defaultCallLimit, fnmatch, rname)
      {
        assert assigns[i..][1..] == assigns[i + 1..];
        if fnmatch(assigns[i].pattern, rname) {
          return assigns[i].climit;
        }
      }
      climit := defaultCallLimit;
    }

    /** hash_get. */
    method Get(rid: nat) returns (r: RegionInfo?)
      requires Valid()
      ensures r == if rid in infos then infos[rid] else null
    {
      var chain := htab[rid % HASH_MAX];
      for k := 0 to |chain|
        invariant forall j :: 0 <= j < k ==> chain[j].regionId != rid
      {
        if chain[k].regionId == rid {
          return chain[k];
        }
      }
      r := null;
    }

    /** hash_put, with the allocation left to the caller. */
    method HashPut(r: RegionInfo)
      requires Indexed() && r.regionId !in infos
      modifies `infos, htab
      ensures Indexed() && infos == old(infos)[r.regionId := r]
    {
      var h := r.regionId % HASH_MAX;
      htab[h] := [r] + htab[h];
      infos := infos[r.regionId := r];
    }

    /** RFG_Regions_add: a region already known is returned as it is. */
    method Add(rname: string, rid: nat) returns (r: RegionInfo)
      requires Valid()
      modifies `infos, htab
      ensures Valid() && rid in infos && r == infos[rid]
      ensures old(rid in infos) ==> infos == old(infos) && AsState() == old(AsState())
      ensures old(rid !in infos) ==>
        && fresh(r) && infos == old(infos)[rid := r] && r.regionName == rname
        && r.callLimit == r.callLimitCD == LimitOf(assigns, defaultCallLimit, fnmatch, rname)
        && AsState() == State(old(AsState()).countdown[rid := r.callLimit], old(AsState()).stack)
    {
      hide Indexed, LimitOf;
      var known := Get(rid);
      if known != null {
        return known;
      }
      var climit := FilterGet(rname);
      r := new RegionInfo(rid, rname, climit);
      HashPut(r);
      assert AsState().countdown == old(AsState()).countdown[rid := r.callLimit];
      assert AsState().stack == old(AsState()).stack;
    }

    lemma OwnIds()
      requires Indexed()
      ensures forall id :: id in infos ==> infos[id].regionId == id
    {
    }

    /** RFG_Regions_stackPush: null for an unknown region, and then nothing is pushed. */
    method StackPush(rid: nat, decr: bool) returns (r: RegionInfo?)
      requires Valid()
      modifies `stack, infos.Values
      ensures Valid()
      ensures r == if rid in infos then infos[rid] else null
      ensures rid in infos ==>
        CanStep(old(AsState()), Push(rid, decr)) && AsState() == Step(old(AsState()), Push(rid, decr))
      ensures rid !in infos ==> AsState() == old(AsState())
    {
      hide Indexed;
      OwnIds();
      r := Get(rid);
      if r == null {
        return;
      }
      if decr && r.callLimitCD > 0 {
        r.callLimitCD := r.callLimitCD - 1;
      }
      stack := stack + [StackEntry(r, r.callLimitCD)];
      assert AsState().stack == Step(old(AsState()), Push(rid, decr)).stack;
      assert AsState().countdown == Step(old(AsState()), Push(rid, decr)).countdown;
    }

    /** RFG_Regions_stackPop: fails on an empty stack. */
    method StackPop() returns (ok: bool, r: RegionInfo?, climitbypush: int)
      requires Valid()
      modifies `stack
      ensures Valid()
      ensures ok <==> |old(stack)| > 0
      ensures ok ==> CanStep(old(AsState()), Pop) && AsState() == Step(old(AsState()), Pop)
      ensures ok ==> r == old(stack)[|old(stack)| - 1].rinf && climitbypush == old(stack)[|old(stack)| - 1].climitbypush
      ensures !ok ==> AsState() == old(AsState())
    {
      if |stack| == 0 {
        return false, null, 0;
      }
      var e := stack[|stack| - 1];
      stack := stack[..|stack| - 1];
      assert AsState().stack == old(AsState()).stack[..|stack|];
      return true, e.rinf, e.climitbypush;
    }

    /** RFG_Regions_getFilteredRegions: each region whose limit is used up, once. */
    method FilteredRegions() returns (rs: seq<RegionInfo>)
      requires Valid()
      ensures forall r :: r in rs <==> r in infos.Values && r.callLimitCD == 0
      ensures forall i, j :: 0 <= i < j < |rs| ==> rs[i] != rs[j]
    {
      rs := [];
      for h := 0 to HASH_MAX
        invariant forall r :: r in rs <==> r in infos.Values && r.callLimitCD == 0 && r.regionId % HASH_MAX < h
        invariant forall i, j :: 0 <= i < j < |rs| ==> rs[i] != rs[j]
      {
        var chain := htab[h];
        for k := 0 to |chain|
          invariant forall r :: r in rs <==>
            r in infos.Values && r.callLimitCD == 0 && (r.regionId % HASH_MAX < h || r in chain[..k])
          invariant forall i, j :: 0 <= i < j < |rs| ==> rs[i] != rs[j]
        {
          assert chain[k] == htab[h][k] && infos[chain[k].regionId] == chain[k];
          if chain[k].callLimitCD == 0 {
            assert chain[k] !in rs;
            rs := rs + [chain[k]];
          }
        }
        assert forall r :: r in infos.Values ==> (r in chain <==> r.regionId % HASH_MAX == h);
      }
    }
  }
}
