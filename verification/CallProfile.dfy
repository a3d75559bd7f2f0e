/** The function statistics as vt_otf_sum.c keeps them: a growing array of rows, a hash table of
    chains that leads to them, and a growing call stack. */
module CallProfile {
  import opened CallTree

  const HASH_MAX: nat := 1021

  /** One link of a hash chain. */
  datatype Node = Node(id: nat, row: nat)

  /** The stack of the source, innermost region last, as a value. */
  function AsStack(frames: seq<Frame>): Stack {
    if |frames| == 0 then Bottom
    else Push(frames[|frames| - 1], AsStack(frames[..|frames| - 1]))
  }

  lemma AsStackTop(frames: seq<Frame>)
    ensures |frames| > 0 ==>
      AsStack(frames) == Push(frames[|frames| - 1], AsStack(frames[..|frames| - 1]))
    ensures |frames| == 0 ==> AsStack(frames) == Bottom
  {
  }

  lemma TopInRange(frames: seq<Frame>, n: nat)
    requires |frames| > 0 && InRange(AsStack(frames), n)
    ensures frames[|frames| - 1].row < n && InRange(AsStack(frames[..|frames| - 1]), n)
  {
  }

  lemma AsStackPush(frames: seq<Frame>, f: Frame)
    ensures AsStack(frames + [f]) == Push(f, AsStack(frames))
  {
    assert (frames + [f])[..|frames|] == frames;
  }

  class CallProfile {
    var funcStat: seq<Row>
    var frames: seq<Frame>
    const htab: array<seq<Node>>

    ghost function State(): Profile
      reads this
    {
      Profile(funcStat, AsStack(frames))
    }

    /** Chain h holds a node for exactly the rows whose region hashes to h. */
    ghost predicate Indexed()
      reads `funcStat, htab
    {
      && htab.Length == HASH_MAX
      && (forall h, k :: 0 <= h < HASH_MAX && 0 <= k < |htab[h]| ==>
            && htab[h][k].row < |funcStat|
            && funcStat[htab[h][k].row].rid == htab[h][k].id)
      && (forall i :: 0 <= i < |funcStat| ==> Node(funcStat[i].rid, i) in htab[funcStat[i].rid % HASH_MAX])
    }

    ghost predicate Valid()
      reads this, htab
    {
      Ok(State()) && Indexed()
    }

    constructor ()
      ensures Valid() && fresh(htab)
      ensures State() == Profile([], Bottom)
    {
      funcStat, frames := [], [];
      htab := new seq<Node>[HASH_MAX](_ => []);
    }

    /** hash_get_func: finds in its chain what a linear search of the rows finds. */
    method HashGet(h: nat) returns (row: nat, found: bool)
      requires Valid()
      ensures found <==> Find(funcStat, h) < |funcStat|
      ensures found ==> row == Find(funcStat, h)
    {
      var chain := htab[h % HASH_MAX];
      ghost var i := Find(funcStat, h);
      assert i < |funcStat| ==> Node(funcStat[i].rid, i) in chain;
      row, found := 0, false;
      for k := 0 to |chain|
        invariant forall j :: 0 <= j < k ==> chain[j].id != h
      {
        if chain[k].id == h {
          assert funcStat[chain[k].row].rid == h;
          FindDistinct(funcStat, chain[k].row);
          return chain[k].row, true;
        }
      }
    }

    lemma FindDistinct(rows: seq<Row>, i: nat)
      requires Distinct(rows) && i < |rows|
      ensures Find(rows, rows[i].rid) == i
    {
    }

    lemma WithRowFound(rows: seq<Row>, rid: nat)
      ensures Find(rows, rid) < |rows| ==> WithRow(rows, rid) == rows
    {
    }

    /** VTSUM_FUNC_STAT_ADD and hash_put_func: a row for a region that has none. */
    method AddRow(rid: nat) returns (row: nat)
      requires Valid() && Find(funcStat, rid) == |funcStat|
      modifies `funcStat, htab
      ensures Valid() && row == Find(funcStat, rid)
      ensures funcStat == old(WithRow(funcStat, rid))
    {
      row := |funcStat|;
      funcStat := funcStat + [Row(rid, Stat(0, 0, 0))];
      var h := rid % HASH_MAX;
      htab[h] := [Node(rid, row)] + htab[h];
      InRangeMore(AsStack(frames), row, row + 1);
      assert old(WithRow(funcStat, rid)) == funcStat;
      FindDistinct(funcStat, row);
    }

    /** Adds to one row; the index is not concerned. */
    method Bump(row: nat, d: Stat)
      requires Valid() && row < |funcStat|
      modifies `funcStat
      ensures Valid() && funcStat == AddTo(old(funcStat), row, d)
    {
      funcStat := funcStat[row := Row(funcStat[row].rid, funcStat[row].stat.Plus(d))];
      assert funcStat == AddTo(old(funcStat), row, d);
    }

    /** VTSum_enter: looks the region up, counts the call, pushes it and charges its caller. */
    method Enter(time: int, rid: nat)
      requires Valid()
      modifies this, htab
      ensures Valid()
      ensures State() == Step(old(State()), Event.Enter(rid, time))
    {
      hide Find, WithRow, AddTo, Distinct, InRange, AsStack, Indexed;
      if |frames| > 0 {
        TopInRange(frames, |funcStat|);
      }
      var row, found := HashGet(rid);
      WithRowFound(funcStat, rid);
      if !found {
        row := AddRow(rid);
      }
      Bump(row, Stat(1, 0, 0));
      if |frames| > 0 {
        var caller := frames[|frames| - 1];
        Bump(caller.row, Stat(0, time - caller.hexcl, 0));
      }
      frames := frames + [Frame(row, time, time)];
      AsStackPush(old(frames), Frame(row, time, time));
      AsStackTop(old(frames));
      assert State() == EnterStep(old(State()), rid, time);
    }

    /** VTSum_exit. False where the source aborts: there is nothing to leave. */
    method Exit(time: int) returns (ok: bool)
      requires Valid()
      modifies this
      ensures Valid()
      ensures ok <==> old(State()).stack.Push?
      ensures State() == Step(old(State()), Leave(time))
    {
      hide Find, Distinct, InRange;
      if |frames| == 0 {
        return false;
      }
      AsStackTop(frames);
      TopInRange(frames, |funcStat|);
      var f := frames[|frames| - 1];
      Bump(f.row, Stat(0, time - f.hexcl, 0));
      Bump(f.row, Stat(0, 0, time - f.hincl));
      assert funcStat == AddTo(old(funcStat), f.row, Stat(0, time - f.hexcl, time - f.hincl));
      frames := frames[..|frames| - 1];
      if |frames| > 0 {
        AsStackTop(frames);
        ghost var below := frames[..|frames| - 1];
        frames := frames[|frames| - 1 := frames[|frames| - 1].(hexcl := time)];
        assert frames[..|frames| - 1] == below;
        AsStackTop(frames);
      }
      assert State() == LeaveStep(old(State()), time);
      ok := true;
    }
  }
}
