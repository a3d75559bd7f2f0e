/** The table of RMA windows (vt_mpicom.c): slots are reused before the table grows. */
module WindowTable {

  const WIN_NULL: nat := 0     // MPI_WIN_NULL
  const COMM_NULL: nat := 0    // MPI_COMM_NULL

  datatype Win = Win(win: nat, comm: nat, gid: nat, wid: nat)

  const NO_SLOT: int := -1

  // ----- slots as values -----

  predicate DistinctWins(hs: seq<nat>) {
    forall i, j :: 0 <= i < j < |hs| && hs[i] != WIN_NULL ==> hs[i] != hs[j]
  }

  function LiveOf(hs: seq<nat>): set<nat> {
    set h | h in hs && h != WIN_NULL
  }

  function InUse(hs: seq<nat>): (n: nat)
    ensures n <= |hs|
    ensures n == |hs| <==> forall i :: 0 <= i < |hs| ==> hs[i] != WIN_NULL
  {
    if |hs| == 0 then 0 else (if hs[0] == WIN_NULL then 0 else 1) + InUse(hs[1..])
  }

  /** Distinct windows occupy one slot each. */
  lemma {:induction false} LiveIsInUse(hs: seq<nat>)
    requires DistinctWins(hs)
    ensures |LiveOf(hs)| == InUse(hs)
  {
    if |hs| == 0 {
      assert LiveOf(hs) == {};
    } else {
      var rest := hs[1..];
      LiveIsInUse(rest);
      assert forall h :: h in hs <==> h == hs[0] || h in rest;
      if hs[0] == WIN_NULL {
        assert LiveOf(hs) == LiveOf(rest);
      } else {
        assert LiveOf(hs) == LiveOf(rest) + {hs[0]};
        assert hs[0] !in rest;
      }
    }
  }

  lemma LiveAfterStore(hs: seq<nat>, i: nat, w: nat)
    requires DistinctWins(hs) && i < |hs| && w !in LiveOf(hs)
    ensures DistinctWins(hs[i := w])
    ensures LiveOf(hs[i := w]) == LiveOf(hs) - {hs[i]} + (if w == WIN_NULL then {} else {w})
  {
    var hs' := hs[i := w];
    forall h ensures h in hs' <==> h == w || exists j :: 0 <= j < |hs| && j != i && hs[j] == h {
      if exists j :: 0 <= j < |hs| && j != i && hs[j] == h {
        var j :| 0 <= j < |hs| && j != i && hs[j] == h;
        assert hs'[j] == h;
      }
      assert hs'[i] == w;
    }
    assert w != WIN_NULL ==> w !in hs;
  }

  lemma LiveAfterAppend(hs: seq<nat>, w: nat)
    requires DistinctWins(hs) && w !in LiveOf(hs) && w != WIN_NULL
    ensures DistinctWins(hs + [w]) && LiveOf(hs + [w]) == LiveOf(hs) + {w}
  {
    assert w !in hs;
  }

  class WindowTable {
    const wins: array<Win>       // max_wins slots
    var lastWin: nat
    var freeWin: int
    ghost var handles: seq<nat>  // the windows in the slots below lastWin
    ghost var peak: nat          // the most windows that were ever live at once

    /** The windows created and not yet freed. */
    ghost function Live(): set<nat>
      reads this
    {
      LiveOf(handles)
    }

    /** Live windows occupy different slots below lastWin, the others there are free,
        and lastWin is the peak number of live windows. */
    ghost predicate Valid()
      reads this, wins
    {
      && |handles| == lastWin <= wins.Length
      && (forall i :: 0 <= i < lastWin ==>
            wins[i].win == handles[i] && (handles[i] == WIN_NULL ==> wins[i].comm == COMM_NULL))
      && DistinctWins(handles)
      && |Live()| <= peak == lastWin
    }

    constructor (maxWins: nat)
      ensures Valid() && fresh(wins) && wins.Length == maxWins
      ensures Live() == {} && peak == 0
    {
      wins := new Win[maxWins](_ => Win(WIN_NULL, COMM_NULL, 0, 0));
      lastWin, freeWin, handles, peak := 0, NO_SLOT, [], 0;
    }

    /** win_search: the slot of the window, and on the way the first free slot. */
    method Search(win: nat) returns (pos: int)
      requires Valid() && win != WIN_NULL
      modifies `freeWin
      ensures Valid()
      ensures win in Live() ==> 0 <= pos < lastWin && handles[pos] == win
      ensures win !in Live() ==> pos == NO_SLOT
      ensures freeWin == NO_SLOT || (0 <= freeWin < lastWin && handles[freeWin] == WIN_NULL)
      ensures win !in Live() && freeWin == NO_SLOT ==> forall i :: 0 <= i < lastWin ==> handles[i] != WIN_NULL
    {
      var i := 0;
      freeWin := NO_SLOT;
      while i < lastWin && wins[i].win != win
        invariant 0 <= i <= lastWin && Valid()
        invariant forall j :: 0 <= j < i ==> handles[j] != win
        invariant freeWin == NO_SLOT || (0 <= freeWin < i && handles[freeWin] == WIN_NULL)
        invariant freeWin == NO_SLOT ==> forall j :: 0 <= j < i ==> handles[j] != WIN_NULL
      {
        if freeWin == NO_SLOT && wins[i].win == WIN_NULL && wins[i].comm == COMM_NULL {
          freeWin := i;
        }
        i := i + 1;
      }
      pos := if i != lastWin then i else NO_SLOT;
    }

    /** vt_win_create. Fails, as the source aborts, iff max_wins other windows are live. */
    method Create(win: nat, comm: nat, gid: nat, wid: nat) returns (ok: bool)
      requires Valid() && win != WIN_NULL && comm != COMM_NULL
      modifies this, wins
      ensures Valid()
      ensures ok <==> win in old(Live()) || |old(Live())| < wins.Length
      ensures Live() == if ok then old(Live()) + {win} else old(Live())
      ensures peak == if |Live()| > old(peak) then |Live()| else old(peak)
      ensures forall i :: 0 <= i < old(lastWin) && old(wins[i].win) != WIN_NULL ==> wins[i] == old(wins[i])
      ensures ok && win !in old(Live()) ==> exists i :: 0 <= i < lastWin && wins[i] == Win(win, comm, gid, wid)
    {
      hide DistinctWins, LiveOf;
      var pos := Search(win);
      LiveIsInUse(handles);
      if pos != NO_SLOT {
        assert Live() + {win} == Live();
        return true;
      }
      if freeWin != NO_SLOT {
        Reuse(freeWin, Win(win, comm, gid, wid));
      } else {
        if lastWin >= wins.Length {
          return false;
        }
        Append(Win(win, comm, gid, wid));
      }
      ok := true;
    }

    /** Stores a window in a free slot. */
    method Reuse(i: nat, w: Win)
      requires Valid() && i < lastWin && handles[i] == WIN_NULL && w.win != WIN_NULL && w.win !in Live()
      requires |Live()| < lastWin
      modifies `handles, wins
      ensures Valid() && Live() == old(Live()) + {w.win} && |Live()| == |old(Live())| + 1
      ensures wins[i] == w && forall j :: 0 <= j < lastWin && j != i ==> wins[j] == old(wins[j])
    {
      hide DistinctWins, LiveOf;
      LiveAfterStore(handles, i, w.win);
      NullNotLive(handles);
      wins[i] := w;
      handles := handles[i := w.win];
    }

    /** Stores a window behind the last slot. */
    method Append(w: Win)
      requires Valid() && lastWin < wins.Length && w.win != WIN_NULL && w.win !in Live()
      requires |Live()| == lastWin
      modifies `handles, `lastWin, `peak, wins
      ensures Valid() && Live() == old(Live()) + {w.win} && |Live()| == |old(Live())| + 1
      ensures lastWin == old(lastWin) + 1 && peak == |Live()|
      ensures wins[old(lastWin)] == w && forall j :: 0 <= j < old(lastWin) ==> wins[j] == old(wins[j])
    {
      hide DistinctWins, LiveOf;
      LiveAfterAppend(handles, w.win);
      wins[lastWin] := w;
      handles := handles + [w.win];
      lastWin := lastWin + 1;
      peak := peak + 1;
    }

    lemma NullNotLive(hs: seq<nat>)
      ensures LiveOf(hs) - {WIN_NULL} == LiveOf(hs)
    {
    }

    /** vt_win_free: the slot is free again; unknown windows are refused. */
    method Free(win: nat) returns (ok: bool)
      requires Valid() && win != WIN_NULL
      modifies this, wins
      ensures Valid()
      ensures ok <==> win in old(Live())
      ensures Live() == old(Live()) - {win} && peak == old(peak)
      ensures forall i :: 0 <= i < lastWin && old(wins[i].win) != win ==> wins[i] == old(wins[i])
    {
      hide DistinctWins, LiveOf;
      var pos := Search(win);
      if pos == NO_SLOT {
        assert Live() - {win} == Live();
        return false;
      }
      Clear(pos);
      ok := true;
    }

    /** Gives a slot back. */
    method Clear(i: nat)
      requires Valid() && i < lastWin && handles[i] != WIN_NULL
      modifies `handles, wins
      ensures Valid() && Live() == old(Live()) - {old(handles[i])}
      ensures forall j :: 0 <= j < lastWin && j != i ==> wins[j] == old(wins[j])
    {
      hide DistinctWins, LiveOf;
      NullNotLive(handles);
      LiveAfterStore(handles, i, WIN_NULL);
      wins[i] := Win(WIN_NULL, COMM_NULL, 0, 0);
      handles := handles[i := WIN_NULL];
    }

    /** vt_win_id: what was stored for the window. */
    method Id(win: nat) returns (found: bool, w: Win)
      requires Valid() && win != WIN_NULL
      modifies `freeWin
      ensures Valid()
      ensures found <==> win in Live()
      ensures found ==> exists i :: 0 <= i < lastWin && wins[i] == w && w.win == win
    {
      var pos := Search(win);
      if pos == NO_SLOT {
        return false, Win(WIN_NULL, COMM_NULL, 0, 0);
      }
      return true, wins[pos];
    }
  }
}
