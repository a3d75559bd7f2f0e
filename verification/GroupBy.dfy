/** Message statistics as a group-by: events are grouped by the parts of their key the detail
    flags keep, and the numbers of each group are added up. */
module GroupBy {

  datatype Key = Key(peer: nat, cid: nat, tag: nat)

  /** The detail flags: which parts of a key count. */
  datatype Details = Details(peer: bool, comm: bool, tag: bool)

  datatype Event = Event(sending: bool, key: Key, bytes: nat)

  /** Messages and bytes, sent and received. */
  datatype Counts = Counts(scnt: int, rcnt: int, sent: int, recvd: int) {
    function Plus(o: Counts): Counts {
      Counts(scnt + o.scnt, rcnt + o.rcnt, sent + o.sent, recvd + o.recvd)
    }
  }

  datatype Row = Row(key: Key, counts: Counts)

  function Masked(d: Details, k: Key): Key {
    Key(if d.peer then k.peer else 0, if d.comm then k.cid else 0, if d.tag then k.tag else 0)
  }

  function Share(e: Event): Counts {
    if e.sending then Counts(1, 0, e.bytes, 0) else Counts(0, 1, 0, e.bytes)
  }

  /** The sum over all events whose masked key is k. */
  function Total(es: seq<Event>, d: Details, k: Key): Counts {
    if |es| == 0 then Counts(0, 0, 0, 0)
    else
      var e := es[|es| - 1];
      Total(es[..|es| - 1], d, k).Plus(if Masked(d, e.key) == k then Share(e) else Counts(0, 0, 0, 0))
  }

  lemma TotalSnoc(es: seq<Event>, e: Event, d: Details, k: Key)
    ensures Total(es + [e], d, k) ==
            Total(es, d, k).Plus(if Masked(d, e.key) == k then Share(e) else Counts(0, 0, 0, 0))
  {
    assert (es + [e])[..|es|] == es;
  }

  ghost predicate Distinct(rows: seq<Row>) {
    forall i, j :: 0 <= i < j < |rows| ==> rows[i].key != rows[j].key
  }

  ghost predicate HasRow(rows: seq<Row>, k: Key) {
    exists i :: 0 <= i < |rows| && rows[i].key == k
  }

  ghost predicate HasEvent(es: seq<Event>, d: Details, k: Key) {
    exists i :: 0 <= i < |es| && Masked(d, es[i].key) == k
  }

  /** One row for each masked key that occurs, and no other, with the sum of its events. */
  ghost predicate IsGroupBy(rows: seq<Row>, es: seq<Event>, d: Details) {
    && Distinct(rows)
    && (forall i :: 0 <= i < |rows| ==>
          HasEvent(es, d, rows[i].key) && rows[i].counts == Total(es, d, rows[i].key))
    && (forall k :: HasEvent(es, d, k) ==> HasRow(rows, k))
  }

  lemma {:induction false} NoEventNoTotal(es: seq<Event>, d: Details, k: Key)
    requires !HasEvent(es, d, k)
    ensures Total(es, d, k) == Counts(0, 0, 0, 0)
  {
    if |es| > 0 {
      var rest := es[..|es| - 1];
      forall i | 0 <= i < |rest| ensures Masked(d, rest[i].key) != k {
        assert es[i] == rest[i];
      }
      NoEventNoTotal(rest, d, k);
    }
  }

  lemma HasEventSnoc(es: seq<Event>, e: Event, d: Details, k: Key)
    ensures HasEvent(es + [e], d, k) <==> HasEvent(es, d, k) || Masked(d, e.key) == k
  {
    var more := es + [e];
    assert more[|es|] == e;
    if HasEvent(es, d, k) {
      var i :| 0 <= i < |es| && Masked(d, es[i].key) == k;
      assert more[i] == es[i];
    }
  }

  /** Adding an event to the row of its masked key, a new one if need be, keeps the grouping. */
  lemma AnotherEvent(rows: seq<Row>, rows': seq<Row>, i: nat, es: seq<Event>, d: Details, e: Event)
    requires IsGroupBy(rows, es, d)
    requires i <= |rows| <= |rows'| && |rows'| == (if i < |rows| then |rows| else |rows| + 1)
    requires if i < |rows| then rows[i].key == Masked(d, e.key) else !HasRow(rows, Masked(d, e.key))
    requires rows'[i].key == Masked(d, e.key)
    requires rows'[i].counts == (if i < |rows| then rows[i].counts else Counts(0, 0, 0, 0)).Plus(Share(e))
    requires forall j :: 0 <= j < |rows| && j != i ==> rows'[j] == rows[j]
    ensures IsGroupBy(rows', es + [e], d)
  {
    hide Total, HasEvent;
    var key := Masked(d, e.key);
    if i == |rows| {
      assert !HasEvent(es, d, key);
      NoEventNoTotal(es, d, key);
    }
    assert Distinct(rows') by {
      if i == |rows| {
        assert forall j :: 0 <= j < |rows| ==> rows[j].key != key;
      }
    }
    forall j | 0 <= j < |rows'|
      ensures HasEvent(es + [e], d, rows'[j].key) && rows'[j].counts == Total(es + [e], d, rows'[j].key)
    {
      TotalSnoc(es, e, d, rows'[j].key);
      HasEventSnoc(es, e, d, rows'[j].key);
      assert j != i ==> rows'[j].key != key;
    }
    forall k | HasEvent(es + [e], d, k) ensures HasRow(rows', k) {
      HasEventSnoc(es, e, d, k);
      if k != key {
        var j :| 0 <= j < |rows| && rows[j].key == k;
        assert rows'[j].key == k;
      }
    }
  }

  // ----- what the rows count -----

  /** How many of the events were sent (or received) with the parts of k that the flags keep. */
  function Number(es: seq<Event>, d: Details, k: Key, sending: bool): nat {
    if |es| == 0 then 0
    else
      var e := es[|es| - 1];
      var counts := e.sending == sending &&
        (d.peer ==> e.key.peer == k.peer) && (d.comm ==> e.key.cid == k.cid) && (d.tag ==> e.key.tag == k.tag);
      Number(es[..|es| - 1], d, k, sending) + if counts then 1 else 0
  }

  /** And how many bytes. */
  function Volume(es: seq<Event>, d: Details, k: Key, sending: bool): nat {
    if |es| == 0 then 0
    else
      var e := es[|es| - 1];
      var counts := e.sending == sending &&
        (d.peer ==> e.key.peer == k.peer) && (d.comm ==> e.key.cid == k.cid) && (d.tag ==> e.key.tag == k.tag);
      Volume(es[..|es| - 1], d, k, sending) + if counts then e.bytes else 0
  }

  /** One more event counts once, and with its bytes, in its own direction and under the parts of its key
      that are kept; in the other direction and elsewhere it does not. */
  lemma OneMoreEvent(es: seq<Event>, e: Event, d: Details, k: Key)
    ensures
      var here :=
        (d.peer ==> e.key.peer == k.peer) && (d.comm ==> e.key.cid == k.cid) && (d.tag ==> e.key.tag == k.tag);
      && Number(es + [e], d, k, true) == Number(es, d, k, true) + (if here && e.sending then 1 else 0)
      && Number(es + [e], d, k, false) == Number(es, d, k, false) + (if here && !e.sending then 1 else 0)
      && Volume(es + [e], d, k, true) == Volume(es, d, k, true) + (if here && e.sending then e.bytes else 0)
      && Volume(es + [e], d, k, false) == Volume(es, d, k, false) + (if here && !e.sending then e.bytes else 0)
      && Number([], d, k, e.sending) == Volume([], d, k, e.sending) == 0
  {
    assert (es + [e])[..|es|] == es;
  }

  lemma {:induction false} TotalCounts(es: seq<Event>, d: Details, k: Key)
    requires (!d.peer ==> k.peer == 0) && (!d.comm ==> k.cid == 0) && (!d.tag ==> k.tag == 0)
    ensures
      var c := Total(es, d, k);
      && c.scnt == Number(es, d, k, true) && c.rcnt == Number(es, d, k, false)
      && c.sent == Volume(es, d, k, true) && c.recvd == Volume(es, d, k, false)
  {
    if |es| > 0 {
      TotalCounts(es[..|es| - 1], d, k);
    }
  }

  /** The rows of a grouping hold, in plain numbers, the messages and bytes sent and received under the
      parts of the key the flags keep; the other parts are 0. */
  lemma RowCounts(rows: seq<Row>, es: seq<Event>, d: Details, i: nat)
    requires IsGroupBy(rows, es, d) && i < |rows|
    ensures
      var Row(k, c) := rows[i];
      && (!d.peer ==> k.peer == 0) && (!d.comm ==> k.cid == 0) && (!d.tag ==> k.tag == 0)
      && c.scnt == Number(es, d, k, true) && c.rcnt == Number(es, d, k, false)
      && c.sent == Volume(es, d, k, true) && c.recvd == Volume(es, d, k, false)
  {
    assert HasEvent(es, d, rows[i].key);
    var j :| 0 <= j < |es| && Masked(d, es[j].key) == rows[i].key;
    TotalCounts(es, d, rows[i].key);
  }

  /** Every event is counted in one row, and in no other: two rows that keep the same parts are one. */
  lemma EventHasItsRow(rows: seq<Row>, es: seq<Event>, d: Details, j: nat) returns (i: nat)
    requires IsGroupBy(rows, es, d) && j < |es|
    ensures
      var e := es[j].key;
      && i < |rows|
      && (d.peer ==> rows[i].key.peer == e.peer) && (d.comm ==> rows[i].key.cid == e.cid)
      && (d.tag ==> rows[i].key.tag == e.tag)
  {
    assert HasEvent(es, d, Masked(d, es[j].key));
    i :| 0 <= i < |rows| && rows[i].key == Masked(d, es[j].key);
  }

  lemma SamePartsSameRow(rows: seq<Row>, es: seq<Event>, d: Details, i: nat, r: nat)
    requires IsGroupBy(rows, es, d) && i < |rows| && r < |rows|
    requires
      var a, b := rows[i].key, rows[r].key;
      (d.peer ==> a.peer == b.peer) && (d.comm ==> a.cid == b.cid) && (d.tag ==> a.tag == b.tag)
    ensures i == r
  {
    RowCounts(rows, es, d, i);
    RowCounts(rows, es, d, r);
  }

  // ----- coarser groups -----

  /** d keeps no more of a key than fine does. */
  predicate Coarser(d: Details, fine: Details) {
    (d.peer ==> fine.peer) && (d.comm ==> fine.comm) && (d.tag ==> fine.tag)
  }

  /** The sum of the rows that fall together under the coarser flags. */
  function Merged(rows: seq<Row>, d: Details, k: Key): Counts {
    if |rows| == 0 then Counts(0, 0, 0, 0)
    else Merged(rows[1..], d, k).Plus(if Masked(d, rows[0].key) == k then rows[0].counts else Counts(0, 0, 0, 0))
  }

  /** The same with the sums taken over es. */
  function MergedTotals(rows: seq<Row>, es: seq<Event>, fine: Details, d: Details, k: Key): Counts {
    if |rows| == 0 then Counts(0, 0, 0, 0)
    else
      MergedTotals(rows[1..], es, fine, d, k)
        .Plus(if Masked(d, rows[0].key) == k then Total(es, fine, rows[0].key) else Counts(0, 0, 0, 0))
  }

  lemma {:induction false} MergedOneMore(rows: seq<Row>, es: seq<Event>, e: Event, fine: Details, d: Details, k: Key)
    requires Distinct(rows) && Coarser(d, fine)
    ensures MergedTotals(rows, es + [e], fine, d, k) ==
      MergedTotals(rows, es, fine, d, k)
        .Plus(if HasRow(rows, Masked(fine, e.key)) && Masked(d, e.key) == k then Share(e) else Counts(0, 0, 0, 0))
  {
    hide Total, Masked, Distinct, HasRow, Share, Counts.Plus;
    var zero, key := Counts(0, 0, 0, 0), Masked(fine, e.key);
    HasNoRow(rows, key);
    if |rows| == 0 {
      Regroup(zero, zero, zero, zero, zero);
    } else {
      HasRowSplit(rows, key);
      var below := if HasRow(rows[1..], key) && Masked(d, e.key) == k then Share(e) else zero;
      var here := if rows[0].key == key && Masked(d, e.key) == k then Share(e) else zero;
      var all := if HasRow(rows, key) && Masked(d, e.key) == k then Share(e) else zero;
      var total := if Masked(d, rows[0].key) == k then Total(es, fine, rows[0].key) else zero;
      MergedOneMore(rows[1..], es, e, fine, d, k);
      TotalSnoc(es, e, fine, rows[0].key);
      MaskTwice(fine, d, e.key);
      Regroup(MergedTotals(rows[1..], es, fine, d, k), below, total, here, all);
      Regroup(zero, zero, zero, zero, zero);
    }
  }

  lemma Regroup(m: Counts, below: Counts, t: Counts, here: Counts, all: Counts)
    requires (below == all && here == Counts(0, 0, 0, 0)) || (below == Counts(0, 0, 0, 0) && here == all)
    ensures m.Plus(below).Plus(t.Plus(here)) == m.Plus(t).Plus(all)
    ensures t.Plus(Counts(0, 0, 0, 0)) == t
  {
  }

  lemma MaskTwice(fine: Details, d: Details, k: Key)
    requires Coarser(d, fine)
    ensures Masked(d, Masked(fine, k)) == Masked(d, k)
  {
  }

  lemma HasNoRow(rows: seq<Row>, k: Key)
    ensures |rows| == 0 ==> !HasRow(rows, k)
  {
  }

  lemma HasRowSplit(rows: seq<Row>, k: Key)
    requires |rows| > 0 && Distinct(rows)
    ensures HasRow(rows, k) <==> rows[0].key == k || HasRow(rows[1..], k)
    ensures rows[0].key == k ==> !HasRow(rows[1..], k)
    ensures Distinct(rows[1..])
  {
    if HasRow(rows[1..], k) {
      var i :| 0 <= i < |rows[1..]| && rows[1..][i].key == k;
      assert rows[i + 1].key == k;
    }
    if HasRow(rows, k) && rows[0].key != k {
      var i :| 0 <= i < |rows| && rows[i].key == k;
      assert rows[1..][i - 1].key == k;
    }
  }

  lemma {:induction false} MergedOfNothing(rows: seq<Row>, fine: Details, d: Details, k: Key)
    ensures MergedTotals(rows, [], fine, d, k) == Counts(0, 0, 0, 0)
  {
    if |rows| > 0 {
      MergedOfNothing(rows[1..], fine, d, k);
    }
  }

  lemma {:induction false} MergedIsTotal(rows: seq<Row>, es: seq<Event>, fine: Details, d: Details, k: Key)
    requires Distinct(rows) && Coarser(d, fine)
    requires forall i :: 0 <= i < |es| ==> HasRow(rows, Masked(fine, es[i].key))
    ensures MergedTotals(rows, es, fine, d, k) == Total(es, d, k)
  {
    if |es| == 0 {
      MergedOfNothing(rows, fine, d, k);
    } else {
      var rest, e := es[..|es| - 1], es[|es| - 1];
      assert es == rest + [e];
      MergedIsTotal(rows, rest, fine, d, k);
      MergedOneMore(rows, rest, e, fine, d, k);
    }
  }

  lemma {:induction false} MergedRows(rows: seq<Row>, es: seq<Event>, fine: Details, d: Details, k: Key)
    requires forall i :: 0 <= i < |rows| ==> rows[i].counts == Total(es, fine, rows[i].key)
    ensures Merged(rows, d, k) == MergedTotals(rows, es, fine, d, k)
  {
    if |rows| > 0 {
      MergedRows(rows[1..], es, fine, d, k);
    }
  }

  /** Under coarser flags each row is the sum of the finer rows that fall into it, whatever the
      finer flags are. */
  lemma CoarseRowsMergeFineRows(fineRows: seq<Row>, rows: seq<Row>, es: seq<Event>, fine: Details, d: Details, i: nat)
    requires IsGroupBy(fineRows, es, fine) && IsGroupBy(rows, es, d) && Coarser(d, fine) && i < |rows|
    ensures rows[i].counts == Merged(fineRows, d, rows[i].key)
  {
    forall j | 0 <= j < |es| ensures HasRow(fineRows, Masked(fine, es[j].key)) {
      assert HasEvent(es, fine, Masked(fine, es[j].key));
    }
    MergedRows(fineRows, es, fine, d, rows[i].key);
    MergedIsTotal(fineRows, es, fine, d, rows[i].key);
  }
}
