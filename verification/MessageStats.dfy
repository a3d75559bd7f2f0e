/** The message statistics as vt_otf_sum.c keeps them: a growing array of rows and a hash table
    of chains, filled by sends and receives. */
module MessageStats {
  import opened GroupBy

  const HASH_MAX: nat := 1021

  datatype Node = Node(key: Key, row: nat)

  class MessageStats {
    const details: Details
    const hash: Key -> nat      // vt_hash over the parts of the key; any function will do
    var msgStat: seq<Row>
    const htab: array<seq<Node>>
    ghost var events: seq<Event>

    ghost predicate Indexed()
      reads `msgStat, htab
    {
      && htab.Length == HASH_MAX
      && (forall h, k :: 0 <= h < HASH_MAX && 0 <= k < |htab[h]| ==>
            && htab[h][k].row < |msgStat|
            && msgStat[htab[h][k].row].key == htab[h][k].key)
      && (forall i :: 0 <= i < |msgStat| ==>
            Node(msgStat[i].key, i) in htab[hash(msgStat[i].key) % HASH_MAX])
    }

    /** The rows group all events so far by their masked keys. */
    ghost predicate Valid()
      reads this, htab
    {
      Indexed() && IsGroupBy(msgStat, events, details)
    }

    constructor (details: Details, hash: Key -> nat)
      ensures Valid() && fresh(htab)
      ensures this.details == details && events == []
    {
      this.details, this.hash := details, hash;
      msgStat := [];
      htab := new seq<Node>[HASH_MAX](_ => []);
      events := [];
    }

    /** hash_get_msg: the row of a key; None exactly when a linear search finds none. */
    method HashGet(key: Key) returns (row: nat, found: bool)
      requires Valid()
      ensures found <==> HasRow(msgStat, key)
      ensures found ==> row < |msgStat| && msgStat[row].key == key
    {
      var chain := htab[hash(key) % HASH_MAX];
      assert HasRow(msgStat, key) ==> exists k :: 0 <= k < |chain| && chain[k].key == key by {
        if HasRow(msgStat, key) {
          var i :| 0 <= i < |msgStat| && msgStat[i].key == key;
          assert Node(key, i) in chain;
        }
      }
      row, found := 0, false;
      for k := 0 to |chain|
        invariant forall j :: 0 <= j < k ==> chain[j].key != key
      {
        if chain[k].key == key {
          assert msgStat[chain[k].row].key == key;
          return chain[k].row, true;
        }
      }
    }

    /** VTSUM_MSG_STAT_ADD and hash_put_msg. */
    method AddRow(key: Key) returns (row: nat)
      requires Indexed()
      modifies `msgStat, htab
      ensures Indexed()
      ensures row == |old(msgStat)| && msgStat == old(msgStat) + [Row(key, Counts(0, 0, 0, 0))]
    {
      row := |msgStat|;
      msgStat := msgStat + [Row(key, Counts(0, 0, 0, 0))];
      var h := hash(key) % HASH_MAX;
      htab[h] := [Node(key, row)] + htab[h];
    }

    /** Counts one event in the row of its masked key. */
    method Count(e: Event)
      requires Valid()
      modifies this, htab
      ensures Valid() && events == old(events) + [e]
    {
      ghost var rows := msgStat;
      var key := Masked(details, e.key);
      var row, found := HashGet(key);
      if !found {
        row := AddRow(key);
      }
      msgStat := msgStat[row := Row(key, msgStat[row].counts.Plus(Share(e)))];
      AnotherEvent(rows, msgStat, row, events, details, e);
      events := events + [e];
    }

    /** The rows of the table, in plain numbers. */
    lemma RowsHoldTheMessages(i: nat)
      requires Valid() && i < |msgStat|
      ensures
        var Row(k, c) := msgStat[i];
        && c.scnt == Number(events, details, k, true) && c.sent == Volume(events, details, k, true)
        && c.rcnt == Number(events, details, k, false) && c.recvd == Volume(events, details, k, false)
    {
      RowCounts(msgStat, events, details, i);
    }

    /** VTSum_msg_send. */
    method Send(dpid: nat, cid: nat, tag: nat, sent: nat)
      requires Valid()
      modifies this, htab
      ensures Valid() && events == old(events) + [Event(true, Key(dpid, cid, tag), sent)]
    {
      Count(Event(true, Key(dpid, cid, tag), sent));
    }

    /** VTSum_msg_recv. */
    method Receive(spid: nat, cid: nat, tag: nat, recvd: nat)
      requires Valid()
      modifies this, htab
      ensures Valid() && events == old(events) + [Event(false, Key(spid, cid, tag), recvd)]
    {
      Count(Event(false, Key(spid, cid, tag), recvd));
    }
  }
}
