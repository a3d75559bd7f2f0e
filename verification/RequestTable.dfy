/** The request table of vt_mpireq.c: a doubly linked list of blocks of ten slots, filled without
    gaps, with a pointer to the last slot in use. Blocks behind it are kept for reuse. */
module RequestTable {
  import opened RequestLife

  const REQBLK_SIZE: nat := 10

  class Block {
    const req: array<Request>
    var next: Block?
    var prev: Block?

    constructor (fill: Request)
      ensures fresh(req) && req.Length == REQBLK_SIZE
      ensures next == null && prev == null
    {
      req := new Request[REQBLK_SIZE](_ => fill);
      next, prev := null, null;
    }
  }

  /** A pointer to a slot. */
  datatype Slot = Null | At(block: Block, idx: nat)

  ghost function BlockAt(blocks: seq<Block>, b: int): Block? {
    if 0 <= b < |blocks| then blocks[b] else null
  }

  /** The slot behind number n - 1: the next one of its block, or the first of the next block. */
  lemma NextNumber(n: nat)
    requires n > 0
    ensures (n - 1) % REQBLK_SIZE + 1 < REQBLK_SIZE ==>
      n % REQBLK_SIZE == (n - 1) % REQBLK_SIZE + 1 && n / REQBLK_SIZE == (n - 1) / REQBLK_SIZE
    ensures (n - 1) % REQBLK_SIZE + 1 >= REQBLK_SIZE ==>
      n % REQBLK_SIZE == 0 && n / REQBLK_SIZE == (n - 1) / REQBLK_SIZE + 1
  {
  }

  lemma Numbered(b: nat, i: nat)
    requires i < REQBLK_SIZE
    ensures (REQBLK_SIZE * b + i) / REQBLK_SIZE == b && (REQBLK_SIZE * b + i) % REQBLK_SIZE == i
  {
  }

  class RequestTable {
    var head: Block?
    var last: Block?
    var lastreq: Slot
    var lastidx: int
    var saved: seq<nat>             // orig_req_arr

    ghost var blocks: seq<Block>    // the linked blocks
    ghost var live: seq<Request>    // the slots in use, in order

    ghost predicate Linked()
      reads `head, `blocks, blocks
    {
      && (forall b, c :: 0 <= b < c < |blocks| ==> blocks[b] != blocks[c] && blocks[b].req != blocks[c].req)
      && (forall b {:trigger blocks[b].req} :: 0 <= b < |blocks| ==> blocks[b].req.Length == REQBLK_SIZE)
      && (forall b {:trigger blocks[b].next} :: 0 <= b < |blocks| ==> blocks[b].next == BlockAt(blocks, b + 1))
      && (forall b {:trigger blocks[b].prev} :: 0 <= b < |blocks| ==> blocks[b].prev == BlockAt(blocks, b - 1))
      && head == BlockAt(blocks, 0)
    }

    /** The slot in use with number k. */
    ghost function SlotOf(k: nat): Slot
      reads this
      requires k < REQBLK_SIZE * |blocks|
    {
      At(blocks[k / REQBLK_SIZE], k % REQBLK_SIZE)
    }

    /** The slots hold rs, block by block. */
    ghost predicate Holds(rs: seq<Request>)
      reads `blocks, blocks, set b | b in blocks :: b.req
      requires forall b {:trigger blocks[b].req} :: 0 <= b < |blocks| ==> blocks[b].req.Length == REQBLK_SIZE
    {
      && |rs| <= REQBLK_SIZE * |blocks|
      && forall b, i :: 0 <= b < |blocks| && 0 <= i < REQBLK_SIZE && REQBLK_SIZE * b + i < |rs| ==>
          blocks[b].req[i] == rs[REQBLK_SIZE * b + i]
    }

    lemma HoldsOneMore(rs: seq<Request>)
      requires Linked() && Holds(rs) && |rs| < REQBLK_SIZE * |blocks|
      ensures blocks[|rs| / REQBLK_SIZE].req.Length == REQBLK_SIZE
      ensures Holds(rs + [blocks[|rs| / REQBLK_SIZE].req[|rs| % REQBLK_SIZE]])
    {
    }

    lemma HoldsFewer(rs: seq<Request>)
      requires Linked() && Holds(rs) && |rs| > 0
      ensures Holds(rs[..|rs| - 1])
    {
    }

    /** The cursor stands on the last slot in use. */
    ghost predicate Cursor()
      reads this
    {
      if |live| == 0 then last == null && lastreq == Null && lastidx == REQBLK_SIZE
      else
        && |live| <= REQBLK_SIZE * |blocks|
        && last == blocks[(|live| - 1) / REQBLK_SIZE]
        && lastidx == (|live| - 1) % REQBLK_SIZE
        && lastreq == SlotOf(|live| - 1)
    }

    ghost predicate Valid()
      reads this, blocks, set b | b in blocks :: b.req
    {
      Linked() && Holds(live) && Cursor()
    }

    constructor ()
      ensures Valid() && live == []
    {
      head, last, lastreq, lastidx, saved := null, null, Null, REQBLK_SIZE, [];
      blocks, live := [], [];
    }

    /** Links a new block behind the last one of the list. */
    method Expand(tail: Block?, fill: Request) returns (newBlock: Block)
      requires Linked() && Holds(live)
      requires tail == BlockAt(blocks, |blocks| - 1)
      modifies `head, `blocks, blocks
      ensures Linked() && Holds(live)
      ensures fresh(newBlock) && fresh(newBlock.req) && blocks == old(blocks) + [newBlock]
    {
      newBlock := new Block(fill);
      newBlock.prev := tail;
      if tail == null {
        head := newBlock;
      } else {
        tail.next := newBlock;
      }
      blocks := blocks + [newBlock];
    }

    /** The block behind a full one: the first one, one kept from earlier, or a new one. */
    method NextBlock(fill: Request)
      requires Valid() && |live| % REQBLK_SIZE == 0
      modifies `head, `last, `blocks, blocks
      ensures Linked() && Holds(live) && |live| < REQBLK_SIZE * |blocks|
      ensures last == blocks[|live| / REQBLK_SIZE]
      ensures forall b :: b in blocks && b !in old(blocks) ==> fresh(b) && fresh(b.req)
    {
      ghost var c := |live| / REQBLK_SIZE;
      if head == null {
        last := Expand(null, fill);
      } else if last == null {
        last := head;
      } else {
        assert last == blocks[c - 1] && last.next == BlockAt(blocks, c);
        if last.next == null {
          var _ := Expand(last, fill);
          assert blocks[c - 1].next == BlockAt(blocks, c);
        }
        last := last.next;
      }
    }

    /** Moves the cursor to the next free slot. */
    method MoveOn(fill: Request)
      requires Valid()
      modifies `head, `last, `lastreq, `lastidx, `blocks, blocks
      ensures Linked() && Holds(live) && |live| < REQBLK_SIZE * |blocks|
      ensures last == blocks[|live| / REQBLK_SIZE] && lastidx == |live| % REQBLK_SIZE
      ensures lastreq == At(last, lastidx)
      ensures forall b :: b in blocks && b !in old(blocks) ==> fresh(b) && fresh(b.req)
    {
      ghost var n := |live|;
      hide Linked, Holds, BlockAt;
      if n > 0 {
        NextNumber(n);
      }
      if lastidx + 1 >= REQBLK_SIZE {
        NextBlock(fill);
        lastreq := At(last, 0);
        lastidx := 0;
      } else {
        lastreq := At(lastreq.block, lastreq.idx + 1);
        lastidx := lastidx + 1;
      }
    }

    /** Takes the next slot into use, with what it held before. */
    method NextSlot(fill: Request)
      requires Valid()
      modifies `head, `last, `lastreq, `lastidx, `blocks, `live, blocks
      ensures Valid()
      ensures |live| == |old(live)| + 1 && live[..|old(live)|] == old(live)
      ensures forall b :: b in blocks && b !in old(blocks) ==> fresh(b) && fresh(b.req)
    {
      ghost var n := |live|;
      hide Linked, Holds, BlockAt;
      MoveOn(fill);
      HoldsOneMore(live);
      live := live + [blocks[n / REQBLK_SIZE].req[n % REQBLK_SIZE]];
    }

    lemma SlotNumber(k: nat)
      requires Linked() && k < REQBLK_SIZE * |blocks|
      ensures k / REQBLK_SIZE < |blocks| && SlotOf(k).block.req.Length == REQBLK_SIZE
    {
    }

    /** Reads through the pointer to slot k. */
    method Load(p: Slot, ghost k: nat) returns (r: Request)
      requires Valid() && k < |live| && p == SlotOf(k)
      ensures r == live[k]
    {
      SlotNumber(k);
      r := p.block.req[p.idx];
    }

    /** Writes through the pointer to slot k. */
    method Store(p: Slot, r: Request, ghost k: nat)
      requires Valid() && k < |live| && p == SlotOf(k)
      modifies `live, set b | b in blocks :: b.req
      ensures Valid() && live == old(live)[k := r]
    {
      SlotNumber(k);
      p.block.req[p.idx] := r;
      live := live[k := r];
      assert Linked() && Cursor();
      hide Cursor;
      forall b, i | 0 <= b < |blocks| && 0 <= i < REQBLK_SIZE && REQBLK_SIZE * b + i < |live|
        ensures blocks[b].req[i] == live[REQBLK_SIZE * b + i]
      {
        Numbered(b, i);
        assert b != k / REQBLK_SIZE ==> blocks[b].req != p.block.req;
      }
    }

    /** vt_request_create. The fields only I/O requests use keep what the slot held before. */
    method Create(request: nat, flags: Flags, tag: int, dest: int, bytes: int, dtype: nat, comm: nat, fill: Request)
      requires Valid()
      modifies this, blocks, set b | b in blocks :: b.req
      ensures Valid() && saved == old(saved)
      ensures exists r: Request ::
        && live == Step(old(live), Op.Create(r))
        && r.request == request && r.flags == flags && r.tag == tag && r.dest == dest && r.bytes == bytes
        && r.dtype == dtype && r.comm == comm
    {
      hide Linked, Holds;
      NextSlot(fill);
      ghost var k := |live| - 1;
      SlotNumber(k);
      var slot := lastreq.block.req[lastreq.idx];
      var r := slot.(request := request, flags := flags, tag := tag, dest := dest, bytes := bytes,
                     dtype := dtype, comm := comm);
      Store(lastreq, r, k);
      assert live == Step(old(live), Op.Create(r));
    }

    /** vt_iorequest_create. Tag, destination, size and communicator keep what the slot held before. */
    method CreateIo(request: nat, dtype: nat, matchingid: nat, handleid: nat, fileid: nat, fileop: nat, fill: Request)
      requires Valid()
      modifies this, blocks, set b | b in blocks :: b.req
      ensures Valid() && saved == old(saved)
      ensures exists r: Request ::
        && live == Step(old(live), Op.Create(r))
        && r.request == request && r.flags == Flags(false, false, true, false, false, false) && r.dtype == dtype
        && r.matchingid == matchingid && r.handleid == handleid && r.fileid == fileid && r.fileop == fileop
    {
      hide Linked, Holds;
      NextSlot(fill);
      ghost var k := |live| - 1;
      SlotNumber(k);
      var slot := lastreq.block.req[lastreq.idx];
      var r := slot.(request := request, dtype := dtype, flags := Flags(false, false, true, false, false, false),
                     matchingid := matchingid, handleid := handleid, fileid := fileid, fileop := fileop);
      Store(lastreq, r, k);
      assert live == Step(old(live), Op.Create(r));
    }

    /** Slot i of block b holds the entry with its number. */
    lemma Numbering(b: nat, i: nat)
      requires Linked() && Holds(live) && b < |blocks| && i < REQBLK_SIZE && REQBLK_SIZE * b + i < |live|
      ensures blocks[b].req.Length == REQBLK_SIZE && blocks[b].req[i] == live[REQBLK_SIZE * b + i]
      ensures SlotOf(REQBLK_SIZE * b + i) == At(blocks[b], i)
    {
      Numbered(b, i);
    }

    lemma Links(b: nat)
      requires Linked() && b < |blocks|
      ensures head == blocks[0] && blocks[b].next == BlockAt(blocks, b + 1)
    {
    }

    /** vt_request_get: scans the blocks up to the cursor, and finds what a search of the slots in use finds. */
    method Get(request: nat) returns (p: Slot)
      requires Valid()
      ensures p == if Find(live, request) < |live| then SlotOf(Find(live, request)) else Null
    {
      hide Linked, Holds, Find;
      if lastreq == Null {
        NotThere(live, request);
        return Null;
      }
      Links(0);
      var block := head;
      ghost var b := 0;
      while block != null
        invariant 0 <= b <= |blocks| && block == BlockAt(blocks, b)
        invariant REQBLK_SIZE * b < |live| || block == null
        invariant forall j :: 0 <= j < REQBLK_SIZE * b && j < |live| ==> live[j].request != request
        decreases |blocks| - b
      {
        for i := 0 to REQBLK_SIZE
          invariant REQBLK_SIZE * b + i < |live|
          invariant forall j :: 0 <= j < REQBLK_SIZE * b + i ==> live[j].request != request
        {
          Numbering(b, i);
          if block.req[i].request == request {
            FirstAt(live, REQBLK_SIZE * b + i);
            return At(block, i);
          }
          if At(block, i) == lastreq {
            SameSlot(REQBLK_SIZE * b + i, |live| - 1);
            NotThere(live, request);
            return Null;
          }
        }
        Links(b);
        block := block.next;
        b := b + 1;
      }
      NotThere(live, request);
      return Null;
    }

    lemma SameSlot(j: nat, k: nat)
      requires Linked() && j < REQBLK_SIZE * |blocks| && k < REQBLK_SIZE * |blocks| && SlotOf(j) == SlotOf(k)
      ensures j == k
    {
    }

    /** vt_request_free: the last entry takes the place of the deleted one, and the cursor goes
        back one slot, to the block before if need be. */
    method Delete(req: Slot, ghost k: nat)
      requires Valid() && k < |live| && req == SlotOf(k)
      modifies `live, `last, `lastreq, `lastidx, set b | b in blocks :: b.req
      ensures Valid() && live == Remove(old(live), k)
    {
      hide Linked, Holds;
      ghost var n := |live| - 1;
      var r := Load(lastreq, n);
      Store(req, r, k);
      r := Load(lastreq, n);
      var none := r.(flags := Flags(false, false, false, false, false, false), request := 0);
      Store(lastreq, none, n);
      StepBack();
    }

    method StepBack()
      requires Valid() && |live| > 0
      modifies `live, `last, `lastreq, `lastidx
      ensures Valid() && live == old(live)[..|old(live)| - 1]
    {
      ghost var n := |live| - 1;
      ghost var c := n / REQBLK_SIZE;
      if n > 0 {
        NextNumber(n);
      }
      assert last.prev == BlockAt(blocks, c - 1);
      HoldsFewer(live);
      hide Linked, Holds;
      live := live[..n];
      lastidx := lastidx - 1;
      if lastidx < 0 {
        if last.prev != null {
          lastidx := REQBLK_SIZE - 1;
          lastreq := At(last.prev, lastidx);
        } else {
          lastidx := REQBLK_SIZE;
          lastreq := Null;
        }
        last := last.prev;
      } else {
        lastreq := At(lastreq.block, lastreq.idx - 1);
      }
    }

    // ----- the life cycle, as the MPI wrappers drive it -----

    /** The request part of MPI_Start. */
    method Start(request: nat)
      requires Valid()
      modifies `live, set b | b in blocks :: b.req
      ensures Valid() && live == Step(old(live), Op.Start(request))
    {
      hide Linked, Holds;
      ghost var k := Find(live, request);
      var req := Get(request);
      if req != Null {
        var r := Load(req, k);
        if r.flags.persistent {
          Store(req, r.(flags := r.flags.(active := true)), k);
        }
      }
    }

    /** The request part of MPI_Request_free: an active request is only marked. */
    method RequestFree(request: nat)
      requires Valid()
      modifies `live, `last, `lastreq, `lastidx, set b | b in blocks :: b.req
      ensures Valid() && live == Step(old(live), Op.Free(request))
    {
      hide Linked, Holds;
      ghost var k := Find(live, request);
      var req := Get(request);
      if req != Null {
        var r := Load(req, k);
        if r.flags.persistent {
          if r.flags.active {
            Store(req, r.(flags := r.flags.(deallocate := true)), k);
          } else {
            Delete(req, k);
          }
        }
      }
    }

    /** vt_check_request for the entry a lookup found, without the records it writes. */
    method Check(req: Slot, ghost request: nat)
      requires Valid() && req == (if Find(live, request) < |live| then SlotOf(Find(live, request)) else Null)
      modifies `live, `last, `lastreq, `lastidx, set b | b in blocks :: b.req
      ensures Valid() && live == Step(old(live), Complete(request))
    {
      hide Linked, Holds;
      ghost var k := Find(live, request);
      if req == Null {
        return;
      }
      var r := Load(req, k);
      if r.flags.persistent && !r.flags.active {
        return;
      }
      if r.flags.persistent {
        var inactive := r.(flags := r.flags.(active := false));
        Store(req, inactive, k);
        if inactive.flags.deallocate {
          Delete(req, k);
          assert live == Remove(old(live), k);
        }
      } else {
        Delete(req, k);
      }
    }

    /** vt_save_request_array: the array grows when it is too small and never shrinks. */
    method SaveArray(requests: seq<nat>)
      requires Valid()
      modifies `saved
      ensures Valid() && requests <= saved && |saved| >= |old(saved)|
    {
      saved := requests + (if |requests| < |saved| then saved[|requests|..] else []);
    }

    /** The loop of MPI_Waitall over the saved handles, each looked up afresh. */
    method Waitall(requests: seq<nat>)
      requires Valid()
      modifies this, set b | b in blocks :: b.req
      ensures Valid() && live == CompleteAll(old(live), requests)
      ensures blocks == old(blocks)
    {
      hide Linked, Holds, Cursor, Step, CompleteAll, Find;
      CompleteNothing(live);
      SaveArray(requests);
      assert requests[..0] == [];
      for i := 0 to |requests|
        invariant Valid() && requests <= saved && blocks == old(blocks)
        invariant live == CompleteAll(old(live), requests[..i])
      {
        var req := Get(saved[i]);
        Check(req, saved[i]);
        assert requests[..i + 1] == requests[..i] + [saved[i]];
        CompleteAllSnoc(old(live), requests[..i], saved[i]);
      }
      assert requests[..|requests|] == requests;
    }

    /** The loop of MPI_Waitsome over the indices MPI reports as completed. */
    method Waitsome(requests: seq<nat>, indices: seq<nat>)
      requires Valid() && forall i :: 0 <= i < |indices| ==> indices[i] < |requests|
      modifies this, set b | b in blocks :: b.req
      ensures Valid()
      ensures live == CompleteAll(old(live), seq(|indices|, i requires 0 <= i < |indices| => requests[indices[i]]))
    {
      hide Linked, Holds, Cursor, Step, CompleteAll, Find;
      CompleteNothing(live);
      SaveArray(requests);
      ghost var hs := seq(|indices|, i requires 0 <= i < |indices| => requests[indices[i]]);
      assert hs[..0] == [];
      for i := 0 to |indices|
        invariant Valid() && requests <= saved && blocks == old(blocks)
        invariant live == CompleteAll(old(live), hs[..i])
      {
        var h := saved[indices[i]];
        var req := Get(h);
        Check(req, h);
        assert hs[..i + 1] == hs[..i] + [h];
        CompleteAllSnoc(old(live), hs[..i], h);
      }
      assert hs[..|hs|] == hs;
    }
  }

  lemma FirstAt(rs: seq<Request>, k: nat)
    requires k < |rs| && forall j :: 0 <= j < k ==> rs[j].request != rs[k].request
    ensures Find(rs, rs[k].request) == k
  {
  }

  lemma NotThere(rs: seq<Request>, h: nat)
    requires forall j :: 0 <= j < |rs| ==> rs[j].request != h
    ensures Find(rs, h) == |rs|
  {
  }
}
