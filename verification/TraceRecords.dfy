/** The byte format of the trace buffer: length-prefixed, typed, word-aligned records
    (the VTBuf_Entry_* structures), and a parser that recovers them from memory. */
module TraceRecords {
  import opened Options

  type byte = x: int | 0 <= x < 256

  const WORD: nat := 8          // SIZEOF_VOIDP
  const HEADER: nat := 8        // type and length, four bytes each
  const DEF_KINDS: nat := 12    // kinds below this one are definitions
  const KINDS: nat := 33
  const KIND_DEF_COMMENT: nat := 0
  const KIND_ENTER: nat := 12
  const KIND_LEAVE: nat := 13

  const UINT32: nat := 0x1_0000_0000
  const UINT64: nat := 0x1_0000_0000_0000_0000

  /** One buffer entry. Every non-definition kind starts with its 64-bit time stamp. */
  datatype Record =
    | Def(kind: nat, body: seq<byte>)
    | Event(kind: nat, time: nat, body: seq<byte>)
  {
    function Size(): nat {
      HEADER + (if Event? then 8 else 0) + |body|
    }

    predicate Valid() {
      && Size() % WORD == 0
      && Size() < UINT32
      && (Def? ==> kind < DEF_KINDS)
      && (Event? ==> DEF_KINDS <= kind < KINDS && time < UINT64)
    }
  }

  predicate AllValid(rs: seq<Record>) {
    forall i :: 0 <= i < |rs| ==> rs[i].Valid()
  }

  // ----- lengths -----

  /** VTGEN_ALIGN_LENGTH, read as its name says. */
  function AlignLength(bytes: nat): nat {
    if bytes % WORD != 0 then (bytes / WORD + 1) * WORD else bytes
  }

  lemma AlignLengthIsLeast(bytes: nat, m: nat)
    requires m % WORD == 0 && bytes <= m
    ensures AlignLength(bytes) % WORD == 0
    ensures bytes <= AlignLength(bytes) <= m
  {
    assert m == m / WORD * WORD;
  }

  /** The content of an entry filled up to the aligned length. */
  function Padded(content: seq<byte>): (body: seq<byte>)
    ensures content <= body
    ensures |body| == AlignLength(|content|)
  {
    AlignLengthIsLeast(|content|, |content| + WORD - 1 - (|content| + WORD - 1) % WORD);
    content + seq(AlignLength(|content|) - |content|, _ => 0)
  }

  // ----- integers as bytes -----

  function Pow256(w: nat): (p: nat) {
    if w == 0 then 1 else 256 * Pow256(w - 1)
  }

  function Bytes(n: nat, w: nat): (b: seq<byte>)
    ensures |b| == w
  {
    if w == 0 then [] else [n % 256] + Bytes(n / 256, w - 1)
  }

  function Value(b: seq<byte>): nat {
    if |b| == 0 then 0 else b[0] + 256 * Value(b[1..])
  }

  lemma {:induction false} ValueOfBytes(n: nat, w: nat)
    requires n < Pow256(w)
    ensures Value(Bytes(n, w)) == n
  {
    if w > 0 {
      ValueOfBytes(n / 256, w - 1);
      assert Bytes(n, w)[1..] == Bytes(n / 256, w - 1);
    }
  }

  lemma WordRanges()
    ensures Pow256(4) == UINT32
    ensures Pow256(8) == UINT64
  {
    assert Pow256(2) == 65536;
    assert Pow256(4) == 256 * (256 * Pow256(2));
    assert Pow256(6) == 256 * (256 * Pow256(4));
    assert Pow256(8) == 256 * (256 * Pow256(6));
  }

  // ----- records as bytes -----

  function Encode(r: Record): (b: seq<byte>)
    ensures |b| == r.Size()
  {
    Bytes(r.kind, 4) + Bytes(r.Size(), 4) + (if r.Event? then Bytes(r.time, 8) else []) + r.body
  }

  function KindAt(b: seq<byte>): nat
    requires |b| >= HEADER
  {
    Value(b[0..4])
  }

  function LengthAt(b: seq<byte>): nat
    requires |b| >= HEADER
  {
    Value(b[4..8])
  }

  predicate IsDefKind(kind: nat) {
    kind < DEF_KINDS
  }

  /** Reads the one record that fills b. */
  function Decode(b: seq<byte>): Record
    requires |b| >= HEADER
    requires IsDefKind(KindAt(b)) || |b| >= 16
  {
    if IsDefKind(KindAt(b)) then Def(KindAt(b), b[8..])
    else Event(KindAt(b), Value(b[8..16]), b[16..])
  }

  /** Header and content are read back from any memory that starts with the record. */
  lemma DecodeEncode(r: Record, b: seq<byte>)
    requires r.Valid() && Encode(r) <= b
    ensures KindAt(b) == r.kind && LengthAt(b) == r.Size()
    ensures IsDefKind(r.kind) == r.Def?
    ensures KindAt(b[..r.Size()]) == r.kind && Decode(b[..r.Size()]) == r
  {
    WordRanges();
    ValueOfBytes(r.kind, 4);
    ValueOfBytes(r.Size(), 4);
    var e := Encode(r);
    assert b[..r.Size()] == e;
    assert e[0..4] == Bytes(r.kind, 4) == b[0..4];
    assert e[4..8] == Bytes(r.Size(), 4) == b[4..8];
    if r.Event? {
      ValueOfBytes(r.time, 8);
      assert e[8..16] == Bytes(r.time, 8);
      assert e[16..] == r.body;
    } else {
      assert e[8..] == r.body;
    }
  }

  function EncodeAll(rs: seq<Record>): seq<byte> {
    if |rs| == 0 then [] else Encode(rs[0]) + EncodeAll(rs[1..])
  }

  lemma {:induction false} EncodeAllAppend(a: seq<Record>, b: seq<Record>)
    ensures EncodeAll(a + b) == EncodeAll(a) + EncodeAll(b)
  {
    if |a| == 0 {
      assert a + b == b;
    } else {
      assert (a + b)[1..] == a[1..] + b;
      EncodeAllAppend(a[1..], b);
    }
  }

  lemma EncodeOne(r: Record)
    ensures EncodeAll([r]) == Encode(r)
  {
    assert EncodeAll([r][1..]) == [];
  }

  lemma EncodeAllSnoc(rs: seq<Record>, r: Record)
    ensures EncodeAll(rs + [r]) == EncodeAll(rs) + Encode(r)
  {
    EncodeOne(r);
    EncodeAllAppend(rs, [r]);
  }

  /** Splits a packed buffer at record i. */
  lemma EncodeAllAt(rs: seq<Record>, i: nat)
    requires i < |rs|
    ensures EncodeAll(rs[..i + 1]) == EncodeAll(rs[..i]) + Encode(rs[i])
    ensures EncodeAll(rs[i..]) == Encode(rs[i]) + EncodeAll(rs[i + 1..])
  {
    assert rs[..i + 1] == rs[..i] + [rs[i]];
    EncodeAllSnoc(rs[..i], rs[i]);
    assert rs[i..][1..] == rs[i + 1..];
  }

  /** Reads a packed buffer front to back; None when the bytes are not a tiling by records. */
  function Parse(b: seq<byte>): Option<seq<Record>>
    decreases |b|
  {
    if |b| == 0 then Some([])
    else if |b| < HEADER then None
    else
      var n := LengthAt(b);
      if n < HEADER || n > |b| || (!IsDefKind(KindAt(b)) && n < 16) then None
      else
        assert b[..n][0..4] == b[0..4];
        match Parse(b[n..])
        case None => None
        case Some(rest) => Some([Decode(b[..n])] + rest)
  }

  lemma {:induction false} ParseEncodeAll(rs: seq<Record>)
    requires AllValid(rs)
    ensures Parse(EncodeAll(rs)) == Some(rs)
  {
    if |rs| > 0 {
      var b := EncodeAll(rs);
      DecodeEncode(rs[0], b);
      ParseEncodeAll(rs[1..]);
      assert b[rs[0].Size()..] == EncodeAll(rs[1..]);
      assert [rs[0]] + rs[1..] == rs;
    }
  }

  /** Every record starts and ends on a word. */
  lemma {:induction false} EncodeAllAligned(rs: seq<Record>)
    requires AllValid(rs)
    ensures |EncodeAll(rs)| % WORD == 0
  {
    if |rs| > 0 {
      EncodeAllAligned(rs[1..]);
      SumAligned(rs[0].Size(), |EncodeAll(rs[1..])|);
    }
  }

  lemma SumAligned(a: nat, b: nat)
    requires a % WORD == 0 && b % WORD == 0
    ensures (a + b) % WORD == 0
  {
  }
}
