/** The pairing of processes in the rounds of the clock synchronization. */
module SyncRounds {

  /** (int)(n/2.0 + .5), the size of the first half. */
  function Half(n: nat): nat {
    (n + 1) / 2
  }

  /** ceil(log2 n). */
  function Slots(n: nat): nat {
    if n <= 1 then 0 else 1 + Slots((n + 1) / 2)
  }

  function Pow2(k: nat): nat {
    if k == 0 then 1 else 2 * Pow2(k - 1)
  }

  /** Slots is the least exponent whose power of two reaches n. */
  lemma {:induction false} SlotsIsCeilLog2(n: nat)
    requires n >= 1
    ensures n <= Pow2(Slots(n))
    ensures n > 1 ==> Pow2(Slots(n) - 1) < n
  {
    if n > 1 {
      SlotsIsCeilLog2((n + 1) / 2);
    }
  }

  /** esync_commpartner, with the arithmetic of the source. All operands of % are non-negative. */
  function Partner(id: nat, n: nat, round: nat): (q: nat)
    requires n >= 1
  {
    var h := Half(n);
    if id < h then
      var i := id - round % h;
      (-i - 1 + h) % h + h
    else
      var i := Product(id, h) % h;
      var j := (i + h) % h;
      (j + round) % h
  }

  /** The one product in esync_commpartner. */
  function Product(id: nat, h: nat): nat
    requires 1 <= h <= id
  {
    (h - 1) * (id - h + 1)
  }

  /** It fits a 32-bit integer for every process iff there are at most 92682 of them. */
  lemma PartnerFitsInt32(n: nat)
    requires n >= 1
    ensures (forall id :: Half(n) <= id < n ==> Product(id, Half(n)) < 0x8000_0000) <==> n <= 92682
  {
    var h := Half(n);
    if n <= 92682 {
      forall id | h <= id < n ensures Product(id, h) < 0x8000_0000 {
        ProductMonotone(h - 1, 46340, id - h + 1, 46341);
      }
    } else {
      ProductMonotone(46341, h - 1, 46341, n - h);
      assert Product(n - 1, h) >= 46341 * 46341;
    }
  }

  lemma ProductMonotone(a: nat, b: nat, c: nat, d: nat)
    requires a <= b && c <= d
    ensures a * c <= b * d
  {
    assert b * d == a * c + a * (d - c) + (b - a) * d;
  }

  // ----- modular arithmetic -----

  lemma ModOf(x: int, h: nat, q: int, r: int)
    requires h > 0 && x == q * h + r && 0 <= r < h
    ensures x % h == r
  {
    var d := x / h;
    assert (d - q) * h == r - x % h;
    if d > q {
      ProductMonotone(1, d - q, h, h);
    } else if d < q {
      ProductMonotone(1, q - d, h, h);
    }
  }

  /** Reduces x by taking one h off, or adding one, as long as it leaves the range. */
  lemma ModShift(x: int, h: int)
    requires h > 0
    ensures 0 <= x < h ==> x % h == x
    ensures h <= x < 2 * h ==> x % h == x - h
    ensures -h <= x < 0 ==> x % h == x + h
  {
    if 0 <= x < h {
      ModOf(x, h, 0, x);
    } else if h <= x < 2 * h {
      ModOf(x, h, 1, x - h);
    } else if -h <= x < 0 {
      ModOf(x, h, -1, x + h);
    }
  }

  /** For rounds below Half(n) the partner is found by plain additions. */
  lemma PartnerInRound(id: nat, n: nat, round: nat)
    requires n >= 1 && round < Half(n) && id < 2 * Half(n)
    ensures
      var h := Half(n);
      var place := if id < h then id else id - h;
      Partner(id, n, round) == (if round <= place then 2 * h else h) - 1 - id + round
  {
    if id < Half(n) {
      PartnerOfFirstHalf(id, Half(n), round);
    } else {
      PartnerOfSecondHalf(id - Half(n), Half(n), round);
    }
  }

  lemma PartnerOfFirstHalf(id: nat, h: nat, round: nat)
    requires round < h && id < h
    ensures (-(id - round % h) - 1 + h) % h == if round <= id then h - 1 - id + round else round - 1 - id
  {
    ModShift(round, h);
    ModShift(-(id - round) - 1 + h, h);
  }

  lemma PartnerOfSecondHalf(k: nat, h: nat, round: nat)
    requires round < h && k < h
    ensures ((Product(h + k, h) % h + h) % h + round) % h == if round <= k then h - 1 - k + round else round - 1 - k
  {
    ProductMod(k, h);
    ModShift(h - 1 - k + h, h);
    ModShift(h - 1 - k + round, h);
  }

  lemma ProductMod(k: nat, h: nat)
    requires k < h
    ensures Product(h + k, h) % h == h - 1 - k
  {
    assert Product(h + k, h) == k * h + (h - 1 - k);
    ModOf(Product(h + k, h), h, k, h - 1 - k);
  }

  // ----- each round is a matching -----

  /** The round in which two slots of different halves meet. */
  function MeetRound(x: nat, y: nat, n: nat): nat
    requires n >= 1
  {
    (x + y + 1) % Half(n)
  }

  predicate Opposite(x: nat, y: nat, n: nat) {
    x < 2 * Half(n) && y < 2 * Half(n) && (x < Half(n) <==> y >= Half(n))
  }

  /** y is the partner of x iff they lie in different halves and the round is the one they meet in. */
  lemma PartnerIffMeet(x: nat, y: nat, n: nat, round: nat)
    requires n >= 1 && round < Half(n) && x < 2 * Half(n)
    ensures Partner(x, n, round) == y <==> Opposite(x, y, n) && MeetRound(x, y, n) == round
  {
    var h := Half(n);
    PartnerInRound(x, n, round);
    var q := Partner(x, n, round);
    Meet(x, q, h, round);
    if Opposite(x, y, n) && MeetRound(x, y, n) == round {
      Meet(x, y, h, round);
    }
  }

  lemma Meet(x: nat, y: nat, h: nat, round: nat)
    requires h >= 1 && x < 2 * h && y < 2 * h && (x < h <==> y >= h) && round < h
    ensures (x + y + 1) % h == round <==>
            x + y + 1 == h + round || x + y + 1 == 2 * h + round
  {
    var s := x + y + 1;
    assert h + 1 <= s <= 3 * h;
    if s < 2 * h {
      ModOf(s, h, 1, s - h);
    } else if s < 3 * h {
      ModOf(s, h, 2, s - 2 * h);
    } else {
      ModOf(s, h, 3, 0);
    }
  }

  /** Partners point at each other, in different halves. */
  lemma RoundIsMatching(id: nat, n: nat, round: nat)
    requires n >= 1 && round < Half(n) && id < 2 * Half(n)
    ensures Opposite(id, Partner(id, n, round), n)
    ensures Partner(id, n, round) != id
    ensures Partner(Partner(id, n, round), n, round) == id
  {
    var q := Partner(id, n, round);
    PartnerIffMeet(id, q, n, round);
    PartnerIffMeet(q, id, n, round);
  }

  /** At most one process sits a round out, and only if their number is odd. */
  lemma AtMostOneIdle(x: nat, y: nat, n: nat, round: nat)
    requires n >= 1 && round < Half(n) && x < n && y < n
    requires Partner(x, n, round) >= n && Partner(y, n, round) >= n
    ensures x == y && n % 2 == 1
  {
    hide Partner, MeetRound;
    PartnerIffMeet(x, Partner(x, n, round), n, round);
    PartnerIffMeet(y, Partner(y, n, round), n, round);
    RoundIsMatching(x, n, round);
    RoundIsMatching(y, n, round);
  }

  /** No pair meets twice. */
  lemma NoPairRepeats(id: nat, n: nat, r1: nat, r2: nat)
    requires n >= 1 && r1 < Half(n) && r2 < Half(n) && id < n
    requires Partner(id, n, r1) == Partner(id, n, r2)
    ensures r1 == r2
  {
    PartnerIffMeet(id, Partner(id, n, r1), n, r1);
    PartnerIffMeet(id, Partner(id, n, r1), n, r2);
  }

  /** There are never more rounds than distinct partners. */
  lemma {:induction false} SlotsWithinHalf(n: nat)
    requires n >= 1
    ensures Slots(n) <= Half(n)
  {
    if n > 2 {
      SlotsWithinHalf((n + 1) / 2);
    }
  }

  // ----- the measured pairs connect all processes -----

  /** x and y are both processes and are paired in one of the rounds. */
  predicate Measured(x: nat, y: nat, n: nat)
    requires n >= 1
  {
    x < n && y < n && exists round :: 0 <= round < Slots(n) && Partner(x, n, round) == y
  }

  ghost predicate IsPath(path: seq<nat>, n: nat)
    requires n >= 1
  {
    && |path| > 0 && path[0] < n
    && forall i :: 0 < i < |path| ==> Measured(path[i - 1], path[i], n)
  }

  ghost predicate Connected(x: nat, y: nat, n: nat)
    requires n >= 1
  {
    exists path :: IsPath(path, n) && path[0] == x && path[|path| - 1] == y
  }

  lemma MeasuredSymmetric(x: nat, y: nat, n: nat)
    requires n >= 1 && Measured(x, y, n)
    ensures Measured(y, x, n)
  {
    var round: nat :| round < Slots(n) && Partner(x, n, round) == y;
    SlotsWithinHalf(n);
    RoundIsMatching(x, n, round);
  }

  lemma ConnectedStep(x: nat, y: nat, z: nat, n: nat)
    requires n >= 1 && Connected(x, y, n) && Measured(y, z, n)
    ensures Connected(x, z, n)
  {
    var path :| IsPath(path, n) && path[0] == x && path[|path| - 1] == y;
    var longer := path + [z];
    assert IsPath(longer, n);
    assert longer[0] == x && longer[|longer| - 1] == z;
  }

  lemma ConnectedSelf(x: nat, n: nat)
    requires n >= 1 && x < n
    ensures Connected(x, x, n)
  {
    assert IsPath([x], n);
  }

  /** Over the pair's common partner, member a of the first half reaches a + 1, and the last reaches 0. */
  lemma NextInHalf(a: nat, n: nat)
    requires n >= 3 && 1 <= a < Half(n)
    ensures
      var mid := 2 * Half(n) - 1 - a;
      Measured(a, mid, n) && Measured(mid, (a + 1) % Half(n), n)
  {
    var h := Half(n);
    assert Slots(n) >= 2;
    PartnerInRound(a, n, 0);
    PartnerInRound(2 * h - 1 - a, n, 1);
    ModShift(a + 1, h);
  }

  lemma {:induction false} FirstHalfFromZero(a: nat, n: nat)
    requires n >= 1 && a < Half(n)
    ensures Connected(0, a, n)
    decreases Half(n) - a
  {
    var h := Half(n);
    if a == 0 {
      ConnectedSelf(0, n);
    } else {
      var next := (a + 1) % h;
      ModShift(a + 1, h);
      if a + 1 < h {
        FirstHalfFromZero(a + 1, n);
      } else {
        ConnectedSelf(0, n);
      }
      NextInHalf(a, n);
      var mid := 2 * h - 1 - a;
      MeasuredSymmetric(a, mid, n);
      MeasuredSymmetric(mid, next, n);
      ConnectedStep(0, next, mid, n);
      ConnectedStep(0, mid, a, n);
    }
  }

  lemma FromZero(x: nat, n: nat)
    requires x < n
    ensures Connected(0, x, n)
  {
    var h := Half(n);
    if x < h {
      FirstHalfFromZero(x, n);
    } else {
      SlotsWithinHalf(n);
      RoundIsMatching(x, n, 0);
      var a := Partner(x, n, 0);
      FirstHalfFromZero(a, n);
      assert Slots(n) >= 1;
      assert Measured(a, x, n);
      ConnectedStep(0, a, x, n);
    }
  }

  lemma {:induction false} PathBackwards(path: seq<nat>, n: nat)
    requires n >= 1 && IsPath(path, n)
    ensures Connected(path[|path| - 1], path[0], n)
  {
    if |path| == 1 {
      ConnectedSelf(path[0], n);
    } else {
      var rest := path[1..];
      assert Measured(path[0], path[1], n);
      assert forall i :: 0 < i < |rest| ==> rest[i - 1] == path[i] && rest[i] == path[i + 1];
      PathBackwards(rest, n);
      MeasuredSymmetric(path[0], path[1], n);
      ConnectedStep(path[|path| - 1], path[1], path[0], n);
    }
  }

  lemma {:induction false} AlongPath(x: nat, path: seq<nat>, i: nat, n: nat)
    requires n >= 1 && IsPath(path, n) && i < |path| && Connected(x, path[0], n)
    ensures Connected(x, path[i], n)
  {
    if i > 0 {
      AlongPath(x, path, i - 1, n);
      ConnectedStep(x, path[i - 1], path[i], n);
    }
  }

  /** For every number of processes the pairs measured in ceil(log2 n) rounds connect any two of
      them, also when n is odd and one slot is empty. */
  lemma AllConnected(x: nat, y: nat, n: nat)
    requires x < n && y < n
    ensures Connected(x, y, n)
  {
    FromZero(x, n);
    FromZero(y, n);
    var toX :| IsPath(toX, n) && toX[0] == 0 && toX[|toX| - 1] == x;
    PathBackwards(toX, n);
    var toY :| IsPath(toY, n) && toY[0] == 0 && toY[|toY| - 1] == y;
    AlongPath(x, toY, |toY| - 1, n);
  }
}
