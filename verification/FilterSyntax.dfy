/** The rank selection of a filter file's '@' lines (rfg_filter.c): the parser as the source's
    character loop takes its branches, and what it makes of a list of ranks and rank ranges. */
module FilterSyntax {
  import opened Options

  // ----- characters and numbers -----

  predicate IsDigit(c: char) {
    '0' <= c <= '9'
  }

  predicate IsBlank(c: char) {
    c == ' ' || c == '\t'
  }

  predicate IsSpace(c: char) {
    c == ' ' || '\t' <= c <= '\r'
  }

  /** The character a pointer into a C string points to. */
  function At(s: string, i: nat): char {
    if i < |s| then s[i] else '\0'
  }

  function SkipBlanks(s: string): (r: string)
    ensures |r| <= |s| && !IsBlank(At(r, 0))
  {
    if |s| > 0 && IsBlank(s[0]) then SkipBlanks(s[1..]) else s
  }

  function SkipSpaces(s: string): (r: string)
    ensures |r| <= |s|
  {
    if |s| > 0 && IsSpace(s[0]) then SkipSpaces(s[1..]) else s
  }

  /** Blanks are spaces and tabs; a number may also stand behind other white space. */
  lemma WhatIsSkipped(c: char, s: string)
    ensures SkipBlanks([c] + s) == if c == ' ' || c == '\t' then SkipBlanks(s) else [c] + s
    ensures SkipSpaces([c] + s) ==
            if c in {' ', '\t', '\n', '\U{000b}', '\U{000c}', '\r'} then SkipSpaces(s) else [c] + s
  {
    assert ([c] + s)[1..] == s;
  }

  /** Reads on in a decimal number whose first digits gave acc. */
  function Scan(s: string, acc: nat): (r: (nat, string))
    ensures |r.1| <= |s|
    decreases |s|
  {
    if |s| > 0 && IsDigit(s[0]) then Scan(s[1..], acc * 10 + (s[0] - '0') as nat) else (acc, s)
  }

  /** strtol in base 10: value and rest; nothing is consumed when there is no number. */
  function StrTol(s: string): (r: (int, string))
    ensures |r.1| <= |s|
    ensures IsDigit(At(s, 0)) ==> |r.1| < |s| && r.0 >= 0
  {
    var t := SkipSpaces(s);
    var u := if At(t, 0) == '-' || At(t, 0) == '+' then t[1..] else t;
    if !IsDigit(At(u, 0)) then (0, s)
    else
      var (v, rest) := Scan(u, 0);
      (if At(t, 0) == '-' then -(v as int) else v as int, rest)
  }

  /** Outside these strtol reports a range error. */
  predicate FitsLong(v: int) {
    -0x8000_0000_0000_0000 <= v < 0x8000_0000_0000_0000
  }

  /** The long assigned to an int. */
  function Int32(v: int): int {
    (v + 0x8000_0000) % 0x1_0000_0000 - 0x8000_0000
  }

  /** It keeps 32 bits, read as a signed number. */
  lemma Int32Wraps(v: int)
    ensures -0x8000_0000 <= Int32(v) < 0x8000_0000 && (Int32(v) - v) % 0x1_0000_0000 == 0
  {
    var m := v + 0x8000_0000;
    assert m == m / 0x1_0000_0000 * 0x1_0000_0000 + m % 0x1_0000_0000;
    assert Int32(v) - v == -(m / 0x1_0000_0000) * 0x1_0000_0000;
  }

  function Digits(n: nat): (s: string)
    ensures |s| > 0 && IsDigit(s[0])
  {
    if n < 10 then ['0' + n as char] else Digits(n / 10) + ['0' + (n % 10) as char]
  }

  lemma {:induction false} ScanDigits(n: nat, rest: string)
    ensures Scan(Digits(n) + rest, 0) == Scan(rest, n)
  {
    if n < 10 {
      assert (Digits(n) + rest)[1..] == rest;
    } else {
      var d := ['0' + (n % 10) as char];
      assert Digits(n) + rest == Digits(n / 10) + (d + rest);
      ScanDigits(n / 10, d + rest);
      assert (d + rest)[1..] == rest;
    }
  }

  // ----- the parser -----

  /** included: the rank is selected; off: and it is to be switched off. */
  datatype Parsed = Failed | Ranks(included: bool, off: bool)

  /** The test the source makes for the pair (a, b); b is -1 when there is no upper end. */
  predicate Selected(a: int, b: int, rank: int) {
    a == rank || (a < rank && rank <= b)
  }

  predicate StartsWithOff(s: string) {
    At(s, 0) == 'O' && At(s, 1) == 'F' && At(s, 2) == 'F'
  }

  /** The loop behind '@', branch by branch. a and b are -1 while not read. */
  function ParseRanks(s: string, a: int, b: int, inc: bool, rank: int): Parsed
    decreases |s|
  {
    var p := SkipBlanks(s);
    if IsDigit(At(p, 0)) then
      var (v, q) := StrTol(p);
      if FitsLong(v) then ParseRanks(q, Int32(v), b, inc, rank) else Failed
    else if At(p, 0) == '-' && At(p, 1) == '-' && a != -1 then
      var inc' := inc || Selected(a, b, rank);
      if StartsWithOff(SkipBlanks(p[2..])) then Ranks(inc', inc') else Failed
    else if At(p, 0) == '-' && At(p, 1) != '\0' && a != -1 then
      var (v, q) := StrTol(p[1..]);
      if FitsLong(v) then ParseRanks(q, a, Int32(v), inc, rank) else Failed
    else if (At(p, 0) == ';' || At(p, 0) == ',') && a != -1 then
      ParseRanks(p[1..], -1, -1, inc || Selected(a, b, rank), rank)
    else if At(p, 0) == '\0' && a != -1 then
      Ranks(inc || Selected(a, b, rank), false)
    else Failed
  }

  /** The loop itself. */
  method ParseClause(line: string, rank: int) returns (r: Parsed)
    requires |line| > 0
    ensures r == ParseRanks(line[1..], -1, -1, false, rank)
  {
    var a, b, p, includes := -1, -1, line[1..], false;
    while true
      invariant ParseRanks(p, a, b, includes, rank) == ParseRanks(line[1..], -1, -1, false, rank)
      decreases |p|
    {
      p := SkipBlanks(p);
      BlanksSkipped(p);
      if IsDigit(At(p, 0)) {
        var (v, q) := StrTol(p);
        if !FitsLong(v) {
          return Failed;
        }
        a, p := Int32(v), q;
      } else if At(p, 0) == '-' && At(p, 1) == '-' && a != -1 {
        if Selected(a, b, rank) {
          includes := true;
        }
        p := SkipBlanks(p[2..]);
        if StartsWithOff(p) {
          return Ranks(includes, includes);
        }
        return Failed;
      } else if At(p, 0) == '-' && At(p, 1) != '\0' && a != -1 {
        var (v, q) := StrTol(p[1..]);
        if !FitsLong(v) {
          return Failed;
        }
        b, p := Int32(v), q;
      } else if (At(p, 0) == ';' || At(p, 0) == ',') && a != -1 {
        p := p[1..];
        if Selected(a, b, rank) {
          includes := true;
        }
        a, b := -1, -1;
      } else if At(p, 0) == '\0' && a != -1 {
        return Ranks(includes || Selected(a, b, rank), false);
      } else {
        return Failed;
      }
    }
  }

  lemma BlanksSkipped(p: string)
    requires !IsBlank(At(p, 0))
    ensures SkipBlanks(p) == p
  {
  }

  // ----- rank lists -----

  /** The upper end of a range and the blanks around it. */
  datatype Upper = Upper(gap: string, hi: nat, tail: string)

  /** One item of a rank list: a number or a range, with blanks, and the separator behind it. */
  datatype Item = Item(lead: string, lo: nat, mid: string, range: Option<Upper>, sep: char)

  predicate Blanks(s: string) {
    forall i :: 0 <= i < |s| ==> IsBlank(s[i])
  }

  predicate ItemOk(it: Item) {
    && Blanks(it.lead) && Blanks(it.mid) && it.lo < 0x8000_0000
    && (it.sep == ';' || it.sep == ',')
    && (it.range.Some? ==> Blanks(it.range.value.gap) && Blanks(it.range.value.tail) && it.range.value.hi < 0x8000_0000)
  }

  function RangeText(it: Item): string {
    match it.range
    case None => ""
    case Some(u) => "-" + u.gap + Digits(u.hi) + u.tail
  }

  function ItemText(it: Item): string {
    it.lead + Digits(it.lo) + it.mid + RangeText(it)
  }

  function ListText(items: seq<Item>): string {
    if |items| == 0 then ""
    else if |items| == 1 then ItemText(items[0])
    else ItemText(items[0]) + [items[0].sep] + ListText(items[1..])
  }

  /** The optional end of the line that switches the ranks off. */
  datatype Ending = Plain | Off(gap: string, junk: string)

  function EndingText(e: Ending): string {
    match e
    case Plain => ""
    case Off(gap, junk) => "--" + gap + "OFF" + junk
  }

  predicate InItem(it: Item, rank: int) {
    rank == it.lo || (it.range.Some? && it.lo < rank <= it.range.value.hi)
  }

  predicate InList(items: seq<Item>, rank: int) {
    exists i :: 0 <= i < |items| && InItem(items[i], rank)
  }

  /** A range selects the ranks between its ends iff they are in order; otherwise it selects its first. */
  lemma RangeIsInterval(it: Item)
    requires it.range.Some?
    ensures (forall rank :: InItem(it, rank) <==> it.lo <= rank <= it.range.value.hi) <==> it.lo <= it.range.value.hi
  {
    assert InItem(it, it.lo);
  }

  /** A number selects itself, a range with its ends in order the ranks from one to the other, and any
      other range its first. */
  lemma ItemSelects(it: Item, rank: int)
    ensures InItem(it, rank) <==>
      match it.range
      case None => rank == it.lo
      case Some(u) => if it.lo <= u.hi then it.lo <= rank <= u.hi else rank == it.lo
  {
  }

  lemma {:induction false} SkipThese(blanks: string, s: string)
    requires Blanks(blanks)
    ensures SkipBlanks(blanks + s) == SkipBlanks(s)
    ensures SkipSpaces(blanks + s) == SkipSpaces(s)
  {
    if |blanks| == 0 {
      assert blanks + s == s;
    } else {
      assert (blanks + s)[1..] == blanks[1..] + s;
      SkipThese(blanks[1..], s);
    }
  }

  /** Blanks in front change nothing. */
  lemma ParseBlanks(blanks: string, s: string, a: int, b: int, inc: bool, rank: int)
    requires Blanks(blanks)
    ensures ParseRanks(blanks + s, a, b, inc, rank) == ParseRanks(s, a, b, inc, rank)
  {
    SkipThese(blanks, s);
  }

  lemma StrTolDigits(blanks: string, n: nat, rest: string)
    requires Blanks(blanks) && !IsDigit(At(rest, 0))
    ensures StrTol(blanks + (Digits(n) + rest)) == (n, rest)
  {
    var s := Digits(n) + rest;
    SkipThese(blanks, s);
    assert s[0] == Digits(n)[0];
    ScanDigits(n, rest);
  }

  /** A number as it is written, with a sign if it is negative. */
  function Number(v: int): (s: string)
    ensures |s| > 0
  {
    if v < 0 then "-" + Digits(-v) else Digits(v)
  }

  lemma StrTolNumber(blanks: string, v: int, rest: string)
    requires Blanks(blanks) && !IsDigit(At(rest, 0))
    ensures StrTol(blanks + (Number(v) + rest)) == (v, rest)
  {
    if v < 0 {
      var u := Digits(-v) + rest;
      assert Number(v) + rest == "-" + u;
      SkipThese(blanks, "-" + u);
      assert ("-" + u)[1..] == u && u[0] == Digits(-v)[0];
      ScanDigits(-v, rest);
    } else {
      StrTolDigits(blanks, v, rest);
    }
  }

  lemma ParseNumber(n: nat, rest: string, a: int, b: int, inc: bool, rank: int)
    requires n < 0x8000_0000 && !IsDigit(At(rest, 0))
    ensures ParseRanks(Digits(n) + rest, a, b, inc, rank) == ParseRanks(rest, n, b, inc, rank)
  {
    var s := Digits(n) + rest;
    assert s[0] == Digits(n)[0];
    BlanksSkipped(s);
    StrTolDigits("", n, rest);
    assert "" + s == s;
  }

  lemma ParseUpper(u: Upper, rest: string, a: nat, inc: bool, rank: int)
    requires Blanks(u.gap) && Blanks(u.tail) && u.hi < 0x8000_0000 && !IsDigit(At(rest, 0))
    ensures ParseRanks("-" + u.gap + Digits(u.hi) + u.tail + rest, a, -1, inc, rank) ==
            ParseRanks(rest, a, u.hi, inc, rank)
  {
    hide StrTol, Digits, Selected;
    var after := u.gap + (Digits(u.hi) + (u.tail + rest));
    var s := "-" + after;
    assert "-" + u.gap + Digits(u.hi) + u.tail + rest == s;
    assert s[1..] == after;
    BlanksSkipped(s);
    assert !IsDigit(At(u.tail + rest, 0));
    StrTolDigits(u.gap, u.hi, u.tail + rest);
    assert At(s, 1) != '-' && At(s, 1) != '\0' by {
      assert Digits(u.hi)[0] == (Digits(u.hi) + (u.tail + rest))[0];
    }
    ParseBlanks(u.tail, rest, a, u.hi, inc, rank);
  }

  /** One item is read into a and b. */
  lemma ParseItem(it: Item, rest: string, inc: bool, rank: int)
    requires ItemOk(it) && !IsDigit(At(rest, 0))
    ensures ParseRanks(ItemText(it) + rest, -1, -1, inc, rank) ==
            ParseRanks(rest, it.lo, if it.range.None? then -1 else it.range.value.hi, inc, rank)
  {
    hide ParseRanks, StrTol, Digits;
    var behind := it.mid + (RangeText(it) + rest);
    assert ItemText(it) + rest == it.lead + (Digits(it.lo) + behind);
    assert !IsDigit(At(behind, 0));
    ParseBlanks(it.lead, Digits(it.lo) + behind, -1, -1, inc, rank);
    ParseNumber(it.lo, behind, -1, -1, inc, rank);
    ParseBlanks(it.mid, RangeText(it) + rest, it.lo, -1, inc, rank);
    if it.range.Some? {
      ParseUpper(it.range.value, rest, it.lo, inc, rank);
      assert RangeText(it) + rest == "-" + it.range.value.gap + Digits(it.range.value.hi) + it.range.value.tail + rest;
    } else {
      assert RangeText(it) + rest == rest;
    }
  }

  lemma ParseEnding(e: Ending, a: nat, b: int, inc: bool, rank: int)
    requires e.Off? ==> Blanks(e.gap)
    ensures
      var inc' := inc || Selected(a, b, rank);
      ParseRanks(EndingText(e), a, b, inc, rank) == Ranks(inc', e.Off? && inc')
  {
    if e.Off? {
      var s := EndingText(e);
      assert s[2..] == e.gap + ("OFF" + e.junk);
      SkipThese(e.gap, "OFF" + e.junk);
      BlanksSkipped("OFF" + e.junk);
      BlanksSkipped(s);
    }
  }

  /** The last item of a list is still in a and b when the parser reaches what follows the list. */
  lemma {:induction false} ReadList(items: seq<Item>, rest: string, inc: bool, rank: int) returns (a: nat, b: int)
    requires |items| > 0 && (forall i :: 0 <= i < |items| ==> ItemOk(items[i])) && rank >= 0
    requires !IsDigit(At(rest, 0))
    ensures
      var inc' := inc || InList(items[..|items| - 1], rank);
      && ParseRanks(ListText(items) + rest, -1, -1, inc, rank) == ParseRanks(rest, a, b, inc', rank)
      && (inc' || Selected(a, b, rank) <==> inc || InList(items, rank))
  {
    hide ItemText, ItemOk, ParseRanks, InList;
    var it := items[0];
    a, b := it.lo, if it.range.None? then -1 else it.range.value.hi;
    InListFirst(items, rank);
    if |items| == 1 {
      ParseItem(it, rest, inc, rank);
      assert items[..0] == [] == items[1..];
    } else {
      var more := ListText(items[1..]) + rest;
      assert ListText(items) + rest == ItemText(it) + ([it.sep] + more);
      ParseSeparator(it, more, a, b, inc, rank);
      ParseItem(it, [it.sep] + more, inc, rank);
      InListFirst(items[..|items| - 1], rank);
      assert items[..|items| - 1][1..] == items[1..][..|items| - 2];
      a, b := ReadList(items[1..], rest, inc || Selected(a, b, rank), rank);
    }
  }

  /** For every rank list, blanks and all, the loop finds the rank selected iff it is one of the
      numbers or lies in one of the ranges, and ends with OFF iff the line does and selects it. */
  lemma RankListMeaning(items: seq<Item>, e: Ending, inc: bool, rank: int)
    requires |items| > 0 && (forall i :: 0 <= i < |items| ==> ItemOk(items[i])) && rank >= 0
    requires e.Off? ==> Blanks(e.gap)
    ensures
      var inc' := inc || InList(items, rank);
      ParseRanks(ListText(items) + EndingText(e), -1, -1, inc, rank) == Ranks(inc', e.Off? && inc')
  {
    hide ListText, ItemOk, ParseRanks, InList;
    EndingStart(e);
    var a, b := ReadList(items, EndingText(e), inc, rank);
    ParseEnding(e, a, b, inc || InList(items[..|items| - 1], rank), rank);
  }

  /** A rank list must begin with a digit, and so must what follows a separator. */
  lemma NoDigitFails(blanks: string, rest: string, inc: bool, rank: int)
    requires Blanks(blanks) && !IsDigit(At(rest, 0)) && !IsBlank(At(rest, 0))
    ensures ParseRanks(blanks + rest, -1, -1, inc, rank) == Failed
  {
    ParseBlanks(blanks, rest, -1, -1, inc, rank);
    BlanksSkipped(rest);
  }

  /** Behind a list only blanks, a separator with more items, or an OFF may follow. */
  lemma BadEndingFails(items: seq<Item>, rest: string, inc: bool, rank: int)
    requires |items| > 0 && (forall i :: 0 <= i < |items| ==> ItemOk(items[i])) && rank >= 0
    requires |rest| > 0 && !IsDigit(rest[0]) && !IsBlank(rest[0])
    requires
      || rest[0] !in {'-', ';', ',', '\0'}
      || ((rest[0] == ';' || rest[0] == ',') && rest[1..] != "" && !IsDigit(rest[1]) && !IsBlank(rest[1]))
      || rest == ";" || rest == "," || rest == "-"
      || (|rest| > 1 && rest[0] == rest[1] == '-' && !("OFF" <= SkipBlanks(rest[2..])))
    ensures ParseRanks(ListText(items) + rest, -1, -1, inc, rank) == Failed
  {
    hide ListText, ItemOk, InList, Selected, StrTol;
    var a, b := ReadList(items, rest, inc, rank);
    BlanksSkipped(rest);
    if rest[0] == ';' || rest[0] == ',' {
      BlanksSkipped(rest[1..]);
    }
  }

  lemma EndingStart(e: Ending)
    ensures !IsDigit(At(EndingText(e), 0))
  {
  }

  lemma ParseSeparator(it: Item, rest: string, a: nat, b: int, inc: bool, rank: int)
    requires ItemOk(it)
    ensures !IsDigit(it.sep)
    ensures ParseRanks([it.sep] + rest, a, b, inc, rank) == ParseRanks(rest, -1, -1, inc || Selected(a, b, rank), rank)
  {
    var s := [it.sep] + rest;
    BlanksSkipped(s);
    assert s[1..] == rest;
  }

  lemma InListFirst(items: seq<Item>, rank: int)
    requires |items| > 0
    ensures InList(items, rank) <==> InItem(items[0], rank) || InList(items[1..], rank)
    ensures |items| == 1 ==> !InList(items[1..], rank)
  {
    assert forall i :: 0 <= i < |items| - 1 ==> items[1..][i] == items[i + 1];
    if InList(items, rank) && !InItem(items[0], rank) {
      var i :| 0 <= i < |items| && InItem(items[i], rank);
      assert InItem(items[1..][i - 1], rank);
    }
  }
}
