/** The lines of a filter file (rfg_filter.c): rule lines, '@' sections, and which rules are kept
    for a rank. Lines are taken as already split, without newline, and trimmed. */
module FilterFile {
  import opened Options
  import opened FilterSyntax
  import opened CallLimits
  import opened Regions

  // ----- rule lines -----

  /** strstr(line, "--"); |s| if there is none. */
  function FindDashes(s: string): (i: nat)
    ensures i <= |s|
    ensures i < |s| ==> At(s, i) == '-' && At(s, i + 1) == '-'
  {
    if |s| == 0 || (At(s, 0) == '-' && At(s, 1) == '-') then 0 else 1 + FindDashes(s[1..])
  }

  function UpToSemicolon(s: string): (n: nat)
    ensures n <= |s|
    ensures |s| > 0 && s[0] != ';' ==> n > 0
  {
    if |s| == 0 || s[0] == ';' then 0 else 1 + UpToSemicolon(s[1..])
  }

  /** What strtok(line, ";") yields one after the other. */
  function Tokens(s: string): seq<string>
    decreases |s|
  {
    if |s| == 0 then []
    else if s[0] == ';' then Tokens(s[1..])
    else [s[..UpToSemicolon(s)]] + Tokens(s[UpToSemicolon(s)..])
  }

  function TrimLeft(s: string): string {
    if |s| > 0 && s[0] == ' ' then TrimLeft(s[1..]) else s
  }

  function TrimRight(s: string): string {
    if |s| > 0 && s[|s| - 1] == ' ' then TrimRight(s[..|s| - 1]) else s
  }

  /** vt_strtrim. */
  function Trim(s: string): string {
    TrimRight(TrimLeft(s))
  }

  /** The rules of the tokens; tokens of blanks only give none. */
  function Assigns(tokens: seq<string>, climit: int): seq<Assign> {
    if |tokens| == 0 then []
    else (if Trim(tokens[0]) == "" then [] else [Assign(climit, Trim(tokens[0]))]) + Assigns(tokens[1..], climit)
  }

  /** A rule line; None if it cannot be parsed. */
  function ParseRule(line: string): Option<seq<Assign>> {
    var i := FindDashes(line);
    if i == |line| then None
    else
      var tokens := Tokens(line[..i]);
      if |tokens| == 0 then None
      else Some(Assigns(tokens, Stored(StrTol(line[i + 2..]).0)))
  }

  // ----- what rule lines mean -----

  /** A pattern as it stands in a rule line, with the blanks around it. */
  datatype Piece = Piece(lead: string, pattern: string, tail: string) {
    function Text(): string {
      lead + pattern + tail
    }
  }

  function Join(pieces: seq<Piece>): string {
    if |pieces| == 0 then ""
    else if |pieces| == 1 then pieces[0].Text()
    else pieces[0].Text() + ";" + Join(pieces[1..])
  }

  predicate Spaces(s: string) {
    forall i :: 0 <= i < |s| ==> s[i] == ' '
  }

  /** A pattern one can write: not empty, no semicolon, no blank at its ends. */
  predicate PieceOk(p: Piece) {
    && |p.pattern| > 0 && p.pattern[0] != ' ' && p.pattern[|p.pattern| - 1] != ' ' && ';' !in p.pattern
    && Spaces(p.lead) && Spaces(p.tail)
  }

  lemma {:induction false} TokenEnds(p: string, rest: string)
    requires ';' !in p && (rest == "" || rest[0] == ';')
    ensures UpToSemicolon(p + rest) == |p|
  {
    if |p| == 0 {
      assert p + rest == rest;
    } else {
      assert (p + rest)[1..] == p[1..] + rest;
      TokenEnds(p[1..], rest);
    }
  }

  lemma OneToken(p: string, rest: string)
    requires ';' !in p && |p| > 0 && (rest == "" || rest[0] == ';')
    ensures Tokens(p + rest) == [p] + Tokens(rest)
  {
    TokenEnds(p, rest);
    assert (p + rest)[0] == p[0];
    assert (p + rest)[..|p|] == p && (p + rest)[|p|..] == rest;
  }

  lemma {:induction false} LeftTrimmed(lead: string, s: string)
    requires Spaces(lead) && |s| > 0 && s[0] != ' '
    ensures TrimLeft(lead + s) == s
  {
    if |lead| == 0 {
      assert lead + s == s;
    } else {
      assert (lead + s)[1..] == lead[1..] + s;
      LeftTrimmed(lead[1..], s);
    }
  }

  lemma {:induction false} RightTrimmed(s: string, tail: string)
    requires Spaces(tail) && |s| > 0 && s[|s| - 1] != ' '
    ensures TrimRight(s + tail) == s
  {
    if |tail| == 0 {
      assert s + tail == s;
    } else {
      var n := |tail| - 1;
      assert (s + tail)[..|s| + n] == s + tail[..n];
      assert (s + tail)[|s| + n] == ' ';
      RightTrimmed(s, tail[..n]);
    }
  }

  /** Blanks around a pattern are trimmed off. */
  lemma PieceTrimmed(p: Piece)
    requires PieceOk(p)
    ensures Trim(p.Text()) == p.pattern != ""
    ensures |p.Text()| > 0 && ';' !in p.Text()
  {
    assert p.Text() == p.lead + (p.pattern + p.tail);
    LeftTrimmed(p.lead, p.pattern + p.tail);
    RightTrimmed(p.pattern, p.tail);
  }

  function Rules(pieces: seq<Piece>, climit: int): (rules: seq<Assign>)
    ensures |rules| == |pieces|
    ensures forall i :: 0 <= i < |pieces| ==> rules[i] == Assign(climit, pieces[i].pattern)
  {
    seq(|pieces|, i requires 0 <= i < |pieces| => Assign(climit, pieces[i].pattern))
  }

  lemma AssignsFirst(t: string, tokens: seq<string>, climit: int)
    requires Trim(t) != ""
    ensures Assigns([t] + tokens, climit) == [Assign(climit, Trim(t))] + Assigns(tokens, climit)
  {
    assert ([t] + tokens)[1..] == tokens;
  }

  lemma {:induction false} PiecesMeaning(pieces: seq<Piece>, climit: int)
    requires |pieces| > 0 && forall i :: 0 <= i < |pieces| ==> PieceOk(pieces[i])
    ensures |Tokens(Join(pieces))| > 0
    ensures Assigns(Tokens(Join(pieces)), climit) == Rules(pieces, climit)
  {
    hide Trim, PieceOk, Tokens, Assigns;
    var p := pieces[0];
    PieceTrimmed(p);
    if |pieces| == 1 {
      OneToken(p.Text(), "");
      NoTokens(climit);
      assert p.Text() + "" == p.Text();
      AssignsFirst(p.Text(), [], climit);
      assert Rules(pieces, climit) == [Assign(climit, p.pattern)];
    } else {
      var rest := Join(pieces[1..]);
      assert Join(pieces) == p.Text() + (";" + rest);
      OneToken(p.Text(), ";" + rest);
      AfterSemicolon(rest);
      PiecesMeaning(pieces[1..], climit);
      AssignsFirst(p.Text(), Tokens(rest), climit);
      assert Rules(pieces, climit) == [Assign(climit, p.pattern)] + Rules(pieces[1..], climit);
    }
  }

  lemma NoTokens(climit: int)
    ensures Tokens("") == [] && Assigns([], climit) == []
  {
  }

  lemma AfterSemicolon(s: string)
    ensures Tokens(";" + s) == Tokens(s)
  {
    assert (";" + s)[1..] == s;
  }

  lemma {:induction false} DashesAt(s: string, rest: string)
    requires FindDashes(s + "-") == |s| + 1
    ensures FindDashes(s + "--" + rest) == |s|
  {
    assert s + "--" + rest == s + ("--" + rest);
    if |s| > 0 {
      assert (s + "-")[1..] == s[1..] + "-";
      assert (s + ("--" + rest))[1..] == s[1..] + ("--" + rest);
      assert s[1..] + "--" + rest == s[1..] + ("--" + rest);
      assert At(s + "-", 0) == At(s + ("--" + rest), 0) && At(s + "-", 1) == At(s + ("--" + rest), 1);
      DashesAt(s[1..], rest);
    }
  }

  /** A rule line gives every pattern, in order, the limit behind the dashes as it is stored, with
      blanks wherever they may stand. What follows the number is ignored. */
  lemma RuleLineMeaning(pieces: seq<Piece>, gap: string, limit: int, junk: string)
    requires |pieces| > 0 && forall i :: 0 <= i < |pieces| ==> PieceOk(pieces[i])
    requires Blanks(gap) && !IsDigit(At(junk, 0))
    requires FindDashes(Join(pieces) + "-") == |Join(pieces)| + 1
    ensures ParseRule(Join(pieces) + "--" + gap + Number(limit) + junk) == Some(Rules(pieces, Stored(limit)))
  {
    hide PieceOk, StrTol, Number, Tokens, Assigns, Join;
    var left, right := Join(pieces), gap + (Number(limit) + junk);
    var line := left + "--" + right;
    assert left + "--" + gap + Number(limit) + junk == line;
    DashesAt(left, right);
    assert line[..|left|] == left && line[|left| + 2..] == right;
    StrTolNumber(gap, limit, junk);
    PiecesMeaning(pieces, Stored(limit));
  }

  /** From a rule line to the trace: when the rules of a line with limit L stand behind rules that do
      not match a region, and its k-th pattern is the first to match, exactly the first L counted
      pushes of the region carry a non-zero limit; all of them if L is negative. */
  lemma RuleLineDecides(pieces: seq<Piece>, k: nat, gap: string, limit: int, junk: string,
                        rules: seq<Assign>, before: seq<Assign>, after: seq<Assign>, defaultCallLimit: int,
                        fnmatch: (string, string) -> bool, name: string, s: State, ops: seq<Op>, rid: nat)
    requires k < |pieces| && forall i :: 0 <= i < |pieces| ==> PieceOk(pieces[i])
    requires Blanks(gap) && !IsDigit(At(junk, 0))
    requires FindDashes(Join(pieces) + "-") == |Join(pieces)| + 1
    requires NoneMatches(before, fnmatch, name) && fnmatch(pieces[k].pattern, name)
    requires forall i :: 0 <= i < k ==> !fnmatch(pieces[i].pattern, name)
    requires CanRun(s, ops) && rid in s.countdown
    requires ParseRule(Join(pieces) + "--" + gap + Number(limit) + junk) == Some(rules)
    requires s.countdown[rid] == LimitOf(before + rules + after, defaultCallLimit, fnmatch, name)
    ensures
      var atPush := Run(s, ops);
      && CanStep(atPush, Push(rid, true))
      && var pushed := Step(atPush, Push(rid, true));
         (pushed.stack[|pushed.stack| - 1].climit != 0 <==> limit < 0 || Pushes(ops, rid) < limit)
  {
    hide PieceOk, ParseRule, FindDashes, Number, Join, LimitOf;
    RuleLineMeaning(pieces, gap, limit, junk);
    var all := before + rules + after;
    assert all[|before| + k] == rules[k];
    assert forall i :: 0 <= i < |before| + k ==>
      all[i] == if i < |before| then before[i] else rules[i - |before|];
    FirstRuleDecides(all, |before| + k, limit, defaultCallLimit, fnmatch, name, s, ops, rid);
  }

  // ----- the file -----

  /** What reading yields: the rules kept, whether the rank is switched off, and whether reading
      ended at a line that cannot be parsed. */
  datatype Reading = Reading(rules: seq<Assign>, rankOff: bool, failed: bool)

  function Prepend(rules: seq<Assign>, r: Reading): Reading {
    r.(rules := rules + r.rules)
  }

  lemma PrependTwice(a: seq<Assign>, b: seq<Assign>, r: Reading)
    ensures Prepend(a, Prepend(b, r)) == Prepend(a + b, r)
    ensures Prepend([], r) == r
    ensures a + [] == a && [] + b == b
  {
  }

  predicate Ignored(line: string) {
    line == "" || line[0] == '#'
  }

  /** Reads on when the current section's rules are kept iff inc. rank is -1 when not known. */
  function ReadLines(lines: seq<string>, inc: bool, rank: int): Reading
    decreases |lines|
  {
    if |lines| == 0 then Reading([], false, false)
    else
      var line, rest := lines[0], lines[1..];
      if Ignored(line) then ReadLines(rest, inc, rank)
      else if line[0] == '@' then
        if rank == -1 then Reading([], false, false)
        else match ParseRanks(line[1..], -1, -1, false, rank)
          case Failed => Reading([], false, true)
          case Ranks(inc', off) => if off then Reading([], true, false) else ReadLines(rest, inc', rank)
      else match ParseRule(line)
        case None => Reading([], false, true)
        case Some(rules) => Prepend(if inc then rules else [], ReadLines(rest, inc, rank))
  }

  /** Empty lines and lines that begin with '#' change nothing, wherever they stand. */
  lemma {:induction false} CommentsChangeNothing(before: seq<string>, line: string, rest: seq<string>,
                                                  inc: bool, rank: int)
    requires line == "" || line[0] == '#'
    ensures ReadLines(before + ([line] + rest), inc, rank) == ReadLines(before + rest, inc, rank)
    decreases |before|
  {
    hide ParseRanks, ParseRule;
    if |before| == 0 {
      assert before + ([line] + rest) == [line] + rest && before + rest == rest;
      assert ([line] + rest)[1..] == rest;
    } else {
      assert (before + ([line] + rest))[1..] == before[1..] + ([line] + rest);
      assert (before + rest)[1..] == before[1..] + rest;
      var first := before[0];
      CommentsChangeNothing(before[1..], line, rest, inc, rank);
      if first != "" && first[0] == '@' {
        match ParseRanks(first[1..], -1, -1, false, rank)
        case Failed =>
        case Ranks(inc', off) => CommentsChangeNothing(before[1..], line, rest, inc', rank);
      }
    }
  }

  /** Any other line must be a rank clause or hold two dashes. */
  lemma NoDashesFails(line: string, rest: seq<string>, inc: bool, rank: int)
    requires |line| > 0 && line[0] != '#' && line[0] != '@'
    requires forall i :: 0 < i < |line| && line[i - 1] == '-' ==> line[i] != '-'
    ensures ReadLines([line] + rest, inc, rank) == Reading([], false, true)
  {
    assert ([line] + rest)[1..] == rest;
  }

  /** Something other than semicolons must stand before the dashes. */
  lemma NothingNamedFails(names: string, limit: string, rest: seq<string>, inc: bool, rank: int)
    requires forall i :: 0 <= i < |names| ==> names[i] == ';'
    ensures ReadLines([names + "--" + limit] + rest, inc, rank) == Reading([], false, true)
  {
    var line := names + "--" + limit;
    assert ([line] + rest)[1..] == rest;
    FirstDashes(line, |names|);
    OnlySemicolons(line[..FindDashes(line)]);
  }

  lemma {:induction false} FirstDashes(s: string, n: nat)
    requires n + 1 < |s| && s[n] == s[n + 1] == '-'
    ensures FindDashes(s) <= n
  {
    if n > 0 {
      FirstDashes(s[1..], n - 1);
    }
  }

  lemma {:induction false} OnlySemicolons(s: string)
    requires forall i :: 0 <= i < |s| ==> s[i] == ';'
    ensures Tokens(s) == []
  {
    if |s| > 0 {
      OnlySemicolons(s[1..]);
    }
  }

  /** A rank clause that cannot be parsed ends the reading with an error. */
  lemma BadClauseFails(line: string, rest: seq<string>, inc: bool, rank: int)
    requires |line| > 0 && line[0] == '@' && rank != -1 && ParseRanks(line[1..], -1, -1, false, rank) == Failed
    ensures ReadLines([line] + rest, inc, rank) == Reading([], false, true)
  {
    assert ([line] + rest)[0] == line;
  }

  /** The token loop of a rule line. */
  method AddRules(regions: Regions, text: string, climit: int, inc: bool) returns (any: bool)
    modifies regions`assigns
    ensures any <==> |Tokens(text)| > 0
    ensures !any ==> regions.assigns == old(regions.assigns)
    ensures regions.assigns == old(regions.assigns) + if inc then Assigns(Tokens(text), climit) else []
  {
    var tokens := Tokens(text);
    any := |tokens| > 0;
    for i := 0 to |tokens|
      invariant regions.assigns == old(regions.assigns) + if inc then Assigns(tokens[..i], climit) else []
    {
      hide Trim, Tokens, Assigns;
      var pattern := Trim(tokens[i]);
      assert tokens[..i + 1] == tokens[..i] + [tokens[i]];
      AssignsSnoc(tokens[..i], tokens[i], climit);
      if |pattern| > 0 && inc {
        regions.AddAssign(pattern, climit);
      }
    }
    assert tokens[..|tokens|] == tokens;
  }

  lemma {:induction false} AssignsSnoc(tokens: seq<string>, t: string, climit: int)
    ensures Assigns(tokens + [t], climit) ==
            Assigns(tokens, climit) + if Trim(t) == "" then [] else [Assign(climit, Trim(t))]
  {
    hide Trim;
    if |tokens| == 0 {
      assert tokens + [t] == [t] && [t][1..] == [];
    } else {
      assert (tokens + [t])[1..] == tokens[1..] + [t];
      AssignsSnoc(tokens[1..], t, climit);
    }
  }

  /** RFG_Filter_readDefFile. */
  method ReadDefFile(regions: Regions, lines: seq<string>, rank: int) returns (rankOff: bool, failed: bool)
    modifies regions`assigns
    ensures ReadLines(lines, true, rank) == Reading(regions.assigns, rankOff, failed)
  {
    hide ParseRanks, Assigns, Tokens;
    regions.assigns := [];
    rankOff, failed := false, false;
    var includes := true;
    ghost var all := ReadLines(lines, true, rank);
    assert lines[0..] == lines;
    for i := 0 to |lines|
      invariant !rankOff && !failed
      invariant all == Prepend(regions.assigns, ReadLines(lines[i..], includes, rank))
    {
      ghost var before := regions.assigns;
      var line := lines[i];
      assert lines[i..][0] == line && lines[i..][1..] == lines[i + 1..];
      if line != "" && line[0] != '#' {
        if line[0] == '@' {
          if rank == -1 {
            return;
          }
          var r := ParseClause(line, rank);
          match r
          case Failed =>
            failed := true;
            return;
          case Ranks(inc, off) =>
            includes := inc;
            if off {
              rankOff := true;
              return;
            }
        } else {
          var p := FindDashes(line);
          if p == |line| {
            failed := true;
            return;
          }
          var climit := StrTol(line[p + 2..]).0;
          if climit != -1 && climit != 0 {
            climit := climit + 1;
          }
          var any := AddRules(regions, line[..p], climit, includes);
          if !any {
            failed := true;
            return;
          }
          PrependTwice(before, if includes then ParseRule(line).value else [],
            ReadLines(lines[i + 1..], includes, rank));
        }
      }
    }
  }

  // ----- what files mean -----

  /** A section: its rank list, whether it ends with OFF, and the lines up to the next one. */
  datatype Section = Section(ranks: seq<Item>, ending: Ending, body: seq<string>)

  predicate BodyOk(body: seq<string>) {
    forall i :: 0 <= i < |body| ==> Ignored(body[i]) || (body[i][0] != '@' && ParseRule(body[i]).Some?)
  }

  predicate SectionOk(sec: Section) {
    && |sec.ranks| > 0 && (forall i :: 0 <= i < |sec.ranks| ==> ItemOk(sec.ranks[i]))
    && (sec.ending.Off? ==> Blanks(sec.ending.gap))
    && BodyOk(sec.body)
  }

  function ClauseLine(sec: Section): string {
    "@" + (ListText(sec.ranks) + EndingText(sec.ending))
  }

  function FileLines(secs: seq<Section>): seq<string> {
    if |secs| == 0 then [] else [ClauseLine(secs[0])] + secs[0].body + FileLines(secs[1..])
  }

  function BodyRules(body: seq<string>): seq<Assign> {
    if |body| == 0 then []
    else (if Ignored(body[0]) || ParseRule(body[0]).None? then [] else ParseRule(body[0]).value) + BodyRules(body[1..])
  }

  /** The sections before the first one that switches the rank off. */
  function BeforeOff(secs: seq<Section>, rank: int): seq<Section> {
    if |secs| == 0 || (secs[0].ending.Off? && InList(secs[0].ranks, rank)) then []
    else [secs[0]] + BeforeOff(secs[1..], rank)
  }

  /** The rules of the sections that name the rank. */
  function RulesFor(secs: seq<Section>, rank: int): seq<Assign> {
    if |secs| == 0 then []
    else (if InList(secs[0].ranks, rank) then BodyRules(secs[0].body) else []) + RulesFor(secs[1..], rank)
  }

  lemma {:induction false} ReadBody(body: seq<string>, rest: seq<string>, inc: bool, rank: int)
    requires BodyOk(body)
    ensures ReadLines(body + rest, inc, rank) ==
            Prepend(if inc then BodyRules(body) else [], ReadLines(rest, inc, rank))
  {
    hide Prepend, ParseRanks, ParseRule;
    var more := ReadLines(rest, inc, rank);
    if |body| == 0 {
      assert body + rest == rest;
      PrependTwice([], [], more);
    } else {
      assert (body + rest)[1..] == body[1..] + rest;
      assert BodyOk(body[1..]) by { assert forall i :: 0 <= i < |body| - 1 ==> body[1..][i] == body[i + 1]; }
      ReadBody(body[1..], rest, inc, rank);
      var first := if Ignored(body[0]) then [] else ParseRule(body[0]).value;
      PrependTwice(first, BodyRules(body[1..]), more);
      PrependTwice([], BodyRules(body[1..]), more);
      PrependTwice([], [], more);
    }
  }

  lemma NoLines(inc: bool, rank: int)
    ensures ReadLines([], inc, rank) == Reading([], false, false)
  {
  }

  lemma SectionParts(sec: Section)
    requires SectionOk(sec)
    ensures |sec.ranks| > 0 && (forall i :: 0 <= i < |sec.ranks| ==> ItemOk(sec.ranks[i]))
    ensures sec.ending.Off? ==> Blanks(sec.ending.gap)
    ensures BodyOk(sec.body)
  {
  }

  /** A section's first line decides whether its rules are kept, or switches the rank off. */
  lemma ReadClause(sec: Section, rest: seq<string>, inc: bool, rank: int)
    requires SectionOk(sec) && rank >= 0
    ensures
      var named := InList(sec.ranks, rank);
      ReadLines([ClauseLine(sec)] + rest, inc, rank) ==
        if sec.ending.Off? && named then Reading([], true, false) else ReadLines(rest, named, rank)
  {
    hide ParseRanks, ParseRule, InList, ListText, EndingText, SectionOk;
    var line := ClauseLine(sec);
    SectionParts(sec);
    RankListMeaning(sec.ranks, sec.ending, false, rank);
    assert line[1..] == ListText(sec.ranks) + EndingText(sec.ending);
    assert ([line] + rest)[1..] == rest;
  }

  lemma {:induction false} ReadSections(secs: seq<Section>, inc: bool, rank: int)
    requires (forall i :: 0 <= i < |secs| ==> SectionOk(secs[i])) && rank >= 0
    ensures ReadLines(FileLines(secs), inc, rank) ==
            Reading(RulesFor(BeforeOff(secs, rank), rank), |BeforeOff(secs, rank)| < |secs|, false)
  {
    hide InList, ClauseLine, SectionOk;
    if |secs| == 0 {
      NoLines(inc, rank);
    } else {
      var sec := secs[0];
      SectionParts(sec);
      var named := InList(sec.ranks, rank);
      var rest := sec.body + FileLines(secs[1..]);
      assert FileLines(secs) == [ClauseLine(sec)] + rest;
      hide ReadLines;
      ReadClause(sec, rest, inc, rank);
      if !(sec.ending.Off? && named) {
        ReadBody(sec.body, FileLines(secs[1..]), named, rank);
        ReadSections(secs[1..], named, rank);
        assert ([sec] + BeforeOff(secs[1..], rank))[1..] == BeforeOff(secs[1..], rank);
      }
    }
  }

  /** For a well-formed file and a rank the rules kept are, in order, those before the first
      section and those of the sections that name the rank, up to the first section that
      switches it off; the rank is off iff there is such a section. */
  lemma FileMeaning(head: seq<string>, secs: seq<Section>, rank: int)
    requires BodyOk(head) && (forall i :: 0 <= i < |secs| ==> SectionOk(secs[i])) && rank >= 0
    ensures ReadLines(head + FileLines(secs), true, rank) ==
            Reading(BodyRules(head) + RulesFor(BeforeOff(secs, rank), rank), |BeforeOff(secs, rank)| < |secs|, false)
  {
    ReadBody(head, FileLines(secs), true, rank);
    ReadSections(secs, true, rank);
  }

  /** While the rank is not known only the rules before the first section are kept. */
  lemma FileMeaningWithoutRank(head: seq<string>, secs: seq<Section>)
    requires BodyOk(head)
    ensures ReadLines(head + FileLines(secs), true, -1) == Reading(BodyRules(head), false, false)
  {
    ReadBody(head, FileLines(secs), true, -1);
    assert BodyRules(head) + [] == BodyRules(head);
  }
}
