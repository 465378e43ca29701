/** Printing a list of rules and parsing the text rebuilds their graph. */
module MakefileRoundTrip {
  import opened MakefileText
  import opened MakefileParser
  import opened Options

  datatype Rule = Rule(target: string, deps: seq<string>, commands: seq<string>)

  ghost predicate GoodCommand(c: string) {
    c != "" && !IsSpace(c[0]) && !IsSpace(c[|c| - 1]) && Uncommented(c) == c
  }

  ghost predicate GoodRule(r: Rule) {
    && IsWord(r.target) && IsMakefileTarget(r.target) && ':' !in r.target && '#' !in r.target
    && (forall i | 0 <= i < |r.deps| :: IsWord(r.deps[i]) && '#' !in r.deps[i])
    && forall i | 0 <= i < |r.commands| :: GoodCommand(r.commands[i])
  }

  ghost predicate GoodRules(rules: seq<Rule>) {
    forall i | 0 <= i < |rules| :: GoodRule(rules[i])
  }

  predicate LineEnd(eol: string) {
    eol in {"", "\n", "\r\n"}
  }

  // Printing.

  function Heading(r: Rule): string {
    r.target + ":" + Joined(r.deps)
  }

  function Recipe(commands: seq<string>, eol: string): seq<string> {
    seq(|commands|, i requires 0 <= i < |commands| => "\t" + commands[i] + eol)
  }

  function Print(rules: seq<Rule>, eol: string): seq<string>
    decreases |rules|
  {
    if rules == [] then []
    else
      var r := rules[|rules| - 1];
      Print(rules[..|rules| - 1], eol) + ([Heading(r) + eol] + Recipe(r.commands, eol))
  }

  // What the rules mean.

  function Vertices(rules: seq<Rule>): set<string> {
    {""} + (set i | 0 <= i < |rules| :: rules[i].target) + (set i, d | 0 <= i < |rules| && d in rules[i].deps :: d)
  }

  function Edges(rules: seq<Rule>): set<(string, string)> {
    set i, d | 0 <= i < |rules| && d in rules[i].deps :: (rules[i].target, d)
  }

  /** The last recipe block of a target is the one that counts. */
  function LastCommands(rules: seq<Rule>, v: string): seq<string>
    decreases |rules|
  {
    if rules == [] then []
    else
      var r := rules[|rules| - 1];
      if r.target == v && r.commands != [] then r.commands else LastCommands(rules[..|rules| - 1], v)
  }

  /** The parse so far stands for these rules. */
  ghost predicate Means(p: Parse, rules: seq<Rule>) {
    && p.vertices == Vertices(rules) && p.edges == Edges(rules)
    && (forall v :: CommandsOf(p, v) == LastCommands(rules, v) && (v in p.started <==> LastCommands(rules, v) != []))
    && (forall v | v in p.commands :: v in p.vertices)
    && p.first == if rules == [] then None else Some(rules[0].target)
  }

  // Single lines.

  lemma {:induction false} JoinedIsClean(words: seq<string>)
    requires forall i | 0 <= i < |words| :: IsWord(words[i]) && '#' !in words[i]
    ensures '#' !in Joined(words)
    ensures words != [] ==> Joined(words) != "" && !IsSpace(Joined(words)[|Joined(words)| - 1])
  {
    if words != [] {
      JoinedIsClean(words[1..]);
    }
  }

  lemma ColonIs(s: string, k: nat)
    requires k < |s| && s[k] == ':' && forall j | 0 <= j < k :: s[j] != ':'
    ensures Colon(s) == k
  {
  }

  lemma HeadingParsed(p: Parse, r: Rule, eol: string)
    requires GoodRule(r) && LineEnd(eol)
    ensures Line(p, Heading(r) + eol) == TargetLine(p, Heading(r))
  {
    var s := Heading(r);
    JoinedIsClean(r.deps);
    assert r.deps == [] ==> Joined(r.deps) == "" && s[|s| - 1] == ':';
    assert s[0] == r.target[0];
    StrippedLine(s);
    assert s + "" == s;
    SkippedWord(s);
    WithoutHash(s);
  }

  /** The state before the dependencies are added. */
  function Started(p: Parse, t: string): Parse {
    (if t in p.vertices then p else AddVertex(p, t).(first := if p.first == None then Some(t) else p.first))
      .(current := Some(t), inBlock := false)
  }

  lemma HeadingMeans(p: Parse, r: Rule)
    requires GoodRule(r)
    ensures TargetLine(p, Heading(r)) == Ok(AddEdges(Started(p, r.target), r.target, r.deps))
  {
    var s, k := Heading(r), |r.target|;
    ColonIs(s, k);
    assert s[..k] == r.target == r.target + "" && s[k + 1..] == Joined(r.deps);
    FirstWordOf(r.target, "");
    TokensOfJoined(r.deps);
  }

  lemma CommandParsed(p: Parse, c: string, eol: string)
    requires GoodCommand(c) && LineEnd(eol)
    ensures Line(p, "\t" + c + eol) == RecipeLine(p, c)
  {
    var s := "\t" + c;
    StrippedLine(s);
    assert s + "" == s;
    SkippedWord(c);
  }

  // Sequences of lines.

  lemma {:induction false} LinesAppend(p: Parse, a: seq<string>, b: seq<string>)
    requires Lines(p, a).Ok?
    ensures Lines(p, a + b) == Lines(Lines(p, a).value, b)
    decreases |b|
  {
    if b == [] {
      assert a + b == a;
    } else {
      assert (a + b)[..|a + b| - 1] == a + b[..|b| - 1];
      LinesAppend(p, a, b[..|b| - 1]);
    }
  }

  lemma {:induction false} AddEdgesAdds(p: Parse, t: string, deps: seq<string>)
    requires forall v | v in p.commands :: v in p.vertices
    ensures var p' := AddEdges(p, t, deps);
      && p'.vertices == p.vertices + (set d | d in deps) && p'.edges == p.edges + (set d | d in deps :: (t, d))
      && (forall v :: CommandsOf(p', v) == CommandsOf(p, v)) && (forall v | v in p'.commands :: v in p'.vertices)
      && p'.started == p.started && p'.first == p.first && p'.current == p.current && p'.inBlock == p.inBlock
    decreases |deps|
  {
    if deps != [] {
      AddEdgesAdds(p, t, deps[..|deps| - 1]);
      assert deps == deps[..|deps| - 1] + [deps[|deps| - 1]];
    }
  }

  /** After k commands of a block. */
  ghost predicate InBlock(p: Parse, p0: Parse, t: string, done: seq<string>) {
    && p.vertices == p0.vertices && p.edges == p0.edges && p.first == p0.first && p.current == Some(t)
    && p.inBlock == (done != [])
    && (forall v | v in p.commands :: v in p.vertices)
    && (forall v | v != t || done == [] :: CommandsOf(p, v) == CommandsOf(p0, v) && (v in p.started <==> v in p0.started))
    && (done != [] ==> CommandsOf(p, t) == done && t in p.started)
  }

  lemma RecipeExtends(p: Parse, p0: Parse, t: string, done: seq<string>, c: string)
    requires InBlock(p, p0, t, done) && t in p0.vertices
    requires t !in p0.started ==> CommandsOf(p0, t) == []
    ensures RecipeLine(p, c).Ok? && InBlock(RecipeLine(p, c).value, p0, t, done + [c])
  {
    var kept := if p.inBlock || t !in p.started then CommandsOf(p, t) else [];
    assert kept + [c] == done + [c];
  }

  lemma {:induction false} BlockParsed(p0: Parse, t: string, commands: seq<string>, eol: string)
    requires InBlock(p0, p0, t, []) && t in p0.vertices && LineEnd(eol)
    requires t !in p0.started ==> CommandsOf(p0, t) == []
    requires forall i | 0 <= i < |commands| :: GoodCommand(commands[i])
    ensures Lines(p0, Recipe(commands, eol)).Ok? && InBlock(Lines(p0, Recipe(commands, eol)).value, p0, t, commands)
    decreases |commands|
  {
    hide InBlock, GoodCommand, RecipeLine, Line;
    if commands != [] {
      var before, c := commands[..|commands| - 1], commands[|commands| - 1];
      assert Recipe(commands, eol)[..|commands| - 1] == Recipe(before, eol);
      BlockParsed(p0, t, before, eol);
      var p := Lines(p0, Recipe(before, eol)).value;
      CommandParsed(p, c, eol);
      RecipeExtends(p, p0, t, before, c);
      assert commands == before + [c];
    } else {
      assert Recipe(commands, eol) == [];
    }
  }

  lemma RulesGrow(rules: seq<Rule>, r: Rule)
    ensures Vertices(rules + [r]) == Vertices(rules) + {r.target} + set d | d in r.deps
    ensures Edges(rules + [r]) == Edges(rules) + set d | d in r.deps :: (r.target, d)
  {
    var rules' := rules + [r];
    assert forall i | 0 <= i < |rules| :: rules'[i] == rules[i];
    forall v | v in Vertices(rules)
      ensures v in Vertices(rules')
    {
      if i :| 0 <= i < |rules| && v == rules[i].target {
        assert rules'[i].target == v;
      } else if i :| 0 <= i < |rules| && v in rules[i].deps {
        assert v in rules'[i].deps;
      }
    }
    assert rules'[|rules|] == r;
    forall e | e in Edges(rules)
      ensures e in Edges(rules')
    {
      var i :| 0 <= i < |rules| && e.0 == rules[i].target && e.1 in rules[i].deps;
      assert rules'[i].target == e.0 && e.1 in rules'[i].deps;
    }
  }

  /** What holds after the heading of r: its vertices and edges are there, its commands still the old ones. */
  ghost predicate HeadingDone(p: Parse, rules: seq<Rule>, r: Rule) {
    && p.vertices == Vertices(rules + [r]) && p.edges == Edges(rules + [r])
    && (forall v :: CommandsOf(p, v) == LastCommands(rules, v) && (v in p.started <==> LastCommands(rules, v) != []))
    && p.first == Some((rules + [r])[0].target)
    && InBlock(p, p, r.target, [])
  }

  lemma StartedAdds(p: Parse, rules: seq<Rule>, r: Rule)
    requires Means(p, rules) && GoodRule(r)
    ensures var p' := Started(p, r.target);
      && p'.vertices == p.vertices + {r.target} && p'.edges == p.edges && p'.started == p.started
      && (forall v :: CommandsOf(p', v) == CommandsOf(p, v)) && (forall v | v in p'.commands :: v in p'.vertices)
      && p'.first == Some((rules + [r])[0].target) && p'.current == Some(r.target) && !p'.inBlock
  {
    FirstTarget(p, rules, r);
  }

  lemma HeadingDoneBy(p: Parse, p2: Parse, rules: seq<Rule>, r: Rule)
    requires Means(p, rules) && GoodRule(r) && p2 == Started(p, r.target)
    ensures HeadingDone(AddEdges(p2, r.target, r.deps), rules, r)
  {
    StartedAdds(p, rules, r);
    AddEdgesAdds(p2, r.target, r.deps);
    RulesGrow(rules, r);
    hide GoodRule, Vertices, Edges, LastCommands, AddEdges, Started, CommandsOf;
  }

  lemma HeadingLine(p: Parse, rules: seq<Rule>, r: Rule, eol: string)
    requires Means(p, rules) && GoodRule(r) && LineEnd(eol)
    ensures Line(p, Heading(r) + eol).Ok? && HeadingDone(Line(p, Heading(r) + eol).value, rules, r)
  {
    HeadingParsed(p, r, eol);
    HeadingMeans(p, r);
    HeadingDoneBy(p, Started(p, r.target), rules, r);
  }

  lemma BlockEnds(p0: Parse, p: Parse, rules: seq<Rule>, r: Rule)
    requires HeadingDone(p0, rules, r) && InBlock(p, p0, r.target, r.commands)
    ensures Means(p, rules + [r])
  {
    assert (rules + [r])[..|rules|] == rules;
  }

  /** One more rule printed and parsed. */
  lemma RuleParsed(p: Parse, rules: seq<Rule>, r: Rule, eol: string)
    requires Means(p, rules) && GoodRule(r) && LineEnd(eol)
    ensures var lines := [Heading(r) + eol] + Recipe(r.commands, eol);
      Lines(p, lines).Ok? && Means(Lines(p, lines).value, rules + [r])
  {
    HeadingLine(p, rules, r, eol);
    var p3 := Line(p, Heading(r) + eol).value;
    assert r.target in p3.vertices by {
      assert (rules + [r])[|rules|].target == r.target;
    }
    assert r.target !in p3.started ==> CommandsOf(p3, r.target) == [];
    BlockParsed(p3, r.target, r.commands, eol);
    hide Line, Means, Heading, InBlock, HeadingDone;
    assert [Heading(r) + eol][..0] == [];
    assert Lines(p, [Heading(r) + eol]) == Ok(p3);
    LinesAppend(p, [Heading(r) + eol], Recipe(r.commands, eol));
    BlockEnds(p3, Lines(p3, Recipe(r.commands, eol)).value, rules, r);
  }

  /** The first target of the text is a new vertex, and later ones leave the default goal alone. */
  lemma FirstTarget(p: Parse, rules: seq<Rule>, r: Rule)
    requires Means(p, rules) && GoodRule(r)
    ensures rules == [] ==> r.target !in p.vertices
    ensures (rules + [r])[0] == if rules == [] then r else rules[0]
  {
  }

  lemma StartMeansNothing()
    ensures Means(START, [])
  {
  }

  lemma {:induction false} PrintParsed(rules: seq<Rule>, eol: string)
    requires GoodRules(rules) && LineEnd(eol)
    ensures Lines(START, Print(rules, eol)).Ok? && Means(Lines(START, Print(rules, eol)).value, rules)
    decreases |rules|
  {
    hide Means, GoodRule, LineEnd, Line, Heading, Recipe;
    StartMeansNothing();
    if rules != [] {
      var before, r := rules[..|rules| - 1], rules[|rules| - 1];
      PrintParsed(before, eol);
      var p := Lines(START, Print(before, eol)).value;
      RuleParsed(p, before, r, eol);
      LinesAppend(START, Print(before, eol), [Heading(r) + eol] + Recipe(r.commands, eol));
      assert rules == before + [r];
    }
  }

  function GoalEdges(goals: seq<string>): set<(string, string)> {
    set g | g in goals :: ("", g)
  }

  lemma {:induction false} GoalsAdd(p: Parse, goals: seq<string>)
    ensures Goals(p, goals).Ok? <==> forall g | g in goals :: g in p.vertices
    ensures Goals(p, goals).Ok? ==> Goals(p, goals) == Ok(p.(edges := p.edges + GoalEdges(goals)))
    decreases |goals|
  {
    if goals != [] {
      var before, g := goals[..|goals| - 1], goals[|goals| - 1];
      GoalsAdd(p, before);
      assert goals == before + [g];
      assert GoalEdges(goals) == GoalEdges(before) + {("", g)};
      assert p.edges + GoalEdges(goals) == p.edges + GoalEdges(before) + {("", g)};
    } else {
      assert p.edges + GoalEdges(goals) == p.edges;
    }
  }

  /** The round trip: the parsed graph has exactly the vertices, the edges and the commands of the rules that
      were printed, plus the edges from the sentinel to the goals, or to the first target without goals. */
  lemma ParsePrintRoundTrip(rules: seq<Rule>, goals: seq<string>, eol: string)
    requires GoodRules(rules) && LineEnd(eol)
    ensures var r := ParseMakefile(Print(rules, eol), goals);
      var targets := if goals == [] && rules != [] then [rules[0].target] else goals;
      && (r.Ok? <==> targets != [] && forall g | g in targets :: g in Vertices(rules))
      && (r.Ok? ==>
            && r.value.vertices == Vertices(rules)
            && r.value.edges == Edges(rules) + GoalEdges(targets)
            && forall v :: CommandsOf(r.value, v) == LastCommands(rules, v))
  {
    PrintParsed(rules, eol);
    var p := Lines(START, Print(rules, eol)).value;
    var targets := if goals == [] && rules != [] then [rules[0].target] else goals;
    GoalsAdd(p, targets);
  }
}
