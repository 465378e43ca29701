/** parser_parse_makefile: from the lines of a makefile to the dependency graph. */
module MakefileParser {
  import opened MakefileText
  import opened Options

  datatype Error = MissingSeparator | RecipeBeforeTarget | NoTargets | NoRuleFor(goal: string)
  datatype Result<T> = Ok(value: T) | Err(error: Error)

  /** The graph under construction. started are the rules whose state field holds a line number. */
  datatype Parse = Parse(vertices: set<string>, edges: set<(string, string)>, commands: map<string, seq<string>>,
                         started: set<string>, first: Option<string>, current: Option<string>, inBlock: bool)

  const START := Parse({""}, {}, map["" := []], {}, None, None, false)

  function CommandsOf(p: Parse, v: string): seq<string> {
    if v in p.commands then p.commands[v] else []
  }

  function AddVertex(p: Parse, v: string): Parse {
    if v in p.vertices then p else p.(vertices := p.vertices + {v}, commands := p.commands[v := []])
  }

  function AddEdges(p: Parse, v: string, deps: seq<string>): Parse
    decreases |deps|
  {
    if deps == [] then p
    else
      var before := AddEdges(p, v, deps[..|deps| - 1]);
      var d := deps[|deps| - 1];
      var p' := AddVertex(before, d);
      p'.(edges := p'.edges + {(v, d)})
  }

  /** Index of the first colon, or the length. */
  function Colon(s: string): (k: nat)
    ensures k <= |s| && (k < |s| ==> s[k] == ':') && forall j | 0 <= j < k :: s[j] != ':'
  {
    if s == "" || s[0] == ':' then 0
    else
      var k := Colon(s[1..]);
      assert forall j | 0 < j < k + 1 :: s[j] == s[1..][j - 1];
      k + 1
  }

  function TargetLine(p: Parse, line: string): Result<Parse> {
    var k := Colon(line);
    if k == |line| then Err(MissingSeparator)
    else
      var t := FirstWord(line[..k]);
      var p1 := if t in p.vertices then p else AddVertex(p, t).(first := if p.first == None then Some(t) else p.first);
      Ok(AddEdges(p1.(current := Some(t), inBlock := false), t, Tokens(line[k + 1..])))
  }

  function RecipeLine(p: Parse, line: string): Result<Parse> {
    if p.current == None then Err(RecipeBeforeTarget)
    else
      var t := p.current.value;
      var kept := if p.inBlock || t !in p.started then CommandsOf(p, t) else [];
      Ok(p.(started := p.started + {t}, commands := p.commands[t := kept + [line]], inBlock := true))
  }

  /** One turn of the reading loop. */
  function Line(p: Parse, raw: string): Result<Parse> {
    var stripped := StrippedBack(raw);
    var line := Uncommented(Skipped(stripped));
    if line == "" then Ok(p)
    else if stripped != "" && stripped[0] == '\t' then RecipeLine(p, line)
    else if IsMakefileTarget(line) then TargetLine(p, line)
    else Err(MissingSeparator)
  }

  function Lines(p: Parse, raws: seq<string>): Result<Parse>
    decreases |raws|
  {
    if raws == [] then Ok(p)
    else
      match Lines(p, raws[..|raws| - 1])
      case Ok(p') => Line(p', raws[|raws| - 1])
      case Err(e) => Err(e)
  }

  /** The goals become the dependencies of the sentinel. */
  function Goals(p: Parse, goals: seq<string>): Result<Parse>
    decreases |goals|
  {
    if goals == [] then Ok(p)
    else
      match Goals(p, goals[..|goals| - 1])
      case Ok(p') =>
        var g := goals[|goals| - 1];
        if g in p'.vertices then Ok(p'.(edges := p'.edges + {("", g)})) else Err(NoRuleFor(g))
      case Err(e) => Err(e)
  }

  function ParseMakefile(raws: seq<string>, goals: seq<string>): Result<Parse> {
    match Lines(START, raws)
    case Err(e) => Err(e)
    case Ok(p) =>
      if goals != [] then Goals(p, goals)
      else if p.first == None then Err(NoTargets)
      else Goals(p, [p.first.value])
  }

  /** The parser with its buffers and its graph. */
  class Parser {
    var p: Parse

    constructor ()
      ensures p == START
    {
      p := START;
    }

    method AddDependencies(t: string, deps: seq<string>)
      modifies this
      ensures p == AddEdges(old(p), t, deps)
    {
      var i := 0;
      while i < |deps|
        invariant 0 <= i <= |deps| && p == AddEdges(old(p), t, deps[..i])
      {
        var d := deps[i];
        if d !in p.vertices {
          p := p.(vertices := p.vertices + {d}, commands := p.commands[d := []]);
        }
        p := p.(edges := p.edges + {(t, d)});
        i := i + 1;
        assert deps[..i][..i - 1] == deps[..i - 1];
      }
      assert deps[..i] == deps;
    }

    method ReadTarget(line: string) returns (r: Result<()>)
      modifies this
      ensures match TargetLine(old(p), line) case Ok(p') => r == Ok(()) && p == p' case Err(e) => r == Err(e)
    {
      p := p.(inBlock := false);
      var k := 0;
      while k < |line| && line[k] != ':'
        invariant 0 <= k <= |line| && forall j | 0 <= j < k :: line[j] != ':'
      {
        k := k + 1;
      }
      assert k == Colon(line);
      if k == |line| {
        return Err(MissingSeparator);
      }
      var t := TerminateWhitespace(line[..k]);
      if t !in p.vertices {
        p := p.(vertices := p.vertices + {t}, commands := p.commands[t := []]);
        if p.first == None {
          p := p.(first := Some(t));
        }
      }
      p := p.(current := Some(t));
      var deps := SplitLineOnSpaces(line[k + 1..]);
      AddDependencies(t, deps);
      return Ok(());
    }

    method ReadRecipe(line: string) returns (r: Result<()>)
      modifies this
      ensures match RecipeLine(old(p), line) case Ok(p') => r == Ok(()) && p == p' case Err(e) => r == Err(e)
    {
      if p.current == None {
        return Err(RecipeBeforeTarget);
      }
      var t := p.current.value;
      if !p.inBlock {
        if t !in p.started {
          p := p.(started := p.started + {t});
        } else {
          p := p.(commands := p.commands[t := []]);
        }
      }
      p := p.(inBlock := true, started := p.started + {t});
      p := p.(commands := p.commands[t := CommandsOf(p, t) + [line]]);
      return Ok(());
    }

    method ReadLine(raw: string) returns (r: Result<()>)
      modifies this
      ensures match Line(old(p), raw) case Ok(p') => r == Ok(()) && p == p' case Err(e) => r == Err(e)
    {
      var stripped := StripBackWhitespace(raw);
      var line := SkipWhitespace(stripped);
      line := StripBackComments(line);
      if line == "" {
        return Ok(());
      }
      if stripped != "" && stripped[0] == '\t' {
        r := ReadRecipe(line);
      } else if IsMakefileTarget(line) {
        r := ReadTarget(line);
      } else {
        r := Err(MissingSeparator);
      }
    }

    method Read(raws: seq<string>, goals: seq<string>) returns (r: Result<()>)
      requires p == START
      modifies this
      ensures match ParseMakefile(raws, goals) case Ok(p') => r == Ok(()) && p == p' case Err(e) => r == Err(e)
    {
      var i := 0;
      while i < |raws|
        invariant 0 <= i <= |raws| && Lines(START, raws[..i]) == Ok(p)
      {
        assert raws[..i + 1][..i] == raws[..i];
        r := ReadLine(raws[i]);
        if r.Err? {
          ErrorStays(START, raws, i + 1);
          return;
        }
        i := i + 1;
      }
      assert raws[..i] == raws;
      var targets := goals;
      if goals == [] {
        if p.first == None {
          return Err(NoTargets);
        }
        targets := [p.first.value];
      }
      ghost var parsed := p;
      i := 0;
      while i < |targets|
        invariant 0 <= i <= |targets| && Goals(parsed, targets[..i]) == Ok(p)
      {
        assert targets[..i + 1][..i] == targets[..i];
        if targets[i] !in p.vertices {
          GoalErrorStays(parsed, targets, i + 1);
          return Err(NoRuleFor(targets[i]));
        }
        p := p.(edges := p.edges + {("", targets[i])});
        i := i + 1;
      }
      assert targets[..i] == targets;
      return Ok(());
    }
  }

  lemma {:induction false} ErrorStays(p: Parse, raws: seq<string>, k: nat)
    requires k <= |raws| && Lines(p, raws[..k]).Err?
    ensures Lines(p, raws) == Lines(p, raws[..k])
    decreases |raws|
  {
    if k == |raws| {
      assert raws[..k] == raws;
    } else {
      assert raws[..|raws| - 1][..k] == raws[..k];
      ErrorStays(p, raws[..|raws| - 1], k);
    }
  }

  lemma {:induction false} GoalErrorStays(p: Parse, goals: seq<string>, k: nat)
    requires k <= |goals| && Goals(p, goals[..k]).Err?
    ensures Goals(p, goals) == Goals(p, goals[..k])
    decreases |goals|
  {
    if k == |goals| {
      assert goals[..k] == goals;
    } else {
      assert goals[..|goals| - 1][..k] == goals[..k];
      GoalErrorStays(p, goals[..|goals| - 1], k);
    }
  }
}
