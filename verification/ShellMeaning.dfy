/** What the parser of waf-tools/shellcmd.py makes of a grammatical line, whatever the order of its items is. */
module ShellMeaning {
  import opened Basics
  import opened ShellSyntax
  import opened ShellGrammar

  // ----- the meaning of a line -----

  function Words(items: seq<Item>): seq<string> {
    if items == [] then [] else (if items[0].Word? then [items[0].token] else []) + Words(items[1..])
  }

  predicate Assigns(token: string, key: string) {
    MatchAssignment(token).Some? && MatchAssignment(token).value.0 == key
  }

  ghost predicate Assigned(assignments: seq<string>, key: string) {
    exists i :: 0 <= i < |assignments| && Assigns(assignments[i], key)
  }

  ghost predicate AssignsLast(assignments: seq<string>, i: nat, key: string, value: string) {
    && i < |assignments| && MatchAssignment(assignments[i]) == Some((key, value))
    && !Assigned(assignments[i+1..], key)
  }

  /** The value is in the last assignment to the key. */
  ghost predicate LastAssigned(assignments: seq<string>, key: string, value: string) {
    exists i :: 0 <= i < |assignments| && AssignsLast(assignments, i, key, value)
  }

  ghost predicate HoldsAssigned(env: Environment, assignments: seq<string>) {
    IsEnvironment(env) && forall k, v :: (k, v) in env <==> LastAssigned(assignments, k, v)
  }

  ghost predicate Redirects(c: Node, items: seq<Item>, piped: bool)
    requires c.Command?
  {
    && (forall f :: c.stdout == ToFile(f) <==> Redirect(">", f) in items)
    && (forall f :: c.stderr == ToFile(f) <==> Redirect("2>", f) in items)
    && (forall f :: c.stdin == Some(f) <==> Redirect("<", f) in items)
    && (c.stdout == ToPipe <==> piped) && (c.stderr == ToStdout <==> Merge in items)
    && c.stdout != ToStdout && c.stderr != ToPipe
  }

  ghost predicate IsInvocation(n: Node, assignments: seq<string>, name: string, items: seq<Item>, piped: bool) {
    && n.Command? && n.name == name && n.argv == [name] + Words(items)
    && Redirects(n, items, piped) && HoldsAssigned(n.env, assignments)
  }

  /** The nodes that a line stands for. A redirect whose file is missing stands for nothing. */
  ghost predicate Means(line: Line, p: seq<Node>)
    decreases line
  {
    p != [] &&
    match line
    case Invocation(assignments, name, items, rest) =>
      IsInvocation(p[0], assignments, name, items, rest.Then? && rest.operator == "|") && RestMeans(rest, p[1..])
    case ChangeDir(dir, rest) => p[0] == Chdir(dir) && RestMeans(rest, p[1..])
  }

  ghost predicate RestMeans(rest: Rest, p: seq<Node>)
    decreases rest
  {
    match rest
    case Then(operator, line) =>
      && p != [] && Means(line, p[1..])
      && (operator == "|" ==> p[0] == Pipe) && (operator == "&&" ==> p[0] == And) && (operator == "||" ==> p[0] == Or)
    case _ => p == []
  }

  // ----- items -----

  function With(c: Node, item: Item): Node
    requires c.Command?
  {
    match item
    case Word(token) => c.(argv := c.argv + [token])
    case Merge => c.(stderr := ToStdout)
    case Redirect(operator, file) =>
      if operator == ">" then c.(stdout := ToFile(file))
      else if operator == "2>" then c.(stderr := ToFile(file))
      else c.(stdin := Some(file))
  }

  function WithAll(c: Node, items: seq<Item>): (d: Node)
    requires c.Command?
    ensures d.Command?
    decreases |items|
  {
    if items == [] then c else WithAll(With(c, items[0]), items[1..])
  }

  lemma ItemGives(s: Parsing, item: Item, more: seq<string>)
    requires AtCommand(s) && IsItem(item) && Stream(item) !! Taken(s.current.value)
    ensures Run(s, ItemTokens(item) + more) == Run(s.(current := Some(With(s.current.value, item))), more)
  {
    hide Run;
    match item {
      case Word(token) =>
        RunFirst(s, token, more);
      case Merge =>
        RunFirst(s, "2>&1", more);
      case Redirect(operator, file) =>
        assert [operator, file] + more == [operator] + ([file] + more);
        RunFirst(s, operator, [file] + more);
        RunFirst(Step(s, operator).value, file, more);
    }
  }

  lemma WithTakes(c: Node, item: Item)
    requires c.Command? && IsItem(item)
    ensures Taken(With(c, item)) == Taken(c) + Stream(item)
  {
  }

  lemma {:induction false} ItemsGive(s: Parsing, items: seq<Item>, more: seq<string>)
    requires AtCommand(s) && Fit(items, Taken(s.current.value))
    ensures Run(s, ItemsTokens(items) + more) == Run(s.(current := Some(WithAll(s.current.value, items))), more)
    ensures Taken(WithAll(s.current.value, items)) == Taken(s.current.value) + Streams(items)
    decreases |items|
  {
    hide Run, Taken, With;
    if items == [] {
      assert ItemsTokens(items) + more == more;
      assert s.(current := Some(s.current.value)) == s;
    } else {
      var c := s.current.value;
      var tail := ItemsTokens(items[1..]) + more;
      assert ItemsTokens(items) + more == ItemTokens(items[0]) + tail;
      ItemGives(s, items[0], tail);
      WithTakes(c, items[0]);
      var d := With(c, items[0]);
      WithIsCommand(c, items[0]);
      ItemsGive(s.(current := Some(d)), items[1..], more);
      assert Taken(c) + Streams(items) == Taken(d) + Streams(items[1..]);
    }
  }

  lemma WithIsCommand(c: Node, item: Item)
    requires c.Command?
    ensures With(c, item).Command?
  {
  }

  lemma FirstItem(items: seq<Item>, item: Item)
    requires items != []
    ensures item in items <==> item == items[0] || item in items[1..]
  {
    assert items == [items[0]] + items[1..];
  }

  lemma {:induction false} OutputsGiven(c: Node, items: seq<Item>, f: string)
    requires c.Command? && Fit(items, Taken(c))
    ensures var d := WithAll(c, items);
      && (d.stdout == ToFile(f) <==> c.stdout == ToFile(f) || Redirect(">", f) in items)
      && (d.stdout == ToPipe <==> c.stdout == ToPipe) && (d.stdout == ToStdout <==> c.stdout == ToStdout)
      && (d.stdin == Some(f) <==> c.stdin == Some(f) || Redirect("<", f) in items)
    decreases |items|
  {
    if items != [] {
      WithTakes(c, items[0]);
      OutputsGiven(With(c, items[0]), items[1..], f);
      FirstItem(items, Redirect(">", f));
      FirstItem(items, Redirect("<", f));
    }
  }

  lemma {:induction false} ErrorsGiven(c: Node, items: seq<Item>, f: string)
    requires c.Command? && Fit(items, Taken(c))
    ensures var d := WithAll(c, items);
      && (d.stderr == ToFile(f) <==> c.stderr == ToFile(f) || Redirect("2>", f) in items)
      && (d.stderr == ToStdout <==> c.stderr == ToStdout || Merge in items)
      && (d.stderr == ToPipe <==> c.stderr == ToPipe)
    decreases |items|
  {
    if items != [] {
      WithTakes(c, items[0]);
      ErrorsGiven(With(c, items[0]), items[1..], f);
      FirstItem(items, Redirect("2>", f));
      FirstItem(items, Merge);
    }
  }

  lemma {:induction false} WordsGiven(c: Node, items: seq<Item>)
    requires c.Command?
    ensures var d := WithAll(c, items); d.argv == c.argv + Words(items) && d.name == c.name && d.env == c.env
    decreases |items|
  {
    if items != [] {
      WordsGiven(With(c, items[0]), items[1..]);
    } else {
      assert c.argv + Words(items) == c.argv;
    }
  }

  // ----- assignments -----

  function SetAll(env: Environment, assignments: seq<string>): Environment
    requires forall i :: 0 <= i < |assignments| ==> MatchAssignment(assignments[i]).Some?
    decreases |assignments|
  {
    if assignments == [] then env else
    var (key, value) := MatchAssignment(assignments[0]).value;
    SetAll(SetVariable(env, key, value), assignments[1..])
  }

  lemma {:induction false} AssignmentsGive(s: Parsing, assignments: seq<string>, more: seq<string>)
    requires s.mode == BEGIN && s.current == None
    requires forall i :: 0 <= i < |assignments| ==> MatchAssignment(assignments[i]).Some?
    ensures Run(s, assignments + more) == Run(s.(env := SetAll(s.env, assignments)), more)
    decreases |assignments|
  {
    hide Run, MatchAssignment, SetVariable;
    if assignments == [] {
      assert assignments + more == more;
    } else {
      assert assignments + more == [assignments[0]] + (assignments[1..] + more);
      RunFirst(s, assignments[0], assignments[1..] + more);
      AssignmentsGive(Step(s, assignments[0]).value, assignments[1..], more);
    }
  }

  lemma FirstAssigned(assignments: seq<string>, key: string)
    requires assignments != []
    ensures Assigned(assignments, key) <==> Assigns(assignments[0], key) || Assigned(assignments[1..], key)
  {
    hide Assigns;
    var rest := assignments[1..];
    if i :| 0 <= i < |rest| && Assigns(rest[i], key) {
      assert assignments[i+1] == rest[i];
    }
    if i :| 0 <= i < |assignments| && Assigns(assignments[i], key) {
      assert i > 0 ==> rest[i-1] == assignments[i];
    }
  }

  lemma FirstLastAssigned(assignments: seq<string>, key: string, value: string)
    requires assignments != []
    ensures LastAssigned(assignments, key, value) <==>
      LastAssigned(assignments[1..], key, value) || AssignsLast(assignments, 0, key, value)
  {
    hide MatchAssignment, Assigned;
    var rest := assignments[1..];
    if i :| 0 <= i < |rest| && AssignsLast(rest, i, key, value) {
      assert assignments[i+1] == rest[i] && assignments[i+2..] == rest[i+1..];
      assert AssignsLast(assignments, i+1, key, value);
    }
    if i :| 0 <= i < |assignments| && AssignsLast(assignments, i, key, value) {
      if i > 0 {
        assert rest[i-1] == assignments[i] && rest[i..] == assignments[i+1..];
        assert AssignsLast(rest, i-1, key, value);
      }
    }
  }

  lemma {:induction false} AssignedValues(env: Environment, assignments: seq<string>)
    requires IsEnvironment(env)
    requires forall i :: 0 <= i < |assignments| ==> MatchAssignment(assignments[i]).Some?
    ensures IsEnvironment(SetAll(env, assignments))
    ensures forall k, v :: (k, v) in SetAll(env, assignments) <==>
      LastAssigned(assignments, k, v) || ((k, v) in env && !Assigned(assignments, k))
    decreases |assignments|
  {
    hide IsEnvironment, MatchAssignment, SetVariable, HasKey, LastAssigned, Assigned, IsKey, IsValue;
    if assignments == [] {
      forall k, v ensures !LastAssigned(assignments, k, v) && !Assigned(assignments, k) {
        NothingAssigned(k, v);
      }
    } else {
      AssignmentParts(assignments[0]);
      var (key, value) := MatchAssignment(assignments[0]).value;
      SetVariableKeeps(env, key, value);
      LastValueStays(env, key, value);
      AssignedValues(SetVariable(env, key, value), assignments[1..]);
      forall k, v ensures (k, v) in SetAll(env, assignments) <==>
          LastAssigned(assignments, k, v) || ((k, v) in env && !Assigned(assignments, k))
      {
        FirstAssigned(assignments, k);
        FirstLastAssigned(assignments, k, v);
      }
    }
  }

  lemma NothingAssigned(k: string, v: string)
    ensures !LastAssigned([], k, v) && !Assigned([], k)
  {
  }

  // ----- lines -----

  /** The parser ends with these nodes more than it had. */
  ghost predicate Gives(s: Parsing, tokens: seq<string>, p: seq<Node>) {
    Finish(Run(s, tokens)) == Some(s.pipeline + p)
  }

  /** What a command is once its items have been read. */
  function Invoked(assignments: seq<string>, name: string, items: seq<Item>): (c: Node)
    requires forall i :: 0 <= i < |assignments| ==> MatchAssignment(assignments[i]).Some?
    ensures c.Command?
  {
    WithAll(Command(name, [name], None, Unset, Unset, SetAll([], assignments)), items)
  }

  lemma InvokedAsSaid(assignments: seq<string>, name: string, items: seq<Item>)
    requires forall i :: 0 <= i < |assignments| ==> MatchAssignment(assignments[i]).Some?
    requires Fit(items, {})
    ensures var c := Invoked(assignments, name, items);
      && IsInvocation(c, assignments, name, items, false)
      && (c.stdout == Unset ==> IsInvocation(c.(stdout := ToPipe), assignments, name, items, true))
  {
    hide MatchAssignment, SetAll, WithAll, LastAssigned, Words, IsEnvironment;
    var bare := Command(name, [name], None, Unset, Unset, SetAll([], assignments));
    assert Taken(bare) == {};
    NoEnvironment();
    AssignedValues([], assignments);
    WordsGiven(bare, items);
    OutputsGiven(bare, items, "");
    ErrorsGiven(bare, items, "");
    forall f ensures var c := Invoked(assignments, name, items);
        && (c.stdout == ToFile(f) <==> Redirect(">", f) in items)
        && (c.stdin == Some(f) <==> Redirect("<", f) in items)
        && (c.stderr == ToFile(f) <==> Redirect("2>", f) in items)
    {
      OutputsGiven(bare, items, f);
      ErrorsGiven(bare, items, f);
    }
  }

  lemma InvocationGives(s: Parsing, assignments: seq<string>, name: string, items: seq<Item>, more: seq<string>)
    requires s.mode == BEGIN && s.current == None && s.env == []
    requires forall i :: 0 <= i < |assignments| ==> MatchAssignment(assignments[i]).Some?
    requires name != "cd" && MatchAssignment(name).None? && Fit(items, {})
    ensures Run(s, assignments + ([name] + (ItemsTokens(items) + more)))
         == Run(Parsing(COMMAND, [], Some(Invoked(assignments, name, items)), s.pipeline), more)
  {
    hide Run, MatchAssignment, SetAll, WithAll, Streams, Fit;
    var tail := ItemsTokens(items) + more;
    AssignmentsGive(s, assignments, [name] + tail);
    var s1 := s.(env := SetAll([], assignments));
    RunFirst(s1, name, tail);
    var bare := Command(name, [name], None, Unset, Unset, SetAll([], assignments));
    assert Step(s1, name) == Some(Parsing(COMMAND, [], Some(bare), s.pipeline));
    assert Taken(bare) == {};
    ItemsGive(Parsing(COMMAND, [], Some(bare), s.pipeline), items, more);
  }

  lemma EndGives(s: Parsing, rest: Rest)
    requires s.current.Some? && (rest.Nothing? || (rest.Dangling? && AtCommand(s) && rest.redirect in REDIRECTS))
    ensures Gives(s, RestTokens(rest), [s.current.value])
  {
    hide Run;
    NoneIsRead(s);
    if rest.Dangling? {
      RunFirst(s, rest.redirect, []);
      NoneIsRead(Step(s, rest.redirect).value);
      assert [rest.redirect] + [] == [rest.redirect];
    }
  }

  lemma OperatorGives(s: Parsing, t: Parsing, operator: string, line: Line, p: seq<Node>)
    requires s.current.Some? && Step(s, operator) == Some(t) && s.pipeline <= t.pipeline && Gives(t, Tokens(line), p)
    ensures Gives(s, RestTokens(Then(operator, line)), t.pipeline[|s.pipeline|..] + p)
  {
    hide Run, Step, Tokens;
    RunFirst(s, operator, Tokens(line));
    assert s.pipeline + (t.pipeline[|s.pipeline|..] + p) == t.pipeline + p;
  }

  /** After an operand: its node, its operator's node, and those of the line that follows. */
  lemma {:induction false} NextLineGives(s: Parsing, operand: Node, op: Node, operator: string, line: Line)
      returns (p: seq<Node>)
    requires s.current.Some? && Grammatical(line)
    requires Step(s, operator) == Some(Parsing(BEGIN, [], None, s.pipeline + [operand, op]))
    requires (operator == "|" ==> op == Pipe) && (operator == "&&" ==> op == And) && (operator == "||" ==> op == Or)
    ensures Gives(s, RestTokens(Then(operator, line)), [operand] + p) && RestMeans(Then(operator, line), p)
    decreases line, 1
  {
    hide Run, Step, Gives, Means, Grammatical, Tokens;
    var t := Parsing(BEGIN, [], None, s.pipeline + [operand, op]);
    var q := LineGives(t, line);
    OperatorGives(s, t, operator, line, q);
    p := [op] + q;
    assert t.pipeline[|s.pipeline|..] + q == [operand] + p;
    assert p[1..] == q;
  }

  lemma {:induction false} RestOfInvocationGives(s: Parsing, rest: Rest) returns (c: Node, p: seq<Node>)
    requires AtCommand(s) && MayFollow(Taken(s.current.value), rest)
    ensures Gives(s, RestTokens(rest), [c] + p) && RestMeans(rest, p)
    ensures rest.Then? && rest.operator == "|" ==> s.current.value.stdout == Unset
    ensures c == if rest.Then? && rest.operator == "|" then s.current.value.(stdout := ToPipe) else s.current.value
    decreases rest, 0
  {
    hide Run, Gives, Means, Grammatical, Tokens;
    c := s.current.value;
    match rest {
      case Then(operator, line) =>
        if operator == "|" {
          c := c.(stdout := ToPipe);
          p := NextLineGives(s, c, Pipe, operator, line);
        } else if operator == "&&" {
          p := NextLineGives(s, c, And, operator, line);
        } else {
          p := NextLineGives(s, c, Or, operator, line);
        }
      case _ =>
        EndGives(s, rest);
        p := [];
        assert [c] + [] == [c];
    }
  }

  lemma {:induction false} LineGives(s: Parsing, line: Line) returns (p: seq<Node>)
    requires s.mode == BEGIN && s.current == None && s.env == [] && Grammatical(line)
    ensures Gives(s, Tokens(line), p) && Means(line, p)
    decreases line, 0
  {
    hide Run, MatchAssignment, RestMeans, IsInvocation, MayFollow, Fit, Streams, Taken, Invoked;
    match line {
      case Invocation(assignments, name, items, rest) =>
        InvocationGives(s, assignments, name, items, RestTokens(rest));
        InvokedAsSaid(assignments, name, items);
        InvokedTakes(assignments, name, items);
        var t := Parsing(COMMAND, [], Some(Invoked(assignments, name, items)), s.pipeline);
        var c, q := RestOfInvocationGives(t, rest);
        p := [c] + q;
        assert p[1..] == q;
      case ChangeDir(dir, rest) =>
        var t := DirectoryGives(s, dir, RestTokens(rest));
        var q: seq<Node> := [];
        if rest.Then? {
          q := NextLineGives(t, Chdir(dir), And, rest.operator, rest.line);
        } else {
          EndGives(t, rest);
          assert [Chdir(dir)] + q == [Chdir(dir)];
          NothingFollows();
        }
        p := [Chdir(dir)] + q;
        assert p[1..] == q;
    }
  }

  lemma NothingFollows()
    ensures RestMeans(Nothing, [])
  {
  }

  lemma InvokedTakes(assignments: seq<string>, name: string, items: seq<Item>)
    requires forall i :: 0 <= i < |assignments| ==> MatchAssignment(assignments[i]).Some?
    requires Fit(items, {})
    ensures Taken(Invoked(assignments, name, items)) == Streams(items)
  {
    hide Run, MatchAssignment, SetAll, WithAll, Streams, Fit;
    var bare := Command(name, [name], None, Unset, Unset, SetAll([], assignments));
    assert Taken(bare) == {};
    ItemsGive(Parsing(COMMAND, [], Some(bare), []), items, []);
    assert {} + Streams(items) == Streams(items);
  }

  lemma DirectoryGives(s: Parsing, dir: Option<string>, more: seq<string>) returns (t: Parsing)
    requires s.mode == BEGIN && s.current == None && s.env == [] && dir != Some("&&")
    ensures t == Parsing(CHDIR, [], Some(Chdir(dir)), s.pipeline)
    ensures Run(s, ["cd"] + (DirTokens(dir) + more)) == Run(t, more)
  {
    hide Run, MatchAssignment;
    NoAssignment();
    RunFirst(s, "cd", DirTokens(dir) + more);
    t := Step(s, "cd").value;
    if dir.Some? {
      RunFirst(t, dir.value, more);
      t := Step(t, dir.value).value;
    } else {
      assert DirTokens(dir) + more == more;
    }
  }

  /** A grammatical line is parsed to what it means. */
  lemma ParsedAsMeant(line: Line)
    requires Grammatical(line)
    ensures Parsed(Tokens(line)).Some? && Means(line, Parsed(Tokens(line)).value)
  {
    hide Run, Means, Grammatical, Tokens;
    var p := LineGives(START, line);
    assert [] + p == p;
  }

  /** Whatever is accepted is the meaning of a grammatical line with those tokens. */
  lemma AcceptedAsMeant(tokens: seq<string>) returns (line: Line)
    requires Parsed(tokens).Some?
    ensures Grammatical(line) && Tokens(line) == tokens && Means(line, Parsed(tokens).value)
  {
    hide Run, Means, Grammatical, Tokens;
    AcceptedExactly(tokens);
    line :| Grammatical(line) && Tokens(line) == tokens;
    ParsedAsMeant(line);
  }

  lemma NameIsNoAssignment(name: string)
    requires IsKey(name)
    ensures MatchAssignment(name).None?
  {
    WordRunStops(name, "");
    assert name + "" == name;
  }

  lemma FirstGives(s: Parsing, t: Parsing, a: string, more: seq<string>, p: seq<Node>)
    requires Step(s, a) == Some(t) && Finish(Run(t, more)) == Some(p)
    ensures Finish(Run(s, [a] + more)) == Some(p)
  {
    hide Step;
    RunFirst(s, a, more);
  }

  /** An argument may come after a redirect. */
  lemma FileBeforeArgument()
    ensures Parsed(["echo", ">", "f", "x"])
         == Some([Command("echo", ["echo", "x"], None, ToFile("f"), Unset, [])])
  {
    hide Run, MatchAssignment;
    NameIsNoAssignment("echo");
    var c := Command("echo", ["echo", "x"], None, ToFile("f"), Unset, []);
    var s1 := Parsing(COMMAND, [], Some(Command("echo", ["echo"], None, Unset, Unset, [])), []);
    var s3 := Parsing(COMMAND, [], Some(Command("echo", ["echo"], None, ToFile("f"), Unset, [])), []);
    var s4 := Parsing(COMMAND, [], Some(c), []);
    NoneIsRead(s4);
    assert ["echo"] + ["x"] == ["echo", "x"] && [] + [c] == [c];
    FirstGives(s3, s4, "x", [], [c]);
    FirstGives(s1.(mode := STDOUT), s3, "f", ["x"] + [], [c]);
    FirstGives(s1, s1.(mode := STDOUT), ">", ["f"] + (["x"] + []), [c]);
    FirstGives(START, s1, "echo", [">"] + (["f"] + (["x"] + [])), [c]);
    assert ["echo"] + ([">"] + (["f"] + (["x"] + []))) == ["echo", ">", "f", "x"];
  }

  lemma ErrorsToOutputThenDirectory()
    ensures Parsed(["a", "2>&1", "&&", "cd", "d"])
         == Some([Command("a", ["a"], None, Unset, ToStdout, []), And, Chdir(Some("d"))])
  {
    hide Run, MatchAssignment;
    NameIsNoAssignment("a");
    NameIsNoAssignment("cd");
    var c := Command("a", ["a"], None, Unset, ToStdout, []);
    var s1 := Parsing(COMMAND, [], Some(Command("a", ["a"], None, Unset, Unset, [])), []);
    var s2 := Parsing(COMMAND, [], Some(c), []);
    var s3 := Parsing(BEGIN, [], None, [c, And]);
    var s4 := Parsing(CHDIR, [], Some(Chdir(None)), [c, And]);
    var s5 := Parsing(CHDIR, [], Some(Chdir(Some("d"))), [c, And]);
    var p := [c, And, Chdir(Some("d"))];
    NoneIsRead(s5);
    assert [] + [c, And] == [c, And] && [c, And] + [Chdir(Some("d"))] == p;
    FirstGives(s4, s5, "d", [], p);
    FirstGives(s3, s4, "cd", ["d"] + [], p);
    FirstGives(s2, s3, "&&", ["cd"] + (["d"] + []), p);
    FirstGives(s1, s2, "2>&1", ["&&"] + (["cd"] + (["d"] + [])), p);
    FirstGives(START, s1, "a", ["2>&1"] + (["&&"] + (["cd"] + (["d"] + []))), p);
    assert ["a"] + (["2>&1"] + (["&&"] + (["cd"] + (["d"] + [])))) == ["a", "2>&1", "&&", "cd", "d"];
  }
}
