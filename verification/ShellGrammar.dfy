/** A grammar of the command lines that the parser of waf-tools/shellcmd.py accepts. */
module ShellGrammar {
  import opened Basics
  import opened ShellSyntax

  const REDIRECTS := {">", "2>", "<"}

  /** What may follow a command's name: an argument, 2>&1, or a redirect and any token at all as its file. */
  datatype Item = Word(token: string) | Merge | Redirect(operator: string, file: string)

  datatype Line =
    | Invocation(assignments: seq<string>, name: string, items: seq<Item>, rest: Rest)
    | ChangeDir(dir: Option<string>, rest: Rest)

  /** What follows a command: nothing, a redirect whose file is missing, or an operator and another line. */
  datatype Rest = Nothing | Dangling(redirect: string) | Then(operator: string, line: Line)

  // ----- the tokens of a line -----

  function ItemTokens(item: Item): seq<string> {
    match item
    case Word(token) => [token]
    case Merge => ["2>&1"]
    case Redirect(operator, file) => [operator, file]
  }

  function ItemsTokens(items: seq<Item>): seq<string> {
    if items == [] then [] else ItemTokens(items[0]) + ItemsTokens(items[1..])
  }

  function RestTokens(rest: Rest): seq<string> {
    match rest
    case Nothing => []
    case Dangling(redirect) => [redirect]
    case Then(operator, line) => [operator] + Tokens(line)
  }

  function DirTokens(dir: Option<string>): seq<string> {
    if dir.Some? then [dir.value] else []
  }

  function Tokens(line: Line): seq<string> {
    match line
    case Invocation(assignments, name, items, rest) =>
      assignments + ([name] + (ItemsTokens(items) + RestTokens(rest)))
    case ChangeDir(dir, rest) => ["cd"] + (DirTokens(dir) + RestTokens(rest))
  }

  // ----- which lines are grammatical -----

  predicate IsItem(item: Item) {
    match item
    case Word(token) => IsArgument(token)
    case Merge => true
    case Redirect(operator, _) => operator in REDIRECTS
  }

  /** The stream that an item redirects: 2>&1 takes the place of a redirect of the error output. */
  function Stream(item: Item): set<string> {
    match item
    case Word(_) => {}
    case Merge => {"2>"}
    case Redirect(operator, _) => {operator}
  }

  function Streams(items: seq<Item>): set<string> {
    if items == [] then {} else Stream(items[0]) + Streams(items[1..])
  }

  /** No stream is redirected twice, and none that is taken already. */
  predicate Fit(items: seq<Item>, taken: set<string>) {
    items == [] || (IsItem(items[0]) && Stream(items[0]) !! taken && Fit(items[1..], taken + Stream(items[0])))
  }

  /** What may come when these streams have been redirected: a pipe needs the standard output. */
  predicate MayFollow(taken: set<string>, rest: Rest)
    decreases rest
  {
    match rest
    case Nothing => true
    case Dangling(redirect) => redirect in REDIRECTS
    case Then(operator, line) =>
      (operator == "&&" || operator == "||" || (operator == "|" && ">" !in taken)) && Grammatical(line)
  }

  predicate Grammatical(line: Line)
    decreases line
  {
    match line
    case Invocation(assignments, name, items, rest) =>
      && (forall i :: 0 <= i < |assignments| ==> MatchAssignment(assignments[i]).Some?)
      && name != "cd" && MatchAssignment(name).None?
      && Fit(items, {}) && MayFollow(Streams(items), rest)
    case ChangeDir(dir, rest) =>
      && dir != Some("&&")
      && (rest.Nothing? || (rest.Then? && rest.operator == "&&" && Grammatical(rest.line)))
  }

  ghost predicate Acceptable(tokens: seq<string>) {
    exists line :: Grammatical(line) && Tokens(line) == tokens
  }

  /** The last operand is a command, and the file of no redirect is missing. */
  predicate Complete(rest: Rest) {
    rest.Nothing? || (rest.Then? && EndsInCommand(rest.line))
  }

  predicate EndsInCommand(line: Line) {
    match line
    case Invocation(_, _, _, rest) => Complete(rest)
    case ChangeDir(_, rest) => rest.Then? && EndsInCommand(rest.line)
  }

  // ----- grammatical lines are accepted -----

  function Taken(c: Node): set<string>
    requires c.Command?
  {
    (if c.stdout != Unset then {">"} else {}) + (if c.stderr != Unset then {"2>"} else {})
    + (if c.stdin.Some? then {"<"} else {})
  }

  /** The parser is through with something that it accepts; complete says whether a command could go on here. */
  predicate IsThrough(n: Option<Parsing>, complete: bool) {
    n.Some? && n.value.current.Some? && (n.value.mode == COMMAND <==> complete)
  }

  predicate AtCommand(s: Parsing) {
    s.mode == COMMAND && s.current.Some? && s.current.value.Command? && s.env == []
  }

  lemma RunFirst(s: Parsing, a: string, rest: seq<string>)
    ensures Run(s, [a] + rest) == if Step(s, a).None? then None else Run(Step(s, a).value, rest)
  {
    hide Step;
    assert ([a] + rest)[1..] == rest;
  }

  /** One item is read: the parser is at a command again, and the stream of the item is taken. */
  lemma ItemIsRead(s: Parsing, item: Item, more: seq<string>) returns (t: Parsing)
    requires AtCommand(s) && IsItem(item) && Stream(item) !! Taken(s.current.value)
    ensures AtCommand(t) && Taken(t.current.value) == Taken(s.current.value) + Stream(item)
    ensures Run(s, ItemTokens(item) + more) == Run(t, more)
  {
    hide Run;
    match item {
      case Word(token) =>
        RunFirst(s, token, more);
        t := Step(s, token).value;
      case Merge =>
        RunFirst(s, "2>&1", more);
        t := Step(s, "2>&1").value;
      case Redirect(operator, file) =>
        assert [operator, file] + more == [operator] + ([file] + more);
        RunFirst(s, operator, [file] + more);
        var u := Step(s, operator).value;
        RunFirst(u, file, more);
        t := Step(u, file).value;
    }
  }

  lemma {:induction false} RestOfCommandIsRead(s: Parsing, items: seq<Item>, rest: Rest)
    requires AtCommand(s) && Fit(items, Taken(s.current.value))
    requires MayFollow(Taken(s.current.value) + Streams(items), rest)
    ensures IsThrough(Run(s, ItemsTokens(items) + RestTokens(rest)), Complete(rest))
    decreases rest, 0, |items| + 1
  {
    hide Run, Taken, Tokens, Grammatical, EndsInCommand;
    if items != [] {
      var tail := ItemsTokens(items[1..]) + RestTokens(rest);
      assert ItemsTokens(items) + RestTokens(rest) == ItemTokens(items[0]) + tail;
      var t := ItemIsRead(s, items[0], tail);
      assert Taken(s.current.value) + Streams(items) == Taken(t.current.value) + Streams(items[1..]);
      RestOfCommandIsRead(t, items[1..], rest);
    } else {
      assert ItemsTokens(items) + RestTokens(rest) == RestTokens(rest);
      AfterCommandIsRead(s, rest);
    }
  }

  lemma {:induction false} AfterCommandIsRead(s: Parsing, rest: Rest)
    requires AtCommand(s) && MayFollow(Taken(s.current.value), rest)
    ensures IsThrough(Run(s, RestTokens(rest)), Complete(rest))
    decreases rest, 0, 0
  {
    hide Run, Tokens, Grammatical, EndsInCommand;
    NoneIsRead(s);
    match rest {
      case Nothing =>
      case Dangling(redirect) =>
        RunFirst(s, redirect, []);
        NoneIsRead(Step(s, redirect).value);
        assert [redirect] + [] == [redirect];
      case Then(operator, line) =>
        RunFirst(s, operator, Tokens(line));
        LineIsRead(Step(s, operator).value, line);
    }
  }

  lemma {:induction false} LineIsRead(s: Parsing, line: Line)
    requires s.mode == BEGIN && s.current == None && Grammatical(line) && (line.ChangeDir? ==> s.env == [])
    ensures IsThrough(Run(s, Tokens(line)), EndsInCommand(line))
    decreases line, 0, 0
  {
    hide Run;
    match line {
      case Invocation(assignments, name, items, rest) =>
        InvocationIsRead(s, assignments, name, items, rest);
      case ChangeDir(dir, rest) =>
        ChangeDirIsRead(s, dir, rest);
    }
  }

  lemma {:induction false} InvocationIsRead(s: Parsing, assignments: seq<string>, name: string, items: seq<Item>,
                                            rest: Rest)
    requires s.mode == BEGIN && s.current == None
    requires forall i :: 0 <= i < |assignments| ==> MatchAssignment(assignments[i]).Some?
    requires name != "cd" && MatchAssignment(name).None? && Fit(items, {}) && MayFollow(Streams(items), rest)
    ensures IsThrough(Run(s, assignments + ([name] + (ItemsTokens(items) + RestTokens(rest)))), Complete(rest))
    decreases rest, 1, |assignments|
  {
    hide Run, MatchAssignment, ItemsTokens, RestTokens, SetVariable, Fit, MayFollow, Streams, Complete;
    var tail := ItemsTokens(items) + RestTokens(rest);
    if assignments == [] {
      assert assignments + ([name] + tail) == [name] + tail;
      RunFirst(s, name, tail);
      var t := Step(s, name).value;
      assert Taken(t.current.value) == {} && {} + Streams(items) == Streams(items);
      RestOfCommandIsRead(t, items, rest);
    } else {
      var more := assignments[1..] + ([name] + tail);
      assert assignments + ([name] + tail) == [assignments[0]] + more;
      RunFirst(s, assignments[0], more);
      InvocationIsRead(Step(s, assignments[0]).value, assignments[1..], name, items, rest);
    }
  }

  lemma {:induction false} ChangeDirIsRead(s: Parsing, dir: Option<string>, rest: Rest)
    requires s.mode == BEGIN && s.current == None && s.env == [] && Grammatical(ChangeDir(dir, rest))
    ensures IsThrough(Run(s, Tokens(ChangeDir(dir, rest))), EndsInCommand(ChangeDir(dir, rest)))
    decreases rest, 1, 0
  {
    hide Run, MatchAssignment;
    NoAssignment();
    var tail := RestTokens(rest);
    RunFirst(s, "cd", DirTokens(dir) + tail);
    var t := Step(s, "cd").value;
    if dir.Some? {
      RunFirst(t, dir.value, tail);
      AfterChangeDirIsRead(Step(t, dir.value).value, rest);
    } else {
      assert DirTokens(dir) + tail == tail;
      AfterChangeDirIsRead(t, rest);
    }
  }

  lemma {:induction false} AfterChangeDirIsRead(s: Parsing, rest: Rest)
    requires s.mode == CHDIR && Consistent(s) && s.env == []
    requires rest.Nothing? || (rest.Then? && rest.operator == "&&" && Grammatical(rest.line))
    ensures IsThrough(Run(s, RestTokens(rest)), rest.Then? && EndsInCommand(rest.line))
    decreases rest, 0, 0
  {
    hide Run, Tokens, Grammatical, EndsInCommand;
    NoneIsRead(s);
    if rest.Then? {
      RunFirst(s, "&&", Tokens(rest.line));
      LineIsRead(Step(s, "&&").value, rest.line);
    }
  }

  // ----- what is accepted is grammatical -----

  /** How a run that succeeds starts: with a step that succeeds. */
  lemma FirstStep(s: Parsing, tokens: seq<string>) returns (t: Parsing)
    requires tokens != [] && Run(s, tokens).Some?
    ensures Step(s, tokens[0]) == Some(t) && Run(t, tokens[1..]) == Run(s, tokens)
  {
    hide Step;
    t := Step(s, tokens[0]).value;
  }

  lemma NextItem(s: Parsing, tokens: seq<string>) returns (item: Item, more: seq<string>)
    requires AtCommand(s) && tokens != [] && Run(s, tokens).Some?
    requires tokens[0] != "|" && tokens[0] != "&&" && tokens[0] != "||"
    requires tokens[0] in REDIRECTS ==> |tokens| > 1
    ensures tokens == ItemTokens(item) + more
    ensures IsItem(item) && Stream(item) !! Taken(s.current.value)
  {
    hide Run;
    var t := FirstStep(s, tokens);
    if tokens[0] in REDIRECTS {
      assert tokens[1..][0] == tokens[1] && tokens == [tokens[0], tokens[1]] + tokens[2..];
      var u := FirstStep(t, tokens[1..]);
      item, more := Redirect(tokens[0], tokens[1]), tokens[2..];
    } else if tokens[0] == "2>&1" {
      assert tokens == [tokens[0]] + tokens[1..];
      item, more := Merge, tokens[1..];
    } else {
      assert tokens == [tokens[0]] + tokens[1..];
      item, more := Word(tokens[0]), tokens[1..];
    }
  }

  /** Everything after a command's name, as items and what follows them. */
  lemma {:induction false} RestOfCommand(s: Parsing, tokens: seq<string>) returns (items: seq<Item>, rest: Rest)
    requires AtCommand(s) && Finish(Run(s, tokens)).Some?
    ensures Fit(items, Taken(s.current.value)) && MayFollow(Taken(s.current.value) + Streams(items), rest)
    ensures tokens == ItemsTokens(items) + RestTokens(rest)
    ensures Complete(rest) <==> Run(s, tokens).value.mode == COMMAND
    decreases |tokens|, 1
  {
    hide Taken, Tokens, Grammatical, EndsInCommand, Run;
    NoneIsRead(s);
    if tokens == [] {
      items, rest := [], Nothing;
    } else if tokens[0] == "|" || tokens[0] == "&&" || tokens[0] == "||" {
      rest := AfterCommand(s, tokens);
      items := [];
      assert Taken(s.current.value) + Streams(items) == Taken(s.current.value);
    } else if tokens[0] in REDIRECTS && |tokens| == 1 {
      var t := Step(s, tokens[0]).value;
      RunFirst(s, tokens[0], []);
      NoneIsRead(t);
      assert tokens == [tokens[0]] + [];
      items, rest := [], Dangling(tokens[0]);
    } else {
      var item, more := NextItem(s, tokens);
      assert tokens == ItemTokens(item) + more;
      var t := ItemIsRead(s, item, more);
      items, rest := RestOfCommand(t, more);
      items := [item] + items;
      assert items[1..] + [] == items[1..];
      assert Taken(s.current.value) + Streams(items) == Taken(t.current.value) + Streams(items[1..]);
      assert tokens == ItemsTokens(items) + RestTokens(rest);
    }
  }

  lemma {:induction false} AfterCommand(s: Parsing, tokens: seq<string>) returns (rest: Rest)
    requires AtCommand(s) && tokens != [] && Finish(Run(s, tokens)).Some?
    requires tokens[0] == "|" || tokens[0] == "&&" || tokens[0] == "||"
    ensures MayFollow(Taken(s.current.value), rest) && RestTokens(rest) == tokens
    ensures Complete(rest) <==> Run(s, tokens).value.mode == COMMAND
    decreases |tokens|, 0
  {
    hide Run, Tokens, Grammatical, EndsInCommand;
    var t := FirstStep(s, tokens);
    var line := LineOf(t, tokens[1..]);
    rest := Then(tokens[0], line);
    assert tokens == [tokens[0]] + tokens[1..];
  }

  lemma {:induction false} AfterChangeDir(s: Parsing, tokens: seq<string>) returns (rest: Rest)
    requires s.mode == CHDIR && Consistent(s) && s.env == [] && Finish(Run(s, tokens)).Some?
    requires tokens == [] || tokens[0] == "&&"
    ensures rest.Nothing? || (rest.Then? && rest.operator == "&&" && Grammatical(rest.line))
    ensures RestTokens(rest) == tokens
    ensures rest.Then? && EndsInCommand(rest.line) <==> Run(s, tokens).value.mode == COMMAND
    decreases |tokens|, 0
  {
    hide Run, Tokens, Grammatical, EndsInCommand;
    NoneIsRead(s);
    if tokens == [] {
      rest := Nothing;
    } else {
      var t := FirstStep(s, tokens);
      var line := LineOf(t, tokens[1..]);
      rest := Then("&&", line);
      assert tokens == ["&&"] + tokens[1..];
    }
  }

  lemma {:induction false} ChangeDirOf(s: Parsing, tokens: seq<string>) returns (dir: Option<string>, rest: Rest)
    requires s.mode == CHDIR && s.current == Some(Chdir(None)) && s.env == [] && Finish(Run(s, tokens)).Some?
    ensures Grammatical(ChangeDir(dir, rest)) && tokens == DirTokens(dir) + RestTokens(rest)
    ensures EndsInCommand(ChangeDir(dir, rest)) <==> Run(s, tokens).value.mode == COMMAND
    decreases |tokens|, 1
  {
    hide Run, Tokens, Step;
    if tokens == [] || tokens[0] == "&&" {
      rest := AfterChangeDir(s, tokens);
      dir := None;
      assert DirTokens(dir) + RestTokens(rest) == RestTokens(rest);
    } else {
      var t := FirstStep(s, tokens);
      assert t.mode == CHDIR && t.env == [] && t.current == Some(Chdir(Some(tokens[0]))) by {
        DirectoryStep(s, tokens[0]);
      }
      DirectoryOnce(t, tokens[1..]);
      rest := AfterChangeDir(t, tokens[1..]);
      dir := Some(tokens[0]);
      assert tokens == [tokens[0]] + tokens[1..];
    }
  }

  lemma DirectoryStep(s: Parsing, token: string)
    requires s.mode == CHDIR && s.current == Some(Chdir(None)) && token != "&&"
    ensures Step(s, token) == Some(s.(current := Some(Chdir(Some(token)))))
  {
  }

  lemma DirectoryOnce(s: Parsing, tokens: seq<string>)
    requires s.mode == CHDIR && Consistent(s) && s.current.value.dir.Some? && Run(s, tokens).Some?
    ensures tokens == [] || tokens[0] == "&&"
  {
  }

  lemma SomeVariable(env: Environment, v: (string, string))
    ensures SetVariable(env, v.0, v.1) != []
  {
  }

  lemma {:induction false} LineOf(s: Parsing, tokens: seq<string>) returns (line: Line)
    requires s.mode == BEGIN && s.current == None && Finish(Run(s, tokens)).Some?
    ensures Grammatical(line) && Tokens(line) == tokens && (line.ChangeDir? ==> s.env == [])
    ensures EndsInCommand(line) <==> Run(s, tokens).value.mode == COMMAND
    decreases |tokens|, 2
  {
    hide Run, MatchAssignment, SetVariable;
    NoneIsRead(s);
    var t := FirstStep(s, tokens);
    assert tokens == [tokens[0]] + tokens[1..];
    if MatchAssignment(tokens[0]).Some? {
      line := LineOf(t, tokens[1..]);
      assert t.env != [] by {
        SomeVariable(s.env, MatchAssignment(tokens[0]).value);
      }
      line := line.(assignments := [tokens[0]] + line.assignments);
    } else if tokens[0] == "cd" {
      var dir, rest := ChangeDirOf(t, tokens[1..]);
      line := ChangeDir(dir, rest);
    } else {
      var items, rest := RestOfCommand(t, tokens[1..]);
      line := Invocation([], tokens[0], items, rest);
      assert {} + Streams(items) == Streams(items);
    }
  }

  // ----- the main results -----

  /** The parser accepts exactly what the grammar describes. */
  lemma AcceptedExactly(tokens: seq<string>)
    ensures Parsed(tokens).Some? <==> Acceptable(tokens)
  {
    hide Run, Grammatical, Tokens;
    if Parsed(tokens).Some? {
      var line := LineOf(START, tokens);
    }
    if line :| Grammatical(line) && Tokens(line) == tokens {
      LineIsRead(START, line);
    }
  }

  /** The tokens are those of a line that ends in a command which could go on. */
  ghost predicate CouldGoOn(tokens: seq<string>) {
    exists line :: Grammatical(line) && EndsInCommand(line) && Tokens(line) == tokens
  }

  ghost predicate CanBeContinued(tokens: seq<string>) {
    exists more :: Acceptable(tokens + more)
  }

  /** A redirect operator as the last token changes nothing exactly after a command that could go on, and after
      what no continuation makes acceptable. */
  lemma DroppedRedirect(tokens: seq<string>, op: string)
    requires op in REDIRECTS
    ensures Parsed(tokens + [op]) == Parsed(tokens) <==> CouldGoOn(tokens) || !CanBeContinued(tokens)
  {
    hide Run, Grammatical, Tokens, Step, Acceptable;
    var n := Run(START, tokens);
    RunBoth(START, tokens, [op]);
    ContinuedExactly(tokens);
    GoesOnExactly(tokens);
    if n.Some? {
      LastStep(n.value, op);
    }
  }

  lemma GoesOnExactly(tokens: seq<string>)
    ensures CouldGoOn(tokens) <==> Run(START, tokens).Some? && Run(START, tokens).value.mode == COMMAND
  {
    hide Run, Grammatical, Tokens;
    if line :| Grammatical(line) && EndsInCommand(line) && Tokens(line) == tokens {
      LineIsRead(START, line);
    }
    if Run(START, tokens).Some? && Run(START, tokens).value.mode == COMMAND {
      var line := LineOf(START, tokens);
    }
  }

  lemma ContinuedExactly(tokens: seq<string>)
    ensures CanBeContinued(tokens) <==> Run(START, tokens).Some?
  {
    hide Run, Acceptable, Step;
    var n := Run(START, tokens);
    if more :| Acceptable(tokens + more) {
      AcceptedExactly(tokens + more);
      RunBoth(START, tokens, more);
    }
    if n.Some? {
      if n.value.current.Some? {
        AcceptedExactly(tokens);
        assert tokens + [] == tokens;
      } else {
        AnyCommand(n.value);
        RunBoth(START, tokens, ["x"]);
        AcceptedExactly(tokens + ["x"]);
      }
    }
  }

  lemma AnyCommand(s: Parsing)
    requires Consistent(s) && s.current == None
    ensures Finish(Run(s, ["x"])).Some?
  {
    assert WordRun("x") == 1;
    OneIsRead(s, Step(s, "x").value, "x");
  }

  lemma NotAssigned(op: string)
    requires op in REDIRECTS
    ensures MatchAssignment(op).None?
  {
    assert "2>"[1..] == ">" && WordRun(">") == 0;
  }

  lemma LastStep(s: Parsing, op: string)
    requires Consistent(s) && op in REDIRECTS
    ensures Finish(Run(s, [op])) == Finish(Some(s)) <==> s.mode == COMMAND
  {
    hide Run, MatchAssignment;
    NotAssigned(op);
    RunFirst(s, op, []);
    assert [op] + [] == [op];
    if Step(s, op).Some? {
      var t := Step(s, op).value;
      NoneIsRead(t);
      assert t.pipeline == s.pipeline;
      if s.current.Some? {
        assert (s.pipeline + [s.current.value])[|s.pipeline|] == s.current.value;
        assert (s.pipeline + [t.current.value])[|s.pipeline|] == t.current.value;
      }
    }
  }
}
