/** The shell-like command lines of waf-tools/shellcmd.py: tokens, pipelines, and the six-state parser. */
module ShellSyntax {
  import opened Basics

  /** Where a command's output goes. */
  datatype Target = Unset | ToPipe | ToStdout | ToFile(name: string)

  type Environment = seq<(string, string)>

  datatype Node =
    | Command(name: string, argv: seq<string>, stdin: Option<string>, stdout: Target, stderr: Target, env: Environment)
    | Chdir(dir: Option<string>)
    | Pipe
    | And
    | Or

  datatype Mode = BEGIN | COMMAND | CHDIR | STDERR | STDOUT | STDIN

  // ----- variable assignments in front of a command -----

  predicate IsWordChar(c: char) {
    'a' <= c <= 'z' || 'A' <= c <= 'Z' || '0' <= c <= '9' || c == '_'
  }

  /** White space, as \s of a Unicode pattern understands it. */
  predicate IsSpace(c: char) {
    var n := c as int;
    9 <= n <= 13 || 28 <= n <= 32 || n == 133 || n == 160 || n == 5760 || 8192 <= n <= 8202
    || n == 8232 || n == 8233 || n == 8239 || n == 8287 || n == 12288
  }

  predicate IsKey(s: string) {
    s != "" && forall i :: 0 <= i < |s| ==> IsWordChar(s[i])
  }

  predicate IsValue(s: string) {
    s != "" && forall i :: 0 <= i < |s| ==> !IsSpace(s[i])
  }

  function WordRun(s: string): (n: nat)
    ensures n <= |s| && (forall i :: 0 <= i < n ==> IsWordChar(s[i])) && (n < |s| ==> !IsWordChar(s[n]))
  {
    if s == "" || !IsWordChar(s[0]) then 0 else 1 + WordRun(s[1..])
  }

  /** The pattern ^([a-zA-Z0-9_]+)=(\S+)$, whose $ also matches before a final line end. */
  function MatchAssignment(token: string): Option<(string, string)> {
    var n := WordRun(token);
    if 0 < n < |token| && token[n] == '=' && IsValue(StripLineEnd(token[n+1..]))
    then Some((token[..n], StripLineEnd(token[n+1..])))
    else None
  }

  /** Assignment to a key of a dictionary, which keeps the order in which keys first came. */
  function SetVariable(env: Environment, key: string, value: string): Environment {
    if env == [] then [(key, value)]
    else if env[0].0 == key then [(key, value)] + env[1..]
    else [env[0]] + SetVariable(env[1..], key, value)
  }

  // ----- the parser as a machine that takes one token at a time -----

  datatype Parsing = Parsing(mode: Mode, env: Environment, current: Option<Node>, pipeline: seq<Node>)

  const START := Parsing(BEGIN, [], None, [])

  ghost predicate Consistent(s: Parsing) {
    match s.mode
    case BEGIN => s.current == None
    case CHDIR => s.current.Some? && s.current.value.Chdir?
    case _ => s.current.Some? && s.current.value.Command?
  }

  function Commit(s: Parsing, op: Node): Parsing
    requires s.current.Some?
  {
    Parsing(BEGIN, s.env, None, s.pipeline + [s.current.value, op])
  }

  function StepBegin(s: Parsing, token: string): Option<Parsing> {
    match MatchAssignment(token)
    case Some((key, value)) => Some(s.(env := SetVariable(s.env, key, value)))
    case None =>
      if token == "cd" then
        if s.env != [] then None else Some(s.(mode := CHDIR, current := Some(Chdir(None))))
      else
        Some(s.(mode := COMMAND, env := [], current := Some(Command(token, [token], None, Unset, Unset, s.env))))
  }

  function StepCommand(s: Parsing, token: string): Option<Parsing>
    requires s.current.Some? && s.current.value.Command?
  {
    var c := s.current.value;
    if token == ">" then Some(s.(mode := STDOUT))
    else if token == "2>" then Some(s.(mode := STDERR))
    else if token == "2>&1" then
      if c.stderr != Unset then None else Some(s.(current := Some(c.(stderr := ToStdout))))
    else if token == "<" then Some(s.(mode := STDIN))
    else if token == "|" then
      if c.stdout != Unset then None else Some(Commit(s.(current := Some(c.(stdout := ToPipe))), Pipe))
    else if token == "&&" then Some(Commit(s, And))
    else if token == "||" then Some(Commit(s, Or))
    else Some(s.(current := Some(c.(argv := c.argv + [token]))))
  }

  function StepChdir(s: Parsing, token: string): Option<Parsing>
    requires s.current.Some? && s.current.value.Chdir?
  {
    if token == "&&" then Some(Commit(s, And))
    else if s.current.value.dir.Some? then None
    else Some(s.(current := Some(Chdir(Some(token)))))
  }

  /** The file of a redirect. */
  function StepFile(s: Parsing, token: string): Option<Parsing>
    requires s.current.Some? && s.current.value.Command?
  {
    var c := s.current.value;
    match s.mode
    case STDOUT =>
      if c.stdout != Unset then None else Some(s.(mode := COMMAND, current := Some(c.(stdout := ToFile(token)))))
    case STDERR =>
      if c.stderr != Unset then None else Some(s.(mode := COMMAND, current := Some(c.(stderr := ToFile(token)))))
    case _ =>
      if c.stdin.Some? then None else Some(s.(mode := COMMAND, current := Some(c.(stdin := Some(token)))))
  }

  /** One token; None where an assertion of the original fails. The node under construction is always of the kind that
      the mode says. */
  function Step(s: Parsing, token: string): (n: Option<Parsing>)
    ensures Consistent(s) && n.Some? ==> Consistent(n.value)
  {
    if s.mode == BEGIN then StepBegin(s, token)
    else if s.current.None? then None
    else if s.mode == CHDIR then if s.current.value.Chdir? then StepChdir(s, token) else None
    else if !s.current.value.Command? then None
    else if s.mode == COMMAND then StepCommand(s, token)
    else StepFile(s, token)
  }

  function Run(s: Parsing, tokens: seq<string>): (n: Option<Parsing>)
    ensures Consistent(s) && n.Some? ==> Consistent(n.value)
    decreases |tokens|
  {
    if tokens == [] then Some(s)
    else if Step(s, tokens[0]).None? then None
    else Run(Step(s, tokens[0]).value, tokens[1..])
  }

  /** The last command is committed at the end, if there is one. */
  function Finish(s: Option<Parsing>): Option<seq<Node>> {
    if s.None? || s.value.current.None? then None else Some(s.value.pipeline + [s.value.current.value])
  }

  function Parsed(tokens: seq<string>): Option<seq<Node>> {
    Finish(Run(START, tokens))
  }

  // ----- the pipelines that the parser returns -----

  const OPERATORS := {">", "2>", "2>&1", "<", "|", "&&", "||"}

  predicate IsArgument(token: string) {
    token !in OPERATORS
  }

  predicate IsEnvironment(env: Environment) {
    && (forall i :: 0 <= i < |env| ==> IsKey(env[i].0) && IsValue(env[i].1))
    && (forall i, j :: 0 <= i < j < |env| ==> env[i].0 != env[j].0)
  }

  predicate IsCommand(c: Node) {
    && c.Command?
    && c.name != "cd" && MatchAssignment(c.name).None?
    && c.argv != [] && c.argv[0] == c.name
    && (forall i :: 1 <= i < |c.argv| ==> IsArgument(c.argv[i]))
    && c.stdout != ToStdout && c.stderr != ToPipe
    && IsEnvironment(c.env)
  }

  predicate IsOperator(n: Node) {
    n == Pipe || n == And || n == Or
  }

  /** An operand, given the operator that follows it. A command's output is a pipe exactly when Pipe follows; a
      directory change is followed by And or by nothing. */
  predicate IsOperand(n: Node, next: Option<Node>) {
    match n
    case Command(_, _, _, stdout, _, _) => IsCommand(n) && (stdout == ToPipe <==> next == Some(Pipe))
    case Chdir(dir) => (dir.Some? ==> dir.value != "&&") && (next == None || next == Some(And))
    case _ => false
  }

  /** Operands and operators alternate, and operands come first and last. */
  predicate WellFormed(p: seq<Node>) {
    p != [] &&
    if |p| == 1 then IsOperand(p[0], None)
    else IsOperand(p[0], Some(p[1])) && IsOperator(p[1]) && WellFormed(p[2..])
  }

  /** The same, as far as it can be said before the last operand has come. */
  predicate WellFormedSoFar(p: seq<Node>) {
    p == [] || (|p| >= 2 && IsOperand(p[0], Some(p[1])) && IsOperator(p[1]) && WellFormedSoFar(p[2..]))
  }

  lemma {:induction false} OneMorePair(p: seq<Node>, n: Node, op: Node)
    requires WellFormedSoFar(p) && IsOperand(n, Some(op)) && IsOperator(op)
    ensures WellFormedSoFar(p + [n, op])
  {
    if p == [] {
      assert (p + [n, op])[2..] == [];
    } else {
      assert (p + [n, op])[2..] == p[2..] + [n, op];
      OneMorePair(p[2..], n, op);
    }
  }

  lemma {:induction false} LastOperand(p: seq<Node>, n: Node)
    requires WellFormedSoFar(p) && IsOperand(n, None)
    ensures WellFormed(p + [n])
  {
    if p != [] {
      assert (p + [n])[2..] == p[2..] + [n];
      LastOperand(p[2..], n);
    }
  }

  /** In terms of positions: operands at even ones, operators at odd ones, and a command's output is a pipe exactly
      when a Pipe node follows it. */
  lemma {:induction false} Alternation(p: seq<Node>, i: nat)
    requires WellFormed(p) && i < |p|
    ensures |p| % 2 == 1
    ensures i % 2 == 0 ==> p[i].Command? || p[i].Chdir?
    ensures i % 2 == 1 ==> IsOperator(p[i])
    ensures p[i].Command? ==> (p[i].stdout == ToPipe <==> i + 1 < |p| && p[i+1] == Pipe)
    ensures p[i].Chdir? && i + 1 < |p| ==> p[i+1] == And
  {
    if |p| > 1 {
      Alternation(p[2..], if i >= 2 then i - 2 else 0);
    }
  }

  // ----- what every accepted token list is parsed to -----

  ghost predicate Sound(s: Parsing) {
    && Consistent(s) && IsEnvironment(s.env) && WellFormedSoFar(s.pipeline)
    && (s.current.Some? ==> IsOperand(s.current.value, None))
  }

  predicate HasKey(env: Environment, key: string) {
    exists j :: 0 <= j < |env| && env[j].0 == key
  }

  lemma FirstVariable(env: Environment, key: string)
    requires env != []
    ensures HasKey(env, key) <==> env[0].0 == key || HasKey(env[1..], key)
  {
    if j :| 0 <= j < |env| && env[j].0 == key {
      assert j > 0 ==> env[1..][j-1].0 == key;
    }
    if j :| 0 <= j < |env[1..]| && env[1..][j].0 == key {
      assert env[j+1].0 == key;
    }
  }

  /** An environment, item by item: the first variable is one, and its key does not come again. */
  lemma EnvironmentUnfolds(env: Environment)
    requires env != []
    ensures IsEnvironment(env) <==>
      IsKey(env[0].0) && IsValue(env[0].1) && !HasKey(env[1..], env[0].0) && IsEnvironment(env[1..])
  {
    hide IsKey, IsValue;
    var rest := env[1..];
    assert forall i :: 1 <= i < |env| ==> env[i] == rest[i-1];
    if IsEnvironment(env) {
      assert forall i :: 0 <= i < |rest| ==> rest[i] == env[i+1];
    }
  }

  lemma {:induction false} SetVariableKeeps(env: Environment, key: string, value: string)
    requires IsEnvironment(env) && IsKey(key) && IsValue(value)
    ensures IsEnvironment(SetVariable(env, key, value))
    ensures forall k :: HasKey(SetVariable(env, key, value), k) <==> k == key || HasKey(env, k)
  {
    hide IsKey, IsValue, IsEnvironment, HasKey;
    NothingSet(key, value);
    if env != [] {
      EnvironmentUnfolds(env);
      var after := SetVariable(env, key, value);
      if env[0].0 != key {
        SetVariableKeeps(env[1..], key, value);
        assert after[1..] == SetVariable(env[1..], key, value);
      } else {
        assert after[1..] == env[1..];
      }
      EnvironmentUnfolds(after);
      forall k ensures HasKey(after, k) <==> k == key || HasKey(env, k) {
        FirstVariable(env, k);
        FirstVariable(after, k);
      }
    }
  }

  lemma NothingSet(key: string, value: string)
    requires IsKey(key) && IsValue(value)
    ensures IsEnvironment([(key, value)])
    ensures forall k :: HasKey([(key, value)], k) <==> k == key
    ensures forall k :: !HasKey([], k)
  {
    forall k ensures HasKey([(key, value)], k) <==> k == key {
      assert k == key ==> [(key, value)][0].0 == k;
    }
  }

  lemma NotAgain(env: Environment, v: (string, string))
    requires !HasKey(env, v.0)
    ensures v !in env
  {
  }

  lemma FirstOrLater(env: Environment, v: (string, string))
    requires env != []
    ensures v in env <==> v == env[0] || v in env[1..]
  {
    assert env == [env[0]] + env[1..];
  }

  /** The key has the value that was assigned last, every other key has the value it had, and the keys stay in the
      order in which they first came. */
  lemma {:induction false} LastValueStays(env: Environment, key: string, value: string)
    requires IsEnvironment(env)
    ensures forall k, v :: (k, v) in SetVariable(env, key, value) <==> if k == key then v == value else (k, v) in env
    ensures |env| <= |SetVariable(env, key, value)|
    ensures forall i :: 0 <= i < |env| ==> SetVariable(env, key, value)[i].0 == env[i].0
  {
    hide IsEnvironment, HasKey;
    var after := SetVariable(env, key, value);
    if env == [] {
      assert forall v :: v in after <==> v == (key, value);
    } else {
      EnvironmentUnfolds(env);
      if env[0].0 != key {
        LastValueStays(env[1..], key, value);
      }
      assert after[1..] == if env[0].0 == key then env[1..] else SetVariable(env[1..], key, value);
      forall k, v ensures (k, v) in after <==> if k == key then v == value else (k, v) in env {
        FirstOrLater(env, (k, v));
        FirstOrLater(after, (k, v));
        if k == key && env[0].0 == key {
          NotAgain(env[1..], (k, v));
        }
      }
    }
  }

  lemma AssignmentParts(token: string)
    ensures match MatchAssignment(token)
      case Some((key, value)) => IsKey(key) && IsValue(value)
      case None => true
  {
  }

  lemma StepIsSound(s: Parsing, token: string)
    requires Sound(s) && Step(s, token).Some?
    ensures Sound(Step(s, token).value)
  {
    hide MatchAssignment, SetVariable, IsEnvironment, WellFormedSoFar;
    NoEnvironment();
    match s.mode {
      case BEGIN =>
        AssignmentParts(token);
        match MatchAssignment(token) {
          case Some((key, value)) => SetVariableKeeps(s.env, key, value);
          case None =>
        }
      case COMMAND =>
        var c := s.current.value;
        if token == "|" {
          if c.stdout == Unset {
            OneMorePair(s.pipeline, c.(stdout := ToPipe), Pipe);
          }
        } else if token == "&&" {
          OneMorePair(s.pipeline, c, And);
        } else if token == "||" {
          OneMorePair(s.pipeline, c, Or);
        } else if token !in OPERATORS {
          var more := c.argv + [token];
          assert forall i :: 1 <= i < |more| ==> IsArgument(more[i]);
        }
      case CHDIR =>
        if token == "&&" {
          OneMorePair(s.pipeline, s.current.value, And);
        }
      case _ =>
    }
  }

  lemma NoEnvironment()
    ensures IsEnvironment([])
  {
  }

  lemma {:induction false} RunIsSound(s: Parsing, tokens: seq<string>)
    requires Sound(s) && Run(s, tokens).Some?
    ensures Sound(Run(s, tokens).value)
    decreases |tokens|
  {
    hide Step, Sound;
    if tokens != [] {
      SoundIsConsistent(s);
      StepIsSound(s, tokens[0]);
      RunIsSound(Step(s, tokens[0]).value, tokens[1..]);
    }
  }

  lemma SoundIsConsistent(s: Parsing)
    requires Sound(s)
    ensures Consistent(s)
  {
  }

  /** Whatever is accepted is parsed to a well-formed pipeline. */
  lemma ParsedIsWellFormed(tokens: seq<string>)
    requires Parsed(tokens).Some?
    ensures WellFormed(Parsed(tokens).value)
  {
    hide Run;
    RunIsSound(START, tokens);
    var s := Run(START, tokens).value;
    LastOperand(s.pipeline, s.current.value);
  }

  // ----- rendering pipelines as tokens -----

  function RenderVariable(v: (string, string)): string {
    v.0 + "=" + v.1
  }

  function RenderVariables(env: Environment): seq<string> {
    if env == [] then [] else [RenderVariable(env[0])] + RenderVariables(env[1..])
  }

  function RenderTarget(operator: string, t: Target): seq<string> {
    match t
    case ToFile(name) => [operator, name]
    case ToStdout => ["2>&1"]
    case _ => []
  }

  function RenderStdin(stdin: Option<string>): seq<string> {
    if stdin.Some? then ["<", stdin.value] else []
  }

  function RenderRedirects(c: Node): seq<string>
    requires c.Command?
  {
    RenderTarget(">", c.stdout) + RenderTarget("2>", c.stderr) + RenderStdin(c.stdin)
  }

  function RenderNode(n: Node): seq<string> {
    match n
    case Command(name, argv, stdin, stdout, stderr, env) => RenderVariables(env) + argv + RenderRedirects(n)
    case Chdir(dir) => if dir.Some? then ["cd", dir.value] else ["cd"]
    case Pipe => ["|"]
    case And => ["&&"]
    case Or => ["||"]
  }

  function Render(p: seq<Node>): seq<string> {
    if p == [] then [] else RenderNode(p[0]) + Render(p[1..])
  }

  lemma {:induction false} RunBoth(s: Parsing, some: seq<string>, more: seq<string>)
    ensures Run(s, some + more) == if Run(s, some).None? then None else Run(Run(s, some).value, more)
    decreases |some|
  {
    hide Step;
    if some == [] {
      assert some + more == more;
    } else {
      assert (some + more)[1..] == some[1..] + more && (some + more)[0] == some[0];
      if Step(s, some[0]).Some? {
        RunBoth(Step(s, some[0]).value, some[1..], more);
      }
    }
  }

  lemma {:induction false} WordRunStops(s: string, rest: string)
    requires (forall i :: 0 <= i < |s| ==> IsWordChar(s[i])) && (rest == "" || !IsWordChar(rest[0]))
    ensures WordRun(s + rest) == |s|
  {
    if s == "" {
      assert s + rest == rest;
    } else {
      assert (s + rest)[1..] == s[1..] + rest;
      WordRunStops(s[1..], rest);
    }
  }

  lemma ValueIsStripped(value: string, ending: string)
    requires IsValue(value) && (ending == "" || ending == "\n")
    ensures StripLineEnd(value + ending) == value
  {
    assert IsSpace('\n');
    assert ending == "" ==> value + ending == value;
    assert (value + "\n")[..|value|] == value;
  }

  lemma FormIsMatched(key: string, value: string, ending: string)
    requires IsKey(key) && IsValue(value) && (ending == "" || ending == "\n")
    ensures MatchAssignment(key + ("=" + (value + ending))) == Some((key, value))
  {
    hide IsWordChar, IsSpace, StripLineEnd;
    var rest := "=" + (value + ending);
    var token := key + rest;
    assert !IsWordChar('=') by {
      EqualsIsNoWord();
    }
    WordRunStops(key, rest);
    assert token[..|key|] == key && token[|key|+1..] == value + ending && token[|key|] == '=';
    ValueIsStripped(value, ending);
  }

  lemma EqualsIsNoWord()
    ensures !IsWordChar('=')
  {
  }

  lemma MatchHasForm(token: string)
    requires MatchAssignment(token).Some?
    ensures var (key, value) := MatchAssignment(token).value;
      token == key + ("=" + (value + "")) || token == key + ("=" + (value + "\n"))
  {
    hide IsWordChar, IsSpace;
    var n := WordRun(token);
    var rest := token[n+1..];
    assert token == token[..n] + ("=" + rest);
    assert rest == StripLineEnd(rest) + "" || rest == StripLineEnd(rest) + "\n";
  }

  /** The pattern, in terms of its match: a key, an equals sign and a value, and perhaps a line end. */
  lemma AssignmentExactly(token: string, key: string, value: string)
    ensures MatchAssignment(token) == Some((key, value)) <==>
      && IsKey(key) && IsValue(value)
      && (token == key + ("=" + (value + "")) || token == key + ("=" + (value + "\n")))
  {
    hide IsKey, IsValue, MatchAssignment;
    if MatchAssignment(token).Some? {
      AssignmentParts(token);
      MatchHasForm(token);
    }
    if IsKey(key) && IsValue(value) {
      FormIsMatched(key, value, "");
      FormIsMatched(key, value, "\n");
    }
  }

  lemma VariableIsMatched(key: string, value: string)
    requires IsKey(key) && IsValue(value)
    ensures MatchAssignment(RenderVariable((key, value))) == Some((key, value))
  {
    hide IsKey, IsValue, MatchAssignment;
    AssignmentExactly(RenderVariable((key, value)), key, value);
    assert RenderVariable((key, value)) == key + ("=" + (value + ""));
  }

  lemma {:induction false} NewVariableComesLast(env: Environment, key: string, value: string)
    requires forall i :: 0 <= i < |env| ==> env[i].0 != key
    ensures SetVariable(env, key, value) == env + [(key, value)]
  {
    if env != [] {
      NewVariableComesLast(env[1..], key, value);
    }
  }

  lemma {:induction false} VariablesAreRead(s: Parsing, env: Environment)
    requires s.mode == BEGIN && s.current == None && IsEnvironment(s.env + env)
    ensures Run(s, RenderVariables(env)) == Some(s.(env := s.env + env))
    decreases |env|
  {
    hide MatchAssignment, SetVariable, RenderVariable, IsKey, IsValue;
    if env == [] {
      assert s.env + env == s.env;
    } else {
      var (key, value) := env[0];
      assert (s.env + env)[|s.env|] == env[0];
      VariableIsMatched(key, value);
      forall i | 0 <= i < |s.env| ensures s.env[i].0 != key {
        assert (s.env + env)[i] == s.env[i];
      }
      NewVariableComesLast(s.env, key, value);
      var t := s.(env := s.env + [env[0]]);
      assert env[0] == (key, value);
      assert Step(s, RenderVariables(env)[0]) == Some(t);
      assert t.env + env[1..] == s.env + env;
      assert RenderVariables(env)[1..] == RenderVariables(env[1..]);
      VariablesAreRead(t, env[1..]);
    }
  }

  lemma {:induction false} ArgumentsAreRead(s: Parsing, c: Node, args: seq<string>)
    requires s.mode == COMMAND && s.current == Some(c) && c.Command?
    requires forall i :: 0 <= i < |args| ==> IsArgument(args[i])
    ensures Run(s, args) == Some(s.(current := Some(c.(argv := c.argv + args))))
    decreases |args|
  {
    if args == [] {
      assert c.argv + args == c.argv;
    } else {
      var d := c.(argv := c.argv + [args[0]]);
      assert IsArgument(args[0]);
      ArgumentsAreRead(s.(current := Some(d)), d, args[1..]);
      assert d.argv + args[1..] == c.argv + args;
    }
  }

  lemma OneIsRead(s: Parsing, t: Parsing, a: string)
    requires Step(s, a) == Some(t)
    ensures Run(s, [a]) == Some(t)
  {
    hide Step;
    assert [a][1..] == [];
  }

  lemma PairIsRead(s: Parsing, t: Parsing, u: Parsing, a: string, b: string)
    requires Step(s, a) == Some(t) && Step(t, b) == Some(u)
    ensures Run(s, [a, b]) == Some(u)
  {
    OneIsRead(s, t, a);
    OneIsRead(t, u, b);
    RunBoth(s, [a], [b]);
    assert [a] + [b] == [a, b];
  }

  lemma NoneIsRead(s: Parsing)
    ensures Run(s, []) == Some(s)
  {
  }

  /** What a command looks like to the parser before a | gives it its pipe. */
  function Unpiped(n: Node): Node {
    if n.Command? && n.stdout == ToPipe then n.(stdout := Unset) else n
  }

  lemma StdoutIsRead(s: Parsing, c: Node, t: Target)
    requires s.mode == COMMAND && s.current == Some(c) && c.Command? && c.stdout == Unset && t != ToStdout
    ensures Run(s, RenderTarget(">", t)) == Some(s.(current := Some(c.(stdout := if t == ToPipe then Unset else t))))
  {
    match t {
      case ToFile(name) =>
        PairIsRead(s, s.(mode := STDOUT), s.(current := Some(c.(stdout := t))), ">", name);
      case _ =>
        NoneIsRead(s);
    }
  }

  lemma StderrIsRead(s: Parsing, c: Node, t: Target)
    requires s.mode == COMMAND && s.current == Some(c) && c.Command? && c.stderr == Unset && t != ToPipe
    ensures Run(s, RenderTarget("2>", t)) == Some(s.(current := Some(c.(stderr := t))))
  {
    match t {
      case ToFile(name) =>
        PairIsRead(s, s.(mode := STDERR), s.(current := Some(c.(stderr := t))), "2>", name);
      case ToStdout =>
        OneIsRead(s, s.(current := Some(c.(stderr := t))), "2>&1");
      case _ =>
        NoneIsRead(s);
    }
  }

  lemma StdinIsRead(s: Parsing, c: Node, stdin: Option<string>)
    requires s.mode == COMMAND && s.current == Some(c) && c.Command? && c.stdin == None
    ensures Run(s, RenderStdin(stdin)) == Some(s.(current := Some(c.(stdin := stdin))))
  {
    if stdin.Some? {
      PairIsRead(s, s.(mode := STDIN), s.(current := Some(c.(stdin := stdin))), "<", stdin.value);
    } else {
      NoneIsRead(s);
    }
  }

  lemma CommandIsRead(pipeline: seq<Node>, c: Node)
    requires IsCommand(c)
    ensures Run(Parsing(BEGIN, [], None, pipeline), RenderNode(c))
         == Some(Parsing(COMMAND, [], Some(Unpiped(c)), pipeline))
  {
    hide Run, RenderVariables, RenderTarget, RenderStdin, IsEnvironment;
    var s0 := Parsing(BEGIN, [], None, pipeline);
    assert [] + c.env == c.env;
    VariablesAreRead(s0, c.env);
    var s1 := s0.(env := c.env);
    var c2 := Command(c.name, [c.name], None, Unset, Unset, c.env);
    var s2 := Parsing(COMMAND, [], Some(c2), pipeline);
    OneIsRead(s1, s2, c.name);
    var c3 := c2.(argv := c.argv);
    assert [c.name] + c.argv[1..] == c.argv;
    ArgumentsAreRead(s2, c2, c.argv[1..]);
    var s3 := s2.(current := Some(c3));
    StdoutIsRead(s3, c3, c.stdout);
    var c4 := c3.(stdout := if c.stdout == ToPipe then Unset else c.stdout);
    var s4 := s2.(current := Some(c4));
    StderrIsRead(s4, c4, c.stderr);
    var c5 := c4.(stderr := c.stderr);
    var s5 := s2.(current := Some(c5));
    StdinIsRead(s5, c5, c.stdin);
    var redirects := RenderRedirects(c);
    RunBoth(s4, RenderTarget("2>", c.stderr), RenderStdin(c.stdin));
    RunBoth(s3, RenderTarget(">", c.stdout), RenderTarget("2>", c.stderr) + RenderStdin(c.stdin));
    assert redirects == RenderTarget(">", c.stdout) + (RenderTarget("2>", c.stderr) + RenderStdin(c.stdin));
    RunBoth(s2, c.argv[1..], redirects);
    RunBoth(s1, [c.name], c.argv[1..] + redirects);
    RunBoth(s0, RenderVariables(c.env), [c.name] + (c.argv[1..] + redirects));
    assert RenderNode(c) == RenderVariables(c.env) + ([c.name] + (c.argv[1..] + redirects));
  }

  lemma NoAssignment()
    ensures MatchAssignment("cd").None?
  {
    assert WordRun("cd") == 2;
  }

  lemma ChdirIsRead(pipeline: seq<Node>, n: Node)
    requires n.Chdir? && (n.dir.Some? ==> n.dir.value != "&&")
    ensures Run(Parsing(BEGIN, [], None, pipeline), RenderNode(n))
         == Some(Parsing(CHDIR, [], Some(n), pipeline))
  {
    hide Run, MatchAssignment;
    NoAssignment();
    var s := Parsing(BEGIN, [], None, pipeline);
    var t := Parsing(CHDIR, [], Some(Chdir(None)), pipeline);
    if n.dir.Some? {
      PairIsRead(s, t, Parsing(CHDIR, [], Some(n), pipeline), "cd", n.dir.value);
    } else {
      OneIsRead(s, t, "cd");
    }
  }

  lemma OperandIsRead(pipeline: seq<Node>, n: Node, next: Option<Node>)
    requires IsOperand(n, next)
    ensures Run(Parsing(BEGIN, [], None, pipeline), RenderNode(n))
         == Some(Parsing(if n.Command? then COMMAND else CHDIR, [], Some(Unpiped(n)), pipeline))
  {
    hide Run, RenderNode, IsCommand;
    match n {
      case Command(_, _, _, _, _, _) => CommandIsRead(pipeline, n);
      case Chdir(_) => ChdirIsRead(pipeline, n);
    }
  }

  lemma PairOfNodesIsRead(pipeline: seq<Node>, n: Node, op: Node)
    requires IsOperand(n, Some(op)) && IsOperator(op)
    ensures Run(Parsing(BEGIN, [], None, pipeline), RenderNode(n) + RenderNode(op))
         == Some(Parsing(BEGIN, [], None, pipeline + [n, op]))
  {
    hide Run, IsCommand;
    var s := Parsing(BEGIN, [], None, pipeline);
    OperandIsRead(pipeline, n, Some(op));
    var t := Parsing(if n.Command? then COMMAND else CHDIR, [], Some(Unpiped(n)), pipeline);
    OneIsRead(t, Parsing(BEGIN, [], None, pipeline + [n, op]), RenderNode(op)[0]);
    RunBoth(s, RenderNode(n), RenderNode(op));
  }

  lemma {:induction false} PipelineIsRead(sofar: seq<Node>, p: seq<Node>)
    requires WellFormed(p)
    ensures Finish(Run(Parsing(BEGIN, [], None, sofar), Render(p))) == Some(sofar + p)
    decreases |p|
  {
    hide Run, RenderNode, IsCommand;
    var s := Parsing(BEGIN, [], None, sofar);
    if |p| == 1 {
      OperandIsRead(sofar, p[0], None);
      assert Unpiped(p[0]) == p[0];
      assert Render(p) == RenderNode(p[0]);
      assert sofar + [p[0]] == sofar + p;
    } else {
      PairOfNodesIsRead(sofar, p[0], p[1]);
      PipelineIsRead(sofar + [p[0], p[1]], p[2..]);
      RunBoth(s, RenderNode(p[0]) + RenderNode(p[1]), Render(p[2..]));
      assert p[1..][1..] == p[2..];
      assert Render(p) == RenderNode(p[0]) + RenderNode(p[1]) + Render(p[2..]);
      assert sofar + [p[0], p[1]] + p[2..] == sofar + p;
    }
  }

  /** The rendering of a pipeline is parsed to that pipeline exactly when it is well-formed; so the well-formed
      pipelines are the ones the parser can return, and rendering one and parsing it again changes nothing. */
  lemma RenderedIsParsed(p: seq<Node>)
    ensures Parsed(Render(p)) == Some(p) <==> WellFormed(p)
  {
    hide Run, WellFormed, Render;
    if WellFormed(p) {
      PipelineIsRead([], p);
      assert [] + p == p;
    }
    if Parsed(Render(p)) == Some(p) {
      ParsedIsWellFormed(Render(p));
    }
  }

  /** The parser object: one token after the other, in the mode the previous ones have led to. */
  class Pipeline {
    var currentCommand: Option<Node>
    var pipeline: seq<Node>

    constructor ()
      ensures currentCommand == None && pipeline == []
    {
      currentCommand, pipeline := None, [];
    }

    method CommitCommand() returns (ok: bool)
      modifies this
      ensures ok == old(currentCommand.Some?)
      ensures ok ==> currentCommand == None && pipeline == old(pipeline) + [old(currentCommand).value]
      ensures !ok ==> currentCommand == old(currentCommand) && pipeline == old(pipeline)
    {
      if currentCommand == None {
        return false;
      }
      pipeline := pipeline + [currentCommand.value];
      currentCommand := None;
      return true;
    }

    /** False stands for a failed assertion. */
    method Parse(tokens: seq<string>) returns (ok: bool)
      modifies this
      ensures ok <==> Parsed(tokens).Some?
      ensures ok ==> pipeline == Parsed(tokens).value && currentCommand == None
    {
      hide Run, MatchAssignment, SetVariable;
      currentCommand, pipeline := None, [];
      var mode, env: Environment := BEGIN, [];
      ghost var s := START;
      assert tokens[0..] == tokens;
      for i := 0 to |tokens|
        invariant Consistent(s) && s == Parsing(mode, env, currentCommand, pipeline)
        invariant Run(START, tokens) == Run(s, tokens[i..])
      {
        var token := tokens[i];
        RunNext(s, tokens, i);
        match mode {
          case BEGIN =>
            match MatchAssignment(token) {
              case Some((key, value)) =>
                env := SetVariable(env, key, value);
              case None =>
                if token == "cd" {
                  if env != [] {
                    return false;
                  }
                  currentCommand, mode := Some(Chdir(None)), CHDIR;
                } else {
                  currentCommand := Some(Command(token, [token], None, Unset, Unset, env));
                  env, mode := [], COMMAND;
                }
            }
          case COMMAND =>
            var c := currentCommand.value;
            if token == ">" {
              mode := STDOUT;
            } else if token == "2>" {
              mode := STDERR;
            } else if token == "2>&1" {
              if c.stderr != Unset {
                return false;
              }
              currentCommand := Some(c.(stderr := ToStdout));
            } else if token == "<" {
              mode := STDIN;
            } else if token == "|" {
              if c.stdout != Unset {
                return false;
              }
              currentCommand := Some(c.(stdout := ToPipe));
              var _ := CommitCommand();
              pipeline, mode := pipeline + [Pipe], BEGIN;
            } else if token == "&&" {
              var _ := CommitCommand();
              pipeline, mode := pipeline + [And], BEGIN;
            } else if token == "||" {
              var _ := CommitCommand();
              pipeline, mode := pipeline + [Or], BEGIN;
            } else {
              currentCommand := Some(c.(argv := c.argv + [token]));
            }
          case CHDIR =>
            if token == "&&" {
              var _ := CommitCommand();
              pipeline, mode := pipeline + [And], BEGIN;
            } else {
              if currentCommand.value.dir.Some? {
                return false;
              }
              currentCommand := Some(Chdir(Some(token)));
            }
          case STDOUT =>
            if currentCommand.value.stdout != Unset {
              return false;
            }
            currentCommand, mode := Some(currentCommand.value.(stdout := ToFile(token))), COMMAND;
          case STDERR =>
            if currentCommand.value.stderr != Unset {
              return false;
            }
            currentCommand, mode := Some(currentCommand.value.(stderr := ToFile(token))), COMMAND;
          case STDIN =>
            if currentCommand.value.stdin.Some? {
              return false;
            }
            currentCommand, mode := Some(currentCommand.value.(stdin := Some(token))), COMMAND;
        }
        s := Step(s, token).value;
      }
      assert tokens[|tokens|..] == [];
      NoneIsRead(s);
      ok := CommitCommand();
    }
  }

  lemma RunNext(s: Parsing, tokens: seq<string>, i: nat)
    requires i < |tokens|
    ensures Run(s, tokens[i..]) ==
      if Step(s, tokens[i]).None? then None else Run(Step(s, tokens[i]).value, tokens[i+1..])
  {
    hide Step;
    assert tokens[i..][1..] == tokens[i+1..];
  }
}
