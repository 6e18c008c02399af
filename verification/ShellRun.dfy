/** Running a parsed pipeline: waf-tools/shellcmd.py, Pipeline.run without verbose output. Processes are known by the
    order in which they are launched, and codes says with which status each of them ends. */
module ShellRun {
  import opened Basics
  import opened ShellSyntax

  datatype Source = Inherited | FromFile(name: string) | FromPrevious

  /** The arguments of one process launch; the directory is None when it is the original one. */
  datatype Launch = Launch(argv: seq<string>, stdin: Source, stdout: Target, stderr: Target,
                           env: Environment, cwd: Option<string>)

  datatype Outcome = Returned(status: int) | NoStatus | Raised

  type Codes = nat -> int

  // ----- what a pipeline means -----

  /** Joining a directory to a path: an absolute one replaces it. */
  function JoinPath(path: string, dir: string): string {
    if dir != "" && dir[0] == '/' then dir
    else if path == "" || path[|path|-1] == '/' then path + dir
    else path + "/" + dir
  }

  function ProcessDirectory(cwd: string): Option<string> {
    if cwd == "." then None else Some(cwd)
  }

  /** A command's launch; all but the first of a group read from the previous one, whatever their redirect says. */
  function LaunchOf(c: Node, cwd: string, first: bool): Launch
    requires c.Command?
  {
    Launch(c.argv,
           if !first then FromPrevious else if c.stdin.Some? then FromFile(c.stdin.value) else Inherited,
           c.stdout, c.stderr, c.env, ProcessDirectory(cwd))
  }

  /** Groups of piped commands, nested to the right. An incomplete directory change breaks the chain off, and so would
      anything that is not a pipeline. */
  datatype Chain =
    | Last(group: seq<Launch>)
    | Link(group: seq<Launch>, op: Node, rest: Chain)
    | Broken(group: seq<Launch>)

  function ChainOf(p: seq<Node>, cwd: string, group: seq<Launch>): Chain
    decreases |p|
  {
    if p == [] || !(p[0].Chdir? || p[0].Command?) then Broken(group)
    else if p[0].Chdir? then
      if |p| == 1 || p[0].dir.None? then Broken(group)
      else ChainOf(p[2..], JoinPath(cwd, p[0].dir.value), group)
    else
      var more := group + [LaunchOf(p[0], cwd, group == [])];
      if |p| == 1 then Last(more)
      else if p[1] == Pipe then ChainOf(p[2..], cwd, more)
      else Link(more, p[1], ChainOf(p[2..], cwd, []))
  }

  /** The status of a group is that of its last command. */
  function GroupStatus(group: seq<Launch>, n: nat, codes: Codes): int {
    if group == [] then 0 else codes(n + |group| - 1)
  }

  predicate Proceeds(op: Node, status: int) {
    (op == And && status == 0) || (op == Or && status != 0)
  }

  predicate Solid(ch: Chain) {
    match ch
    case Last(g) => g != []
    case Link(g, op, rest) => g != [] && (op == And || op == Or) && Solid(rest)
    case Broken(_) => true
  }

  /** Right-nested short-circuit evaluation, after n launches: the outcome and the further launches. */
  function Evaluate(ch: Chain, n: nat, codes: Codes): (Outcome, seq<Launch>) {
    match ch
    case Last(g) => (Returned(GroupStatus(g, n, codes)), g)
    case Link(g, op, rest) =>
      var status := GroupStatus(g, n, codes);
      if Proceeds(op, status) then
        var (outcome, more) := Evaluate(rest, n + |g|, codes);
        (outcome, g + more)
      else (Returned(status), g)
    case Broken(g) => (Raised, g)
  }

  lemma {:induction false} ChainIsSolid(p: seq<Node>, cwd: string, group: seq<Launch>)
    requires WellFormed(p)
    ensures Solid(ChainOf(p, cwd, group))
    ensures group <= ChainOf(p, cwd, group).group
    decreases |p|
  {
    hide IsCommand;
    if p[0].Chdir? {
      if |p| > 1 && p[0].dir.Some? {
        ChainIsSolid(p[2..], JoinPath(cwd, p[0].dir.value), group);
      }
    } else {
      var more := group + [LaunchOf(p[0], cwd, group == [])];
      if |p| > 1 {
        ChainIsSolid(p[2..], cwd, if p[1] == Pipe then more else []);
      }
    }
  }

  // ----- comparison with the left-associative lists of POSIX.1-2017, XCU section 2.9.3 -----

  /** A list with its operators nested to the left. */
  datatype AndOrList = Only(group: seq<Launch>) | Then(left: AndOrList, op: Node, group: seq<Launch>)

  predicate SolidList(l: AndOrList) {
    l.group != [] && (l.Then? ==> SolidList(l.left))
  }

  /** What stands to the right of an operator is run or passed over by the status of all that stands to its left. */
  function EvaluateList(l: AndOrList, n: nat, codes: Codes): (int, seq<Launch>)
    requires SolidList(l)
  {
    match l
    case Only(g) => (GroupStatus(g, n, codes), g)
    case Then(left, op, g) =>
      var (status, launches) := EvaluateList(left, n, codes);
      if Proceeds(op, status) then (GroupStatus(g, n + |launches|, codes), launches + g) else (status, launches)
  }

  predicate Complete(ch: Chain) {
    match ch
    case Last(g) => g != []
    case Link(g, op, rest) => g != [] && (op == And || op == Or) && Complete(rest)
    case Broken(_) => false
  }

  /** The same groups and operators, nested to the left. */
  function ToList(ch: Chain): AndOrList
    requires Complete(ch)
  {
    match ch
    case Last(g) => Only(g)
    case Link(g, op, rest) => Continue(Only(g), op, rest)
  }

  function Continue(left: AndOrList, op: Node, rest: Chain): AndOrList
    requires Complete(rest)
    decreases rest
  {
    match rest
    case Last(g) => Then(left, op, g)
    case Link(g, op2, more) => Continue(Then(left, op, g), op2, more)
  }

  /** All operators are the given one. */
  predicate OnlyOperator(ch: Chain, op: Node) {
    ch.Link? ==> ch.op == op && OnlyOperator(ch.rest, op)
  }

  lemma {:induction false} ContinueIsSolid(left: AndOrList, op: Node, rest: Chain)
    requires SolidList(left) && Complete(rest)
    ensures SolidList(Continue(left, op, rest))
    decreases rest
  {
    if rest.Link? {
      ContinueIsSolid(Then(left, op, rest.group), rest.op, rest.rest);
    }
  }

  lemma {:induction false} CompleteIsSolid(ch: Chain)
    requires Complete(ch)
    ensures Solid(ch) && SolidList(ToList(ch))
  {
    if ch.Link? {
      CompleteIsSolid(ch.rest);
      ContinueIsSolid(Only(ch.group), ch.op, ch.rest);
    }
  }

  /** With one kind of operator, what follows a group that stops the list is passed over as well. */
  lemma {:induction false} NothingMore(left: AndOrList, op: Node, rest: Chain, n: nat, codes: Codes)
    requires SolidList(left) && Complete(rest) && SolidList(Continue(left, op, rest)) && OnlyOperator(rest, op)
    requires !Proceeds(op, EvaluateList(left, n, codes).0)
    ensures EvaluateList(Continue(left, op, rest), n, codes) == EvaluateList(left, n, codes)
    decreases rest
  {
    if rest.Link? {
      NothingMore(Then(left, op, rest.group), op, rest.rest, n, codes);
    }
  }

  /** With one kind of operator, the list goes on as the right-nested rest does. */
  lemma {:induction false} GoesOn(left: AndOrList, op: Node, rest: Chain, n: nat, codes: Codes)
    requires SolidList(left) && Complete(rest) && Solid(rest)
    requires SolidList(Continue(left, op, rest)) && OnlyOperator(rest, op)
    requires Proceeds(op, EvaluateList(left, n, codes).0)
    ensures var (status, launches) := EvaluateList(left, n, codes);
      var (outcome, more) := Evaluate(rest, n + |launches|, codes);
      && outcome.Returned?
      && EvaluateList(Continue(left, op, rest), n, codes) == (outcome.status, launches + more)
    decreases rest
  {
    if rest.Link? {
      var longer := Then(left, op, rest.group);
      var (status, launches) := EvaluateList(left, n, codes);
      assert EvaluateList(longer, n, codes) == (GroupStatus(rest.group, n + |launches|, codes), launches + rest.group);
      if Proceeds(op, EvaluateList(longer, n, codes).0) {
        GoesOn(longer, op, rest.rest, n, codes);
        var (_, more) := Evaluate(rest.rest, n + |launches| + |rest.group|, codes);
        assert (launches + rest.group) + more == launches + (rest.group + more);
      } else {
        NothingMore(longer, op, rest.rest, n, codes);
      }
    }
  }

  ghost predicate Agrees(ch: Chain, codes: Codes)
    requires Complete(ch)
  {
    && Solid(ch) && SolidList(ToList(ch))
    && var (status, launches) := EvaluateList(ToList(ch), 0, codes);
       Evaluate(ch, 0, codes) == (Returned(status), launches)
  }

  /** Lists that use only && or only || are run as POSIX has it. */
  lemma UniformListsAgree(ch: Chain, op: Node, codes: Codes)
    requires Complete(ch) && OnlyOperator(ch, op)
    ensures Agrees(ch, codes)
  {
    CompleteIsSolid(ch);
    if ch.Link? {
      if Proceeds(ch.op, GroupStatus(ch.group, 0, codes)) {
        GoesOn(Only(ch.group), ch.op, ch.rest, 0, codes);
      } else {
        NothingMore(Only(ch.group), ch.op, ch.rest, 0, codes);
      }
    }
  }

  /** Where the other operator occurs later on, the list launches more than what has been launched when it was first
      stopped. */
  lemma {:induction false} MoreIsLaunched(left: AndOrList, op: Node, rest: Chain, codes: Codes, c: int)
    requires SolidList(left) && Complete(rest) && SolidList(Continue(left, op, rest)) && (op == And || op == Or)
    requires forall k: nat :: codes(k) == c
    requires EvaluateList(left, 0, codes).0 == c
    requires Proceeds(op, c) || !OnlyOperator(rest, op)
    ensures |EvaluateList(Continue(left, op, rest), 0, codes).1| > |EvaluateList(left, 0, codes).1|
    decreases rest
  {
    var longer := Then(left, op, rest.group);
    if rest.Link? {
      if Proceeds(op, c) {
        NeverLess(longer, rest.op, rest.rest, codes);
      } else {
        MoreIsLaunched(longer, rest.op, rest.rest, codes, c);
      }
    }
  }

  lemma {:induction false} NeverLess(left: AndOrList, op: Node, rest: Chain, codes: Codes)
    requires SolidList(left) && Complete(rest) && SolidList(Continue(left, op, rest))
    ensures |EvaluateList(Continue(left, op, rest), 0, codes).1| >= |EvaluateList(left, 0, codes).1|
    decreases rest
  {
    if rest.Link? {
      NeverLess(Then(left, op, rest.group), rest.op, rest.rest, codes);
    }
  }

  /** The executor agrees with POSIX, whatever the commands return, exactly on the lists with one kind of operator. */
  lemma AgreementWithPosix(ch: Chain)
    requires Complete(ch)
    ensures (forall codes :: Agrees(ch, codes)) <==> OnlyOperator(ch, And) || OnlyOperator(ch, Or)
  {
    if OnlyOperator(ch, And) || OnlyOperator(ch, Or) {
      forall codes ensures Agrees(ch, codes) {
        UniformListsAgree(ch, if OnlyOperator(ch, And) then And else Or, codes);
      }
    } else {
      CompleteIsSolid(ch);
      var c := if ch.op == And then 1 else 0;
      var codes: Codes := k => c;
      MoreIsLaunched(Only(ch.group), ch.op, ch.rest, codes, c);
      assert !Agrees(ch, codes);
    }
  }

  predicate HasNoChdir(p: seq<Node>) {
    forall i :: 0 <= i < |p| ==> !p[i].Chdir?
  }

  lemma {:induction false} ChainWithoutChdir(p: seq<Node>, cwd: string, group: seq<Launch>)
    requires WellFormed(p) && HasNoChdir(p)
    ensures Complete(ChainOf(p, cwd, group))
    ensures OnlyOperator(ChainOf(p, cwd, group), And) <==> Or !in p
    ensures OnlyOperator(ChainOf(p, cwd, group), Or) <==> And !in p
    decreases |p|
  {
    hide IsCommand;
    if |p| > 1 {
      assert p == [p[0], p[1]] + p[2..];
      ChainWithoutChdir(p[2..], cwd, if p[1] == Pipe then group + [LaunchOf(p[0], cwd, group == [])] else []);
    }
  }

  /** A pipeline without directory changes is run as POSIX has it, whatever its commands return, exactly when it does
      not use both && and ||. */
  lemma PipelinesThatAgreeWithPosix(p: seq<Node>)
    requires WellFormed(p) && HasNoChdir(p)
    ensures Complete(ChainOf(p, ".", []))
    ensures (forall codes :: Agrees(ChainOf(p, ".", []), codes)) <==> !(And in p && Or in p)
  {
    hide Agrees, ChainOf, OnlyOperator, Complete;
    ChainWithoutChdir(p, ".", []);
    AgreementWithPosix(ChainOf(p, ".", []));
  }

  // ----- the executor -----

  /** An open file; the null device is shared and never closed. */
  datatype Handle = DevNull | Opened(index: nat)

  predicate IsNullDevice(name: string) {
    name == "NUL:" || name == "/dev/null"
  }

  function OutputFiles(t: Target): seq<string> {
    if t.ToFile? && !IsNullDevice(t.name) then [t.name] else []
  }

  /** The files that are opened for a launch, in order. */
  function FilesOf(l: Launch): seq<string> {
    (if l.stdin.FromFile? then [l.stdin.name] else []) + OutputFiles(l.stdout) + OutputFiles(l.stderr)
  }

  function FilesOfAll(launches: seq<Launch>): seq<string> {
    if launches == [] then [] else FilesOfAll(launches[..|launches|-1]) + FilesOf(launches[|launches|-1])
  }

  /** A launch opens a file: its input, or an output other than the null device. */
  predicate Opens(l: Launch, name: string) {
    l.stdin == FromFile(name)
    || ((l.stdout == ToFile(name) || l.stderr == ToFile(name)) && name != "NUL:" && name != "/dev/null")
  }

  lemma FilesOfOne(l: Launch, name: string)
    ensures name in FilesOf(l) <==> Opens(l, name)
  {
  }

  lemma {:induction false} FilesAreOpened(launches: seq<Launch>, name: string)
    ensures name in FilesOfAll(launches) <==> exists l :: l in launches && Opens(l, name)
  {
    hide FilesOf, Opens;
    if launches != [] {
      var rest, last := launches[..|launches|-1], launches[|launches|-1];
      FilesAreOpened(rest, name);
      assert launches == rest + [last];
      FilesOfOne(last, name);
    }
  }

  /** Waiting for the processes of a group and making one status out of theirs: it is always that of the last. */
  method ExecPipedCommands(retvals: seq<int>) returns (retval: int)
    requires retvals != []
    ensures retval == retvals[|retvals|-1]
  {
    retval := 0;
    for i := 0 to |retvals|
      invariant retval == 0 && forall k :: 0 <= k < i ==> retvals[k] == 0
    {
      if retvals[i] != 0 {
        return retvals[|retvals|-1];
      }
    }
  }

  function Upto(n: nat): seq<nat> {
    seq(n, i => i)
  }

  /** The files among some handles. */
  function RealOnes(handles: seq<Handle>): seq<nat> {
    if handles == [] then [] else
    RealOnes(handles[..|handles|-1]) + match handles[|handles|-1] case DevNull => [] case Opened(i) => [i]
  }

  /** Every file is either closed already or in the list of files to close. */
  ghost predicate Managed(files: seq<string>, toClose: seq<Handle>, closed: seq<nat>) {
    closed + RealOnes(toClose) == Upto(|files|)
  }

  method OpenFile(name: string, files: seq<string>, toClose: seq<Handle>, ghost closed: seq<nat>)
      returns (more: seq<string>, handles: seq<Handle>)
    requires Managed(files, toClose, closed)
    ensures more == files + [name] && Managed(more, handles, closed)
  {
    more, handles := files + [name], toClose + [Opened(|files|)];
    assert handles[..|toClose|] == toClose;
    assert Upto(|more|) == Upto(|files|) + [|files|];
    assert closed + RealOnes(handles) == (closed + RealOnes(toClose)) + [|files|];
  }

  method OpenOutFile(t: Target, files: seq<string>, toClose: seq<Handle>, ghost closed: seq<nat>)
      returns (more: seq<string>, handles: seq<Handle>)
    requires Managed(files, toClose, closed)
    ensures more == files + OutputFiles(t) && Managed(more, handles, closed)
  {
    if !t.ToFile? {
      return files, toClose;
    }
    if IsNullDevice(t.name) {
      assert (toClose + [DevNull])[..|toClose|] == toClose;
      return files, toClose + [DevNull];
    }
    more, handles := OpenFile(t.name, files, toClose, closed);
  }

  method CloseFiles(toClose: seq<Handle>, closed: seq<nat>) returns (more: seq<nat>)
    ensures more == closed + RealOnes(toClose)
  {
    more := closed;
    for i := 0 to |toClose|
      invariant more == closed + RealOnes(toClose[..i])
    {
      assert toClose[..i+1][..i] == toClose[..i];
      if toClose[i].Opened? {
        more := more + [toClose[i].index];
      }
    }
    assert toClose[..|toClose|] == toClose;
  }

  ghost function After(launched: seq<Launch>, e: (Outcome, seq<Launch>)): (Outcome, seq<Launch>) {
    (e.0, launched + e.1)
  }

  /** What is still to be done, when the groups in done have been dealt with and group is being launched. */
  ghost function ToDo(p: seq<Node>, cwd: string, done: seq<Launch>, group: seq<Launch>, codes: Codes)
      : (Outcome, seq<Launch>)
  {
    After(done, Evaluate(ChainOf(p, cwd, group), |done|, codes))
  }

  lemma DirectoryChanges(p: seq<Node>, cwd: string, done: seq<Launch>, group: seq<Launch>, codes: Codes)
    requires WellFormed(p) && p[0].Chdir?
    ensures |p| == 1 || p[0].dir.None? ==> ToDo(p, cwd, done, group, codes) == (Raised, done + group)
    ensures |p| > 1 ==> |p| > 2 && p[1] == And && WellFormed(p[2..])
    ensures |p| > 1 && p[0].dir.Some? ==>
      ToDo(p, cwd, done, group, codes) == ToDo(p[2..], JoinPath(cwd, p[0].dir.value), done, group, codes)
  {
    hide IsCommand;
  }

  lemma CommandRuns(p: seq<Node>, cwd: string, done: seq<Launch>, group: seq<Launch>, codes: Codes)
    requires WellFormed(p) && !p[0].Chdir?
    ensures p[0].Command?
    ensures var more := group + [LaunchOf(p[0], cwd, group == [])];
      var status := codes(|done| + |more| - 1);
      if |p| == 1 then ToDo(p, cwd, done, group, codes) == (Returned(status), done + more)
      else
        && |p| > 2 && WellFormed(p[2..]) && IsOperator(p[1])
        && (p[1] == Pipe ==> ToDo(p, cwd, done, group, codes) == ToDo(p[2..], cwd, done, more, codes))
        && (p[1] != Pipe && Proceeds(p[1], status) ==>
              ToDo(p, cwd, done, group, codes) == ToDo(p[2..], cwd, done + more, [], codes))
        && (p[1] != Pipe && !Proceeds(p[1], status) ==>
              ToDo(p, cwd, done, group, codes) == (Returned(status), done + more))
  {
    hide IsCommand;
    var more := group + [LaunchOf(p[0], cwd, group == [])];
    if |p| > 1 && p[1] != Pipe {
      ChainIsSolid(p[2..], cwd, []);
      var rest := Evaluate(ChainOf(p[2..], cwd, []), |done| + |more|, codes);
      assert done + (more + rest.1) == (done + more) + rest.1;
    }
  }

  // ----- the same, position by position -----

  /** How many commands come before a position, which is the number of the process that a command there becomes. */
  function CommandsBefore(p: seq<Node>, i: nat): nat
    requires i <= |p|
  {
    if i == 0 then 0 else CommandsBefore(p, i - 1) + if p[i-1].Command? then 1 else 0
  }

  /** The directory after the directory changes before a position. */
  function DirectoryAt(p: seq<Node>, i: nat): string
    requires i <= |p|
  {
    if i == 0 then "."
    else if p[i-1].Chdir? && p[i-1].dir.Some? then JoinPath(DirectoryAt(p, i - 1), p[i-1].dir.value)
    else DirectoryAt(p, i - 1)
  }

  /** A pipe leads to a position, perhaps past directory changes. */
  predicate FollowsPipe(p: seq<Node>, i: nat)
    requires i <= |p|
  {
    i > 0 && (p[i-1] == Pipe || (i > 1 && p[i-1] == And && p[i-2].Chdir? && FollowsPipe(p, i - 2)))
  }

  /** The node at a position lets the pipeline go on: && needs a status of zero in front of it and || another one, and a
      directory change needs a directory and something behind it. */
  predicate PassesOn(p: seq<Node>, codes: Codes, j: nat)
    requires j < |p|
  {
    match p[j]
    case And => j > 0 && p[j-1].Command? ==> codes(CommandsBefore(p, j - 1)) == 0
    case Or => j > 0 && p[j-1].Command? ==> codes(CommandsBefore(p, j - 1)) != 0
    case Chdir(dir) => dir.Some? && j + 1 < |p|
    case _ => true
  }

  /** Everything before a position lets the pipeline go on. */
  ghost predicate Reached(p: seq<Node>, codes: Codes, i: nat)
    requires i <= |p|
  {
    forall j :: 0 <= j < i ==> PassesOn(p, codes, j)
  }

  /** The launch that a command makes where it stands. */
  predicate IsLaunchAt(p: seq<Node>, i: nat, l: Launch)
    requires i < |p| && p[i].Command?
  {
    && l.argv == p[i].argv && l.stdout == p[i].stdout && l.stderr == p[i].stderr && l.env == p[i].env
    && (FollowsPipe(p, i) ==> l.stdin == FromPrevious)
    && (!FollowsPipe(p, i) && p[i].stdin.Some? ==> l.stdin == FromFile(p[i].stdin.value))
    && (!FollowsPipe(p, i) && p[i].stdin.None? ==> l.stdin == Inherited)
    && (if DirectoryAt(p, i) == "." then l.cwd == None else l.cwd == Some(DirectoryAt(p, i)))
  }

  /** The launches are those of the commands that are reached, in order, and the status is that of the last one. */
  ghost predicate RunsAsWritten(p: seq<Node>, codes: Codes, outcome: Outcome, launches: seq<Launch>) {
    && |launches| <= CommandsBefore(p, |p|)
    && (forall i :: 0 <= i < |p| && p[i].Command? ==> (Reached(p, codes, i) <==> CommandsBefore(p, i) < |launches|))
    && LaunchedUpTo(p, |p|, launches)
    && (outcome == Raised <==>
          exists i :: 0 <= i < |p| && p[i].Chdir? && Reached(p, codes, i) && !PassesOn(p, codes, i))
    && (outcome != Raised ==> launches != [] && outcome == Returned(codes(|launches| - 1)))
  }

  ghost predicate LaunchedUpTo(p: seq<Node>, n: nat, launches: seq<Launch>)
    requires n <= |p|
  {
    forall i :: 0 <= i < n && p[i].Command? && CommandsBefore(p, i) < |launches| ==>
      IsLaunchAt(p, i, launches[CommandsBefore(p, i)])
  }

  lemma {:induction false} CommandsAreCounted(p: seq<Node>, i: nat, j: nat)
    requires i <= j <= |p|
    ensures CommandsBefore(p, i) <= CommandsBefore(p, j)
    ensures i < j && p[i].Command? ==> CommandsBefore(p, i) < CommandsBefore(p, j)
    decreases j
  {
    if i < j {
      CommandsAreCounted(p, i, j - 1);
    }
  }

  /** The executor returns after the command at a position. */
  lemma StoppedAfter(p: seq<Node>, codes: Codes, i: nat, launches: seq<Launch>)
    requires i < |p| && p[i].Command? && Reached(p, codes, i)
    requires i + 1 == |p| || (IsOperator(p[i+1]) && !PassesOn(p, codes, i + 1))
    requires |launches| == CommandsBefore(p, i) + 1 && LaunchedUpTo(p, i + 1, launches)
    ensures RunsAsWritten(p, codes, Returned(codes(|launches| - 1)), launches)
  {
    hide CommandsBefore, PassesOn, IsLaunchAt;
    assert CommandsBefore(p, i + 1) == |launches| by {
      OneCommandMore(p, i);
    }
    CommandsAreCounted(p, i + 1, |p|);
    forall j | 0 <= j < |p|
      ensures p[j].Command? ==> (Reached(p, codes, j) <==> CommandsBefore(p, j) < |launches|)
      ensures j > i ==> CommandsBefore(p, j) >= |launches|
      ensures j > i && Reached(p, codes, j) ==> IsOperator(p[j])
    {
      if j <= i {
        CommandsAreCounted(p, j, i);
      } else {
        CommandsAreCounted(p, i + 1, j);
      }
    }
  }

  lemma OneCommandMore(p: seq<Node>, i: nat)
    requires i < |p|
    ensures CommandsBefore(p, i + 1) == CommandsBefore(p, i) + if p[i].Command? then 1 else 0
  {
  }

  /** The executor raises at an incomplete directory change. */
  lemma BrokenAt(p: seq<Node>, codes: Codes, i: nat, launches: seq<Launch>)
    requires i < |p| && p[i].Chdir? && Reached(p, codes, i) && !PassesOn(p, codes, i)
    requires |launches| == CommandsBefore(p, i) && LaunchedUpTo(p, i, launches)
    ensures RunsAsWritten(p, codes, Raised, launches)
  {
    hide CommandsBefore, PassesOn, IsLaunchAt;
    CommandsAreCounted(p, i, |p|);
    forall j | 0 <= j < |p|
      ensures p[j].Command? ==> (Reached(p, codes, j) <==> CommandsBefore(p, j) < |launches|)
      ensures j >= i ==> CommandsBefore(p, j) >= |launches|
    {
      if j < i {
        CommandsAreCounted(p, j, i);
      } else {
        CommandsAreCounted(p, i, j);
      }
    }
  }

  /** What has been launched when the executor is at a position. */
  ghost predicate Arrived(p: seq<Node>, codes: Codes, i: nat, done: seq<Launch>, group: seq<Launch>) {
    && i < |p| && WellFormed(p[i..]) && Reached(p, codes, i)
    && |done| + |group| == CommandsBefore(p, i) && LaunchedUpTo(p, i, done + group)
    && (group != [] <==> FollowsPipe(p, i))
  }

  lemma LaunchHere(p: seq<Node>, i: nat, done: seq<Launch>, group: seq<Launch>, l: Launch)
    requires i < |p| && p[i].Command? && |done| + |group| == CommandsBefore(p, i)
    requires LaunchedUpTo(p, i, done + group)
    requires l == LaunchOf(p[i], DirectoryAt(p, i), group == []) && (group != [] <==> FollowsPipe(p, i))
    ensures LaunchedUpTo(p, i + 1, done + (group + [l]))
  {
    hide CommandsBefore, DirectoryAt, FollowsPipe;
    var launches := done + (group + [l]);
    assert IsLaunchAt(p, i, l);
    forall j | 0 <= j < i + 1 && p[j].Command? && CommandsBefore(p, j) < |launches|
      ensures IsLaunchAt(p, j, launches[CommandsBefore(p, j)])
    {
      if j < i {
        CommandsAreCounted(p, j, i);
        assert launches[CommandsBefore(p, j)] == (done + group)[CommandsBefore(p, j)];
      } else {
        assert launches[CommandsBefore(p, j)] == l;
      }
    }
  }

  /** An operator changes neither the number of launches nor the directory. */
  lemma PastOperator(p: seq<Node>, codes: Codes, i: nat, launches: seq<Launch>)
    requires i + 2 <= |p| && Reached(p, codes, i) && PassesOn(p, codes, i) && IsOperator(p[i+1])
    requires LaunchedUpTo(p, i + 1, launches)
    ensures CommandsBefore(p, i + 2) == CommandsBefore(p, i + 1) && DirectoryAt(p, i + 2) == DirectoryAt(p, i + 1)
    ensures LaunchedUpTo(p, i + 2, launches)
    ensures PassesOn(p, codes, i + 1) ==> Reached(p, codes, i + 2)
  {
  }

  /** One step of the executor at a command. */
  lemma CommandPassed(p: seq<Node>, codes: Codes, i: nat, done: seq<Launch>, group: seq<Launch>)
    requires Arrived(p, codes, i, done, group) && p[i].Command?
    ensures var more := group + [LaunchOf(p[i], DirectoryAt(p, i), group == [])];
      && |done| + |more| == CommandsBefore(p, i) + 1
      && (i + 1 == |p| || (IsOperator(p[i+1]) && i + 2 < |p|))
      && (i + 1 < |p| && p[i+1] == Pipe ==> Arrived(p, codes, i + 2, done, more))
      && (i + 1 < |p| && p[i+1] != Pipe && Proceeds(p[i+1], codes(|done| + |more| - 1)) ==>
            Arrived(p, codes, i + 2, done + more, []))
      && (i + 1 < |p| ==> DirectoryAt(p, i + 2) == DirectoryAt(p, i))
      && (i + 1 == |p| || (p[i+1] != Pipe && !Proceeds(p[i+1], codes(|done| + |more| - 1))) ==>
            RunsAsWritten(p, codes, Returned(codes(|done| + |more| - 1)), done + more))
  {
    hide LaunchOf, IsCommand, IsLaunchAt;
    var l := LaunchOf(p[i], DirectoryAt(p, i), group == []);
    var more := group + [l];
    LaunchHere(p, i, done, group, l);
    if i + 1 < |p| {
      assert p[i..][1] == p[i+1] && p[i..][2..] == p[i+2..];
      Alternation(p[i..], 0);
      PastOperator(p, codes, i, done + more);
      assert (done + more) + [] == done + more;
    }
    if i + 1 == |p| || (p[i+1] != Pipe && !Proceeds(p[i+1], codes(|done| + |more| - 1))) {
      StoppedAfter(p, codes, i, done + more);
    }
  }

  /** One step of the executor at a directory change. */
  lemma ChdirPassed(p: seq<Node>, codes: Codes, i: nat, done: seq<Launch>, group: seq<Launch>)
    requires Arrived(p, codes, i, done, group) && p[i].Chdir?
    ensures i + 1 == |p| || p[i].dir.None? ==> RunsAsWritten(p, codes, Raised, done + group)
    ensures i + 1 < |p| && p[i].dir.Some? ==>
      i + 2 < |p| && Arrived(p, codes, i + 2, done, group)
      && DirectoryAt(p, i + 2) == JoinPath(DirectoryAt(p, i), p[i].dir.value)
  {
    hide IsLaunchAt, JoinPath;
    if i + 1 == |p| || p[i].dir.None? {
      BrokenAt(p, codes, i, done + group);
    } else {
      assert p[i..][1] == p[i+1] && p[i..][2..] == p[i+2..];
      Alternation(p[i..], 0);
      PastOperator(p, codes, i, done + group);
    }
  }

  lemma {:induction false} RunsFrom(p: seq<Node>, codes: Codes, i: nat, done: seq<Launch>, group: seq<Launch>)
    requires Arrived(p, codes, i, done, group)
    ensures var (outcome, launches) := ToDo(p[i..], DirectoryAt(p, i), done, group, codes);
      RunsAsWritten(p, codes, outcome, launches)
    decreases |p| - i
  {
    hide ToDo, LaunchOf, IsCommand, IsLaunchAt, DirectoryAt, RunsAsWritten, CommandsBefore, FollowsPipe, Proceeds;
    var cwd := DirectoryAt(p, i);
    assert p[i..][0] == p[i] && |p[i..]| == |p| - i;
    assert |p[i..]| > 1 ==> p[i..][1] == p[i+1] && p[i..][2..] == p[i+2..];
    if p[i].Chdir? {
      DirectoryChanges(p[i..], cwd, done, group, codes);
      ChdirPassed(p, codes, i, done, group);
      if i + 1 < |p| && p[i].dir.Some? {
        RunsFrom(p, codes, i + 2, done, group);
      }
    } else {
      CommandRuns(p[i..], cwd, done, group, codes);
      CommandPassed(p, codes, i, done, group);
      var more := group + [LaunchOf(p[i], cwd, group == [])];
      if i + 1 < |p| {
        if p[i+1] == Pipe {
          RunsFrom(p, codes, i + 2, done, more);
        } else if Proceeds(p[i+1], codes(|done| + |more| - 1)) {
          RunsFrom(p, codes, i + 2, done + more, []);
        }
      }
    }
  }

  /** What a pipeline means, read off its nodes. */
  lemma EvaluationByPosition(p: seq<Node>, codes: Codes)
    requires WellFormed(p)
    ensures var (outcome, launches) := Evaluate(ChainOf(p, ".", []), 0, codes);
      RunsAsWritten(p, codes, outcome, launches)
  {
    hide ToDo, RunsAsWritten, Evaluate, ChainOf;
    assert p[0..] == p;
    RunsFrom(p, codes, 0, [], []);
    RunMeans(p, codes);
  }

  /** When it returns, and has one kind of operator. */
  lemma OneKindOfOperator(p: seq<Node>, codes: Codes, outcome: Outcome, launches: seq<Launch>)
    requires WellFormed(p) && RunsAsWritten(p, codes, outcome, launches) && outcome.Returned?
    ensures Or !in p ==>
      (outcome.status == 0 <==> forall i: nat :: EndsGroup(p, i) ==> codes(CommandsBefore(p, i)) == 0)
    ensures And !in p ==>
      (outcome.status == 0 <==> exists i: nat :: EndsGroup(p, i) && codes(CommandsBefore(p, i)) == 0)
  {
    hide RunsAsWritten, EndsGroup, CommandsBefore;
    if Or !in p {
      AndLists(p, codes, outcome, launches);
    }
    if And !in p {
      OrLists(p, codes, outcome, launches);
    }
  }

  // ----- lists with one kind of operator -----

  lemma {:induction false} CommandOfNumber(p: seq<Node>, j: nat, n: nat) returns (i: nat)
    requires j <= |p| && n < CommandsBefore(p, j)
    ensures i < j && p[i].Command? && CommandsBefore(p, i) == n
    decreases j
  {
    if CommandsBefore(p, j - 1) == n && p[j-1].Command? {
      i := j - 1;
    } else {
      i := CommandOfNumber(p, j - 1, n);
    }
  }

  /** The first position that does not let the pipeline go on, or its end. */
  lemma FirstStop(p: seq<Node>, codes: Codes) returns (j: nat)
    ensures j <= |p| && Reached(p, codes, j) && (j < |p| ==> !PassesOn(p, codes, j))
  {
    j := 0;
    while j < |p| && PassesOn(p, codes, j)
      invariant j <= |p| && Reached(p, codes, j)
    {
      j := j + 1;
    }
  }

  /** Everything before the first stop is launched, and nothing behind it. */
  lemma WhereItStops(p: seq<Node>, codes: Codes, outcome: Outcome, launches: seq<Launch>) returns (j: nat)
    requires RunsAsWritten(p, codes, outcome, launches)
    ensures j <= |p| && Reached(p, codes, j) && (j < |p| ==> !PassesOn(p, codes, j))
    ensures |launches| == CommandsBefore(p, j)
  {
    hide CommandsBefore, LaunchedUpTo;
    j := FirstStop(p, codes);
    if |launches| > CommandsBefore(p, j) {
      var i := CommandOfNumber(p, |p|, CommandsBefore(p, j));
      if i < j {
        CommandsAreCounted(p, i, j);
      }
      assert false;
    } else if |launches| < CommandsBefore(p, j) {
      var i := CommandOfNumber(p, j, |launches|);
      assert false;
    }
  }

  /** The command at a position is the last one of its group. */
  predicate EndsGroup(p: seq<Node>, i: nat) {
    i < |p| && p[i].Command? && (i + 1 == |p| || p[i+1] != Pipe)
  }

  /** A list with && only returns zero exactly when the last command of every group does. */
  lemma AndLists(p: seq<Node>, codes: Codes, outcome: Outcome, launches: seq<Launch>)
    requires WellFormed(p) && RunsAsWritten(p, codes, outcome, launches) && Or !in p && outcome.Returned?
    ensures outcome.status == 0 <==> forall i: nat :: EndsGroup(p, i) ==> codes(CommandsBefore(p, i)) == 0
  {
    hide WellFormed, RunsAsWritten, Reached, CommandsBefore, PassesOn;
    var j := WhereItStops(p, codes, outcome, launches);
    StatusAtStop(p, codes, outcome, launches, j);
    if j < |p| {
      assert EndsGroup(p, j - 1);
    } else {
      assert EndsGroup(p, |p| - 1);
      forall i: nat | EndsGroup(p, i) && i + 1 < |p| ensures codes(CommandsBefore(p, i)) == 0 {
        GroupIsPassed(p, codes, i);
      }
    }
  }

  /** A list with || only returns zero exactly when the last command of some group does. */
  lemma OrLists(p: seq<Node>, codes: Codes, outcome: Outcome, launches: seq<Launch>)
    requires WellFormed(p) && RunsAsWritten(p, codes, outcome, launches) && And !in p && outcome.Returned?
    ensures outcome.status == 0 <==> exists i: nat :: EndsGroup(p, i) && codes(CommandsBefore(p, i)) == 0
  {
    hide WellFormed, RunsAsWritten, Reached, CommandsBefore, PassesOn;
    var j := WhereItStops(p, codes, outcome, launches);
    StatusAtStop(p, codes, outcome, launches, j);
    if j < |p| {
      assert EndsGroup(p, j - 1);
    } else {
      assert EndsGroup(p, |p| - 1);
      forall i: nat | EndsGroup(p, i) && i + 1 < |p| ensures codes(CommandsBefore(p, i)) != 0 {
        GroupIsPassed(p, codes, i);
      }
    }
  }

  lemma NotAtChdir(p: seq<Node>, codes: Codes, outcome: Outcome, launches: seq<Launch>, j: nat)
    requires RunsAsWritten(p, codes, outcome, launches) && outcome != Raised
    requires j < |p| && Reached(p, codes, j) && !PassesOn(p, codes, j)
    ensures !p[j].Chdir?
  {
  }

  /** A group that is passed ends as its operator asks. */
  lemma GroupIsPassed(p: seq<Node>, codes: Codes, i: nat)
    requires WellFormed(p) && Reached(p, codes, |p|) && EndsGroup(p, i) && i + 1 < |p|
    ensures p[i+1] == And || p[i+1] == Or
    ensures p[i+1] == And ==> codes(CommandsBefore(p, i)) == 0
    ensures p[i+1] == Or ==> codes(CommandsBefore(p, i)) != 0
  {
    hide WellFormed, CommandsBefore;
    Alternation(p, i + 1);
    Alternation(p, i);
    assert PassesOn(p, codes, i + 1);
  }

  /** The status is that of the command in front of the stop. */
  lemma StatusAtStop(p: seq<Node>, codes: Codes, outcome: Outcome, launches: seq<Launch>, j: nat)
    requires WellFormed(p) && RunsAsWritten(p, codes, outcome, launches) && outcome.Returned?
    requires j <= |p| && Reached(p, codes, j) && (j < |p| ==> !PassesOn(p, codes, j))
    requires |launches| == CommandsBefore(p, j)
    ensures j > 0 && p[j-1].Command? && outcome.status == codes(CommandsBefore(p, j - 1))
    ensures j < |p| ==> p[j] == And || p[j] == Or
    ensures j < |p| && p[j] == And ==> outcome.status != 0
    ensures j < |p| && p[j] == Or ==> outcome.status == 0
  {
    hide LaunchedUpTo, IsLaunchAt, WellFormed;
    if j < |p| {
      Alternation(p, j);
      NotAtChdir(p, codes, outcome, launches, j);
    } else {
      Alternation(p, j - 1);
      assert PassesOn(p, codes, j - 1);
    }
    assert CommandsBefore(p, j) == CommandsBefore(p, j - 1) + 1;
  }

  /** The rest of a list is run exactly after the status that its operator asks for. */
  lemma RestIsRun(ch: Chain, n: nat, codes: Codes)
    requires Complete(ch) && ch.Link?
    ensures ch.op == And || ch.op == Or
    ensures ch.op == And ==> (|Evaluate(ch, n, codes).1| > |ch.group| <==> codes(n + |ch.group| - 1) == 0)
    ensures ch.op == Or ==> (|Evaluate(ch, n, codes).1| > |ch.group| <==> codes(n + |ch.group| - 1) != 0)
    ensures |Evaluate(ch, n, codes).1| == |ch.group| ==>
      Evaluate(ch, n, codes) == (Returned(codes(n + |ch.group| - 1)), ch.group)
  {
    CompleteLaunches(ch.rest, n + |ch.group|, codes);
  }

  lemma CompleteLaunches(ch: Chain, n: nat, codes: Codes)
    requires Complete(ch)
    ensures Evaluate(ch, n, codes).1 != []
  {
  }

  datatype RunState = AtGroup | InPipe

  /** Opens the files of a command and launches it. */
  method LaunchCommand(c: Node, cwd: string, state: RunState, ghost launches: seq<Launch>,
                       files: seq<string>, toClose: seq<Handle>, ghost closed: seq<nat>)
      returns (launch: Launch, more: seq<string>, handles: seq<Handle>)
    requires c.Command? && files == FilesOfAll(launches) && Managed(files, toClose, closed)
    ensures launch == LaunchOf(c, cwd, state == AtGroup)
    ensures more == FilesOfAll(launches + [launch]) && Managed(more, handles, closed)
  {
    hide Managed, FilesOfAll, OutputFiles;
    more, handles := files, toClose;
    var source := Inherited;
    if state == InPipe {
      source := FromPrevious;
    } else if c.stdin.Some? {
      source := FromFile(c.stdin.value);
      more, handles := OpenFile(c.stdin.value, more, handles, closed);
    }
    more, handles := OpenOutFile(c.stdout, more, handles, closed);
    more, handles := OpenOutFile(c.stderr, more, handles, closed);
    launch := Launch(c.argv, source, c.stdout, c.stderr, c.env, ProcessDirectory(cwd));
    FilesOfOneMore(launches, launch);
  }

  /** The executor does what the pipeline means; a normal return leaves no file open. */
  method Run(p: seq<Node>, codes: Codes)
      returns (outcome: Outcome, launches: seq<Launch>, files: seq<string>, closed: seq<nat>)
    requires p == [] || WellFormed(p)
    ensures p == [] ==> outcome == NoStatus && launches == []
    ensures p != [] ==> Solid(ChainOf(p, ".", [])) && (outcome, launches) == Evaluate(ChainOf(p, ".", []), 0, codes)
    ensures p != [] ==> RunsAsWritten(p, codes, outcome, launches)
    ensures p != [] && outcome.Returned? && Or !in p ==>
      (outcome.status == 0 <==> forall i: nat :: EndsGroup(p, i) ==> codes(CommandsBefore(p, i)) == 0)
    ensures p != [] && outcome.Returned? && And !in p ==>
      (outcome.status == 0 <==> exists i: nat :: EndsGroup(p, i) && codes(CommandsBefore(p, i)) == 0)
    ensures files == FilesOfAll(launches)
    ensures forall name :: name in files <==> exists l :: l in launches && Opens(l, name)
    ensures outcome.Returned? ==> closed == Upto(|files|)
    ensures closed <= Upto(|files|)
  {
    hide WellFormed, ToDo, FilesOfAll, IsCommand, LaunchOf, JoinPath, Upto, Managed, RealOnes, RunsAsWritten,
      EndsGroup, CommandsBefore, Opens;
    if p != [] {
      EvaluationByPosition(p, codes);
      ghost var meant := Evaluate(ChainOf(p, ".", []), 0, codes);
      if meant.0.Returned? {
        OneKindOfOperator(p, codes, meant.0, meant.1);
      }
    }
    var pipeline := p;
    launches, files, closed := [], [], [];
    var toClose: seq<Handle> := [];
    var piped: seq<nat> := [];
    var state, cwd := AtGroup, ".";
    ghost var done: seq<Launch>, group: seq<Launch> := [], [];
    NothingOpen();
    while pipeline != []
      invariant p != [] ==> WellFormed(pipeline) && pipeline != []
      invariant p == [] ==> pipeline == [] && launches == []
      invariant p != [] ==> ToDo(p, ".", [], [], codes) == ToDo(pipeline, cwd, done, group, codes)
      invariant launches == done + group && files == FilesOfAll(launches) && Managed(files, toClose, closed)
      invariant state == InPipe <==> group != []
      invariant |piped| == |group| && forall i :: 0 <= i < |piped| ==> piped[i] == |done| + i
      decreases |pipeline|
    {
      var node := pipeline[0];
      if node.Chdir? {
        DirectoryChanges(pipeline, cwd, done, group, codes);
        if |pipeline| == 1 || node.dir.None? {
          ClosedSoFar(files, toClose, closed);
          RunMeans(p, codes);
          AllFilesAreOpened(launches);
          return Raised, launches, files, closed;
        }
        cwd := JoinPath(cwd, node.dir.value);
        pipeline := pipeline[2..];
        continue;
      }
      CommandRuns(pipeline, cwd, done, group, codes);
      var launch;
      launch, files, toClose := LaunchCommand(node, cwd, state, launches, files, toClose, closed);
      assert launch == LaunchOf(node, cwd, group == []) by {
        assert (state == AtGroup) == (group == []);
      }
      assert (done + group) + [launch] == done + (group + [launch]);
      piped := piped + [|launches|];
      launches := launches + [launch];
      group := group + [launch];
      if |pipeline| == 1 {
        var retval := WaitFor(piped, codes);
        AllClosed(files, toClose, closed);
        closed := CloseFiles(toClose, closed);
        RunMeans(p, codes);
        AllFilesAreOpened(launches);
        return Returned(retval), launches, files, closed;
      }
      var next := pipeline[1];
      pipeline := pipeline[2..];
      if next == Pipe {
        state := InPipe;
      } else {
        var retval := WaitFor(piped, codes);
        AllClosed(files, toClose, closed);
        closed := CloseFiles(toClose, closed);
        toClose := [];
        if (next == Or && retval == 0) || (next == And && retval != 0) {
          RunMeans(p, codes);
          AllFilesAreOpened(launches);
          return Returned(retval), launches, files, closed;
        }
        state, piped := AtGroup, [];
        done, group := launches, [];
      }
    }
    ClosedSoFar(files, toClose, closed);
    AllFilesAreOpened(launches);
    outcome := NoStatus;
  }

  method WaitFor(piped: seq<nat>, codes: Codes) returns (retval: int)
    requires piped != []
    ensures retval == codes(piped[|piped|-1])
  {
    var retvals := [];
    for i := 0 to |piped|
      invariant |retvals| == i && forall k :: 0 <= k < i ==> retvals[k] == codes(piped[k])
    {
      retvals := retvals + [codes(piped[i])];
    }
    retval := ExecPipedCommands(retvals);
  }

  lemma AllFilesAreOpened(launches: seq<Launch>)
    ensures forall name :: name in FilesOfAll(launches) <==> exists l :: l in launches && Opens(l, name)
  {
    forall name ensures name in FilesOfAll(launches) <==> exists l :: l in launches && Opens(l, name) {
      FilesAreOpened(launches, name);
    }
  }

  lemma NothingOpen()
    ensures Managed([], [], []) && FilesOfAll([]) == [] && [] <= Upto(0)
  {
  }

  lemma AllClosed(files: seq<string>, toClose: seq<Handle>, closed: seq<nat>)
    requires Managed(files, toClose, closed)
    ensures closed + RealOnes(toClose) == Upto(|files|)
    ensures Managed(files, [], Upto(|files|))
  {
  }

  lemma ClosedSoFar(files: seq<string>, toClose: seq<Handle>, closed: seq<nat>)
    requires Managed(files, toClose, closed)
    ensures closed <= Upto(|files|)
  {
  }

  lemma RunMeans(p: seq<Node>, codes: Codes)
    requires WellFormed(p)
    ensures Solid(ChainOf(p, ".", []))
    ensures ToDo(p, ".", [], [], codes) == Evaluate(ChainOf(p, ".", []), 0, codes)
  {
    ChainIsSolid(p, ".", []);
    var e := Evaluate(ChainOf(p, ".", []), 0, codes);
    assert [] + e.1 == e.1;
  }

  lemma FilesOfOneMore(launches: seq<Launch>, l: Launch)
    ensures FilesOfAll(launches + [l]) == FilesOfAll(launches) + FilesOf(l)
  {
    assert (launches + [l])[..|launches|] == launches;
  }
}
