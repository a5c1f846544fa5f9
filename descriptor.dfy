/** UvmAgent.parse_description_file of uvm_code_gen/agent.py as a function of
    the file's lines: a left-to-right pass in which each line is skipped,
    rejected or applied to the state, and a final step that marks the clock
    ports and demands an agent name. */
module Descriptor {
  import opened Results
  import opened Text
  import opened Declaration
  import opened Fields

  const Keywords: seq<string> := ["agent_name", "trans_var", "if_port", "if_clock"]

  /** Why a line stops the parse. */
  datatype LineFault =
    | TooFewArguments
    | InvalidKeyword(keyword: string)
    | MissingEquals
    | AgentNameArity
    | Construction(fault: ConstructionFault)

  /** A fault with the 1-based number and the stripped text of its line, or
      a file without an agent_name line. */
  datatype ParseError = LineError(fault: LineFault, line: nat, text: string) | NoAgentName

  /** What one line does. */
  datatype Action =
    | Skip
    | Fault(fault: LineFault)
    | SetAgentName(name: string)
    | AddTransVar(variable: TransactionVariable)
    | AddPort(port: Port)
    | SetClock(name: string)

  /** The whitespace-separated words of a line, as the parser sees them. */
  function Words(line: string): seq<string> {
    Tokens(Strip(line))
  }

  /** What the checks make of one line, before any entry is built. */
  datatype Verdict =
    | Ignore
    | Reject(fault: LineFault)
    | AgentName(name: string)
    | DeclareVariable(definition: string)
    | DeclarePort(definition: string)
    | ClockName(name: string)

  predicate AllTokens(words: seq<string>) {
    forall i :: 0 <= i < |words| ==> IsToken(words[i])
  }

  /** The checks of a line's words in the source's order: blank and comment
      lines are skipped, then too few words, an unknown keyword, a missing
      `=` and an agent_name with other than one value are faults. A
      trans_var or if_port line declares the words after the `=`, joined by
      single spaces. */
  function CheckWords(words: seq<string>): (v: Verdict)
    requires AllTokens(words)
    ensures v == Ignore <==> words == [] || words[0][0] == '#'
    ensures v.AgentName? ==> |words| == 3 && words[..2] == ["agent_name", "="] && v.name == words[2]
    ensures v.ClockName? ==> |words| >= 3 && words[..2] == ["if_clock", "="] && v.name == words[2]
    ensures v.DeclareVariable? ==> |words| >= 3 && words[..2] == ["trans_var", "="]
    ensures v.DeclarePort? ==> |words| >= 3 && words[..2] == ["if_port", "="]
    ensures (v.DeclareVariable? || v.DeclarePort?) ==> SingleLine(v.definition)
  {
    if words == [] || words[0][0] == '#' then Ignore
    else if |words| < 3 then Reject(TooFewArguments)
    else if words[0] !in Keywords then Reject(InvalidKeyword(words[0]))
    else if words[1] != "=" then Reject(MissingEquals)
    else
      var args := words[2..];
      assert forall i :: 0 <= i < |args| ==> args[i] == words[i + 2];
      Dispatch(words[0], args)
  }

  /** What a line that passed the checks declares, by its keyword: an
      agent_name takes exactly one value, trans_var and if_port take the
      values joined by single spaces, if_clock the first value. */
  function Dispatch(keyword: string, args: seq<string>): (v: Verdict)
    requires keyword in Keywords && args != [] && AllTokens(args)
    ensures (v.DeclareVariable? || v.DeclarePort?) ==> SingleLine(v.definition)
  {
    TokensExclude('\n', args);
    if keyword == "agent_name" then
      if |args| != 1 then Reject(AgentNameArity) else AgentName(args[0])
    else if keyword == "trans_var" then DeclareVariable(Join(" ", args))
    else if keyword == "if_port" then DeclarePort(Join(" ", args))
    else ClockName(args[0])
  }

  function CheckLine(line: string): (v: Verdict)
    ensures (v.DeclareVariable? || v.DeclarePort?) ==> SingleLine(v.definition)
  {
    TokensAreTokens(Strip(line));
    CheckWords(Words(line))
  }

  /** Building the entry a verdict declares; a declaration the analyser
      cannot name is a fault of its line. */
  function Build(v: Verdict): Action
    requires (v.DeclareVariable? || v.DeclarePort?) ==> SingleLine(v.definition)
  {
    match v
    case Ignore => Skip
    case Reject(f) => Fault(f)
    case AgentName(name) => SetAgentName(name)
    case DeclareVariable(d) =>
      (match TransactionVariableOf(d)
       case Failure(f) => Fault(Construction(f))
       case Success(x) => AddTransVar(x))
    case DeclarePort(d) =>
      (match PortOf(d)
       case None => Fault(Construction(NoSignalName))
       case Some(p) => AddPort(p))
    case ClockName(name) => SetClock(name)
  }

  /** What one line does. */
  function Classify(line: string): Action {
    Build(CheckLine(line))
  }

  /** A line as the pass uses it: its action and its stripped text. */
  datatype Reading = Reading(action: Action, text: string)

  function Read(line: string): Reading {
    Reading(Classify(line), Strip(line))
  }

  /** Reading a line is checking the words of the stripped line. */
  lemma ReadByWords(line: string)
    ensures AllTokens(Words(line))
    ensures Read(line) == Reading(Build(CheckWords(Words(line))), Strip(line))
  {
    TokensAreTokens(Strip(line));
  }

  /** What each keyword builds from the words after the `=`. */
  lemma BuildAgentName(keyword: string, args: seq<string>)
    requires keyword == "agent_name" && args != [] && AllTokens(args)
    ensures Build(Dispatch(keyword, args)) ==
      if |args| != 1 then Fault(AgentNameArity) else SetAgentName(args[0])
  {
  }

  lemma BuildVariable(keyword: string, args: seq<string>)
    requires keyword == "trans_var" && args != [] && AllTokens(args)
    ensures SingleLine(Join(" ", args))
    ensures Build(Dispatch(keyword, args)) ==
      match TransactionVariableOf(Join(" ", args))
      case Failure(f) => Fault(Construction(f))
      case Success(x) => AddTransVar(x)
  {
    TokensExclude('\n', args);
  }

  lemma BuildPort(keyword: string, args: seq<string>)
    requires keyword == "if_port" && args != [] && AllTokens(args)
    ensures SingleLine(Join(" ", args))
    ensures Build(Dispatch(keyword, args)) ==
      match PortOf(Join(" ", args))
      case None => Fault(Construction(NoSignalName))
      case Some(p) => AddPort(p)
  {
    TokensExclude('\n', args);
  }

  lemma BuildClock(keyword: string, args: seq<string>)
    requires keyword in Keywords && keyword != "agent_name" && keyword != "trans_var" && keyword != "if_port"
    requires args != [] && AllTokens(args)
    ensures Build(Dispatch(keyword, args)) == SetClock(args[0])
  {
  }

  /** A line that passes the checks reads as what its keyword declares. */
  lemma ReadChecked(line: string)
    requires var w := Words(line); |w| >= 3 && w[0][0] != '#' && w[0] in Keywords && w[1] == "="
    ensures AllTokens(Words(line)[2..])
    ensures Read(line) == Reading(Build(Dispatch(Words(line)[0], Words(line)[2..])), Strip(line))
  {
    ReadByWords(line);
    var w := Words(line);
    assert AllTokens(w[2..]) by {
      assert forall i :: 0 <= i < |w[2..]| ==> w[2..][i] == w[i + 2];
    }
    assert CheckWords(w) == Dispatch(w[0], w[2..]);
  }

  /** A blank or comment line is skipped. */
  lemma ReadIgnored(line: string)
    requires Words(line) == [] || Words(line)[0][0] == '#'
    ensures Read(line).action == Skip
  {
    ReadByWords(line);
  }

  /** A line of one or two words has too few arguments. */
  lemma ReadTooFew(line: string)
    requires Words(line) != [] && Words(line)[0][0] != '#' && |Words(line)| < 3
    ensures Read(line).action == Fault(TooFewArguments)
  {
    ReadByWords(line);
  }

  /** A line whose first word is not a keyword is rejected with that word. */
  lemma ReadUnknownKeyword(line: string)
    requires Words(line) != [] && Words(line)[0][0] != '#' && |Words(line)| >= 3
    requires Words(line)[0] !in Keywords
    ensures Read(line).action == Fault(InvalidKeyword(Words(line)[0]))
  {
    ReadByWords(line);
  }

  /** A keyword line whose second word is not `=` is rejected. */
  lemma ReadNoEquals(line: string)
    requires Words(line) != [] && Words(line)[0][0] != '#' && |Words(line)| >= 3
    requires Words(line)[0] in Keywords && Words(line)[1] != "="
    ensures Read(line).action == Fault(MissingEquals)
  {
    ReadByWords(line);
  }

  /** The step of a line whose read action is known. */
  lemma StepOf(st: ScanState, line: string, n: nat, a: Action)
    requires Read(line).action == a
    ensures Next(Success(st), Read(line), n) ==
      if a.Fault? then Failure(LineError(a.fault, n, Strip(line))) else Success(Apply(st, a))
  {
  }

  /** A file's lines as the pass reads them, in order. */
  function Readings(lines: seq<string>): (rs: seq<Reading>)
    ensures |rs| == |lines|
  {
    MapEach(Read, lines)
  }

  lemma ReadingsLast(lines: seq<string>, line: string)
    ensures Readings(lines + [line]) == Readings(lines) + [Read(line)]
  {
    MapEachLast(Read, lines, line);
  }

  lemma ReadingAt(lines: seq<string>, i: nat)
    requires i < |lines|
    ensures Readings(lines)[i] == Read(lines[i])
  {
    MapEachAt(Read, lines, i);
  }

  lemma ReadingsMatch(lines: seq<string>)
    ensures forall i :: 0 <= i < |lines| ==> Readings(lines)[i].action == Classify(lines[i])
  {
    forall i | 0 <= i < |lines| ensures Readings(lines)[i].action == Classify(lines[i]) {
      ReadingAt(lines, i);
    }
  }

  /** What the parser has gathered so far. */
  datatype ScanState =
    ScanState(agentName: string, transVars: seq<TransactionVariable>, ports: seq<Port>, clock: string)

  const Initial: ScanState := ScanState("", [], [], "")

  /** The effect of a line that is not a fault. */
  function Apply(st: ScanState, a: Action): ScanState {
    match a
    case SetAgentName(name) => st.(agentName := name)
    case AddTransVar(v) => st.(transVars := st.transVars + [v])
    case AddPort(p) => st.(ports := st.ports + [p])
    case SetClock(name) => st.(clock := name)
    case _ => st
  }

  /** The pass after one more line, the n-th. */
  function Next(r: Result<ScanState, ParseError>, line: Reading, n: nat): Result<ScanState, ParseError> {
    match r
    case Failure(e) => Failure(e)
    case Success(st) =>
      match line.action
      case Fault(f) => Failure(LineError(f, n, line.text))
      case a => Success(Apply(st, a))
  }

  /** The loop over the lines: the state after all of them, or the first
      fault. */
  function Run(rs: seq<Reading>): Result<ScanState, ParseError>
    decreases |rs|
  {
    if rs == [] then Success(Initial)
    else Next(Run(rs[..|rs| - 1]), rs[|rs| - 1], |rs|)
  }

  /** The pass over a file's lines; a fault names one of its lines. */
  function Scan(lines: seq<string>): (r: Result<ScanState, ParseError>)
    ensures r.Failure? ==> r.error.LineError? && 1 <= r.error.line <= |lines|
  {
    RunFailsAtLines(Readings(lines));
    Run(Readings(lines))
  }

  lemma RunLast(rs: seq<Reading>, r: Reading)
    ensures Run(rs + [r]) == Next(Run(rs), r, |rs| + 1)
  {
    assert (rs + [r])[..|rs|] == rs;
  }

  /** Reading one more line of the file is one more step of the pass. */
  lemma ScanStep(lines: seq<string>, i: nat)
    requires i < |lines|
    ensures Scan(lines[..i + 1]) == Next(Scan(lines[..i]), Read(lines[i]), i + 1)
  {
    assert lines[..i + 1] == lines[..i] + [lines[i]];
    ReadingsLast(lines[..i], lines[i]);
    RunLast(Readings(lines[..i]), Read(lines[i]));
  }

  /** Once the lines read so far have failed, the rest of the file changes
      nothing. */
  lemma {:induction false} ScanFailureSticks(lines: seq<string>, i: nat)
    requires i <= |lines| && Scan(lines[..i]).Failure?
    ensures Scan(lines) == Scan(lines[..i])
    decreases |lines| - i
  {
    if i == |lines| {
      assert lines[..i] == lines;
    } else {
      ScanStep(lines, i);
      ScanFailureSticks(lines, i + 1);
    }
  }

  /** The post-pass: ports named like the clock are flagged, the others keep
      their flag. */
  function MarkClock(ports: seq<Port>, clock: string): (r: seq<Port>)
    ensures |r| == |ports|
    ensures forall i :: 0 <= i < |r| ==>
      r[i] == ports[i].(isClock := ports[i].isClock || ports[i].signalName == clock)
  {
    seq(|ports|, i requires 0 <= i < |ports| =>
      ports[i].(isClock := ports[i].isClock || ports[i].signalName == clock))
  }

  /** The parsed description: what UvmAgent holds once parsing succeeds. */
  datatype Description = Description(agentName: string, transVars: seq<TransactionVariable>, ports: seq<Port>)

  function Finish(st: ScanState): Description {
    Description(st.agentName, st.transVars, MarkClock(st.ports, st.clock))
  }

  /** parse_description_file: the first faulty line, a missing agent name,
      or the description. */
  function Parse(lines: seq<string>): (r: Result<Description, ParseError>)
    ensures r.Success? ==> r.value.agentName != ""
    ensures r.Failure? ==> r.error == NoAgentName || 1 <= r.error.line <= |lines|
  {
    match Scan(lines)
    case Failure(e) => Failure(e)
    case Success(st) => if st.agentName == "" then Failure(NoAgentName) else Success(Finish(st))
  }

  // ---------------------------------------------------------------------
  // one line

  /** Names taken from a line are its third word. */
  lemma CheckedNames(words: seq<string>)
    requires AllTokens(words)
    ensures CheckWords(words).AgentName? ==>
      |words| == 3 && CheckWords(words).name == words[2] && IsToken(words[2])
    ensures CheckWords(words).ClockName? ==>
      |words| >= 3 && CheckWords(words).name == words[2] && IsToken(words[2])
  {
  }

  /** A declared definition splits back into the words after the `=`. */
  lemma DefinitionWords(words: seq<string>)
    requires AllTokens(words)
    ensures (CheckWords(words).DeclareVariable? || CheckWords(words).DeclarePort?) ==>
      |words| >= 3 && Tokens(CheckWords(words).definition) == words[2..]
  {
    if |words| >= 3 {
      var args := words[2..];
      assert forall i :: 0 <= i < |args| ==> args[i] == words[i + 2];
      TokensOfJoin(args);
    }
  }

  /** Blank lines and comment lines are skipped; every other line is a
      fault or has an effect. */
  lemma SkippedLines(line: string)
    ensures Read(line).action == Skip <==> Words(line) == [] || Words(line)[0][0] == '#'
  {
    ReadByWords(line);
    BuiltAction(CheckWords(Words(line)));
  }

  /** The checks come in the source's order: a line reaches a later check
      only when it passes every earlier one. */
  lemma FaultOrder(words: seq<string>)
    requires AllTokens(words) && words != [] && words[0][0] != '#'
    ensures |words| < 3 <==> CheckWords(words) == Reject(TooFewArguments)
    ensures |words| >= 3 && words[0] !in Keywords <==> CheckWords(words) == Reject(InvalidKeyword(words[0]))
    ensures |words| >= 3 && words[0] in Keywords && words[1] != "=" <==>
      CheckWords(words) == Reject(MissingEquals)
    ensures CheckWords(words) == Reject(AgentNameArity) <==>
      |words| > 3 && words[0] == "agent_name" && words[1] == "="
    ensures CheckWords(words).Reject? ==> !CheckWords(words).fault.Construction?
  {
  }

  /** Building changes only declarations; their entries come from the
      analyser. */
  lemma BuiltAction(v: Verdict)
    requires (v.DeclareVariable? || v.DeclarePort?) ==> SingleLine(v.definition)
    ensures Build(v) == Skip <==> v == Ignore
    ensures Build(v).SetAgentName? <==> v.AgentName?
    ensures Build(v).SetClock? <==> v.ClockName?
    ensures (v.AgentName? || v.ClockName?) ==> Build(v).name == v.name
    ensures v.Reject? ==> Build(v) == Fault(v.fault)
    ensures Build(v).AddTransVar? ==>
      v.DeclareVariable? && TransactionVariableOf(v.definition) == Success(Build(v).variable)
    ensures Build(v).AddPort? ==>
      v.DeclarePort? && PortOf(v.definition) == Some(Build(v).port)
  {
  }

  /** Names taken from a line are words. */
  lemma ActionNames(line: string)
    ensures Classify(line).SetAgentName? ==> IsToken(Classify(line).name)
    ensures Classify(line).SetClock? ==> IsToken(Classify(line).name)
  {
    TokensAreTokens(Strip(line));
    CheckedNames(Words(line));
    BuiltAction(CheckLine(line));
  }

  /** A declared variable or port carries the definition of its line, made
      of the words after the `=`; a port starts as no clock. */
  lemma DeclaredDefinition(line: string)
    ensures Classify(line).AddTransVar? ==>
      Tokens(Classify(line).variable.definition) == Words(line)[2..]
    ensures Classify(line).AddPort? ==>
      Tokens(Classify(line).port.definition) == Words(line)[2..] &&
      IsToken(Classify(line).port.signalName) && !Classify(line).port.isClock &&
      NamedByDeclaration(Classify(line).port)
  {
    TokensAreTokens(Strip(line));
    DefinitionWords(Words(line));
    BuiltAction(CheckLine(line));
  }

  // ---------------------------------------------------------------------
  // the pass over the lines

  /** Once a line has failed, later lines change nothing. */
  lemma {:induction false} FailureSticks(rs: seq<Reading>, more: seq<Reading>)
    requires Run(rs).Failure?
    ensures Run(rs + more) == Run(rs)
    decreases |more|
  {
    if more == [] {
      assert rs + more == rs;
    } else {
      var front := more[..|more| - 1];
      assert rs + more == (rs + front) + [more[|more| - 1]];
      FailureSticks(rs, front);
      RunLast(rs + front, more[|more| - 1]);
    }
  }

  /** The pass succeeds exactly when no line is a fault. */
  lemma {:induction false} RunSucceeds(rs: seq<Reading>)
    ensures Run(rs).Success? <==> forall i :: 0 <= i < |rs| ==> !rs[i].action.Fault?
    decreases |rs|
  {
    if rs != [] {
      var front := rs[..|rs| - 1];
      assert rs == front + [rs[|rs| - 1]];
      RunLast(front, rs[|rs| - 1]);
      RunSucceeds(front);
      assert forall i :: 0 <= i < |front| ==> front[i] == rs[i];
    }
  }

  lemma RunFirstFault(rs: seq<Reading>, i: nat)
    requires i < |rs| && rs[i].action.Fault?
    requires forall j :: 0 <= j < i ==> !rs[j].action.Fault?
    ensures Run(rs) == Failure(LineError(rs[i].action.fault, i + 1, rs[i].text))
  {
    var front := rs[..i];
    assert forall j :: 0 <= j < i ==> front[j] == rs[j];
    RunSucceeds(front);
    RunLast(front, rs[i]);
    assert rs[..i + 1] == front + [rs[i]];
    FailureSticks(rs[..i + 1], rs[i + 1..]);
    assert rs == rs[..i + 1] + rs[i + 1..];
  }

  lemma {:induction false} RunLastAgentName(rs: seq<Reading>, i: nat)
    requires Run(rs).Success?
    requires i < |rs| && rs[i].action.SetAgentName?
    requires forall j :: i < j < |rs| ==> !rs[j].action.SetAgentName?
    ensures Run(rs).value.agentName == rs[i].action.name
    decreases |rs|
  {
    var front := rs[..|rs| - 1];
    assert rs == front + [rs[|rs| - 1]];
    RunLast(front, rs[|rs| - 1]);
    if i < |rs| - 1 {
      assert front[i] == rs[i];
      assert forall j :: i < j < |front| ==> front[j] == rs[j];
      RunLastAgentName(front, i);
    }
  }

  lemma {:induction false} RunAgentNameFound(rs: seq<Reading>)
    requires Run(rs).Success?
    requires forall i :: 0 <= i < |rs| && rs[i].action.SetAgentName? ==> rs[i].action.name != ""
    ensures Run(rs).value.agentName == "" <==> forall i :: 0 <= i < |rs| ==> !rs[i].action.SetAgentName?
    decreases |rs|
  {
    if rs != [] {
      var front := rs[..|rs| - 1];
      assert rs == front + [rs[|rs| - 1]];
      RunLast(front, rs[|rs| - 1]);
      assert forall i :: 0 <= i < |front| ==> front[i] == rs[i];
      RunAgentNameFound(front);
    }
  }

  lemma {:induction false} RunLastClock(rs: seq<Reading>, i: nat)
    requires Run(rs).Success?
    requires i < |rs| && rs[i].action.SetClock?
    requires forall j :: i < j < |rs| ==> !rs[j].action.SetClock?
    ensures Run(rs).value.clock == rs[i].action.name
    decreases |rs|
  {
    var front := rs[..|rs| - 1];
    assert rs == front + [rs[|rs| - 1]];
    RunLast(front, rs[|rs| - 1]);
    if i < |rs| - 1 {
      assert front[i] == rs[i];
      assert forall j :: i < j < |front| ==> front[j] == rs[j];
      RunLastClock(front, i);
    }
  }

  lemma {:induction false} RunNoClock(rs: seq<Reading>)
    requires Run(rs).Success?
    requires forall i :: 0 <= i < |rs| ==> !rs[i].action.SetClock?
    ensures Run(rs).value.clock == ""
    decreases |rs|
  {
    if rs != [] {
      var front := rs[..|rs| - 1];
      assert rs == front + [rs[|rs| - 1]];
      RunLast(front, rs[|rs| - 1]);
      assert forall i :: 0 <= i < |front| ==> front[i] == rs[i];
      RunNoClock(front);
    }
  }

  /** The variables the lines declare, in file order. */
  function DeclaredVariables(rs: seq<Reading>): seq<TransactionVariable> {
    if rs == [] then []
    else
      (if rs[0].action.AddTransVar? then [rs[0].action.variable] else []) +
      DeclaredVariables(rs[1..])
  }

  /** The ports the lines declare, in file order, before the clock is
      marked. */
  function DeclaredPorts(rs: seq<Reading>): seq<Port> {
    if rs == [] then []
    else
      (if rs[0].action.AddPort? then [rs[0].action.port] else []) +
      DeclaredPorts(rs[1..])
  }

  lemma {:induction false} DeclaredVariablesAppend(rs: seq<Reading>, r: Reading)
    ensures DeclaredVariables(rs + [r]) ==
      DeclaredVariables(rs) + (if r.action.AddTransVar? then [r.action.variable] else [])
    decreases |rs|
  {
    if rs == [] {
      assert [] + [r] == [r];
      assert [r][1..] == [];
    } else {
      var head := if rs[0].action.AddTransVar? then [rs[0].action.variable] else [];
      var last := if r.action.AddTransVar? then [r.action.variable] else [];
      assert (rs + [r])[0] == rs[0];
      assert (rs + [r])[1..] == rs[1..] + [r];
      DeclaredVariablesAppend(rs[1..], r);
      assert DeclaredVariables(rs + [r]) == head + (DeclaredVariables(rs[1..]) + last);
      ConcatAssoc(head, DeclaredVariables(rs[1..]), last);
    }
  }

  lemma {:induction false} DeclaredPortsAppend(rs: seq<Reading>, r: Reading)
    ensures DeclaredPorts(rs + [r]) ==
      DeclaredPorts(rs) + (if r.action.AddPort? then [r.action.port] else [])
    decreases |rs|
  {
    if rs == [] {
      assert [] + [r] == [r];
      assert [r][1..] == [];
    } else {
      var head := if rs[0].action.AddPort? then [rs[0].action.port] else [];
      var last := if r.action.AddPort? then [r.action.port] else [];
      assert (rs + [r])[0] == rs[0];
      assert (rs + [r])[1..] == rs[1..] + [r];
      DeclaredPortsAppend(rs[1..], r);
      assert DeclaredPorts(rs + [r]) == head + (DeclaredPorts(rs[1..]) + last);
      ConcatAssoc(head, DeclaredPorts(rs[1..]), last);
    }
  }

  lemma {:induction false} RunCollects(rs: seq<Reading>)
    requires Run(rs).Success?
    ensures Run(rs).value.transVars == DeclaredVariables(rs)
    ensures Run(rs).value.ports == DeclaredPorts(rs)
    decreases |rs|
  {
    if rs != [] {
      var front := rs[..|rs| - 1];
      var last := rs[|rs| - 1];
      assert rs == front + [last];
      RunLast(front, last);
      RunCollects(front);
      DeclaredVariablesAppend(front, last);
      DeclaredPortsAppend(front, last);
    }
  }

  /** Declared ports are named and not yet clocks when each port line's
      is. */
  lemma {:induction false} DeclaredPortsFresh(rs: seq<Reading>)
    requires forall i :: 0 <= i < |rs| && rs[i].action.AddPort? ==>
      rs[i].action.port.signalName != "" && !rs[i].action.port.isClock
    ensures forall k :: 0 <= k < |DeclaredPorts(rs)| ==>
      DeclaredPorts(rs)[k].signalName != "" && !DeclaredPorts(rs)[k].isClock
    decreases |rs|
  {
    if rs != [] {
      assert forall i :: 0 <= i < |rs[1..]| ==> rs[1..][i] == rs[i + 1];
      DeclaredPortsFresh(rs[1..]);
    }
  }

  /** Port lines declare named ports that are not clocks. */
  lemma PortLines(lines: seq<string>)
    ensures forall i :: 0 <= i < |lines| && Readings(lines)[i].action.AddPort? ==>
      Readings(lines)[i].action.port.signalName != "" && !Readings(lines)[i].action.port.isClock
  {
    forall i | 0 <= i < |lines| && Readings(lines)[i].action.AddPort?
      ensures Readings(lines)[i].action.port.signalName != "" && !Readings(lines)[i].action.port.isClock
    {
      ReadingAt(lines, i);
      DeclaredDefinition(lines[i]);
    }
  }

  /** Agent name lines give non-empty names. */
  lemma NamedAgents(lines: seq<string>)
    ensures forall i :: 0 <= i < |lines| && Readings(lines)[i].action.SetAgentName? ==>
      Readings(lines)[i].action.name != ""
  {
    forall i | 0 <= i < |lines| && Readings(lines)[i].action.SetAgentName?
      ensures Readings(lines)[i].action.name != ""
    {
      ReadingAt(lines, i);
      ActionNames(lines[i]);
    }
  }

  /** The pass itself only ever fails at a line. */
  lemma {:induction false} RunFailsAtLines(rs: seq<Reading>)
    ensures Run(rs).Failure? ==> Run(rs).error.LineError? && 1 <= Run(rs).error.line <= |rs|
    decreases |rs|
  {
    if rs != [] {
      RunFailsAtLines(rs[..|rs| - 1]);
    }
  }

  lemma RunMissingAgentName(rs: seq<Reading>)
    requires forall i :: 0 <= i < |rs| && rs[i].action.SetAgentName? ==> rs[i].action.name != ""
    ensures (Run(rs).Success? && Run(rs).value.agentName == "") <==>
      (forall i :: 0 <= i < |rs| ==> !rs[i].action.Fault?) &&
      (forall i :: 0 <= i < |rs| ==> !rs[i].action.SetAgentName?)
  {
    RunSucceeds(rs);
    if Run(rs).Success? {
      RunAgentNameFound(rs);
    }
  }

}
