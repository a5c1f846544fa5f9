/** Class UvmAgent of uvm_code_gen/agent.py: the parsed description held in
    fields that parse_description_file fills line by line, and the loops of
    get_coverpoints and get_tx_fmt_values that turn it into template text.
    Each method is proved to compute the function of Descriptor or
    Fragments that specifies it. */
module Agent {
  import opened Results
  import opened Text
  import opened Declaration
  import opened Fields
  import opened Descriptor
  import opened Fragments
  import opened ParseFacts

  /** A method reports a step of the pass when it returns the step's error,
      or no error and the state the step reaches. */
  predicate Reports(step: Result<ScanState, ParseError>, error: Option<ParseError>, st: ScanState) {
    match step
    case Failure(e) => error == Some(e)
    case Success(next) => error.None? && next == st
  }

  class UvmAgent {
    var agentName: string
    var ifPorts: seq<InterfacePort>
    var transVars: seq<TransactionVariable>

    /** The state __init__ sets up before it parses the description. */
    constructor ()
      ensures agentName == "" && ifPorts == [] && transVars == []
    {
      agentName := "";
      ifPorts := [];
      transVars := [];
    }

    /** parse_description_file, with the file given as its lines. Where the
        source prints a diagnostic and exits, the method returns the error;
        the fields then hold whatever the lines before it left. On success
        the fields hold the description Parse gives: the agent name, the
        variables in file order and the ports with their clock flags; every
        variable is named and every declaration is one line. */
    method ParseDescriptionFile(lines: seq<string>) returns (error: Option<ParseError>)
      requires agentName == "" && ifPorts == [] && transVars == []
      modifies this
      ensures error.Some? <==> Parse(lines).Failure?
      ensures error.Some? ==> error.value == Parse(lines).error
      ensures error.None? ==>
        agentName == Parse(lines).value.agentName &&
        transVars == Parse(lines).value.transVars &&
        Views(ifPorts) == Parse(lines).value.ports
      ensures error.None? ==> AllNamed(transVars) && AllPortsSingleLine(Views(ifPorts))
      ensures forall k :: 0 <= k < |ifPorts| ==> fresh(ifPorts[k])
    {
      var ifClock;
      error, ifClock := ParseLines(lines);
      if error.Some? {
        return;
      }
      // post processing and final checks
      FlagClockPorts(ifClock);
      if agentName == "" {
        error := Some(NoAgentName);
      } else {
        ParsedIsNamed(lines);
      }
    }

    /** The loop over the lines of parse_description_file: it stops at the
        first faulty line, whose error is the pass's; otherwise the fields
        and the clock name hold the state the whole pass reaches. */
    method ParseLines(lines: seq<string>) returns (error: Option<ParseError>, ifClock: string)
      requires agentName == "" && ifPorts == [] && transVars == []
      modifies this
      ensures Reports(Scan(lines), error, ScanState(agentName, transVars, Views(ifPorts), ifClock))
      ensures forall k :: 0 <= k < |ifPorts| ==> fresh(ifPorts[k])
    {
      ifClock := "";
      var ln := 0;
      while ln < |lines|
        invariant ln <= |lines|
        invariant forall k :: 0 <= k < |ifPorts| ==> fresh(ifPorts[k])
        invariant Scan(lines[..ln]) == Success(ScanState(agentName, transVars, Views(ifPorts), ifClock))
      {
        var lineError, clock := ParseLine(lines[ln], ln + 1, ifClock);
        forall k | 0 <= k < |ifPorts| ensures fresh(ifPorts[k]) {
        }
        if lineError.Some? {
          error := lineError;
          assert Scan(lines[..ln + 1]) == Failure(lineError.value) by { ScanStep(lines, ln); }
          ScanFailureSticks(lines, ln + 1);
          return;
        }
        assert Scan(lines[..ln + 1]) == Success(ScanState(agentName, transVars, Views(ifPorts), clock)) by {
          ScanStep(lines, ln);
        }
        ifClock := clock;
        ln := ln + 1;
      }
      assert lines[..ln] == lines;
      error := None;
    }

    /** One pass of the loop over the lines: the n-th line, read with the
        clock name chosen so far, is skipped, rejected or applied to the
        fields. The error and the new state are what one step of the pass
        gives; a port the line declares is a new object. */
    method ParseLine(text: string, n: nat, ifClock: string) returns (error: Option<ParseError>, clock: string)
      modifies this
      ensures Reports(Next(Success(ScanState(old(agentName), old(transVars), old(Views(ifPorts)), ifClock)), Read(text), n),
                      error, ScanState(agentName, transVars, Views(ifPorts), clock))
      ensures forall k :: 0 <= k < |ifPorts| ==>
        (k < |old(ifPorts)| && ifPorts[k] == old(ifPorts)[k]) || fresh(ifPorts[k])
    {
      ghost var st0 := ScanState(agentName, transVars, Views(ifPorts), ifClock);
      var lineStr := Strip(text);
      var line := Tokens(lineStr);
      assert line == Words(text);
      clock := ifClock;
      // check for comments or misformatted file
      if line == [] || line[0][0] == '#' {
        ReadIgnored(text);
        StepOf(st0, text, n, Skip);
        error := None;
      } else if |line| < 3 {
        ReadTooFew(text);
        StepOf(st0, text, n, Fault(TooFewArguments));
        error := Some(LineError(TooFewArguments, n, lineStr));
      } else if line[0] !in Keywords {
        ReadUnknownKeyword(text);
        StepOf(st0, text, n, Fault(InvalidKeyword(line[0])));
        error := Some(LineError(InvalidKeyword(line[0]), n, lineStr));
      } else if line[1] != "=" {
        ReadNoEquals(text);
        StepOf(st0, text, n, Fault(MissingEquals));
        error := Some(LineError(MissingEquals, n, lineStr));
      } else {
        ReadChecked(text);
        error, clock := ParseKeyword(line[0], line[2..], lineStr, n, ifClock);
      }
    }

    /** The second half of the loop's body: a line whose keyword and `=`
        passed the checks sets the agent name, appends a new variable or a
        new port, or names the clock, as its keyword says; an agent_name
        with other than one value, or a declaration the analyser cannot
        name, is the line's error. */
    method ParseKeyword(keyword: string, args: seq<string>, lineStr: string, n: nat, ifClock: string)
      returns (error: Option<ParseError>, clock: string)
      requires keyword in Keywords && args != [] && AllTokens(args)
      modifies this
      ensures Reports(Next(Success(ScanState(old(agentName), old(transVars), old(Views(ifPorts)), ifClock)),
                           Reading(Build(Dispatch(keyword, args)), lineStr), n),
                      error, ScanState(agentName, transVars, Views(ifPorts), clock))
      ensures forall k :: 0 <= k < |ifPorts| ==>
        (k < |old(ifPorts)| && ifPorts[k] == old(ifPorts)[k]) || fresh(ifPorts[k])
    {
      clock := ifClock;
      if keyword == "agent_name" {
        error := ParseAgentName(keyword, args, lineStr, n, ifClock);
      } else if keyword == "trans_var" {
        error := ParseTransVar(keyword, args, lineStr, n, ifClock);
      } else if keyword == "if_port" {
        error := ParseIfPort(keyword, args, lineStr, n, ifClock);
      } else {
        BuildClock(keyword, args);
        clock := args[0];
        error := None;
      }
    }

    /** An agent_name line: its single value becomes the agent name. */
    method ParseAgentName(keyword: string, args: seq<string>, lineStr: string, n: nat, ifClock: string)
      returns (error: Option<ParseError>)
      requires keyword == "agent_name" && args != [] && AllTokens(args)
      modifies this
      ensures Reports(Next(Success(ScanState(old(agentName), old(transVars), old(Views(ifPorts)), ifClock)),
                           Reading(Build(Dispatch(keyword, args)), lineStr), n),
                      error, ScanState(agentName, transVars, Views(ifPorts), ifClock))
      ensures forall k :: 0 <= k < |ifPorts| ==>
        (k < |old(ifPorts)| && ifPorts[k] == old(ifPorts)[k]) || fresh(ifPorts[k])
    {
      BuildAgentName(keyword, args);
      if |args| != 1 {
        return Some(LineError(AgentNameArity, n, lineStr));
      }
      agentName := args[0];
      error := None;
    }

    /** A trans_var line: the variable its declaration describes is
        appended, or the declaration's fault is the line's error. */
    method ParseTransVar(keyword: string, args: seq<string>, lineStr: string, n: nat, ifClock: string)
      returns (error: Option<ParseError>)
      requires keyword == "trans_var" && args != [] && AllTokens(args)
      modifies this
      ensures Reports(Next(Success(ScanState(old(agentName), old(transVars), old(Views(ifPorts)), ifClock)),
                           Reading(Build(Dispatch(keyword, args)), lineStr), n),
                      error, ScanState(agentName, transVars, Views(ifPorts), ifClock))
      ensures forall k :: 0 <= k < |ifPorts| ==>
        (k < |old(ifPorts)| && ifPorts[k] == old(ifPorts)[k]) || fresh(ifPorts[k])
    {
      BuildVariable(keyword, args);
      var v := NewTransactionVariable(Join(" ", args));
      if v.Failure? {
        return Some(LineError(Construction(v.error), n, lineStr));
      }
      transVars := transVars + [v.value];
      error := None;
    }

    /** An if_port line: a new port object for its declaration is appended;
        a declaration the analyser finds no name in is the line's error, as
        InterfacePort.__init__ raises there. */
    method ParseIfPort(keyword: string, args: seq<string>, lineStr: string, n: nat, ifClock: string)
      returns (error: Option<ParseError>)
      requires keyword == "if_port" && args != [] && AllTokens(args)
      modifies this
      ensures Reports(Next(Success(ScanState(old(agentName), old(transVars), old(Views(ifPorts)), ifClock)),
                           Reading(Build(Dispatch(keyword, args)), lineStr), n),
                      error, ScanState(agentName, transVars, Views(ifPorts), ifClock))
      ensures forall k :: 0 <= k < |ifPorts| ==>
        (k < |old(ifPorts)| && ifPorts[k] == old(ifPorts)[k]) || fresh(ifPorts[k])
    {
      BuildPort(keyword, args);
      var argsStr := Join(" ", args);
      if SignalName(argsStr).None? {
        return Some(LineError(Construction(NoSignalName), n, lineStr));
      }
      var p := AddIfPort(argsStr);
      error := None;
    }

    /** self.if_ports.append(InterfacePort(args_str)): a new port object is
        appended and the other ports are left as they were. */
    method AddIfPort(definition: string) returns (p: InterfacePort)
      requires SingleLine(definition) && SignalName(definition).Some?
      modifies this
      ensures fresh(p) && ifPorts == old(ifPorts) + [p]
      ensures p.View() == Port(definition, SignalName(definition).value, false)
      ensures Views(ifPorts) == old(Views(ifPorts)) + [p.View()]
      ensures agentName == old(agentName) && transVars == old(transVars)
    {
      ghost var declared := ifPorts;
      p := new InterfacePort(definition);
      assert Views(declared) == old(Views(ifPorts));
      ViewsLast(declared, p);
      ifPorts := ifPorts + [p];
    }

    /** The post-pass of parse_description_file: every port whose name is
        the clock's gets its flag set; the others keep theirs. */
    method FlagClockPorts(clock: string)
      modifies ifPorts
      ensures Views(ifPorts) == MarkClock(old(Views(ifPorts)), clock)
    {
      ghost var declared := Views(ifPorts);
      for k := 0 to |ifPorts|
        invariant forall j :: 0 <= j < |ifPorts| ==>
          ifPorts[j].isClock == (declared[j].isClock ||
            (ifPorts[j].signalName == clock && (j < k || ifPorts[j].isClock)))
      {
        if ifPorts[k].signalName == clock {
          ifPorts[k].isClock := true;
        }
      }
      assert forall j :: 0 <= j < |ifPorts| ==> Views(ifPorts)[j] == MarkClock(declared, clock)[j];
    }

    /** get_coverpoints: one coverpoint per variable, collected in a loop and
        joined with newlines. */
    method GetCoverpoints() returns (s: string)
      ensures s == Coverpoints(transVars)
    {
      var coverpoints: seq<string> := [];
      for i := 0 to |transVars|
        invariant coverpoints == MapEach(Coverpoint, transVars[..i])
      {
        MapEachPrefix(Coverpoint, transVars, i);
        coverpoints := coverpoints + [Coverpoint(transVars[i])];
      }
      assert transVars[..|transVars|] == transVars;
      s := Block(coverpoints);
    }

    /** get_ports: one line per port, in declaration order, holding the
        port's declaration indented by two spaces; no ports give the empty
        text. */
    function GetPorts(): (s: string)
      reads this, ifPorts
      ensures ifPorts == [] ==> s == ""
      ensures ifPorts != [] && AllPortsSingleLine(Views(ifPorts)) ==>
        |Split(s, '\n')| == |ifPorts| &&
        forall i :: 0 <= i < |ifPorts| ==> Split(s, '\n')[i] == "  " + ifPorts[i].definition
    {
      var ports := Views(ifPorts);
      if AllPortsSingleLine(ports) then
        PortDeclarationLines(ports);
        PortDeclarations(ports)
      else
        PortDeclarations(ports)
    }

    /** get_tx_fmt_values: per variable, in order, its declaration and its
        copy, compare, record, pack and unpack entries, its format and its
        arguments; the lists are joined into the template values. */
    method GetTxFmtValues() returns (d: TxFragments)
      ensures d == TxFragmentsOf(transVars)
    {
      var vars, copy, compare, record, pack, unpack := [], [], [], [], [], [];
      var formats, fmtValues := [], [];
      for i := 0 to |transVars|
        invariant vars == MapEach(VariableEntry, transVars[..i])
        invariant copy == MapEach(CopyEntry, transVars[..i])
        invariant compare == MapEach(CompareEntry, transVars[..i])
        invariant record == MapEach(RecordEntry, transVars[..i])
        invariant pack == MapEach(PackEntry, transVars[..i])
        invariant unpack == MapEach(UnpackEntryAsWritten, transVars[..i])
        invariant formats == MapEach(FormatEntry, transVars[..i])
        invariant fmtValues == ArgumentList(transVars[..i])
      {
        var v := transVars[i];
        vars := vars + [VariableEntry(v)];
        copy := copy + [CopyEntry(v)];
        compare := compare + [CompareEntry(v)];
        record := record + [RecordEntry(v)];
        var packStr := PackEntry(v);
        pack := pack + [packStr];
        unpack := unpack + [ReplaceAll(packStr, PackMacro, UnpackMacro)];
        formats := formats + [FormatEntry(v)];
        fmtValues := fmtValues + FormatValues(v);
        assert vars == MapEach(VariableEntry, transVars[..i + 1]) by { MapEachPrefix(VariableEntry, transVars, i); }
        assert copy == MapEach(CopyEntry, transVars[..i + 1]) by { MapEachPrefix(CopyEntry, transVars, i); }
        assert compare == MapEach(CompareEntry, transVars[..i + 1]) by { MapEachPrefix(CompareEntry, transVars, i); }
        assert record == MapEach(RecordEntry, transVars[..i + 1]) by { MapEachPrefix(RecordEntry, transVars, i); }
        assert pack == MapEach(PackEntry, transVars[..i + 1]) by { MapEachPrefix(PackEntry, transVars, i); }
        assert unpack == MapEach(UnpackEntryAsWritten, transVars[..i + 1]) by { MapEachPrefix(UnpackEntryAsWritten, transVars, i); }
        assert formats == MapEach(FormatEntry, transVars[..i + 1]) by { MapEachPrefix(FormatEntry, transVars, i); }
        assert fmtValues == ArgumentList(transVars[..i + 1]) by { ArgumentListPrefix(transVars, i); }
      }
      assert transVars[..|transVars|] == transVars;
      d := TxFragments(Block(vars), Block(copy), Block(compare), Block(record),
                       Block(pack), Block(unpack), Convert2String(formats, fmtValues));
    }
  }
}
