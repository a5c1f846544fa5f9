/** Properties of the parse of a whole description file, stated in terms
    of what each line means on its own. */
module ParseFacts {
  import opened Results
  import opened Text
  import opened Fields
  import opened Declaration
  import opened Descriptor
  import opened Fragments

  /** The pass succeeds exactly when no line is a fault. */
  lemma ScanSucceeds(lines: seq<string>)
    ensures Scan(lines).Success? <==> forall i :: 0 <= i < |lines| ==> !Classify(lines[i]).Fault?
  {
    ReadingsMatch(lines);
    RunSucceeds(Readings(lines));
    LinesWithoutFaults(lines);
  }

  /** The first faulty line decides the error, with its 1-based number and
      its stripped text. */
  lemma FirstFaultDecides(lines: seq<string>, i: nat)
    requires i < |lines| && Classify(lines[i]).Fault?
    requires forall j :: 0 <= j < i ==> !Classify(lines[j]).Fault?
    ensures Parse(lines) == Failure(LineError(Classify(lines[i]).fault, i + 1, Strip(lines[i])))
  {
    ReadingsMatch(lines);
    ReadingAt(lines, i);
    RunFirstFault(Readings(lines), i);
  }

  /** The agent name is the value of the last agent_name line. */
  lemma LastAgentNameWins(lines: seq<string>, i: nat)
    requires Scan(lines).Success?
    requires i < |lines| && Classify(lines[i]).SetAgentName?
    requires forall j :: i < j < |lines| ==> !Classify(lines[j]).SetAgentName?
    ensures Parse(lines).Success? && Parse(lines).value.agentName == Classify(lines[i]).name
  {
    ReadingsMatch(lines);
    RunLastAgentName(Readings(lines), i);
    ActionNames(lines[i]);
  }

  /** The parse fails for want of an agent name exactly when no line is a
      fault and none is an agent_name line. */
  lemma MissingAgentName(lines: seq<string>)
    ensures Parse(lines) == Failure(NoAgentName) <==>
      (forall i :: 0 <= i < |lines| ==> !Classify(lines[i]).Fault?) &&
      (forall i :: 0 <= i < |lines| ==> !Classify(lines[i]).SetAgentName?)
  {
    NamedAgents(lines);
    RunMissingAgentName(Readings(lines));
    ParseWithoutName(lines);
    ReadingsMatch(lines);
    LinesWithoutFaults(lines);
    LinesWithoutAgentNames(lines);
  }

  lemma ParseWithoutName(lines: seq<string>)
    ensures Parse(lines) == Failure(NoAgentName) <==>
      Scan(lines).Success? && Scan(lines).value.agentName == ""
  {
    RunFailsAtLines(Readings(lines));
  }

  lemma LinesWithoutFaults(lines: seq<string>)
    requires forall i :: 0 <= i < |lines| ==> Readings(lines)[i].action == Classify(lines[i])
    ensures (forall i :: 0 <= i < |lines| ==> !Classify(lines[i]).Fault?) ==>
      (forall i :: 0 <= i < |lines| ==> !Readings(lines)[i].action.Fault?)
    ensures (forall i :: 0 <= i < |lines| ==> !Readings(lines)[i].action.Fault?) ==>
      (forall i :: 0 <= i < |lines| ==> !Classify(lines[i]).Fault?)
  {
  }

  lemma LinesWithoutAgentNames(lines: seq<string>)
    requires forall i :: 0 <= i < |lines| ==> Readings(lines)[i].action == Classify(lines[i])
    ensures (forall i :: 0 <= i < |lines| ==> !Classify(lines[i]).SetAgentName?) ==>
      (forall i :: 0 <= i < |lines| ==> !Readings(lines)[i].action.SetAgentName?)
    ensures (forall i :: 0 <= i < |lines| ==> !Readings(lines)[i].action.SetAgentName?) ==>
      (forall i :: 0 <= i < |lines| ==> !Classify(lines[i]).SetAgentName?)
  {
  }

  /** The clock name is the first value of the last if_clock line. */
  lemma LastClockWins(lines: seq<string>, i: nat)
    requires Scan(lines).Success?
    requires i < |lines| && Classify(lines[i]).SetClock?
    requires forall j :: i < j < |lines| ==> !Classify(lines[j]).SetClock?
    ensures Scan(lines).value.clock == Classify(lines[i]).name
  {
    ReadingsMatch(lines);
    RunLastClock(Readings(lines), i);
  }

  /** A parse that succeeds holds the agent name of an agent_name line and
      the declared variables and ports in file order; exactly the ports
      named like the clock are flagged. */
  lemma ParsedDescription(lines: seq<string>)
    requires Parse(lines).Success?
    ensures Parse(lines).value.agentName != ""
    ensures Parse(lines).value.transVars == DeclaredVariables(Readings(lines))
    ensures |Parse(lines).value.ports| == |DeclaredPorts(Readings(lines))|
    ensures forall k :: 0 <= k < |DeclaredPorts(Readings(lines))| ==>
      var p := Parse(lines).value.ports[k];
      p.definition == DeclaredPorts(Readings(lines))[k].definition &&
      p.signalName == DeclaredPorts(Readings(lines))[k].signalName &&
      (p.isClock <==> p.signalName == Scan(lines).value.clock) &&
      NamedByDeclaration(p)
  {
    RunCollects(Readings(lines));
    PortLines(lines);
    DeclaredPortsFresh(Readings(lines));
    LinesDeclareNamedPorts(lines);
  }

  /** Without an if_clock line no port is a clock: names are never empty. */
  lemma NoClockNoFlags(lines: seq<string>)
    requires Parse(lines).Success?
    requires forall i :: 0 <= i < |lines| ==> !Classify(lines[i]).SetClock?
    ensures forall k :: 0 <= k < |Parse(lines).value.ports| ==> !Parse(lines).value.ports[k].isClock
  {
    var rs := Readings(lines);
    ReadingsMatch(lines);
    RunNoClock(rs);
    RunCollects(rs);
    PortLines(lines);
    DeclaredPortsFresh(rs);
    var st := Scan(lines).value;
    assert Parse(lines).value.ports == MarkClock(st.ports, "");
    forall k | 0 <= k < |st.ports| ensures !MarkClock(st.ports, "")[k].isClock {
      assert st.ports[k].signalName != "" && !st.ports[k].isClock;
    }
  }

  /** A variable a line adds has a name and a one-line declaration, and so
      does the declaration of a port a line adds. */
  lemma ClassifiedEntries(line: string)
    ensures Classify(line).AddTransVar? ==> Named(Classify(line).variable)
    ensures Classify(line).AddPort? ==> NamedByDeclaration(Classify(line).port)
  {
    BuiltAction(CheckLine(line));
  }

  lemma {:induction false} DeclaredVariablesNamed(rs: seq<Reading>)
    requires forall i :: 0 <= i < |rs| && rs[i].action.AddTransVar? ==> Named(rs[i].action.variable)
    ensures AllNamed(DeclaredVariables(rs))
    decreases |rs|
  {
    if rs != [] {
      DeclaredVariablesNamed(rs[1..]);
    }
  }

  lemma {:induction false} DeclaredPortsNamed(rs: seq<Reading>)
    requires forall i :: 0 <= i < |rs| && rs[i].action.AddPort? ==> NamedByDeclaration(rs[i].action.port)
    ensures forall k :: 0 <= k < |DeclaredPorts(rs)| ==> NamedByDeclaration(DeclaredPorts(rs)[k])
    decreases |rs|
  {
    if rs != [] {
      DeclaredPortsNamed(rs[1..]);
    }
  }

  /** What the fragment lemmas ask of their input holds of every parsed
      description: each variable has a name and a one-line declaration, and
      each port a one-line declaration. */
  lemma ParsedIsNamed(lines: seq<string>)
    requires Parse(lines).Success?
    ensures AllNamed(Parse(lines).value.transVars)
    ensures AllPortsSingleLine(Parse(lines).value.ports)
  {
    var rs := Readings(lines);
    ReadingsMatch(lines);
    forall i | 0 <= i < |rs|
      ensures rs[i].action.AddTransVar? ==> Named(rs[i].action.variable)
    {
      ClassifiedEntries(lines[i]);
    }
    RunCollects(rs);
    DeclaredVariablesNamed(rs);
    LinesDeclareNamedPorts(lines);
  }

  /** Every port the lines declare is named by its declaration. */
  lemma LinesDeclareNamedPorts(lines: seq<string>)
    ensures forall k :: 0 <= k < |DeclaredPorts(Readings(lines))| ==>
      NamedByDeclaration(DeclaredPorts(Readings(lines))[k])
  {
    var rs := Readings(lines);
    ReadingsMatch(lines);
    forall i | 0 <= i < |rs|
      ensures rs[i].action.AddPort? ==> NamedByDeclaration(rs[i].action.port)
    {
      ClassifiedEntries(lines[i]);
    }
    DeclaredPortsNamed(rs);
  }
}
