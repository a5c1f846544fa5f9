/** The two kinds of entry a description file declares, classes
    TransactionVariable and InterfacePort of uvm_code_gen/agent.py, each
    built from the text of its SystemVerilog declaration. */
module Fields {
  import opened Results
  import opened Text
  import opened Declaration

  /** Why building an entry from a declaration stops: the analyser finds no
      name (the source's IndexError), or the name is not a literal pattern
      for the array test. */
  datatype ConstructionFault = NoSignalName | PatternName

  /** A transaction variable: its declaration, the name found in it and
      whether it has an unpacked dimension. The source never changes these
      after construction. */
  datatype TransactionVariable =
    TransactionVariable(definition: string, signalName: string, isUnpackedArray: bool)

  /** What TransactionVariable(definition) holds, or why it cannot be
      built. */
  function TransactionVariableOf(definition: string): (r: Result<TransactionVariable, ConstructionFault>)
    requires SingleLine(definition)
    ensures r.Success? <==> SignalName(definition).Some? && IsPlainName(SignalName(definition).value)
    ensures r == Failure(NoSignalName) <==> Blank(NameResidue(definition))
    ensures r.Success? ==> r.value.definition == definition && IsToken(r.value.signalName)
    ensures r.Success? ==> r.value.signalName == SignalName(definition).value
    ensures r.Success? ==> r.value.isUnpackedArray == IsUnpackedArray(definition).value
    ensures r.Success? && r.value.isUnpackedArray ==> '[' in definition && ']' in definition
  {
    match SignalName(definition)
    case None => Failure(NoSignalName)
    case Some(name) =>
      if IsPlainName(name) then
        Success(TransactionVariable(definition, name, IsUnpackedArray(definition).value))
      else
        Failure(PatternName)
  }

  /** TransactionVariable.__init__: one SvCode asked for the name and then
      for the array flag. */
  method NewTransactionVariable(definition: string) returns (r: Result<TransactionVariable, ConstructionFault>)
    requires SingleLine(definition)
    ensures r == TransactionVariableOf(definition)
  {
    var code := new SvCode(definition);
    var name := code.GetSignalName();
    if name.None? {
      return Failure(NoSignalName);
    }
    if !IsPlainName(name.value) {
      return Failure(PatternName);
    }
    var isArray := code.GetIsUnpackedArray();
    r := Success(TransactionVariable(definition, name.value, isArray.value));
  }

  /** An interface port as a value: what the generator reads from it. */
  datatype Port = Port(definition: string, signalName: string, isClock: bool)

  /** The port's name is the one the analyser finds in its one-line
      declaration, as InterfacePort.__init__ sets it. */
  predicate NamedByDeclaration(p: Port) {
    SingleLine(p.definition) && SignalName(p.definition) == Some(p.signalName)
  }

  /** An interface port. Its clock flag is the one field the parser changes
      after construction. */
  class InterfacePort {
    const definition: string
    const signalName: string
    var isClock: bool

    /** InterfacePort(definition, is_clock=False): the name is the one the
        analyser finds in the declaration. */
    constructor (definition: string, isClock: bool := false)
      requires SingleLine(definition) && SignalName(definition).Some?
      ensures this.definition == definition && this.isClock == isClock
      ensures signalName == SignalName(definition).value
    {
      var code := new SvCode(definition);
      var name := code.GetSignalName();
      this.definition := definition;
      this.signalName := name.value;
      this.isClock := isClock;
    }

    function View(): Port
      reads this
    {
      Port(definition, signalName, isClock)
    }
  }

  /** The values of a sequence of ports. */
  function Views(ps: seq<InterfacePort>): (r: seq<Port>)
    reads ps
    ensures |r| == |ps|
    ensures forall i :: 0 <= i < |ps| ==> r[i] == ps[i].View()
  {
    if ps == [] then [] else [ps[0].View()] + Views(ps[1..])
  }

  lemma ViewsLast(ps: seq<InterfacePort>, p: InterfacePort)
    ensures Views(ps + [p]) == Views(ps) + [p.View()]
  {
  }

  /** The port built from a declaration, before any clock is chosen. */
  function PortOf(definition: string): (r: Option<Port>)
    requires SingleLine(definition)
    ensures r.None? <==> Blank(NameResidue(definition))
    ensures r.Some? ==> r.value.definition == definition && IsToken(r.value.signalName) && !r.value.isClock
    ensures r.Some? ==> r.value.signalName == SignalName(definition).value && NamedByDeclaration(r.value)
  {
    match SignalName(definition)
    case None => None
    case Some(name) => Some(Port(definition, name, false))
  }
}
