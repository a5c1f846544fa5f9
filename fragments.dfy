/** The SystemVerilog text that get_coverpoints, get_ports and
    get_tx_fmt_values of uvm_code_gen/agent.py produce from the parsed
    variables and ports: one entry per variable or port, joined with
    newlines, plus the arguments of one $sformat call. */
module Fragments {
  import opened Text
  import opened Declaration
  import opened Results
  import opened Fields

  /** What the parser guarantees of every variable it builds. */
  predicate Named(v: TransactionVariable) {
    IsToken(v.signalName) && SingleLine(v.definition)
  }

  predicate AllNamed(vs: seq<TransactionVariable>) {
    forall i :: 0 <= i < |vs| ==> Named(vs[i])
  }

  predicate AllPortsSingleLine(ps: seq<Port>) {
    forall i :: 0 <= i < |ps| ==> SingleLine(ps[i].definition)
  }

  // ---------------------------------------------------------------------
  // one entry per variable or port

  /** A SystemVerilog string literal (the text is not escaped). */
  function Quoted(s: string): string {
    "\"" + s + "\""
  }

  function Coverpoint(v: TransactionVariable): string {
    "    cp_" + v.signalName + ": coverpoint m_item." + v.signalName + ";"
  }

  function PortEntry(p: Port): string {
    "  " + p.definition
  }

  function VariableEntry(v: TransactionVariable): string {
    "  " + v.definition
  }

  function CopyEntry(v: TransactionVariable): string {
    "  " + v.signalName + " = rhs_." + v.signalName
  }

  /** The loop header that array entries of do_compare and do_record open
      with. */
  function ForeachHeader(name: string): string {
    "  foreach (" + name + "[i])"
  }

  /** The three arguments after the label of compare_field: the element
      compared, its counterpart in rhs_ and its width. */
  function Operands(e: string): string {
    e + ", rhs_." + e + ", $bits(" + e + ")"
  }

  function CompareCall(name: string, e: string): string {
    "comparer.compare_field(" + Quoted(name) + ", " + Operands(e) + ")"
  }

  /** An array is compared element by element, inside its foreach loop and
      so indented one level deeper; anything else is compared whole. */
  function CompareLine(v: TransactionVariable): string {
    var n := v.signalName;
    var indent := if v.isUnpackedArray then "    " else "  ";
    var e := if v.isUnpackedArray then n + "[i]" else n;
    indent + "result &= " + CompareCall(n, e) + ";"
  }

  /** The label an array element is recorded under is the name, a `_` and
      the index. */
  function RecordLine(v: TransactionVariable): string {
    var n := v.signalName;
    if v.isUnpackedArray then
      "    `uvm_record_field({" + Quoted(n + "_") + ",$sformatf(\"%0d\",i)}, " + n + "[i])"
    else
      "  `uvm_record_field(" + Quoted(n) + ", " + n + ")"
  }

  /** An array entry is its loop header and its body on the next line. */
  function Looped(v: TransactionVariable, body: string): string {
    if v.isUnpackedArray then ForeachHeader(v.signalName) + "\n" + body else body
  }

  function CompareEntry(v: TransactionVariable): string {
    Looped(v, CompareLine(v))
  }

  function RecordEntry(v: TransactionVariable): string {
    Looped(v, RecordLine(v))
  }

  /** The kind of pack macro: sarray for unpacked arrays, int otherwise. */
  function PackKind(v: TransactionVariable): string {
    if v.isUnpackedArray then "sarray" else "int"
  }

  /** The indentation and backtick in front of a pack or unpack macro. */
  const MacroIndent := "  `"
  const PackMacro := "uvm_pack_"
  const UnpackMacro := "uvm_unpack_"

  function PackEntry(v: TransactionVariable): string {
    MacroIndent + PackMacro + PackKind(v) + "(" + v.signalName + ")"
  }

  /** The unpack entry as agent.py writes it: the pack entry with every
      "uvm_pack_" turned into "uvm_unpack_", the field name included. */
  function UnpackEntryAsWritten(v: TransactionVariable): string {
    ReplaceAll(PackEntry(v), PackMacro, UnpackMacro)
  }

  /** The unpack entry as intended: only the macro of the pack entry is
      renamed. */
  function UnpackEntry(v: TransactionVariable): string {
    MacroIndent + UnpackMacro + PackKind(v) + "(" + v.signalName + ")"
  }

  /** No field name contains "uvm_pack_". */
  predicate NoPackMacroNames(vs: seq<TransactionVariable>) {
    forall i :: 0 <= i < |vs| ==> !Occurs(vs[i].signalName, PackMacro)
  }

  /** The piece of the $sformat format string for one variable: %p for an
      array, hexadecimal and decimal for anything else. */
  function FormatEntry(v: TransactionVariable): string {
    Quoted(v.signalName + (if v.isUnpackedArray then ArrayFormat else ScalarFormat))
  }

  /** The format specifiers convert2string uses. */
  const ArraySpecifier := "%p"
  const HexSpecifier := "%0h"
  const DecimalSpecifier := "%0d"
  const StringSpecifier := "%s"

  /** What follows the name in the format of an array and of anything else. */
  const ArrayFormat := " = " + ArraySpecifier + "\\n"
  const ScalarFormat := " = 'h" + HexSpecifier + "  'd" + DecimalSpecifier + "\\n"

  /** The $sformat arguments for one variable: one per format specifier. */
  function FormatValues(v: TransactionVariable): seq<string> {
    if v.isUnpackedArray then [v.signalName] else [v.signalName, v.signalName]
  }

  // ---------------------------------------------------------------------
  // the texts handed to the templates

  /** The lines of a fragment list, joined with newlines. */
  function Block(entries: seq<string>): string {
    Join("\n", entries)
  }

  /** get_coverpoints */
  function Coverpoints(vs: seq<TransactionVariable>): string {
    Block(MapEach(Coverpoint, vs))
  }

  /** get_ports */
  function PortDeclarations(ps: seq<Port>): string {
    Block(MapEach(PortEntry, ps))
  }

  /** All $sformat arguments after get_full_name(), in variable order. */
  function ArgumentList(vs: seq<TransactionVariable>): seq<string> {
    Flatten(MapEach(FormatValues, vs))
  }

  /** The arguments of one more variable of a prefix follow those before. */
  lemma ArgumentListPrefix(vs: seq<TransactionVariable>, i: nat)
    requires i < |vs|
    ensures ArgumentList(vs[..i + 1]) == ArgumentList(vs[..i]) + FormatValues(vs[i])
  {
    MapEachPrefix(FormatValues, vs, i);
    FlattenLast(MapEach(FormatValues, vs[..i]), FormatValues(vs[i]));
  }

  const SformatOpen := "  $sformat(s, {\"" + StringSpecifier + "\\n\",\n    "
  const SformatMiddle := "},\n    get_full_name(), "

  /** The whole $sformat statement for convert2string. */
  function Convert2String(formats: seq<string>, arguments: seq<string>): string {
    SformatOpen + Join(",\n    ", formats) + SformatMiddle + Join(", ", arguments) + ");"
  }

  /** The values get_tx_fmt_values returns, one per template key. */
  datatype TxFragments = TxFragments(
    transVars: string, doCopy: string, doCompare: string, doRecord: string,
    doPack: string, doUnpack: string, convert2string: string)

  /** get_tx_fmt_values as agent.py computes it, unpack entries included;
      they are the intended ones for every name without "uvm_pack_". */
  function TxFragmentsOf(vs: seq<TransactionVariable>): (r: TxFragments)
    ensures NoPackMacroNames(vs) ==> r.doUnpack == Block(MapEach(UnpackEntry, vs))
  {
    UnpackEntriesAgree(vs);
    TxFragments(
      Block(MapEach(VariableEntry, vs)),
      Block(MapEach(CopyEntry, vs)),
      Block(MapEach(CompareEntry, vs)),
      Block(MapEach(RecordEntry, vs)),
      Block(MapEach(PackEntry, vs)),
      Block(MapEach(UnpackEntryAsWritten, vs)),
      Convert2String(MapEach(FormatEntry, vs), ArgumentList(vs)))
  }

  // ---------------------------------------------------------------------
  // reading a field name back out of an entry

  /** The argument of a one-argument macro call: what lies between the
      first `(` and a closing `)` at the end. */
  function MacroArgument(entry: string): string {
    var open := IndexOf(entry, '(');
    if open == |entry| then ""
    else
      var rest := entry[open + 1..];
      if rest != [] && rest[|rest| - 1] == ')' then rest[..|rest| - 1] else rest
  }

  /** The contents of the first string literal of a line. */
  function QuotedLabel(line: string): string {
    var open := IndexOf(line, '"');
    if open == |line| then ""
    else
      var rest := line[open + 1..];
      rest[..IndexOf(rest, '"')]
  }

  lemma IndexOfAbsent(s: string, c: char)
    requires c !in s
    ensures IndexOf(s, c) == |s|
  {
  }

  lemma MacroArgumentOf(prefix: string, arg: string)
    requires '(' !in prefix
    ensures MacroArgument(prefix + "(" + arg + ")") == arg
  {
    var s := prefix + "(" + arg + ")";
    assert s == prefix + ("(" + arg + ")");
    IndexOfAbsent(prefix, '(');
    IndexOfAppend(prefix, '(', "(" + arg + ")");
    assert s[|prefix| + 1..] == arg + ")";
  }

  lemma QuotedLabelOf(prefix: string, inner: string, rest: string)
    requires '"' !in prefix && '"' !in inner
    ensures QuotedLabel(prefix + Quoted(inner) + rest) == inner
  {
    var s := prefix + Quoted(inner) + rest;
    var after := inner + ("\"" + rest);
    assert s == prefix + ("\"" + after);
    assert IndexOf(s, '"') == |prefix| by {
      IndexOfAbsent(prefix, '"');
      IndexOfAppend(prefix, '"', "\"" + after);
    }
    assert s[|prefix| + 1..] == after;
    QuotedLabelFrom(s, |prefix|, after);
    assert IndexOf(after, '"') == |inner| by {
      IndexOfAbsent(inner, '"');
      IndexOfAppend(inner, '"', "\"" + rest);
    }
    assert after[..|inner|] == inner;
  }

  /** A quote-free prefix does not change the first literal. */
  lemma QuotedLabelSkip(x: string, y: string)
    requires '"' !in x
    ensures QuotedLabel(x + y) == QuotedLabel(y)
  {
    var k := IndexOf(y, '"');
    assert IndexOf(x + y, '"') == |x| + k by {
      IndexOfAbsent(x, '"');
      IndexOfAppend(x, '"', y);
    }
    if k < |y| {
      var rest := y[k + 1..];
      QuotedLabelFrom(y, k, rest);
      assert (x + y)[|x| + k + 1..] == rest;
      QuotedLabelFrom(x + y, |x| + k, rest);
    } else {
      QuotedLabelNone(y);
      QuotedLabelNone(x + y);
    }
  }

  /** The label is what follows the first quote, up to the next one. */
  lemma QuotedLabelFrom(s: string, open: nat, rest: string)
    requires open == IndexOf(s, '"') && open < |s| && rest == s[open + 1..]
    ensures QuotedLabel(s) == rest[..IndexOf(rest, '"')]
  {
  }

  lemma QuotedLabelNone(s: string)
    requires IndexOf(s, '"') == |s|
    ensures QuotedLabel(s) == ""
  {
  }

  lemma CallNamesTheField(n: string, e: string, t: string)
    requires '"' !in n
    ensures QuotedLabel(CompareCall(n, e) + t) == n
  {
    var p, r := "comparer.compare_field(", ", " + Operands(e) + ")";
    assert CompareCall(n, e) + t == p + Quoted(n) + (r + t);
    QuotedLabelOf(p, n, r + t);
  }

  lemma CompareNamesTheField(v: TransactionVariable)
    requires '"' !in v.signalName
    ensures QuotedLabel(CompareLine(v)) == v.signalName
  {
    var n := v.signalName;
    var indent := if v.isUnpackedArray then "    " else "  ";
    var e := if v.isUnpackedArray then n + "[i]" else n;
    var p := indent + "result &= ";
    assert CompareLine(v) == p + (CompareCall(n, e) + ";");
    QuotedLabelSkip(p, CompareCall(n, e) + ";");
    CallNamesTheField(n, e, ";");
  }

  lemma RecordNamesTheField(v: TransactionVariable)
    requires '"' !in v.signalName
    ensures QuotedLabel(RecordLine(v)) == if v.isUnpackedArray then v.signalName + "_" else v.signalName
  {
    var n := v.signalName;
    if v.isUnpackedArray {
      var p, r := "    `uvm_record_field({", ",$sformatf(\"%0d\",i)}, " + n + "[i])";
      assert RecordLine(v) == p + Quoted(n + "_") + r;
      assert '"' !in n + "_";
      QuotedLabelOf(p, n + "_", r);
    } else {
      var p, r := "  `uvm_record_field(", ", " + n + ")";
      assert RecordLine(v) == p + Quoted(n) + r;
      QuotedLabelOf(p, n, r);
    }
  }

  /** The compare and record entries name the field in their string
      literal (an array element is recorded under the name and its index),
      and the pack and unpack macros take the field itself as argument:
      every fragment of a variable refers to the same field. */
  lemma EntriesNameTheField(v: TransactionVariable)
    requires '"' !in v.signalName
    ensures QuotedLabel(CompareLine(v)) == v.signalName
    ensures QuotedLabel(RecordLine(v)) == if v.isUnpackedArray then v.signalName + "_" else v.signalName
    ensures MacroArgument(PackEntry(v)) == v.signalName
    ensures MacroArgument(UnpackEntry(v)) == v.signalName
  {
    CompareNamesTheField(v);
    RecordNamesTheField(v);
    MacroNamesTheField(MacroIndent + PackMacro, v);
    MacroNamesTheField(MacroIndent + UnpackMacro, v);
  }

  /** A pack or unpack macro call takes the field as its argument. */
  lemma MacroNamesTheField(macro: string, v: TransactionVariable)
    requires '(' !in macro
    ensures MacroArgument(macro + PackKind(v) + "(" + v.signalName + ")") == v.signalName
  {
    assert '(' !in PackKind(v);
    MacroArgumentOf(macro + PackKind(v), v.signalName);
  }

  /** Pack and unpack entries differ only in the macro's operation: the
      unpack entry is the pack entry with its `uvm_pack_ prefix renamed. */
  lemma PackUnpackDifferInOperation(v: TransactionVariable)
    ensures PackEntry(v)[..|MacroIndent + PackMacro|] == MacroIndent + PackMacro
    ensures UnpackEntry(v) == MacroIndent + UnpackMacro + PackEntry(v)[|MacroIndent + PackMacro|..]
  {
    var t := PackKind(v) + "(" + v.signalName + ")";
    assert PackEntry(v) == MacroIndent + PackMacro + t;
    assert UnpackEntry(v) == MacroIndent + UnpackMacro + t;
  }

  // ---------------------------------------------------------------------
  // the unpack entry as written and as intended

  /** A pattern that does not end in c and does not occur in s does not
      occur in s followed by c. */
  lemma OccursExtend(s: string, c: char, pat: string)
    requires pat != [] && !Occurs(s, pat) && pat[|pat| - 1] != c
    ensures !Occurs(s + [c], pat)
  {
    var t := s + [c];
    forall k | 0 <= k <= |t| - |pat| ensures !OccursAt(t, pat, k) {
      if k + |pat| <= |s| {
        assert t[k..k + |pat|] == s[k..k + |pat|];
        assert !OccursAt(s, pat, k);
      } else {
        assert t[k..k + |pat|][|pat| - 1] == c;
      }
    }
  }

  /** Replacing a pattern that starts right after a stretch without its
      first character, and is followed by another such stretch, renames it
      and goes on after the second stretch. */
  lemma ReplaceOnce(lead: string, pat: string, rep: string, mid: string, tail: string)
    requires pat != [] && pat[0] !in lead && pat[0] !in mid
    ensures ReplaceAll(lead + pat + mid + tail, pat, rep) == lead + rep + mid + ReplaceAll(tail, pat, rep)
  {
    assert lead + pat + mid + tail == lead + (pat + (mid + tail));
    ReplaceAllSkip(lead, pat + (mid + tail), pat, rep);
    ReplaceAllAt(mid + tail, pat, rep);
    ReplaceAllSkip(mid, tail, pat, rep);
  }

  /** The unpack entry as written splits into the renamed macro and the
      field name passed through the replacement. */
  lemma UnpackAsWrittenSteps(v: TransactionVariable)
    ensures UnpackEntryAsWritten(v) ==
      MacroIndent + UnpackMacro + PackKind(v) + "(" + ReplaceAll(v.signalName + ")", PackMacro, UnpackMacro)
  {
    var mid := PackKind(v) + "(";
    assert PackMacro[0] !in MacroIndent && PackMacro[0] !in mid;
    assert PackEntry(v) == MacroIndent + PackMacro + mid + (v.signalName + ")");
    ReplaceOnce(MacroIndent, PackMacro, UnpackMacro, mid, v.signalName + ")");
    ghost var r := ReplaceAll(v.signalName + ")", PackMacro, UnpackMacro);
    assert MacroIndent + UnpackMacro + mid + r == MacroIndent + UnpackMacro + PackKind(v) + "(" + r;
  }

  /** When the field name does not contain "uvm_pack_", the replacement in
      agent.py gives the intended unpack entry. */
  lemma UnpackAsWrittenAgrees(v: TransactionVariable)
    requires !Occurs(v.signalName, PackMacro)
    ensures UnpackEntryAsWritten(v) == UnpackEntry(v)
  {
    UnpackAsWrittenSteps(v);
    OccursExtend(v.signalName, ')', PackMacro);
    ReplaceAllAbsent(v.signalName + ")", PackMacro, UnpackMacro);
  }

  /** UnpackAsWrittenAgrees over a whole list of variables. */
  lemma UnpackEntriesAgree(vs: seq<TransactionVariable>)
    ensures NoPackMacroNames(vs) ==> MapEach(UnpackEntryAsWritten, vs) == MapEach(UnpackEntry, vs)
  {
    if NoPackMacroNames(vs) {
      forall i | 0 <= i < |vs|
        ensures MapEach(UnpackEntryAsWritten, vs)[i] == MapEach(UnpackEntry, vs)[i]
      {
        MapEachAt(UnpackEntryAsWritten, vs, i);
        MapEachAt(UnpackEntry, vs, i);
        UnpackAsWrittenAgrees(vs[i]);
      }
    }
  }

  /** The declaration `logic uvm_pack_x` is a scalar named uvm_pack_x. */
  lemma PackNamedVariable(d: string)
    requires d == "logic uvm_pack_x"
    ensures TransactionVariableOf(d) == Success(TransactionVariable(d, "uvm_pack_x", false))
  {
    var prefix, name := "logic", "uvm_pack_x";
    assert d == prefix + " " + name + [];
    ScalarDeclaration(prefix, name, []);
  }

  /** A scalar field named "uvm_pack_" followed by "x" is unpacked, as
      written, into a field named "uvm_unpack_x". */
  lemma UnpackAsWrittenOfPackNamed(v: TransactionVariable)
    requires v.signalName == PackMacro + "x" && !v.isUnpackedArray
    ensures UnpackEntryAsWritten(v) == MacroIndent + UnpackMacro + "int" + "(" + (UnpackMacro + "x") + ")"
  {
    UnpackAsWrittenSteps(v);
    assert v.signalName + ")" == PackMacro + "x)";
    ReplaceAllAt("x)", PackMacro, UnpackMacro);
  }

  /** The argument of that unpack entry is the renamed name. */
  lemma UnpackAsWrittenArgument(v: TransactionVariable)
    requires v.signalName == PackMacro + "x" && !v.isUnpackedArray
    ensures MacroArgument(UnpackEntryAsWritten(v)) == UnpackMacro + "x"
  {
    UnpackAsWrittenOfPackNamed(v);
    assert '(' !in MacroIndent + UnpackMacro + "int";
    MacroArgumentOf(MacroIndent + UnpackMacro + "int", UnpackMacro + "x");
  }

  lemma RenamedNameDiffers()
    ensures UnpackMacro + "x" == "uvm_unpack_x" != "uvm_pack_x"
  {
    assert "uvm_unpack_x"[4] != "uvm_pack_x"[4];
  }

  /** For the variable of `logic uvm_pack_x` (see PackNamedVariable), the
      unpack entry as agent.py writes it unpacks a field `uvm_unpack_x` that
      does not exist, while the intended entry unpacks uvm_pack_x. */
  lemma UnpackAsWrittenRenamesField(v: TransactionVariable)
    requires v == TransactionVariable("logic uvm_pack_x", "uvm_pack_x", false)
    ensures MacroArgument(UnpackEntryAsWritten(v)) == "uvm_unpack_x"
    ensures MacroArgument(UnpackEntryAsWritten(v)) != v.signalName
    ensures MacroArgument(UnpackEntry(v)) == v.signalName
  {
    assert v.signalName == PackMacro + "x";
    UnpackAsWrittenArgument(v);
    RenamedNameDiffers();
    MacroNamesTheField(MacroIndent + UnpackMacro, v);
  }

  // ---------------------------------------------------------------------
  // line structure

  lemma SplitPlain(s: string)
    requires SingleLine(s)
    ensures Split(s, '\n') == [s]
  {
    IndexOfAbsent(s, '\n');
    SplitWhole(s, '\n');
  }

  lemma CompareLineSingle(v: TransactionVariable)
    requires SingleLine(v.signalName)
    ensures SingleLine(CompareLine(v))
  {
    var n := v.signalName;
    var e := if v.isUnpackedArray then n + "[i]" else n;
    assert SingleLine(e);
    assert SingleLine(Operands(e));
    assert SingleLine(Quoted(n));
    assert SingleLine(CompareCall(n, e));
  }

  lemma RecordLineSingle(v: TransactionVariable)
    requires SingleLine(v.signalName)
    ensures SingleLine(RecordLine(v))
  {
    var n := v.signalName;
    if v.isUnpackedArray {
      var p, r := "    `uvm_record_field({", ",$sformatf(\"%0d\",i)}, " + n + "[i])";
      assert SingleLine(Quoted(n + "_"));
      assert SingleLine(r);
      assert RecordLine(v) == p + Quoted(n + "_") + r;
    } else {
      assert SingleLine(Quoted(n));
    }
  }

  /** Every entry of a variable, and every line of its looped entries, is a
      single line. */
  lemma EntriesSingleLine(v: TransactionVariable)
    requires Named(v)
    ensures SingleLine(Coverpoint(v)) && SingleLine(VariableEntry(v)) && SingleLine(CopyEntry(v))
    ensures SingleLine(PackEntry(v)) && SingleLine(UnpackEntry(v)) && SingleLine(UnpackEntryAsWritten(v))
    ensures SingleLine(CompareLine(v)) && SingleLine(RecordLine(v)) && SingleLine(ForeachHeader(v.signalName))
  {
    assert IsSpace('\n');
    CompareLineSingle(v);
    RecordLineSingle(v);
    assert SingleLine(UnpackMacro);
    ReplaceAllExcludes('\n', PackEntry(v), PackMacro, UnpackMacro);
  }

  lemma PortEntrySingleLine(p: Port)
    requires SingleLine(p.definition)
    ensures SingleLine(PortEntry(p))
  {
  }

  /** The lines of a looped entry: the loop header for an array, then the
      body. */
  function EntryLines(v: TransactionVariable, body: string): seq<string> {
    if v.isUnpackedArray then [ForeachHeader(v.signalName), body] else [body]
  }

  function CompareLines(v: TransactionVariable): seq<string> {
    EntryLines(v, CompareLine(v))
  }

  function RecordLines(v: TransactionVariable): seq<string> {
    EntryLines(v, RecordLine(v))
  }

  lemma LoopedSplit(v: TransactionVariable, body: string)
    requires SingleLine(ForeachHeader(v.signalName)) && SingleLine(body)
    ensures Split(Looped(v, body), '\n') == EntryLines(v, body)
  {
    SplitPlain(body);
    if v.isUnpackedArray {
      SplitAppend(ForeachHeader(v.signalName), '\n', body);
      SplitPlain(ForeachHeader(v.signalName));
    }
  }

  /** Splitting each mapped entry is mapping the split. */
  lemma {:induction false} SplitEachMapped<T>(f: T -> string, g: T -> seq<string>, xs: seq<T>)
    requires forall i :: 0 <= i < |xs| ==> Split(f(xs[i]), '\n') == g(xs[i])
    ensures SplitEach(MapEach(f, xs), '\n') == Flatten(MapEach(g, xs))
    decreases |xs|
  {
    if xs != [] {
      var front, last := xs[..|xs| - 1], xs[|xs| - 1];
      assert forall i :: 0 <= i < |front| ==> front[i] == xs[i];
      SplitEachMapped(f, g, front);
      SplitEachLast(MapEach(f, front), f(last), '\n');
      FlattenLast(MapEach(g, front), g(last));
    }
  }

  /** The lines of a block are the lines of its entries, entry by entry. */
  lemma BlockSplits<T>(f: T -> string, g: T -> seq<string>, xs: seq<T>)
    requires xs != []
    requires forall i :: 0 <= i < |xs| ==> Split(f(xs[i]), '\n') == g(xs[i])
    ensures Split(Block(MapEach(f, xs)), '\n') == Flatten(MapEach(g, xs))
  {
    SplitJoin(MapEach(f, xs), '\n');
    SplitEachMapped(f, g, xs);
  }

  /** Joining single-line entries with newlines keeps one line per entry,
      in order; no entries give the empty text. */
  lemma {:induction false} BlockLines<T>(f: T -> string, xs: seq<T>)
    requires forall i :: 0 <= i < |xs| ==> SingleLine(f(xs[i]))
    ensures xs == [] ==> Block(MapEach(f, xs)) == ""
    ensures xs != [] ==> Split(Block(MapEach(f, xs)), '\n') == MapEach(f, xs)
  {
    if xs != [] {
      forall i | 0 <= i < |xs| ensures '\n' !in MapEach(f, xs)[i] {
        MapEachAt(f, xs, i);
      }
      SplitJoinPlain(MapEach(f, xs), '\n');
    }
  }

  /** The number of unpacked arrays among vs. */
  function ArrayCount(vs: seq<TransactionVariable>): (n: nat)
    ensures n <= |vs|
  {
    if vs == [] then 0
    else ArrayCount(vs[..|vs| - 1]) + (if vs[|vs| - 1].isUnpackedArray then 1 else 0)
  }

  /** Entries of two lines for arrays and one otherwise make |vs| lines and
      one more per array. */
  lemma {:induction false} LoopedLineCount(g: TransactionVariable -> seq<string>, vs: seq<TransactionVariable>)
    requires forall i :: 0 <= i < |vs| ==> |g(vs[i])| == if vs[i].isUnpackedArray then 2 else 1
    ensures |Flatten(MapEach(g, vs))| == |vs| + ArrayCount(vs)
    decreases |vs|
  {
    if vs != [] {
      var front := vs[..|vs| - 1];
      assert forall i :: 0 <= i < |front| ==> front[i] == vs[i];
      LoopedLineCount(g, front);
      FlattenLast(MapEach(g, front), g(vs[|vs| - 1]));
    }
  }

  /** get_coverpoints: one line per variable, in declaration order, each
      binding a coverpoint cp_<name> to the field; no variables give the
      empty text. */
  lemma CoverpointLines(vs: seq<TransactionVariable>)
    requires AllNamed(vs)
    ensures vs == [] ==> Coverpoints(vs) == ""
    ensures vs != [] ==> |Split(Coverpoints(vs), '\n')| == |vs|
    ensures vs != [] ==> forall i :: 0 <= i < |vs| ==>
      Split(Coverpoints(vs), '\n')[i] == "    cp_" + vs[i].signalName + ": coverpoint m_item." + vs[i].signalName + ";"
  {
    forall i | 0 <= i < |vs| ensures SingleLine(Coverpoint(vs[i])) {
      EntriesSingleLine(vs[i]);
    }
    BlockLines(Coverpoint, vs);
    forall i | 0 <= i < |vs| ensures MapEach(Coverpoint, vs)[i] == Coverpoint(vs[i]) {
      MapEachAt(Coverpoint, vs, i);
    }
  }

  /** get_ports: one line per port, in declaration order, holding the
      port's declaration indented by two spaces. */
  lemma PortDeclarationLines(ps: seq<Port>)
    requires AllPortsSingleLine(ps)
    ensures ps == [] ==> PortDeclarations(ps) == ""
    ensures ps != [] ==> |Split(PortDeclarations(ps), '\n')| == |ps|
    ensures ps != [] ==> forall i :: 0 <= i < |ps| ==>
      Split(PortDeclarations(ps), '\n')[i] == "  " + ps[i].definition
  {
    forall i | 0 <= i < |ps| ensures SingleLine(PortEntry(ps[i])) {
      PortEntrySingleLine(ps[i]);
    }
    BlockLines(PortEntry, ps);
    forall i | 0 <= i < |ps| ensures MapEach(PortEntry, ps)[i] == PortEntry(ps[i]) {
      MapEachAt(PortEntry, ps, i);
    }
  }

  /** The trans_vars, do_copy, do_pack and do_unpack fragments have one line
      per variable, in declaration order. */
  lemma SingleLineFragments(vs: seq<TransactionVariable>)
    requires AllNamed(vs) && vs != []
    ensures var tx := TxFragmentsOf(vs);
      Split(tx.transVars, '\n') == MapEach(VariableEntry, vs) &&
      Split(tx.doCopy, '\n') == MapEach(CopyEntry, vs) &&
      Split(tx.doPack, '\n') == MapEach(PackEntry, vs) &&
      Split(tx.doUnpack, '\n') == MapEach(UnpackEntryAsWritten, vs)
  {
    forall i | 0 <= i < |vs|
      ensures SingleLine(VariableEntry(vs[i])) && SingleLine(CopyEntry(vs[i]))
      ensures SingleLine(PackEntry(vs[i])) && SingleLine(UnpackEntryAsWritten(vs[i]))
    {
      EntriesSingleLine(vs[i]);
    }
    BlockLines(VariableEntry, vs);
    BlockLines(CopyEntry, vs);
    BlockLines(PackEntry, vs);
    BlockLines(UnpackEntryAsWritten, vs);
  }

  /** When no field name contains "uvm_pack_", the do_unpack fragment has one
      line per variable, each the intended unpack entry. */
  lemma UnpackFragmentAgrees(vs: seq<TransactionVariable>)
    requires AllNamed(vs) && vs != [] && NoPackMacroNames(vs)
    ensures Split(TxFragmentsOf(vs).doUnpack, '\n') == MapEach(UnpackEntry, vs)
  {
    SingleLineFragments(vs);
    UnpackEntriesAgree(vs);
  }

  /** The do_compare and do_record fragments hold, variable by variable in
      declaration order, a foreach header for arrays followed by the
      per-field line: |vs| lines and one more per unpacked array. */
  lemma LoopedFragments(vs: seq<TransactionVariable>)
    requires AllNamed(vs) && vs != []
    ensures var tx := TxFragmentsOf(vs);
      Split(tx.doCompare, '\n') == Flatten(MapEach(CompareLines, vs)) &&
      Split(tx.doRecord, '\n') == Flatten(MapEach(RecordLines, vs)) &&
      |Split(tx.doCompare, '\n')| == |vs| + ArrayCount(vs) &&
      |Split(tx.doRecord, '\n')| == |vs| + ArrayCount(vs)
  {
    forall i | 0 <= i < |vs|
      ensures Split(CompareEntry(vs[i]), '\n') == CompareLines(vs[i])
      ensures Split(RecordEntry(vs[i]), '\n') == RecordLines(vs[i])
    {
      EntriesSingleLine(vs[i]);
      LoopedSplit(vs[i], CompareLine(vs[i]));
      LoopedSplit(vs[i], RecordLine(vs[i]));
    }
    BlockSplits(CompareEntry, CompareLines, vs);
    BlockSplits(RecordEntry, RecordLines, vs);
    LoopedLineCount(CompareLines, vs);
    LoopedLineCount(RecordLines, vs);
  }

  /** Without variables every fragment list is empty. */
  lemma NoVariablesNoFragments()
    ensures var tx := TxFragmentsOf([]);
      tx.transVars == tx.doCopy == tx.doCompare == tx.doRecord == tx.doPack == tx.doUnpack == "" &&
      tx.convert2string == SformatOpen + SformatMiddle + ");"
  {
  }

  // ---------------------------------------------------------------------
  // the $sformat statement

  /** Two arguments per scalar variable, one per unpacked array, and each
      argument is the name of a variable. */
  lemma {:induction false} ArgumentsPerVariable(vs: seq<TransactionVariable>)
    ensures |ArgumentList(vs)| == 2 * |vs| - ArrayCount(vs)
    ensures forall i :: 0 <= i < |ArgumentList(vs)| ==>
      exists j :: 0 <= j < |vs| && ArgumentList(vs)[i] == vs[j].signalName
    decreases |vs|
  {
    if vs != [] {
      var front, last := vs[..|vs| - 1], vs[|vs| - 1];
      ArgumentsPerVariable(front);
      FlattenLast(MapEach(FormatValues, front), FormatValues(last));
      var before := ArgumentList(front);
      assert ArgumentList(vs) == before + FormatValues(last);
      forall i | 0 <= i < |ArgumentList(vs)|
        ensures exists j :: 0 <= j < |vs| && ArgumentList(vs)[i] == vs[j].signalName
      {
        if i < |before| {
          var j :| 0 <= j < |front| && before[i] == front[j].signalName;
          assert vs[j] == front[j];
        } else {
          assert ArgumentList(vs)[i] == vs[|vs| - 1].signalName;
        }
      }
    }
  }

  /** The fixed text before the formats holds one specifier, the %s of
      get_full_name(). */
  lemma OpenSpecifiers()
    ensures Count(SformatOpen, '%') == 1
  {
    OneSpecifier("  $sformat(s, {\"", StringSpecifier, "\\n\",\n    ");
  }

  lemma MiddleSpecifiers()
    ensures Count(SformatMiddle, '%') == 0
  {
    CountAbsent(SformatMiddle, '%');
  }

  lemma CloseSpecifiers()
    ensures Count(");", '%') == 0
  {
    CountAbsent(");", '%');
  }

  /** Text made of two specifier-free parts around a single specifier. */
  lemma OneSpecifier(a: string, spec: string, b: string)
    requires '%' !in a && Count(spec, '%') == 1 && '%' !in b
    ensures Count(a + spec + b, '%') == 1
  {
    CountAppend(a + spec, b, '%');
    CountAppend(a, spec, '%');
    CountAbsent(a, '%');
    CountAbsent(b, '%');
  }

  /** Text made of three specifier-free parts separated by two specifiers. */
  lemma TwoSpecifiers(a: string, spec1: string, b: string, spec2: string, c: string)
    requires '%' !in a && '%' !in b && '%' !in c
    requires Count(spec1, '%') == 1 && Count(spec2, '%') == 1
    ensures Count(a + spec1 + b + spec2 + c, '%') == 2
  {
    CountAppend(a + spec1 + b + spec2, c, '%');
    CountAppend(a + spec1 + b, spec2, '%');
    OneSpecifier(a, spec1, b);
    CountAbsent(c, '%');
  }

  /** A format entry holds one specifier per argument of its variable. */
  lemma FormatEntrySpecifiers(v: TransactionVariable)
    requires '%' !in v.signalName
    ensures Count(FormatEntry(v), '%') == |FormatValues(v)|
  {
    var n := v.signalName;
    var f := if v.isUnpackedArray then ArrayFormat else ScalarFormat;
    QuotedSpecifiers(n + f);
    CountAppend(n, f, '%');
    CountAbsent(n, '%');
    if v.isUnpackedArray {
      ArrayFormatSpecifiers();
    } else {
      ScalarFormatSpecifiers();
    }
  }

  lemma QuotedSpecifiers(s: string)
    ensures Count(Quoted(s), '%') == Count(s, '%')
  {
    CountAppend("\"" + s, "\"", '%');
    CountAppend("\"", s, '%');
  }

  lemma ArrayFormatSpecifiers()
    ensures Count(ArrayFormat, '%') == 1
  {
    OneSpecifier(" = ", ArraySpecifier, "\\n");
  }

  lemma ScalarFormatSpecifiers()
    ensures Count(ScalarFormat, '%') == 2
  {
    TwoSpecifiers(" = 'h", HexSpecifier, "  'd", DecimalSpecifier, "\\n");
  }

  lemma {:induction false} FormatListSpecifiers(vs: seq<TransactionVariable>)
    requires forall i :: 0 <= i < |vs| ==> '%' !in vs[i].signalName
    ensures CountEach(MapEach(FormatEntry, vs), '%') == 2 * |vs| - ArrayCount(vs)
    decreases |vs|
  {
    if vs != [] {
      var front, last := vs[..|vs| - 1], vs[|vs| - 1];
      FormatListSpecifiers(front);
      CountEachLast(MapEach(FormatEntry, front), FormatEntry(last), '%');
      FormatEntrySpecifiers(last);
    }
  }

  lemma {:induction false} CountEachAbsent(xs: seq<string>, c: char)
    requires forall i :: 0 <= i < |xs| ==> c !in xs[i]
    ensures CountEach(xs, c) == 0
  {
    if xs != [] {
      CountAbsent(xs[0], c);
      CountEachAbsent(xs[1..], c);
    }
  }

  lemma CountFive(a: string, b: string, c: string, d: string, e: string, x: char)
    ensures Count(a + b + c + d + e, x) == Count(a, x) + Count(b, x) + Count(c, x) + Count(d, x) + Count(e, x)
  {
    CountAppend(a + b + c + d, e, x);
    CountAppend(a + b + c, d, x);
    CountAppend(a + b, c, x);
    CountAppend(a, b, x);
  }

  /** The statement counted piece by piece. */
  lemma Convert2StringPieces(formats: seq<string>, arguments: seq<string>)
    ensures Count(Convert2String(formats, arguments), '%') ==
      Count(SformatOpen, '%') + Count(Join(",\n    ", formats), '%') + Count(SformatMiddle, '%') +
      Count(Join(", ", arguments), '%') + Count(");", '%')
  {
    CountFive(SformatOpen, Join(",\n    ", formats), SformatMiddle, Join(", ", arguments), ");", '%');
  }

  /** Neither list separator of the statement holds a specifier. */
  lemma SeparatorPlain(sep: string, items: seq<string>)
    requires sep == ",\n    " || sep == ", "
    ensures Count(Join(sep, items), '%') == CountEach(items, '%')
  {
    CountJoin(sep, items, '%');
  }

  /** The specifiers of the statement: the %s of get_full_name() and those
      of the formats and of the arguments. */
  lemma Convert2StringSpecifiers(formats: seq<string>, arguments: seq<string>)
    ensures Count(Convert2String(formats, arguments), '%') ==
      1 + CountEach(formats, '%') + CountEach(arguments, '%')
  {
    Convert2StringPieces(formats, arguments);
    OpenSpecifiers();
    MiddleSpecifiers();
    CloseSpecifiers();
    SeparatorPlain(",\n    ", formats);
    SeparatorPlain(", ", arguments);
  }

  /** The convert2string statement is well formed: its format holds exactly
      one specifier per argument (the %s for get_full_name() and one per
      value of every variable), provided no name holds a `%`. */
  lemma SpecifiersMatchArguments(vs: seq<TransactionVariable>)
    requires forall i :: 0 <= i < |vs| ==> '%' !in vs[i].signalName
    ensures Count(TxFragmentsOf(vs).convert2string, '%') == 1 + |ArgumentList(vs)|
  {
    var args := ArgumentList(vs);
    Convert2StringSpecifiers(MapEach(FormatEntry, vs), args);
    FormatListSpecifiers(vs);
    ArgumentsPerVariable(vs);
    forall i | 0 <= i < |args| ensures '%' !in args[i] {
      var j :| 0 <= j < |vs| && args[i] == vs[j].signalName;
    }
    CountEachAbsent(args, '%');
  }
}
