# UVM agent generator: description parser and fragment synthesiser

This project models the core of `uvm_code_gen/agent.py`, the part of the
UVM code generator that reads an agent description file and turns it into
the SystemVerilog text filled into the agent template. It has three parts:

- **The declaration analyser** (class `SvCode`, module `Declaration`). It
  finds the signal name of a SystemVerilog field declaration and decides
  whether the declaration has an unpacked dimension.
  - Each regular-expression substitution of the source is a hand-written
    scanner over `seq<char>`:
    - `DropTerminatorTail` for `;.*`;
    - `DropSubscriptGroups` for `\[[^\[\]]*\]`;
    - `DropParenMarks` for `\(\w\s\)*\s*`;
    - `DropThroughName` for `.*name`.
  - The replacement lists are `Substitution` values, applied in list order
    by `SubstituteAll`.
  - `SignalName` and `IsUnpackedArray` are the specification functions.
  - The `SvCode` class keeps the source's two caches. Its getters loop
    over the replacement list and are proved to return those functions.
- **The entries** (module `Fields`).
  - A transaction variable never changes after construction, so it is a
    datatype.
  - An interface port is a class, because the parser later sets its
    `isClock` field in place.
- **The description parser** (modules `Descriptor`, `ParseFacts`, and the
  class `Agent.UvmAgent`).
  - `Descriptor.Parse` specifies `parse_description_file` as a function
    of the file's lines. It is a left fold (`Scan`) in which each line is
    skipped, rejected or applied to the state, followed by the clock
    post-pass and the agent-name check (`Finish`).
  - `UvmAgent.ParseDescriptionFile` is the imperative method, with the
    source's loop and its in-place updates of `agentName`, `transVars`,
    `ifPorts` and the ports' clock flags. It is proved to reach exactly
    what `Parse` gives.
  - Where the source prints a message and calls `exit(1)`, the model
    returns a `ParseError`. The error carries the fault, the 1-based line
    number and the stripped line text.
- **The fragment synthesiser** (module `Fragments`, and the methods
  `GetCoverpoints`, `GetPorts` and `GetTxFmtValues` of `UvmAgent`). It
  produces the coverpoints, port declarations, copy, compare, record,
  pack and unpack entries, and the `$sformat` statement of
  `convert2string`. The loops are proved to build the functions
  `Coverpoints` and `TxFragmentsOf`. Lemmas then state what those texts
  are line by line, and how many lines and arguments they have.

Text conventions:
- Whitespace (`str.split()`, `str.strip()`, `\s`) is the ASCII
  characters Python's `str.isspace()` accepts: tab, line feed, vertical
  tab, form feed, carriage return, 28 to 31, and space.
- A word character (`\w`) is an ASCII letter, digit or `_`.
- The analyser works on single-line text, which is what the parser hands
  it: a definition is the line's words joined by single spaces.

Three points of the code are easy to misread:
- `trans_var = only_two` is three words (`trans_var`, `=`, `only_two`),
  so it passes the word-count check and is accepted
  (`Descriptor.FaultOrder`).
- The pattern `\(\w\s\)*\s*` has no anchor: a `(w ` mark is removed
  wherever it stands in the text, not only at its start
  (`ParenMarkAnywhere`).
- The greedy `.*name` of the array test cuts through the *last*
  occurrence of the name, not the first (`UnpackedArrayMeans`).

## Model

| member | source | states |
|---|---|---|
| Declaration.SignalName | uvm_code_gen/agent.py:13-24 | No name exists exactly when nothing but whitespace is left after the three substitutions; this is where the source's `split()[-1]` raises. A name that is found is one whitespace-free word without `;`. |
| Declaration.DropTerminatorTail | uvm_code_gen/agent.py:16 | `re.sub(';.*', '', s)` on one line: the result is the longest prefix of the text without `;`; anything cut off starts at a `;`. |
| Declaration.DropSubscriptGroups | uvm_code_gen/agent.py:17 | `re.sub(r'\[[^\[\]]*\]', '', s)` as one left-to-right pass; it has no contract of its own, and the next three rows state what it does. |
| Declaration.GroupDropped | uvm_code_gen/agent.py:17 | A bracket group with no bracket inside is removed whole, and scanning goes on after it. |
| Declaration.SubscriptGroupsPlain | uvm_code_gen/agent.py:17 | Text without `[` passes through subscript removal unchanged. |
| Declaration.DropParenMarks | uvm_code_gen/agent.py:18 | `re.sub(r'\(\w\s\)*\s*', '', s)`; it has no contract of its own, and the next three rows and `ParenMarkAnywhere` state what it does. |
| Declaration.ParenMarksAppend | uvm_code_gen/agent.py:18 | Text before the first `(` is copied unchanged, and the rest is scanned on its own. |
| Declaration.ParenMarkWithClosers | uvm_code_gen/agent.py:18 | The whole match goes: a `(`, word character, whitespace mark, the run of `)` right after it and the whitespace after those. Text before the mark is kept, and scanning resumes at the first character that is neither `)` nor whitespace. |
| Declaration.ParenMarkExample | uvm_code_gen/agent.py:18 | `logic (a ) x` becomes `logic x`. |
| Declaration.DropThroughName | uvm_code_gen/agent.py:30 | `re.sub(f".*{name}", '', s)` with the name read literally: the result is the text after the last occurrence of the name, or the whole text when the name does not occur. |
| Declaration.HasBracketPair | uvm_code_gen/agent.py:36 | `re.match(r".*\[.*\]", s)` on one line, in both directions: some `[` is followed later by a `]`. |
| Declaration.SignalNameIsLastToken | uvm_code_gen/agent.py:20-23 | The name found is the last word of the substituted text: whitespace or the start comes before it, only whitespace after it. |
| Declaration.DimensionsOnlyHaveNoName | uvm_code_gen/agent.py:17-23 | A declaration that is only a bracket group plus an optional `;` tail (such as `[7:0];`) has no name. |
| Declaration.SinglePassOnNestedGroups | uvm_code_gen/agent.py:17 | Subscript removal is one left-to-right pass: `[[a]]` becomes `[]`, and only a second pass would empty it. |
| Declaration.ParenMarkAnywhere | uvm_code_gen/agent.py:18 | A `(`, word character, whitespace mark is removed wherever it stands, not only at the start of the text. |
| Declaration.IsUnpackedArray | uvm_code_gen/agent.py:26-37 | The array answer is missing exactly when the name is missing, and `true` only for a declaration holding both `[` and `]`. |
| Declaration.UnpackedArrayMeans | uvm_code_gen/agent.py:29-36 | In both directions: the test is true exactly when the text after the last occurrence of the name, cut at its first `;`, holds a `[` followed later by a `]`. |
| Declaration.NoBracketIsScalar | uvm_code_gen/agent.py:29-36 | A declaration without `[` is never an unpacked array. |
| Declaration.ScalarDeclaration | uvm_code_gen/agent.py:13-37 | `type name` or `type name;…` (for example `logic [7:0] data`) is named `name` and is not an array. |
| Declaration.ArrayDeclaration | uvm_code_gen/agent.py:13-37 | `type name [dims]` or `type name [dims];…` (for example `logic flag [3:0]`) is named `name` and is an array. |
| Declaration.SvCode.constructor | uvm_code_gen/agent.py:8-11 | A new analyser holds the declaration and two empty caches. |
| Declaration.SvCode.GetSignalName | uvm_code_gen/agent.py:13-24 | The method's loop over the replacement list returns `SignalName` of the declaration. The cache keeps a found name and only ever holds the analyser's answer. |
| Declaration.SvCode.GetIsUnpackedArray | uvm_code_gen/agent.py:26-37 | The method returns `IsUnpackedArray` of the declaration. Only a cached `True` skips the recomputation; a computed answer is cached. |
| Declaration.QueriesAreStable | uvm_code_gen/agent.py:13-37 | Asking the same analyser twice gives the same name and the same array answer both times: the caches never change a result. |
| Fields.TransactionVariableOf | uvm_code_gen/agent.py:40-45 | A variable is built exactly when the analyser finds a name that means itself inside a regular expression. The variable keeps its declaration; its name is the analyser's `SignalName` and its flag the analyser's `IsUnpackedArray`, so it is an array only if the declaration has brackets. |
| Fields.NewTransactionVariable | uvm_code_gen/agent.py:41-45 | The constructor asks one analyser first for the name and then for the array flag, and yields `TransactionVariableOf`. |
| Fields.InterfacePort.constructor | uvm_code_gen/agent.py:49-52 | A port holds its declaration, the analyser's name for it and the given clock flag. |
| Fields.PortOf | uvm_code_gen/agent.py:49-52 | A port can be built exactly when the declaration has a name. It keeps the declaration, its name is the analyser's `SignalName` of that declaration, and it starts as no clock. |
| Descriptor.CheckWords | uvm_code_gen/agent.py:82-111 | A line's verdict from its words. It is skipped exactly when blank or a comment. An agent name comes from a line of exactly three words `agent_name = x`, and a clock name is the first value of an `if_clock =` line. A declaration comes only from a `trans_var =` or `if_port =` line and is one line of text. |
| Descriptor.Dispatch | uvm_code_gen/agent.py:97-111 | The definition of a `trans_var` or `if_port` line, its values joined by single spaces, is one line of text. |
| Descriptor.SkippedLines | uvm_code_gen/agent.py:80-83 | Reading a line yields the skip action exactly when the stripped line has no words or its first word starts with `#`; every other line is a fault or has an effect. |
| Descriptor.FaultOrder | uvm_code_gen/agent.py:84-104 | The checks come in the source's order, each stated in both directions: too few words (under 3), then an invalid keyword, then a missing `=`, then an `agent_name` with other than one value. |
| Descriptor.CheckedNames | uvm_code_gen/agent.py:100-111 | The agent name is the only value of its line. The clock name is the first value of its line; later values are ignored. |
| Descriptor.DefinitionWords | uvm_code_gen/agent.py:97-109 | A declared definition splits back into exactly the words after the `=`. |
| Descriptor.DeclaredDefinition | uvm_code_gen/agent.py:106-109 | A declared variable or port carries its line's words after the `=`. A new port is not a clock, and its name is the analyser's `SignalName` of its one-line declaration. |
| Descriptor.Scan | uvm_code_gen/agent.py:78-111 | The pass over the lines; when it fails, the error is a line fault whose line number lies between 1 and the number of lines. |
| Descriptor.MarkClock | uvm_code_gen/agent.py:114-116 | Every port keeps its declaration and name; it is flagged if it was flagged or its name is the clock's. |
| Descriptor.Parse | uvm_code_gen/agent.py:74-119 | `parse_description_file` as a function: a successful parse has a non-empty agent name, and a failure is either the missing agent name or a fault at a line of the file. |
| Descriptor.ScanFailureSticks | uvm_code_gen/agent.py:84-104 | Once a line has failed, the rest of the file changes nothing, as the source exits there. |
| Descriptor.RunCollects | uvm_code_gen/agent.py:106-109 | A pass that succeeds holds exactly the variables and ports the lines declare, in file order. |
| ParseFacts.ScanSucceeds | uvm_code_gen/agent.py:78-111 | The pass over the lines succeeds exactly when no line is a fault. |
| ParseFacts.FirstFaultDecides | uvm_code_gen/agent.py:84-104 | The first faulty line decides the error, with its fault, its 1-based number and its stripped text. |
| ParseFacts.LastAgentNameWins | uvm_code_gen/agent.py:100-105 | The agent name is the value of the last `agent_name` line. |
| ParseFacts.MissingAgentName | uvm_code_gen/agent.py:117-119 | The parse fails for want of an agent name exactly when no line is a fault and no line is an `agent_name` line. |
| ParseFacts.LastClockWins | uvm_code_gen/agent.py:110-111 | The clock name is the first value of the last `if_clock` line. |
| ParseFacts.ParsedDescription | uvm_code_gen/agent.py:97-119 | A successful parse has a non-empty agent name and the declared variables and ports in file order. Every port's name is the analyser's `SignalName` of its declaration, and exactly the ports so named like the clock are flagged. |
| ParseFacts.ClassifiedEntries | uvm_code_gen/agent.py:106-109 | A variable a line adds has a one-word name and a one-line declaration; a port a line adds has a one-line declaration whose `SignalName` is the port's name. |
| ParseFacts.LinesDeclareNamedPorts | uvm_code_gen/agent.py:49-52 | Every port the lines declare has a one-line declaration whose `SignalName` is the port's name. |
| ParseFacts.ParsedIsNamed | uvm_code_gen/agent.py:97-119 | In every successful parse, each variable has a one-word name and a one-line declaration, and each port a one-line declaration. These are the inputs the fragment lemmas require. |
| ParseFacts.NoClockNoFlags | uvm_code_gen/agent.py:110-116 | Without an `if_clock` line no port is a clock. |
| Agent.UvmAgent.constructor | uvm_code_gen/agent.py:65-67 | A new agent has an empty name and no ports or variables. |
| Agent.UvmAgent.ParseDescriptionFile | uvm_code_gen/agent.py:74-119 | The method fails exactly when `Parse` of the lines fails, and with the same error. On success the fields hold `Parse`'s agent name and variables, and ports whose values are `Parse`'s ports. Every variable is then named and every declaration is one line. Every port is a new object. |
| Agent.UvmAgent.ParseLines | uvm_code_gen/agent.py:78-111 | The loop over the lines stops with the pass's error at the first faulty line. Otherwise the fields and the clock name are the state the pass reaches. |
| Agent.UvmAgent.ParseLine | uvm_code_gen/agent.py:79-111 | One iteration: the line is skipped, rejected with its fault, number and text, or applied to the fields, as one step of the pass says. |
| Agent.UvmAgent.ParseKeyword | uvm_code_gen/agent.py:97-111 | A checked line sets the agent name, appends a variable or a port, or names the clock, as its keyword says. |
| Agent.UvmAgent.ParseAgentName | uvm_code_gen/agent.py:100-105 | An `agent_name` line with one value sets the name; with more values it is the line's error. |
| Agent.UvmAgent.ParseTransVar | uvm_code_gen/agent.py:106-107 | A `trans_var` line appends the variable its joined values describe, or reports why none can be built. |
| Agent.UvmAgent.ParseIfPort | uvm_code_gen/agent.py:108-109 | An `if_port` line appends a new port for its joined values, or reports a declaration without a name. |
| Agent.UvmAgent.AddIfPort | uvm_code_gen/agent.py:109 | A new port object goes at the end of the port list; the other fields and ports are unchanged. |
| Agent.UvmAgent.FlagClockPorts | uvm_code_gen/agent.py:114-116 | Every port named like the clock gets its flag set; every other port keeps its flag. |
| Agent.UvmAgent.GetCoverpoints | uvm_code_gen/agent.py:133-139 | The loop builds `Coverpoints` of the variables: one coverpoint per variable, joined with newlines. |
| Agent.UvmAgent.GetPorts | uvm_code_gen/agent.py:141-143 | No ports give the empty text. Otherwise there is one line per port, in order, holding the port's declaration indented by two spaces. |
| Agent.UvmAgent.GetTxFmtValues | uvm_code_gen/agent.py:145-190 | The loop builds `TxFragmentsOf` of the variables: every list holds the variables' entries in order, each unpack entry is its pack entry with `uvm_pack_` replaced by `uvm_unpack_`, and the format and argument lists go into one `$sformat` statement. |
| Fragments.TxFragmentsOf | uvm_code_gen/agent.py:145-190 | The values of `get_tx_fmt_values`, with unpack entries made by line 177's replace. When no name contains `uvm_pack_`, the unpack text is that of the intended entries. |
| Fragments.CoverpointLines | uvm_code_gen/agent.py:133-139 | No variables give the empty text. Otherwise line i is `cp_<name>: coverpoint m_item.<name>;` for the i-th variable, with one line per variable. |
| Fragments.PortDeclarationLines | uvm_code_gen/agent.py:141-143 | One line per port, in order, each its declaration indented by two spaces. |
| Fragments.SingleLineFragments | uvm_code_gen/agent.py:154-177 | The declaration, copy, pack and unpack texts have exactly one line per variable, each that variable's entry, in order; an unpack line is the pack entry after line 177's replace. |
| Fragments.LoopedFragments | uvm_code_gen/agent.py:160-171 | Compare and record have one line per scalar and two per array: the `foreach` header, then the body. |
| Fragments.NoVariablesNoFragments | uvm_code_gen/agent.py:145-190 | Without variables every list is empty and `$sformat` gets only the `%s` header and `get_full_name()`. |
| Fragments.ArgumentsPerVariable | uvm_code_gen/agent.py:168-175 | There are two format arguments per scalar and one per array, and each is the name of some variable. |
| Fragments.FormatEntrySpecifiers | uvm_code_gen/agent.py:167-175 | Each variable's format piece has exactly as many `%` specifiers as the variable has arguments. |
| Fragments.SpecifiersMatchArguments | uvm_code_gen/agent.py:178-180 | The whole `$sformat` format has one specifier for `get_full_name()` plus one per argument. |
| Fragments.EntriesNameTheField | uvm_code_gen/agent.py:160-177 | The compare label, the record label (with `_` for arrays), and the pack and unpack macro arguments are all the variable's own name. |
| Fragments.PackUnpackDifferInOperation | uvm_code_gen/agent.py:166-177 | The unpack entry is the pack entry with only its macro prefix turned into `uvm_unpack_`. |
| Fragments.UnpackAsWrittenAgrees | uvm_code_gen/agent.py:177 | When the name does not contain `uvm_pack_`, the source's replace gives exactly the intended unpack entry. |
| Fragments.UnpackEntriesAgree | uvm_code_gen/agent.py:176-177 | The same over a whole list: when no name contains `uvm_pack_`, the unpack entries as written are the intended ones. |
| Fragments.UnpackFragmentAgrees | uvm_code_gen/agent.py:176-187 | When no name contains `uvm_pack_`, the `tx_do_unpack` text has one line per variable, each that variable's intended unpack entry. |
| Fragments.PackNamedVariable | uvm_code_gen/agent.py:40-45 | The declaration `logic uvm_pack_x` builds a scalar variable named `uvm_pack_x`. |
| Fragments.UnpackAsWrittenRenamesField | uvm_code_gen/agent.py:177 | For that variable the source's unpack entry names the field `uvm_unpack_x`, not `uvm_pack_x`; the intended entry names `uvm_pack_x`. |

## Left out

- `fill_template` and `write_files` (template lookup, `mkdir`, file reads and writes, Python's `str.format`) are I/O with no logic of interest. `print_utils` is not part of this model.
- Opening the description file is left out: the method takes the file's lines. `print_file_error`, `print_error` and `exit(1)` become the returned `ParseError`. The fields keep what the lines before the fault left, as they would in the source before it exits.
- The general regular-expression engine is left out. Only the patterns the source uses are modelled, as scanners.
- Declaration.IsUnpackedArray: requires `NameIsPlain`. The source puts the signal name unescaped into the pattern `.*name`, so a name holding a regular-expression metacharacter (`.`, `*`, `$` and so on) would be read as a pattern. The model covers only names that mean themselves. The parser instead rejects such a `trans_var` declaration with the `PatternName` fault; an `if_port` declaration never asks the array question, so its name is taken as found. In the source, a name that compiles as a regular expression (such as `a.b`, `a$b` or `a|b`) is searched for as a pattern. A name that does not compile (an unbalanced `(`, `)` or `[`, a trailing `\`, or a leading quantifier, as in `a(b` or `*x`) makes `re.sub` at agent.py:30 raise an uncaught `re.error`, and the program stops with a traceback.
- Declaration.SvCode.GetIsUnpackedArray: requires `NameIsPlain`, for the same reason.
- Declaration.SignalName: requires single-line text, because `.` in the source's patterns stops at a line break. The parser only ever hands the analyser single-line text.
- Unicode: whitespace and word characters are their ASCII members; Python's Unicode `isspace`/`\w` classes are not modelled.
- Agent.UvmAgent.ParseDescriptionFile: requires the empty state that `__init__` sets before it parses. Calling it again on a filled agent, which the source never does, is not modelled.
- Agent.UvmAgent.GetPorts: the line-by-line statement assumes single-line declarations. Every parsed agent has them (`ParsedIsNamed`, and the ensures of `ParseDescriptionFile`).
- Descriptor.Build: a `trans_var` or `if_port` declaration in which the analyser finds no name (for example `trans_var = [7:0];`) is modelled as the line's fault `Construction(NoSignalName)`, with the line number and text. In the source, `split()[-1]` raises an uncaught `IndexError` there: the program stops with a traceback and reports no line. `ParseFacts.FirstFaultDecides` therefore gives such a line an error the program never prints. The same holds for `Construction(PatternName)` when the name does not compile as a regular expression (for example `trans_var = logic a(b`): `re.sub` at agent.py:30 raises an uncaught `re.error`. For a name that does compile (such as `a.b`), the source goes on with the name read as a pattern, where the model stops with the fault.
- The template directory and output directory of `__init__` are left out (I/O only).

## Findings

| source | as written | input that shows it | evidently intended | confidence | as-written member | corrected member |
|---|---|---|---|---|---|---|
| uvm_code_gen/agent.py:177 | The unpack entry is `pack_str.replace("uvm_pack_", "uvm_unpack_")`. This replaces every occurrence, including inside the field name. | A line `trans_var = logic uvm_pack_x` gives the unpack entry `` `uvm_unpack_int(uvm_unpack_x) ``, which unpacks into a field that does not exist. | Only the macro is renamed: `` `uvm_unpack_int(uvm_pack_x) ``. | not executed | Fragments.UnpackAsWrittenRenamesField | Fragments.EntriesNameTheField |
