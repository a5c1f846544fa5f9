/** The declaration analyser, class SvCode of uvm_code_gen/agent.py: from one
    SystemVerilog field declaration it derives the signal name and whether the
    field has an unpacked (trailing) dimension. Each regular-expression
    substitution of the source is a scanner over the text. The analyser works
    on one line of text: the descriptor parser only ever hands it the
    space-joined tokens of a single line. */
module Declaration {
  import opened Results
  import opened Text

  predicate SingleLine(s: string) {
    '\n' !in s
  }

  /** A non-empty run of \w characters. */
  predicate IsIdentifier(name: string) {
    |name| > 0 && forall c :: c in name ==> IsWordChar(c)
  }

  predicate IsBracket(c: char) {
    c == '[' || c == ']'
  }

  // ---------------------------------------------------------------------
  // re.sub(';.*', '', s)

  /** re.sub(';.*', '', s) on one line: everything from the first `;` on is
      removed, so the result is the longest prefix without `;`. */
  function DropTerminatorTail(s: string): (r: string)
    requires SingleLine(s)
    ensures r <= s && ';' !in r
    ensures |r| < |s| ==> s[|r|] == ';'
  {
    if s == [] || s[0] == ';' then [] else [s[0]] + DropTerminatorTail(s[1..])
  }

  /** Text with no `;` that is followed by nothing or by a `;` loses exactly
      what follows it. */
  lemma {:induction false} TerminatorTailAppend(a: string, b: string)
    requires SingleLine(a + b) && ';' !in a
    requires b == [] || b[0] == ';'
    ensures DropTerminatorTail(a + b) == a
    decreases |a|
  {
    if a == [] {
      assert a + b == b;
    } else {
      AppendSlices(a, b, 1);
      assert a[0] in a;
      TerminatorTailStep(a + b);
      SuffixExcludes(';', a, 1);
      TerminatorTailAppend(a[1..], b);
    }
  }

  lemma TerminatorTailStep(s: string)
    requires SingleLine(s) && s != [] && s[0] != ';'
    ensures SingleLine(s[1..])
    ensures DropTerminatorTail(s) == [s[0]] + DropTerminatorTail(s[1..])
  {
    SuffixExcludes('\n', s, 1);
  }

  // ---------------------------------------------------------------------
  // re.sub(r'\[[^\[\]]*\]', '', s)

  /** The first index at or after i that holds a bracket, or |s|. */
  function NextBracket(s: string, i: nat): (k: nat)
    requires i <= |s|
    ensures i <= k <= |s|
    ensures forall j :: i <= j < k ==> !IsBracket(s[j])
    ensures k < |s| ==> IsBracket(s[k])
    decreases |s| - i
  {
    if i == |s| || IsBracket(s[i]) then i else NextBracket(s, i + 1)
  }

  /** The pattern \[[^\[\]]*\] matches at the start of s: a `[` whose next
      bracket is a `]`. */
  predicate GroupAt(s: string) {
    s != [] && s[0] == '[' && NextBracket(s, 1) < |s| && s[NextBracket(s, 1)] == ']'
  }

  /** re.sub(r'\[[^\[\]]*\]', '', s): one left-to-right pass removing every
      bracket group that holds no bracket. A `[` whose next bracket is
      another `[` is kept, so nested groups lose only their innermost part. */
  function DropSubscriptGroups(s: string): string
    decreases |s|
  {
    if s == [] then []
    else if GroupAt(s) then DropSubscriptGroups(s[NextBracket(s, 1) + 1..])
    else [s[0]] + DropSubscriptGroups(s[1..])
  }

  lemma {:induction false} NextBracketAppend(p: string, q: string, i: nat)
    requires i <= |p|
    ensures NextBracket(p, i) < |p| ==> NextBracket(p + q, i) == NextBracket(p, i)
    ensures NextBracket(p, i) == |p| ==> NextBracket(p + q, i) == |p| + NextBracket(q, 0)
    decreases |p| - i
  {
    if i == |p| {
      NextBracketShift(p, q, 0);
    } else if !IsBracket(p[i]) {
      assert (p + q)[i] == p[i];
      NextBracketAppend(p, q, i + 1);
    } else {
      assert (p + q)[i] == p[i];
    }
  }

  lemma {:induction false} NextBracketShift(p: string, q: string, j: nat)
    requires j <= |q|
    ensures NextBracket(p + q, |p| + j) == |p| + NextBracket(q, j)
    decreases |q| - j
  {
    if j < |q| {
      assert (p + q)[|p| + j] == q[j];
      if !IsBracket(q[j]) {
        NextBracketShift(p, q, j + 1);
      }
    }
  }

  /** The first bracket of q, if any, is a `[`. */
  predicate OpensFirst(q: string) {
    NextBracket(q, 0) == |q| || q[NextBracket(q, 0)] == '['
  }

  /** The pass treats p and q separately when q's first bracket is not a `]`
      that could close a group opened in p. */
  lemma {:induction false} SubscriptGroupsAppend(p: string, q: string)
    requires OpensFirst(q)
    ensures DropSubscriptGroups(p + q) == DropSubscriptGroups(p) + DropSubscriptGroups(q)
    decreases |p|
  {
    if p == [] {
      assert p + q == q;
    } else {
      assert (p + q)[0] == p[0];
      if p[0] != '[' {
        assert (p + q)[1..] == p[1..] + q;
        SubscriptGroupsAppend(p[1..], q);
        ConcatAssoc([p[0]], DropSubscriptGroups(p[1..]), DropSubscriptGroups(q));
      } else {
        var kp := NextBracket(p, 1);
        NextBracketAppend(p, q, 1);
        if kp < |p| && p[kp] == ']' {
          assert (p + q)[kp] == p[kp];
          assert (p + q)[kp + 1..] == p[kp + 1..] + q;
          SubscriptGroupsAppend(p[kp + 1..], q);
        } else {
          assert kp < |p| ==> (p + q)[kp] == p[kp];
          assert NextBracket(p + q, 1) < |p + q| && kp == |p| ==>
            (p + q)[NextBracket(p + q, 1)] == q[NextBracket(q, 0)];
          assert (p + q)[1..] == p[1..] + q;
          SubscriptGroupsAppend(p[1..], q);
          ConcatAssoc([p[0]], DropSubscriptGroups(p[1..]), DropSubscriptGroups(q));
        }
      }
    }
  }

  /** Text without `[` passes unchanged. */
  lemma {:induction false} SubscriptGroupsPlain(s: string)
    requires '[' !in s
    ensures DropSubscriptGroups(s) == s
  {
    if s != [] {
      assert s[0] in s;
      SuffixExcludes('[', s, 1);
      SubscriptGroupsPlain(s[1..]);
      assert s == [s[0]] + s[1..];
    }
  }

  lemma NoBracketNext(q: string, i: nat)
    requires i <= |q| && '[' !in q && ']' !in q
    ensures NextBracket(q, i) == |q|
  {
    assert forall j :: i <= j < |q| ==> q[j] in q;
  }

  /** A group with no bracket inside is removed whole. */
  lemma GroupDropped(dims: string, q: string)
    requires '[' !in dims && ']' !in dims
    ensures DropSubscriptGroups("[" + dims + "]" + q) == DropSubscriptGroups(q)
  {
    var s := "[" + dims + "]" + q;
    assert forall j :: 1 <= j < 1 + |dims| ==> s[j] == dims[j - 1] && dims[j - 1] in dims;
    assert s[1 + |dims|] == ']';
    assert NextBracket(s, 1) == 1 + |dims|;
    assert s[|dims| + 2..] == q;
  }

  // ---------------------------------------------------------------------
  // re.sub(r'\(\w\s\)*\s*', '', s)

  /** The compulsory part of \(\w\s\)*\s* starts s: a `(`, one word character
      and one whitespace character. */
  predicate ParenMarkAt(s: string) {
    |s| >= 3 && s[0] == '(' && IsWordChar(s[1]) && IsSpace(s[2])
  }

  /** The text after its leading run of `)`. */
  function DropClosers(s: string): (r: string)
    ensures |r| <= |s| && r == s[|s| - |r|..]
    ensures r == [] || r[0] != ')'
    ensures forall i :: 0 <= i < |s| - |r| ==> s[i] == ')'
  {
    if s != [] && s[0] == ')' then DropClosers(s[1..]) else s
  }

  /** A leading run of `)` is exactly what DropClosers removes. */
  lemma {:induction false} ClosersDropped(cl: string, t: string)
    requires forall k :: 0 <= k < |cl| ==> cl[k] == ')'
    requires t == [] || t[0] != ')'
    ensures DropClosers(cl + t) == t
    decreases |cl|
  {
    if cl == [] {
      assert cl + t == t;
    } else {
      assert (cl + t)[0] == ')';
      assert (cl + t)[1..] == cl[1..] + t;
      ClosersDropped(cl[1..], t);
    }
  }

  /** re.sub(r'\(\w\s\)*\s*', '', s): wherever the mark occurs, it is removed
      together with the `)` characters right after it and the whitespace
      after those; the rest is copied. */
  function DropParenMarks(s: string): string
    decreases |s|
  {
    if s == [] then []
    else if ParenMarkAt(s) then
      DropParenMarks(TrimStart(DropClosers(s[3..])))
    else
      [s[0]] + DropParenMarks(s[1..])
  }

  /** Text before the first `(` is copied. */
  lemma {:induction false} ParenMarksAppend(p: string, q: string)
    requires '(' !in p
    ensures DropParenMarks(p + q) == p + DropParenMarks(q)
    decreases |p|
  {
    if p == [] {
      assert p + q == q;
    } else {
      assert (p + q)[0] == p[0] && p[0] in p;
      assert !ParenMarkAt(p + q);
      assert (p + q)[1..] == p[1..] + q;
      SuffixExcludes('(', p, 1);
      ParenMarksAppend(p[1..], q);
    }
  }

  /** Text without `(` passes unchanged. */
  lemma ParenMarksPlain(s: string)
    requires '(' !in s
    ensures DropParenMarks(s) == s
  {
    ParenMarksAppend(s, []);
    assert s + [] == s;
  }

  // ---------------------------------------------------------------------
  // re.sub(f".*{signal_name}", '', s)

  /** re.sub(f".*{name}", '', s) on one line, with the name read literally:
      the greedy `.*` reaches the last occurrence of the name, so what is
      left is the text after that occurrence; without one, s is kept. */
  function DropThroughName(s: string, name: string): (r: string)
    requires SingleLine(s)
    ensures |r| <= |s| && r == s[|s| - |r|..]
    ensures !Occurs(s, name) ==> r == s
    ensures Occurs(s, name) ==> OccursAt(s, name, |s| - |r| - |name|)
    ensures forall j :: |s| - |r| - |name| < j ==> !OccursAt(s, name, j)
  {
    var k := LastOccurrence(s, name);
    if k < 0 then s else s[k + |name|..]
  }

  /** The name placed after p is its last occurrence when what follows it
      cannot continue a word and does not hold the name again. */
  lemma DropThroughNameAt(p: string, name: string, r: string)
    requires SingleLine(p + name + r)
    requires IsIdentifier(name)
    requires r == [] || !IsWordChar(r[0])
    requires !Occurs(r, name)
    ensures DropThroughName(p + name + r, name) == r
  {
    var d := p + name + r;
    assert d[|p|..|p| + |name|] == name;
    assert OccursAt(d, name, |p|);
    forall j | |p| < j ensures !OccursAt(d, name, j) {
      if j <= |p| + |name| && j + |name| <= |d| {
        var i := |p| + |name| - j;
        assert d[j..j + |name|][i] == d[|p| + |name|] == r[0];
        assert name[i] in name;
      } else if j > |p| + |name| && j + |name| <= |d| {
        var here, there := d[j..j + |name|], r[j - |p| - |name|..j - |p|];
        assert forall t :: 0 <= t < |name| ==> here[t] == there[t];
        assert !OccursAt(r, name, j - |p| - |name|);
      }
    }
    assert LastOccurrence(d, name) == |p|;
    assert d[|p| + |name|..] == r;
  }

  // ---------------------------------------------------------------------
  // re.match(r".*\[.*\]", s)

  /** re.match(r".*\[.*\]", s) on one line: some `[` is followed, later, by
      a `]`. */
  function HasBracketPair(s: string): (r: bool)
    ensures r <==> exists i, j :: 0 <= i < j < |s| && s[i] == '[' && s[j] == ']'
  {
    if s == [] then false
    else if s[0] == '[' then
      assert forall j :: 1 <= j < |s| ==> s[j] == s[1..][j - 1];
      ']' in s[1..]
    else
      assert forall j :: 1 <= j < |s| ==> s[j] == s[1..][j - 1];
      HasBracketPair(s[1..])
  }

  // ---------------------------------------------------------------------
  // No substitution brings in a character the text lacks

  lemma TerminatorTailExcludes(c: char, s: string)
    requires SingleLine(s) && c !in s
    ensures c !in DropTerminatorTail(s)
  {
    var r := DropTerminatorTail(s);
    forall i | 0 <= i < |r| ensures r[i] != c {
      assert r[i] == s[i] && s[i] in s;
    }
  }

  lemma {:induction false} SubscriptGroupsExclude(c: char, s: string)
    requires c !in s
    ensures c !in DropSubscriptGroups(s)
    decreases |s|
  {
    if s != [] {
      if GroupAt(s) {
        SuffixExcludes(c, s, NextBracket(s, 1) + 1);
        SubscriptGroupsExclude(c, s[NextBracket(s, 1) + 1..]);
      } else {
        SuffixExcludes(c, s, 1);
        SubscriptGroupsExclude(c, s[1..]);
        assert s[0] in s;
      }
    }
  }

  lemma {:induction false} ParenMarksExclude(c: char, s: string)
    requires c !in s
    ensures c !in DropParenMarks(s)
    decreases |s|
  {
    if s != [] {
      if ParenMarkAt(s) {
        var closers := DropClosers(s[3..]);
        SuffixExcludes(c, s, 3);
        SuffixExcludes(c, s[3..], |s[3..]| - |closers|);
        SuffixExcludes(c, closers, |closers| - |TrimStart(closers)|);
        ParenMarksExclude(c, TrimStart(closers));
      } else {
        SuffixExcludes(c, s, 1);
        ParenMarksExclude(c, s[1..]);
        assert s[0] in s;
      }
    }
  }

  lemma SubstituteExcludes(c: char, p: Substitution, s: string)
    requires SingleLine(s) && c !in s
    ensures c !in Substitute(p, s)
  {
    match p
    case TerminatorTail => TerminatorTailExcludes(c, s);
    case SubscriptGroups => SubscriptGroupsExclude(c, s);
    case ParenMarks => ParenMarksExclude(c, s);
    case ThroughName(name) => SuffixExcludes(c, s, |s| - |DropThroughName(s, name)|);
  }

  lemma {:induction false} SubstituteAllExcludes(c: char, ps: seq<Substitution>, s: string)
    requires SingleLine(s)
    ensures c !in s ==> c !in SubstituteAll(ps, s)
  {
    if ps != [] && c !in s {
      SubstituteAllExcludes(c, ps[..|ps| - 1], s);
      SubstituteExcludes(c, ps[|ps| - 1], SubstituteAll(ps[..|ps| - 1], s));
    }
  }

  // ---------------------------------------------------------------------
  // The replacement lists and the two getters

  /** One entry of the replacement lists of the getters. */
  datatype Substitution =
    | TerminatorTail         // (';.*', '')
    | SubscriptGroups        // (r'\[[^\[\]]*\]', '')
    | ParenMarks             // (r'\(\w\s\)*\s*', '')
    | ThroughName(name: string)  // (f".*{signal_name}", '')

  function Substitute(p: Substitution, s: string): (r: string)
    requires SingleLine(s)
    ensures SingleLine(r)
  {
    match p
    case TerminatorTail =>
      TerminatorTailExcludes('\n', s);
      DropTerminatorTail(s)
    case SubscriptGroups =>
      SubscriptGroupsExclude('\n', s);
      DropSubscriptGroups(s)
    case ParenMarks =>
      ParenMarksExclude('\n', s);
      DropParenMarks(s)
    case ThroughName(name) =>
      SuffixExcludes('\n', s, |s| - |DropThroughName(s, name)|);
      DropThroughName(s, name)
  }

  /** The substitutions applied one after another, in list order. */
  function SubstituteAll(ps: seq<Substitution>, s: string): (r: string)
    requires SingleLine(s)
    ensures SingleLine(r)
  {
    if ps == [] then s
    else Substitute(ps[|ps| - 1], SubstituteAll(ps[..|ps| - 1], s))
  }

  /** The replacement list of get_signal_name. */
  const NameSubstitutions: seq<Substitution> := [TerminatorTail, SubscriptGroups, ParenMarks]

  /** The replacement list of get_is_unpacked_array. */
  function ArraySubstitutions(name: string): seq<Substitution> {
    [ThroughName(name), TerminatorTail]
  }

  /** What get_signal_name splits. */
  function NameResidue(d: string): string
    requires SingleLine(d)
  {
    SubstituteAll(NameSubstitutions, d)
  }

  lemma NameResidueSteps(d: string)
    requires SingleLine(d)
    ensures NameResidue(d) == DropParenMarks(DropSubscriptGroups(DropTerminatorTail(d)))
  {
    var ps := NameSubstitutions;
    assert ps[..1][..0] == [];
    assert SubstituteAll(ps[..1], d) == DropTerminatorTail(d);
    assert ps[..2][..1] == ps[..1];
    assert SubstituteAll(ps[..2], d) == DropSubscriptGroups(DropTerminatorTail(d));
    assert ps[..3][..2] == ps[..2] && ps[..3] == ps;
  }

  lemma ResidueHasNoTerminator(d: string)
    requires SingleLine(d)
    ensures ';' !in NameResidue(d)
  {
    NameResidueSteps(d);
    var t := DropTerminatorTail(d);
    SubscriptGroupsExclude(';', t);
    ParenMarksExclude(';', DropSubscriptGroups(t));
  }

  /** get_signal_name: the last whitespace-separated token left by the three
      substitutions; None where the source's split()[-1] raises IndexError
      because nothing but whitespace is left. */
  function SignalName(d: string): (r: Option<string>)
    requires SingleLine(d)
    ensures r.None? <==> Blank(NameResidue(d))
    ensures r.Some? ==> IsToken(r.value) && ';' !in r.value && SingleLine(r.value)
  {
    var s := NameResidue(d);
    var ts := Tokens(s);
    TokensOfBlank(s);
    ResidueHasNoTerminator(d);
    if ts == [] then None
    else
      TokensAreTokens(s);
      TokensKeepOut(';', s);
      TokensKeepOut('\n', s);
      Some(ts[|ts| - 1])
  }

  /** A token that is followed only by whitespace and preceded by whitespace
      or nothing is the signal name. */
  lemma SignalNameOfResidue(d: string, x: string, t: string, y: string)
    requires SingleLine(d)
    requires NameResidue(d) == x + t + y
    requires IsToken(t) && Blank(y) && (x == [] || IsSpace(x[|x| - 1]))
    ensures SignalName(d) == Some(t)
  {
    assert x + t + y == x + (t + y);
    TokensAppend(x, t + y);
    TokensOfBlank(y);
    TokensAppend(t, y);
    TokensOfToken(t);
  }

  /** Conversely, the signal name is the last token of the residue: it
      follows whitespace or the start, and only whitespace follows it. */
  lemma SignalNameIsLastToken(d: string)
    requires SingleLine(d) && SignalName(d).Some?
    ensures LastTokenAt(NameResidue(d), SignalName(d).value, LastWordStart(TrimEnd(NameResidue(d))))
  {
    LastTokenPlace(NameResidue(d));
  }

  /** Characters with a meaning in a Python regular expression. */
  predicate IsRegexSpecial(c: char) {
    c in ".^$*+?{}[]\\|()"
  }

  /** A name that means itself when placed in a regular expression. */
  predicate IsPlainName(name: string) {
    forall c :: c in name ==> !IsRegexSpecial(c)
  }

  /** get_is_unpacked_array puts the signal name unescaped into a pattern;
      the model covers declarations whose name means itself there. */
  predicate NameIsPlain(d: string)
    requires SingleLine(d)
  {
    SignalName(d).Some? ==> IsPlainName(SignalName(d).value)
  }

  /** What get_is_unpacked_array tests for a bracket pair. */
  function ArrayResidue(d: string, name: string): string
    requires SingleLine(d)
  {
    SubstituteAll(ArraySubstitutions(name), d)
  }

  lemma ArrayResidueSteps(d: string, name: string)
    requires SingleLine(d)
    ensures ArrayResidue(d, name) == DropTerminatorTail(DropThroughName(d, name))
  {
    var ps := ArraySubstitutions(name);
    assert ps[..1][..0] == [];
    assert SubstituteAll(ps[..1], d) == DropThroughName(d, name);
    assert ps[..2][..1] == ps[..1] && ps[..2] == ps;
  }

  /** get_is_unpacked_array: after cutting through the last occurrence of the
      signal name and dropping the `;` tail, a `[` is followed by a `]`.
      None where the source raises IndexError while finding the name. */
  function IsUnpackedArray(d: string): (r: Option<bool>)
    requires SingleLine(d) && NameIsPlain(d)
    ensures r.None? <==> SignalName(d).None?
    ensures r == Some(true) ==> '[' in d && ']' in d
  {
    match SignalName(d)
    case None => None
    case Some(name) =>
      var rest := ArrayResidue(d, name);
      SubstituteAllExcludes('[', ArraySubstitutions(name), d);
      SubstituteAllExcludes(']', ArraySubstitutions(name), d);
      Some(HasBracketPair(rest))
  }

  /** The unpacked-array test in full: true exactly when the text after the
      last occurrence of the name, cut at its first `;`, holds a `[` and a
      later `]`. */
  lemma UnpackedArrayMeans(d: string)
    requires SingleLine(d) && NameIsPlain(d) && SignalName(d).Some?
    ensures var rest := DropTerminatorTail(DropThroughName(d, SignalName(d).value));
      IsUnpackedArray(d) == Some(true) <==>
        exists i, j :: 0 <= i < j < |rest| && rest[i] == '[' && rest[j] == ']'
  {
    ArrayResidueSteps(d, SignalName(d).value);
  }

  /** A declaration without `[` is never an unpacked array. */
  lemma NoBracketIsScalar(d: string)
    requires SingleLine(d) && NameIsPlain(d) && SignalName(d).Some?
    requires '[' !in d
    ensures IsUnpackedArray(d) == Some(false)
  {
  }

  lemma IdentifierFacts(name: string)
    requires IsIdentifier(name)
    ensures IsToken(name) && IsPlainName(name) && SingleLine(name)
    ensures ';' !in name && '(' !in name && '[' !in name && ']' !in name
  {
  }

  /** The `;` tail never reaches the name search. */
  lemma NameResidueCut(body: string, tail: string)
    requires SingleLine(body + tail) && ';' !in body && (tail == [] || tail[0] == ';')
    ensures NameResidue(body + tail) == DropParenMarks(DropSubscriptGroups(body))
  {
    TerminatorTailAppend(body, tail);
    NameResidueSteps(body + tail);
  }

  /** A prefix without `(` keeps its place in front of the rest. */
  lemma ResidueAfterPrefix(prefix: string, rest: string)
    requires '(' !in prefix && OpensFirst(rest) && '(' !in DropSubscriptGroups(rest)
    ensures DropParenMarks(DropSubscriptGroups(prefix + rest)) ==
      DropSubscriptGroups(prefix) + DropSubscriptGroups(rest)
  {
    SubscriptGroupsAppend(prefix, rest);
    SubscriptGroupsExclude('(', prefix);
    ParenMarksPlain(DropSubscriptGroups(rest));
    ParenMarksAppend(DropSubscriptGroups(prefix), DropSubscriptGroups(rest));
  }

  /** The array test looks only at what follows the name. */
  lemma ArrayTestAfterName(lead: string, name: string, rest: string)
    requires SingleLine(lead + name + rest) && SingleLine(rest) && IsIdentifier(name)
    requires rest == [] || !IsWordChar(rest[0])
    requires !Occurs(rest, name)
    ensures ArrayResidue(lead + name + rest, name) == DropTerminatorTail(rest)
  {
    DropThroughNameAt(lead, name, rest);
    ArrayResidueSteps(lead + name + rest, name);
  }

  /** `<prefix> name`, optionally followed by a `;` tail that does not hold
      the name: the name is found and the field is scalar. The prefix may
      hold packed dimensions such as `logic [7:0]`. */
  lemma ScalarDeclaration(prefix: string, name: string, tail: string)
    requires SingleLine(prefix) && ';' !in prefix && '(' !in prefix
    requires IsIdentifier(name)
    requires SingleLine(tail) && (tail == [] || (tail[0] == ';' && !Occurs(tail, name)))
    ensures var d := prefix + " " + name + tail;
      SingleLine(d) && SignalName(d) == Some(name) && NameIsPlain(d) &&
      IsUnpackedArray(d) == Some(false)
  {
    IdentifierFacts(name);
    var d := prefix + " " + name + tail;
    var word := " " + name;
    assert d == (prefix + word) + tail;
    NameResidueCut(prefix + word, tail);
    NoBracketNext(word, 0);
    SubscriptGroupsPlain(word);
    ResidueAfterPrefix(prefix, word);
    var x := DropSubscriptGroups(prefix);
    assert x + word == (x + " ") + name + [];
    SignalNameOfResidue(d, x + " ", name, []);
    assert d == (prefix + " ") + name + tail;
    assert tail == [] ==> !Occurs(tail, name);
    ArrayTestAfterName(prefix + " ", name, tail);
    TerminatorTailAppend([], tail);
    assert [] + tail == tail;
  }

  lemma MidGroupDropped(name: string, dims: string)
    requires IsIdentifier(name) && '[' !in dims && ']' !in dims
    ensures OpensFirst((" " + name + " ") + ("[" + dims + "]"))
    ensures DropSubscriptGroups((" " + name + " ") + ("[" + dims + "]")) == " " + name + " "
  {
    IdentifierFacts(name);
    var group := "[" + dims + "]";
    var mid := " " + name + " ";
    NoBracketNext(mid, 0);
    NextBracketAppend(mid, group, 0);
    assert (mid + group)[|mid|] == '[';
    SubscriptGroupsPlain(mid);
    SubscriptGroupsAppend(mid, group);
    GroupDropped(dims, []);
    assert group + [] == group;
  }

  /** The name of `<prefix> name [dims]` with an optional `;` tail. */
  lemma ArrayDeclarationName(prefix: string, name: string, dims: string, tail: string)
    requires SingleLine(prefix) && ';' !in prefix && '(' !in prefix
    requires IsIdentifier(name)
    requires SingleLine(dims) && ';' !in dims && '[' !in dims && ']' !in dims
    requires SingleLine(tail) && (tail == [] || tail[0] == ';')
    ensures var d := prefix + " " + name + " [" + dims + "]" + tail;
      SingleLine(d) && SignalName(d) == Some(name)
  {
    IdentifierFacts(name);
    var d := prefix + " " + name + " [" + dims + "]" + tail;
    var mid, group := " " + name + " ", "[" + dims + "]";
    assert d == (prefix + (mid + group)) + tail;
    NameResidueCut(prefix + (mid + group), tail);
    MidGroupDropped(name, dims);
    ResidueAfterPrefix(prefix, mid + group);
    var x := DropSubscriptGroups(prefix);
    assert x + mid == (x + " ") + name + " ";
    SignalNameOfResidue(d, x + " ", name, " ");
  }

  /** `<prefix> name [dims]`, optionally followed by a `;` tail, where the
      name does not occur again after itself: the name is found and the
      field is an unpacked array. */
  lemma ArrayDeclaration(prefix: string, name: string, dims: string, tail: string)
    requires SingleLine(prefix) && ';' !in prefix && '(' !in prefix
    requires IsIdentifier(name)
    requires SingleLine(dims) && ';' !in dims && '[' !in dims && ']' !in dims
    requires SingleLine(tail) && (tail == [] || tail[0] == ';')
    requires !Occurs(" [" + dims + "]" + tail, name)
    ensures var d := prefix + " " + name + " [" + dims + "]" + tail;
      SingleLine(d) && SignalName(d) == Some(name) && NameIsPlain(d) &&
      IsUnpackedArray(d) == Some(true)
  {
    IdentifierFacts(name);
    var d := prefix + " " + name + " [" + dims + "]" + tail;
    ArrayDeclarationName(prefix, name, dims, tail);
    var group := " [" + dims + "]";
    assert ArrayResidue(d, name) == group by {
      var r := group + tail;
      assert d == (prefix + " ") + name + r;
      ArrayTestAfterName(prefix + " ", name, r);
      TerminatorTailAppend(group, tail);
    }
    assert HasBracketPair(group) by {
      assert group[1] == '[' && group[|group| - 1] == ']';
    }
  }

  /** A declaration made of one bracket group (with an optional `;` tail)
      leaves no token: the source's split()[-1] fails on it. */
  lemma DimensionsOnlyHaveNoName(dims: string, tail: string)
    requires SingleLine(dims) && ';' !in dims && '[' !in dims && ']' !in dims
    requires SingleLine(tail) && (tail == [] || tail[0] == ';')
    ensures SingleLine("[" + dims + "]" + tail) && SignalName("[" + dims + "]" + tail) == None
  {
    var d := "[" + dims + "]" + tail;
    var group := "[" + dims + "]";
    assert d == group + tail;
    TerminatorTailAppend(group, tail);
    GroupDropped(dims, []);
    assert group + [] == group;
    NameResidueSteps(d);
  }

  /** The bracket pass is a single pass: of a nested group only the inner
      part goes, so `[[a]]` becomes `[]`, which a second pass would remove. */
  lemma SinglePassOnNestedGroups()
    ensures DropSubscriptGroups("[[a]]") == "[]"
    ensures DropSubscriptGroups(DropSubscriptGroups("[[a]]")) == ""
  {
    var s := "[[a]]";
    assert NextBracket(s, 1) == 1;
    assert s[1..] == "[a]]";
    assert NextBracket("[a]]", 1) == 2;
    assert "[a]]"[3..] == "]";
    GroupDropped("", []);
    assert "[" + "" + "]" + [] == "[]";
  }

  /** The parenthesised mark is removed wherever it occurs, not only at the
      start of the text: text before it is kept, and so is a following part
      that starts with neither `)` nor whitespace. */
  lemma ParenMarkAnywhere(p: string, w: char, c: char, rest: string)
    requires '(' !in p && IsWordChar(w) && IsSpace(c)
    requires rest == [] || (rest[0] != ')' && !IsSpace(rest[0]))
    ensures DropParenMarks(p + ['(', w, c] + rest) == p + DropParenMarks(rest)
  {
    var m := ['(', w, c] + rest;
    assert p + ['(', w, c] + rest == p + m;
    ParenMarksAppend(p, m);
    assert ParenMarkAt(m);
    assert m[3..] == rest;
  }

  /** A mark at the start of the text goes together with the run of `)`
      right after it and the whitespace after those. */
  lemma LeadingMarkDropped(w: char, c: char, cl: string, ws: string, rest: string)
    requires IsWordChar(w) && IsSpace(c)
    requires forall k :: 0 <= k < |cl| ==> cl[k] == ')'
    requires forall k :: 0 <= k < |ws| ==> IsSpace(ws[k])
    requires rest == [] || (rest[0] != ')' && !IsSpace(rest[0]))
    ensures DropParenMarks(['(', w, c] + (cl + (ws + rest))) == DropParenMarks(rest)
  {
    var m := ['(', w, c] + (cl + (ws + rest));
    assert ParenMarkAt(m);
    assert m[3..] == cl + (ws + rest);
    assert ws != [] ==> (ws + rest)[0] == ws[0] && IsSpace(ws[0]) && !IsSpace(')');
    ClosersDropped(cl, ws + rest);
    SpacesTrimmed(ws, rest);
  }

  /** The whole match of \(\w\s\)*\s* goes: the mark, the run of `)` right
      after it and the whitespace after those, so `logic (a ) x` becomes
      `logic x`. Text before the mark is kept, and scanning resumes at the
      first character that is neither `)` nor whitespace. */
  lemma ParenMarkWithClosers(p: string, w: char, c: char, cl: string, ws: string, rest: string)
    requires '(' !in p && IsWordChar(w) && IsSpace(c)
    requires forall k :: 0 <= k < |cl| ==> cl[k] == ')'
    requires forall k :: 0 <= k < |ws| ==> IsSpace(ws[k])
    requires rest == [] || (rest[0] != ')' && !IsSpace(rest[0]))
    ensures DropParenMarks(p + ['(', w, c] + cl + ws + rest) == p + DropParenMarks(rest)
  {
    var m := ['(', w, c] + (cl + (ws + rest));
    assert p + ['(', w, c] + cl + ws + rest == p + m;
    ParenMarksAppend(p, m);
    LeadingMarkDropped(w, c, cl, ws, rest);
  }

  /** The example above, worked out. */
  lemma ParenMarkExample()
    ensures DropParenMarks("logic (a ) x") == "logic x"
  {
    assert "logic (a ) x" == "logic " + ['(', 'a', ' '] + ")" + " " + "x";
    ParenMarkWithClosers("logic ", 'a', ' ', ")", " ", "x");
    ParenMarksPlain("x");
  }

  // ---------------------------------------------------------------------
  // class SvCode

  /** SvCode: the declaration text and the two cached answers. None is the
      source's initial None; the source recomputes whenever the cached value
      is falsy, i.e. None, an empty name or False. */
  class SvCode {
    const lineOfCode: string
    var signalName: Option<string>
    var isUnpackedArray: Option<bool>

    /** A cached answer, once there, is the analyser's answer. */
    ghost predicate Valid()
      reads this
    {
      SingleLine(lineOfCode) &&
      (signalName.Some? ==> SignalName(lineOfCode) == signalName) &&
      (isUnpackedArray.Some? ==> NameIsPlain(lineOfCode) && IsUnpackedArray(lineOfCode) == isUnpackedArray)
    }

    constructor (lineOfCode: string)
      requires SingleLine(lineOfCode)
      ensures Valid()
      ensures this.lineOfCode == lineOfCode && signalName == None && isUnpackedArray == None
    {
      this.lineOfCode := lineOfCode;
      signalName := None;
      isUnpackedArray := None;
    }

    /** get_signal_name: the answer is always SignalName(lineOfCode); the
        cache keeps a found name. None where the source raises IndexError. */
    method GetSignalName() returns (name: Option<string>)
      requires Valid()
      modifies this
      ensures Valid()
      ensures name == SignalName(lineOfCode)
      ensures signalName == (if name.Some? then name else old(signalName))
      ensures isUnpackedArray == old(isUnpackedArray)
    {
      if signalName.None? || signalName.value == "" {
        var replacements := NameSubstitutions;
        var s := lineOfCode;
        for i := 0 to |replacements|
          invariant SingleLine(s) && s == SubstituteAll(replacements[..i], lineOfCode)
        {
          assert replacements[..i + 1][..i] == replacements[..i];
          s := Substitute(replacements[i], s);
        }
        assert replacements[..|replacements|] == replacements;
        var parts := Tokens(s);
        if parts == [] {
          return None;
        }
        signalName := Some(parts[|parts| - 1]);
      }
      name := signalName;
    }

    /** get_is_unpacked_array: the answer is always
        IsUnpackedArray(lineOfCode); a computed answer is cached, and only a
        cached True is reused. */
    method GetIsUnpackedArray() returns (isArray: Option<bool>)
      requires Valid() && NameIsPlain(lineOfCode)
      modifies this
      ensures Valid()
      ensures isArray == IsUnpackedArray(lineOfCode)
      ensures isUnpackedArray == (if isArray.Some? then isArray else old(isUnpackedArray))
      ensures old(isUnpackedArray) == Some(true) ==> signalName == old(signalName)
      ensures old(isUnpackedArray) != Some(true) ==>
        signalName == (if SignalName(lineOfCode).Some? then SignalName(lineOfCode) else old(signalName))
    {
      if isUnpackedArray != Some(true) {
        var name := GetSignalName();
        if name.None? {
          return None;
        }
        var replacements := ArraySubstitutions(name.value);
        var s := lineOfCode;
        for i := 0 to |replacements|
          invariant SingleLine(s) && s == SubstituteAll(replacements[..i], lineOfCode)
        {
          assert replacements[..i + 1][..i] == replacements[..i];
          s := Substitute(replacements[i], s);
        }
        assert replacements[..|replacements|] == replacements;
        isUnpackedArray := Some(HasBracketPair(s));
      }
      isArray := isUnpackedArray;
    }
  }

  /** Asking an SvCode twice gives the same answers both times: the caches
      never change a result. */
  method QueriesAreStable(code: SvCode)
    returns (firstName: Option<string>, secondName: Option<string>,
             firstArray: Option<bool>, secondArray: Option<bool>)
    requires code.Valid() && NameIsPlain(code.lineOfCode)
    modifies code
    ensures firstName == secondName == SignalName(code.lineOfCode)
    ensures firstArray == secondArray == IsUnpackedArray(code.lineOfCode)
  {
    firstName := code.GetSignalName();
    firstArray := code.GetIsUnpackedArray();
    secondName := code.GetSignalName();
    secondArray := code.GetIsUnpackedArray();
  }
}
