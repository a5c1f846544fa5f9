/** The string operations of Python that the generator relies on:
    str.split() and str.strip() without arguments, sep.join(xs),
    s.split(c) for a one-character separator, s.replace(pat, rep), and the
    character classes \s and \w, all restricted to ASCII. */
module Text {

  /** The ASCII characters for which Python's str.isspace() holds: tab, line
      feed, vertical tab, form feed, carriage return, the four information
      separators and space. str.split(), str.strip() and the regular
      expression class \s all treat exactly these as whitespace. */
  predicate IsSpace(c: char) {
    c in Whitespace
  }

  const Whitespace: set<char> := {' ', '\t', '\n', '\U{B}', '\U{C}', '\r', '\U{1C}', '\U{1D}', '\U{1E}', '\U{1F}'}

  /** The ASCII part of the regular expression class \w. */
  predicate IsWordChar(c: char) {
    ('a' <= c <= 'z') || ('A' <= c <= 'Z') || ('0' <= c <= '9') || c == '_'
  }

  /** Every character is whitespace (the empty text included). */
  predicate Blank(s: string) {
    forall i :: 0 <= i < |s| ==> IsSpace(s[i])
  }

  /** A non-empty run without whitespace: what str.split() yields. */
  predicate IsToken(t: string) {
    |t| > 0 && forall c :: c in t ==> !IsSpace(c)
  }

  lemma MultisetExcludes(c: char, r: string, s: string)
    requires multiset(r) <= multiset(s)
    requires c !in s
    ensures c !in r
  {
    assert multiset(s)[c] == 0;
  }

  lemma SuffixMultiset(s: string, k: nat)
    requires k <= |s|
    ensures multiset(s[k..]) <= multiset(s)
  {
    assert s == s[..k] + s[k..];
  }

  lemma SuffixExcludes(c: char, s: string, k: nat)
    requires k <= |s| && c !in s
    ensures c !in s[k..]
  {
    SuffixMultiset(s, k);
    MultisetExcludes(c, s[k..], s);
  }

  // ---------------------------------------------------------------------
  // str.split()

  /** The length of the run of non-whitespace that starts the text. */
  function WordLength(s: string): (n: nat)
    ensures n <= |s|
    ensures forall i :: 0 <= i < n ==> !IsSpace(s[i])
    ensures n < |s| ==> IsSpace(s[n])
  {
    if s == [] || IsSpace(s[0]) then 0 else 1 + WordLength(s[1..])
  }

  /** str.split() with no separator: the maximal runs of non-whitespace, in
      the order they occur. */
  function Tokens(s: string): seq<string>
    decreases |s|
  {
    if s == [] then []
    else if IsSpace(s[0]) then Tokens(s[1..])
    else
      var n := WordLength(s);
      [s[..n]] + Tokens(s[n..])
  }

  lemma TokensSkipSpace(s: string)
    requires s != [] && IsSpace(s[0])
    ensures Tokens(s) == Tokens(s[1..])
  {
  }

  lemma TokensTakeWord(s: string)
    requires s != [] && !IsSpace(s[0])
    ensures Tokens(s) == [s[..WordLength(s)]] + Tokens(s[WordLength(s)..])
  {
  }

  /** Each entry str.split() yields is a token. */
  lemma {:induction false} TokensAreTokens(s: string)
    ensures forall i :: 0 <= i < |Tokens(s)| ==> IsToken(Tokens(s)[i])
    decreases |s|
  {
    if s != [] {
      if IsSpace(s[0]) {
        TokensSkipSpace(s);
        TokensAreTokens(s[1..]);
      } else {
        var n := WordLength(s);
        TokensTakeWord(s);
        TokensAreTokens(s[n..]);
        assert forall j :: 0 <= j < n ==> s[..n][j] == s[j];
      }
    }
  }

  /** A character absent from s is absent from each of its tokens. */
  lemma {:induction false} TokensKeepOut(c: char, s: string)
    requires c !in s
    ensures forall i :: 0 <= i < |Tokens(s)| ==> c !in Tokens(s)[i]
    decreases |s|
  {
    if s != [] {
      if IsSpace(s[0]) {
        TokensSkipSpace(s);
        SuffixExcludes(c, s, 1);
        TokensKeepOut(c, s[1..]);
      } else {
        var n := WordLength(s);
        TokensTakeWord(s);
        SuffixExcludes(c, s, n);
        TokensKeepOut(c, s[n..]);
        assert forall j :: 0 <= j < n ==> s[..n][j] == s[j] && s[j] in s;
      }
    }
  }

  lemma {:induction false} WordLengthAppend(a: string, b: string)
    requires WordLength(a) < |a| || b == [] || IsSpace(b[0])
    ensures WordLength(a + b) == WordLength(a)
    decreases |a|
  {
    if a == [] {
      assert a + b == b;
    } else if !IsSpace(a[0]) {
      assert (a + b)[0] == a[0];
      assert (a + b)[1..] == a[1..] + b;
      WordLengthAppend(a[1..], b);
    }
  }

  /** Splitting two texts that meet at whitespace (or where one is empty)
      splits each of them on its own. */
  lemma {:induction false} TokensAppend(a: string, b: string)
    requires a == [] || b == [] || IsSpace(a[|a| - 1]) || IsSpace(b[0])
    ensures Tokens(a + b) == Tokens(a) + Tokens(b)
    decreases |a|, 1
  {
    if a == [] {
      assert a + b == b;
    } else if IsSpace(a[0]) {
      TokensAppendSpace(a, b);
    } else {
      TokensAppendWord(a, b);
    }
  }

  lemma {:induction false} TokensAppendSpace(a: string, b: string)
    requires a != [] && IsSpace(a[0])
    requires b == [] || IsSpace(a[|a| - 1]) || IsSpace(b[0])
    ensures Tokens(a + b) == Tokens(a) + Tokens(b)
    decreases |a|, 0
  {
    AppendSlices(a, b, 1);
    TokensSkipSpace(a + b);
    TokensSkipSpace(a);
    TokensAppend(a[1..], b);
  }

  lemma {:induction false} TokensAppendWord(a: string, b: string)
    requires a != [] && !IsSpace(a[0])
    requires b == [] || IsSpace(a[|a| - 1]) || IsSpace(b[0])
    ensures Tokens(a + b) == Tokens(a) + Tokens(b)
    decreases |a|, 0
  {
    var n := WordLength(a);
    assert WordLength(a + b) == n by { WordLengthAppend(a, b); }
    AppendSlices(a, b, n);
    calc {
      Tokens(a + b);
    == { TokensTakeWord(a + b); }
      [a[..n]] + Tokens(a[n..] + b);
    == { TokensAppend(a[n..], b); }
      [a[..n]] + (Tokens(a[n..]) + Tokens(b));
    == { ConcatAssoc([a[..n]], Tokens(a[n..]), Tokens(b)); TokensTakeWord(a); }
      Tokens(a) + Tokens(b);
    }
  }

  lemma AppendSlices<T>(a: seq<T>, b: seq<T>, n: nat)
    requires 0 < |a| && n <= |a|
    ensures (a + b)[0] == a[0]
    ensures (a + b)[..n] == a[..n] && (a + b)[n..] == a[n..] + b
    ensures n < |a| ==> a[n..][|a[n..]| - 1] == a[|a| - 1]
  {
  }

  lemma ConcatAssoc<T>(x: seq<T>, y: seq<T>, z: seq<T>)
    ensures x + (y + z) == (x + y) + z
  {
  }

  /** A text splits into no token exactly when it is blank. */
  lemma {:induction false} TokensOfBlank(s: string)
    ensures Tokens(s) == [] <==> Blank(s)
    decreases |s|
  {
    if s != [] && IsSpace(s[0]) {
      TokensSkipSpace(s);
      TokensOfBlank(s[1..]);
      assert forall i :: 1 <= i < |s| ==> s[i] == s[1..][i - 1];
    } else if s != [] {
      TokensTakeWord(s);
    }
  }

  lemma TokensOfToken(t: string)
    requires IsToken(t)
    ensures Tokens(t) == [t]
  {
    assert forall i :: 0 <= i < |t| ==> t[i] in t;
    assert t[..WordLength(t)] == t;
    TokensTakeWord(t);
  }

  /** The start of the run of non-whitespace that ends the text. */
  function LastWordStart(u: string): (k: nat)
    ensures k <= |u|
    ensures k == 0 || IsSpace(u[k - 1])
  {
    if u == [] || IsSpace(u[|u| - 1]) then |u| else LastWordStart(u[..|u| - 1])
  }

  /** Nothing from the start of the last word on is whitespace. */
  lemma {:induction false} LastWordNonSpace(u: string)
    ensures forall i :: LastWordStart(u) <= i < |u| ==> !IsSpace(u[i])
    decreases |u|
  {
    if u != [] && !IsSpace(u[|u| - 1]) {
      var p := u[..|u| - 1];
      LastWordNonSpace(p);
      assert forall i :: 0 <= i < |p| ==> p[i] == u[i];
    }
  }

  /** t sits at k in s, after whitespace or at the start, and only
      whitespace follows it. */
  predicate LastTokenAt(s: string, t: string, k: int) {
    0 <= k <= |s| - |t| && s[k..k + |t|] == t && Blank(s[k + |t|..]) &&
    (k == 0 || IsSpace(s[k - 1]))
  }

  /** The last token of s is the word that ends s once trailing whitespace
      is dropped. */
  lemma LastTokenPlace(s: string)
    requires Tokens(s) != []
    ensures LastTokenAt(s, Tokens(s)[|Tokens(s)| - 1], LastWordStart(TrimEnd(s)))
  {
    var u := TrimEnd(s);
    TrailingBlank(s);
    LastTokenOfTrimmed(u);
    WordAtEnd(s, u, LastWordStart(u));
  }

  /** Without trailing whitespace, the last token is the last word. */
  lemma LastTokenOfTrimmed(u: string)
    requires Tokens(u) != [] && (u == [] || !IsSpace(u[|u| - 1]))
    ensures Tokens(u)[|Tokens(u)| - 1] == u[LastWordStart(u)..]
  {
    assert u != [];
    LastWordSplit(u);
    var k := LastWordStart(u);
    var ts := Tokens(u[..k]);
    assert Tokens(u)[|Tokens(u)| - 1] == (ts + [u[k..]])[|ts|];
  }

  lemma WordAtEnd(s: string, u: string, k: nat)
    requires |u| <= |s| && u == s[..|u|] && Blank(s[|u|..])
    requires k <= |u| && (k == 0 || IsSpace(u[k - 1]))
    ensures LastTokenAt(s, u[k..], k)
  {
    assert s[k..|u|] == u[k..];
    assert k > 0 ==> s[k - 1] == u[k - 1];
  }

  /** Trailing whitespace contributes no token. */
  lemma TrailingBlank(s: string)
    ensures Tokens(s) == Tokens(TrimEnd(s))
    ensures Blank(s[|TrimEnd(s)|..])
  {
    var u := TrimEnd(s);
    var w := s[|u|..];
    TrimmedTail(s);
    TokensOfBlank(w);
    TokensAppend(u, w);
    assert Tokens(u) + [] == Tokens(u);
  }

  /** What TrimEnd drops is a whitespace tail. */
  lemma TrimmedTail(s: string)
    ensures s == TrimEnd(s) + s[|TrimEnd(s)|..]
    ensures Blank(s[|TrimEnd(s)|..])
  {
    var u := TrimEnd(s);
    var w := s[|u|..];
    assert forall i :: 0 <= i < |w| ==> w[i] == s[|u| + i];
  }

  /** A text that ends in a word splits into the tokens before that word
      and the word itself. */
  lemma LastWordSplit(u: string)
    requires u != [] && !IsSpace(u[|u| - 1])
    ensures Tokens(u) == Tokens(u[..LastWordStart(u)]) + [u[LastWordStart(u)..]]
  {
    LastWordIsToken(u);
    TokenSplitAt(u, LastWordStart(u));
  }

  /** A text whose tail after whitespace is a token splits into the tokens
      before it and the token. */
  lemma TokenSplitAt(u: string, k: nat)
    requires k <= |u| && (k == 0 || IsSpace(u[k - 1]))
    requires IsToken(u[k..])
    ensures Tokens(u) == Tokens(u[..k]) + [u[k..]]
  {
    assert u == u[..k] + u[k..];
    TokensAppend(u[..k], u[k..]);
    TokensOfToken(u[k..]);
  }

  lemma LastWordIsToken(u: string)
    requires u != [] && !IsSpace(u[|u| - 1])
    ensures IsToken(u[LastWordStart(u)..])
  {
    var k := LastWordStart(u);
    var v := u[k..];
    LastWordNonSpace(u);
    assert k < |u|;
    forall c | c in v
      ensures !IsSpace(c)
    {
      var i :| 0 <= i < |v| && v[i] == c;
      assert v[i] == u[k + i];
    }
  }

  // ---------------------------------------------------------------------
  // sep.join(xs)

  /** sep.join(xs) */
  function Join(sep: string, xs: seq<string>): string
  {
    if |xs| == 0 then []
    else if |xs| == 1 then xs[0]
    else xs[0] + sep + Join(sep, xs[1..])
  }

  /** Joining tokens with single spaces and splitting again gives the tokens
      back. */
  lemma {:induction false} TokensOfJoin(ts: seq<string>)
    requires forall i :: 0 <= i < |ts| ==> IsToken(ts[i])
    ensures Tokens(Join(" ", ts)) == ts
  {
    if |ts| == 1 {
      TokensOfToken(ts[0]);
    } else if |ts| > 1 {
      var rest := Join(" ", ts[1..]);
      assert ts[0] + " " + rest == ts[0] + (" " + rest);
      TokensAppend(ts[0], " " + rest);
      TokensOfToken(ts[0]);
      TokensSkipSpace(" " + rest);
      assert (" " + rest)[1..] == rest;
      TokensOfJoin(ts[1..]);
    }
  }

  /** A character found neither in the separator nor in any part is not in
      the joined text. */
  lemma {:induction false} JoinExcludes(c: char, sep: string, xs: seq<string>)
    requires c !in sep
    requires forall i :: 0 <= i < |xs| ==> c !in xs[i]
    ensures c !in Join(sep, xs)
  {
    if |xs| > 1 {
      JoinExcludes(c, sep, xs[1..]);
    }
  }

  lemma TokensExclude(c: char, ts: seq<string>)
    requires IsSpace(c) && c != ' '
    requires forall i :: 0 <= i < |ts| ==> IsToken(ts[i])
    ensures c !in Join(" ", ts)
  {
    forall i | 0 <= i < |ts| ensures c !in ts[i] {
      assert IsToken(ts[i]);
    }
    JoinExcludes(c, " ", ts);
  }

  // ---------------------------------------------------------------------
  // str.strip()

  function TrimStart(s: string): (r: string)
    ensures |r| <= |s| && r == s[|s| - |r|..]
    ensures r == [] || !IsSpace(r[0])
    ensures forall i :: 0 <= i < |s| - |r| ==> IsSpace(s[i])
  {
    if s != [] && IsSpace(s[0]) then
      var r := TrimStart(s[1..]);
      assert forall i :: 1 <= i < |s| - |r| ==> s[i] == s[1..][i - 1];
      r
    else s
  }

  /** A leading run of whitespace is exactly what TrimStart removes. */
  lemma {:induction false} SpacesTrimmed(ws: string, t: string)
    requires forall k :: 0 <= k < |ws| ==> IsSpace(ws[k])
    requires t == [] || !IsSpace(t[0])
    ensures TrimStart(ws + t) == t
    decreases |ws|
  {
    if ws == [] {
      assert ws + t == t;
    } else {
      assert (ws + t)[0] == ws[0];
      assert (ws + t)[1..] == ws[1..] + t;
      SpacesTrimmed(ws[1..], t);
    }
  }

  function TrimEnd(s: string): (r: string)
    ensures |r| <= |s| && r == s[..|r|]
    ensures r == [] || !IsSpace(r[|r| - 1])
    ensures forall i :: |r| <= i < |s| ==> IsSpace(s[i])
  {
    if s != [] && IsSpace(s[|s| - 1]) then TrimEnd(s[..|s| - 1]) else s
  }

  /** str.strip() with no argument: the text without its leading and
      trailing whitespace. */
  function Strip(s: string): (r: string)
    ensures r == [] || (!IsSpace(r[0]) && !IsSpace(r[|r| - 1]))
  {
    TrimEnd(TrimStart(s))
  }

  // ---------------------------------------------------------------------
  // s.split(c)

  /** The index of the first c in s, or |s| when there is none. */
  function IndexOf(s: string, c: char): (k: nat)
    ensures k <= |s|
    ensures k < |s| ==> s[k] == c
  {
    if s == [] || s[0] == c then 0 else 1 + IndexOf(s[1..], c)
  }

  /** No c comes before IndexOf(s, c). */
  lemma {:induction false} IndexOfFirst(s: string, c: char)
    ensures forall i :: 0 <= i < IndexOf(s, c) ==> s[i] != c
    decreases |s|
  {
    if s != [] && s[0] != c {
      IndexOfFirst(s[1..], c);
      assert forall i :: 1 <= i < |s| ==> s[i] == s[1..][i - 1];
    }
  }

  /** s.split(c) for a one-character separator c: never empty. */
  function Split(s: string, c: char): (parts: seq<string>)
    ensures |parts| > 0
    decreases |s|
  {
    var k := IndexOf(s, c);
    if k == |s| then [s] else [s[..k]] + Split(s[k + 1..], c)
  }

  lemma SplitStep(s: string, c: char)
    requires IndexOf(s, c) < |s|
    ensures Split(s, c) == [s[..IndexOf(s, c)]] + Split(s[IndexOf(s, c) + 1..], c)
  {
  }

  lemma SplitWhole(s: string, c: char)
    requires IndexOf(s, c) == |s|
    ensures Split(s, c) == [s]
  {
  }

  /** No part of s.split(c) holds the separator. */
  lemma {:induction false} SplitExcludes(s: string, c: char)
    ensures forall i :: 0 <= i < |Split(s, c)| ==> c !in Split(s, c)[i]
    decreases |s|
  {
    var k := IndexOf(s, c);
    if k == |s| {
      SplitWhole(s, c);
      assert c !in s by { IndexOfFirst(s, c); }
    } else {
      assert c !in s[..k] by {
        IndexOfFirst(s, c);
        assert forall j :: 0 <= j < k ==> s[..k][j] == s[j];
      }
      SplitExcludes(s[k + 1..], c);
      ConsExcludes(c, s[..k], Split(s[k + 1..], c));
      SplitStep(s, c);
    }
  }

  /** A character missing from a head string and from every string of a
      list is missing from every string of the list with the head in front. */
  lemma ConsExcludes(c: char, head: string, rest: seq<string>)
    requires c !in head
    requires forall i :: 0 <= i < |rest| ==> c !in rest[i]
    ensures forall i :: 0 <= i < |[head] + rest| ==> c !in ([head] + rest)[i]
  {
    forall i | 0 <= i < |[head] + rest| ensures c !in ([head] + rest)[i] {
      if i > 0 {
        assert ([head] + rest)[i] == rest[i - 1];
      }
    }
  }



  lemma IndexOfAppend(a: string, c: char, b: string)
    ensures IndexOf(a, c) < |a| ==> IndexOf(a + b, c) == IndexOf(a, c)
    ensures IndexOf(a, c) == |a| ==> IndexOf(a + b, c) == |a| + IndexOf(b, c)
  {
    var k, j := IndexOf(a, c), IndexOf(b, c);
    IndexOfFirst(a, c);
    IndexOfFirst(b, c);
    IndexOfFirst(a + b, c);
    assert forall i :: 0 <= i < |a| ==> (a + b)[i] == a[i];
    assert forall i :: |a| <= i < |a| + |b| ==> (a + b)[i] == b[i - |a|];
    assert k < |a| ==> (a + b)[k] == c;
    assert k == |a| && j < |b| ==> (a + b)[|a| + j] == c;
  }

  /** The first separator of a + [c] + b is the first one of a, or the
      one in the middle. */
  lemma MiddleIndex(a: string, c: char, b: string)
    ensures IndexOf(a + [c] + b, c) == IndexOf(a, c)
  {
    assert a + [c] + b == a + ([c] + b);
    IndexOfAppend(a, c, [c] + b);
    assert ([c] + b)[0] == c;
  }

  lemma MiddleSlices(a: string, c: char, b: string, k: nat)
    requires k <= |a|
    ensures (a + [c] + b)[..k] == a[..k]
    ensures k < |a| ==> (a + [c] + b)[k + 1..] == a[k + 1..] + [c] + b
    ensures k == |a| ==> (a + [c] + b)[k + 1..] == b
  {
  }

  /** Splitting at a separator in the middle splits each side on its own. */
  lemma {:induction false} SplitAppend(a: string, c: char, b: string)
    ensures Split(a + [c] + b, c) == Split(a, c) + Split(b, c)
    decreases |a|, 1
  {
    var k := IndexOf(a, c);
    if k == |a| {
      SplitAtSeparator(a, c, b);
    } else {
      SplitAppendLater(a, c, b);
    }
  }

  /** When a has no separator, the middle one is the first. */
  lemma SplitAtSeparator(a: string, c: char, b: string)
    requires IndexOf(a, c) == |a|
    ensures Split(a + [c] + b, c) == Split(a, c) + Split(b, c)
  {
    MiddleIndex(a, c, b);
    MiddleSlices(a, c, b, |a|);
    assert a[..|a|] == a;
    SplitStep(a + [c] + b, c);
    SplitWhole(a, c);
  }

  lemma {:induction false} SplitAppendLater(a: string, c: char, b: string)
    requires IndexOf(a, c) < |a|
    ensures Split(a + [c] + b, c) == Split(a, c) + Split(b, c)
    decreases |a|, 0
  {
    var k := IndexOf(a, c);
    var t := a[k + 1..];
    calc {
      Split(a + [c] + b, c);
    == { MiddleIndex(a, c, b); MiddleSlices(a, c, b, k); SplitStep(a + [c] + b, c); }
      [a[..k]] + Split(t + [c] + b, c);
    == { SplitAppend(t, c, b); }
      [a[..k]] + (Split(t, c) + Split(b, c));
    == { ConcatAssoc([a[..k]], Split(t, c), Split(b, c)); SplitStep(a, c); }
      Split(a, c) + Split(b, c);
    }
  }

  /** The parts of every text of xs, in order. */
  function SplitEach(xs: seq<string>, c: char): seq<string>
  {
    if xs == [] then [] else Split(xs[0], c) + SplitEach(xs[1..], c)
  }

  /** Splitting [c].join(xs) at c gives the parts of each entry in turn. */
  lemma {:induction false} SplitJoin(xs: seq<string>, c: char)
    requires xs != []
    ensures Split(Join([c], xs), c) == SplitEach(xs, c)
  {
    if |xs| == 1 {
      assert SplitEach(xs[1..], c) == [];
    } else {
      SplitAppend(xs[0], c, Join([c], xs[1..]));
      SplitJoin(xs[1..], c);
    }
  }

  /** Entries free of the separator are their own parts. */
  lemma {:induction false} SplitEachPlain(xs: seq<string>, c: char)
    requires forall i :: 0 <= i < |xs| ==> c !in xs[i]
    ensures SplitEach(xs, c) == xs
  {
    if xs != [] {
      assert forall i :: 0 <= i < |xs[0]| ==> xs[0][i] in xs[0];
      SplitEachPlain(xs[1..], c);
    }
  }

  /** [c].join(xs) splits back into xs when no entry holds c. */
  lemma SplitJoinPlain(xs: seq<string>, c: char)
    requires xs != []
    requires forall i :: 0 <= i < |xs| ==> c !in xs[i]
    ensures Split(Join([c], xs), c) == xs
  {
    SplitJoin(xs, c);
    SplitEachPlain(xs, c);
  }

  // ---------------------------------------------------------------------
  // counting and searching

  /** s.count(c) for a single character c. */
  function Count(s: string, c: char): nat
  {
    if s == [] then 0 else (if s[0] == c then 1 else 0) + Count(s[1..], c)
  }

  lemma {:induction false} CountAppend(a: string, b: string, c: char)
    ensures Count(a + b, c) == Count(a, c) + Count(b, c)
  {
    if a == [] {
      assert a + b == b;
    } else {
      assert (a + b)[1..] == a[1..] + b;
      CountAppend(a[1..], b, c);
    }
  }

  lemma {:induction false} CountAbsent(s: string, c: char)
    requires c !in s
    ensures Count(s, c) == 0
  {
    if s != [] {
      CountAbsent(s[1..], c);
    }
  }

  predicate OccursAt(s: string, pat: string, k: int) {
    0 <= k && k + |pat| <= |s| && s[k..k + |pat|] == pat
  }

  /** pat is a substring of s. */
  predicate Occurs(s: string, pat: string) {
    exists k :: 0 <= k <= |s| - |pat| && OccursAt(s, pat, k)
  }

  /** The last start at or below j of an occurrence of pat, or -1. */
  function LastOccurrenceBelow(s: string, pat: string, j: int): (k: int)
    ensures -1 <= k && (j >= -1 ==> k <= j)
    ensures k >= 0 ==> OccursAt(s, pat, k)
    ensures forall i :: k < i <= j ==> !OccursAt(s, pat, i)
    decreases if j < 0 then 0 else j + 1
  {
    if j < 0 then -1
    else if OccursAt(s, pat, j) then j
    else LastOccurrenceBelow(s, pat, j - 1)
  }

  /** The start of the last occurrence of pat in s, or -1 when pat does not
      occur. */
  function LastOccurrence(s: string, pat: string): (k: int)
    ensures -1 <= k
    ensures k >= 0 ==> OccursAt(s, pat, k)
    ensures forall i :: k < i ==> !OccursAt(s, pat, i)
    ensures k == -1 <==> !Occurs(s, pat)
  {
    LastOccurrenceBelow(s, pat, |s| - |pat|)
  }

  /** A pattern holding a character the text lacks does not occur in it. */
  lemma AbsentCharNoOccurrence(s: string, pat: string, c: char)
    requires c in pat && c !in s
    ensures !Occurs(s, pat)
  {
    var i :| 0 <= i < |pat| && pat[i] == c;
    forall k | 0 <= k <= |s| - |pat| ensures !OccursAt(s, pat, k) {
      assert s[k..k + |pat|][i] == s[k + i];
      assert s[k + i] in s;
    }
  }

  // ---------------------------------------------------------------------
  // str.replace

  /** s.replace(pat, rep): every occurrence found scanning left to right,
      without overlap, is replaced. */
  function ReplaceAll(s: string, pat: string, rep: string): string
    requires pat != []
    decreases |s|
  {
    if |s| < |pat| then s
    else if s[..|pat|] == pat then rep + ReplaceAll(s[|pat|..], pat, rep)
    else [s[0]] + ReplaceAll(s[1..], pat, rep)
  }

  /** A stretch holding no first character of the pattern is copied. */
  lemma {:induction false} ReplaceAllSkip(a: string, s: string, pat: string, rep: string)
    requires pat != [] && pat[0] !in a
    ensures ReplaceAll(a + s, pat, rep) == a + ReplaceAll(s, pat, rep)
    decreases |a|
  {
    if a != [] {
      assert (a + s)[0] == a[0];
      assert (a + s)[1..] == a[1..] + s;
      ReplaceAllSkip(a[1..], s, pat, rep);
    } else {
      assert a + s == s;
    }
  }

  /** A character that neither the text nor the replacement holds is not in
      the result. */
  lemma {:induction false} ReplaceAllExcludes(c: char, s: string, pat: string, rep: string)
    requires pat != [] && c !in s && c !in rep
    ensures c !in ReplaceAll(s, pat, rep)
    decreases |s|
  {
    if |s| >= |pat| {
      if s[..|pat|] == pat {
        SuffixExcludes(c, s, |pat|);
        ReplaceAllExcludes(c, s[|pat|..], pat, rep);
      } else {
        SuffixExcludes(c, s, 1);
        ReplaceAllExcludes(c, s[1..], pat, rep);
      }
    }
  }

  lemma ReplaceAllAt(s: string, pat: string, rep: string)
    requires pat != []
    ensures ReplaceAll(pat + s, pat, rep) == rep + ReplaceAll(s, pat, rep)
  {
    assert (pat + s)[..|pat|] == pat;
    assert (pat + s)[|pat|..] == s;
  }

  /** Where the pattern does not occur, nothing is replaced. */
  lemma {:induction false} ReplaceAllAbsent(s: string, pat: string, rep: string)
    requires pat != [] && !Occurs(s, pat)
    ensures ReplaceAll(s, pat, rep) == s
    decreases |s|
  {
    if |s| >= |pat| {
      assert !OccursAt(s, pat, 0);
      forall k | 0 <= k <= |s[1..]| - |pat| ensures !OccursAt(s[1..], pat, k) {
        assert !OccursAt(s, pat, k + 1);
        var here, there := s[1..][k..k + |pat|], s[k + 1..k + 1 + |pat|];
        assert forall i :: 0 <= i < |pat| ==> here[i] == there[i];
        assert here == there;
      }
      ReplaceAllAbsent(s[1..], pat, rep);
      assert s == [s[0]] + s[1..];
    }
  }

  /** f applied to each element, built from the back as a left-to-right
      pass builds it. */
  function MapEach<A, B>(f: A -> B, xs: seq<A>): (ys: seq<B>)
    ensures |ys| == |xs|
  {
    if xs == [] then [] else MapEach(f, xs[..|xs| - 1]) + [f(xs[|xs| - 1])]
  }

  lemma MapEachLast<A, B>(f: A -> B, xs: seq<A>, x: A)
    ensures MapEach(f, xs + [x]) == MapEach(f, xs) + [f(x)]
  {
    assert (xs + [x])[..|xs|] == xs;
  }

  /** Mapping one more element of a prefix. */
  lemma MapEachPrefix<A, B>(f: A -> B, xs: seq<A>, i: nat)
    requires i < |xs|
    ensures MapEach(f, xs[..i + 1]) == MapEach(f, xs[..i]) + [f(xs[i])]
  {
    assert xs[..i + 1][..i] == xs[..i];
  }

  lemma {:induction false} MapEachAt<A, B>(f: A -> B, xs: seq<A>, i: nat)
    requires i < |xs|
    ensures MapEach(f, xs)[i] == f(xs[i])
    decreases |xs|
  {
    if i < |xs| - 1 {
      MapEachAt(f, xs[..|xs| - 1], i);
    }
  }

  /** The sequences of xss one after another, in order. */
  function Flatten<T>(xss: seq<seq<T>>): (r: seq<T>)
  {
    if xss == [] then [] else Flatten(xss[..|xss| - 1]) + xss[|xss| - 1]
  }

  lemma FlattenLast<T>(xss: seq<seq<T>>, xs: seq<T>)
    ensures Flatten(xss + [xs]) == Flatten(xss) + xs
  {
    assert (xss + [xs])[..|xss|] == xss;
  }

  lemma {:induction false} SplitEachLast(xs: seq<string>, x: string, c: char)
    ensures SplitEach(xs + [x], c) == SplitEach(xs, c) + Split(x, c)
  {
    if xs == [] {
      assert xs + [x] == [x];
    } else {
      assert (xs + [x])[1..] == xs[1..] + [x];
      SplitEachLast(xs[1..], x, c);
    }
  }

  /** The occurrences of c in all of xs. */
  function CountEach(xs: seq<string>, c: char): nat
  {
    if xs == [] then 0 else Count(xs[0], c) + CountEach(xs[1..], c)
  }

  lemma {:induction false} CountEachLast(xs: seq<string>, x: string, c: char)
    ensures CountEach(xs + [x], c) == CountEach(xs, c) + Count(x, c)
  {
    if xs == [] {
      assert xs + [x] == [x];
    } else {
      assert (xs + [x])[1..] == xs[1..] + [x];
      CountEachLast(xs[1..], x, c);
    }
  }

  /** A separator without c adds no occurrence of c. */
  lemma {:induction false} CountJoin(sep: string, xs: seq<string>, c: char)
    requires c !in sep
    ensures Count(Join(sep, xs), c) == CountEach(xs, c)
  {
    if |xs| == 1 {
      assert xs[1..] == [];
    } else if |xs| > 1 {
      CountJoin(sep, xs[1..], c);
      CountAppend(xs[0] + sep, Join(sep, xs[1..]), c);
      CountAppend(xs[0], sep, c);
      CountAbsent(sep, c);
    }
  }
}
