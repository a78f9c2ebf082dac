/** Template substitution and assignment parsing over the state document
    (state.js, `state.interpolate` and the body of the closure that
    `state.parseAction` returns). */
module Interpolation {
  import opened Values
  import opened Text
  import opened Document

  /** A match of `/\$[a-zA-Z0-9_.]+/` can start at `i`. */
  predicate RefStart(s: string, i: nat)
  {
    i + 1 < |s| && s[i] == '$' && IsNameChar(s[i + 1])
  }

  /** The leftmost position at or after `from` where a `$name` reference
      starts. */
  function FindRef(s: string, from: nat): (r: Option<nat>)
    requires from <= |s|
    ensures r.Some? ==> from <= r.value && RefStart(s, r.value)
    ensures r.Some? ==> forall k :: from <= k < r.value ==> !RefStart(s, k)
    ensures r.None? ==> forall k :: from <= k < |s| ==> !RefStart(s, k)
    decreases |s| - from
  {
    if from == |s| then None
    else if RefStart(s, from) then Some(from)
    else FindRef(s, from + 1)
  }

  /** A match of `/\$\{([a-zA-Z0-9_.]+)}/` can start at `i`. */
  predicate BraceStart(s: string, i: nat)
  {
    && i + 2 < |s| && s[i] == '$' && s[i + 1] == '{' && IsNameChar(s[i + 2])
    && var j := RunEnd(s, i + 2, IsNameChar); j < |s| && s[j] == '}'
  }

  /** The leftmost position at or after `from` where a `${name}` reference
      starts. */
  function FindBrace(s: string, from: nat): (r: Option<nat>)
    requires from <= |s|
    ensures r.Some? ==> from <= r.value && BraceStart(s, r.value)
    ensures r.Some? ==> forall k :: from <= k < r.value ==> !BraceStart(s, k)
    ensures r.None? ==> forall k :: from <= k < |s| ==> !BraceStart(s, k)
    decreases |s| - from
  {
    if from == |s| then None
    else if BraceStart(s, from) then Some(from)
    else FindBrace(s, from + 1)
  }

  /** `s.replace(/(\$[a-zA-Z0-9_.]+)/, (_, name) => state(name))`: the
      leftmost reference, taken as long as possible, is replaced by the
      string form of its value; the rest of `s` is kept as written. */
  function ReplaceFirstRef(doc: Doc, s: string): (r: string)
    ensures FindRef(s, 0).None? ==> r == s
  {
    match FindRef(s, 0)
    case None => s
    case Some(i) =>
      var j := RunEnd(s, i + 1, IsNameChar);
      s[..i] + ToString(Get(doc, s[i..j], Null)) + s[j..]
  }

  /** With a match at `i`, only the first reference is replaced: the
      longest run of name characters after the `$` is the name, its value's
      string takes its place, and the text around it is kept. */
  lemma ReplaceFirstRefAt(doc: Doc, s: string, i: nat)
    requires FindRef(s, 0) == Some(i)
    ensures RefStart(s, i) && forall k :: 0 <= k < i ==> !RefStart(s, k)
    ensures var j := RunEnd(s, i + 1, IsNameChar);
      && (forall k :: i + 1 <= k < j ==> IsNameChar(s[k]))
      && (j == |s| || !IsNameChar(s[j]))
      && ReplaceFirstRef(doc, s) == s[..i] + ToString(Get(doc, s[i..j], Null)) + s[j..]
  {
  }

  /** `s.replace(/\$\{([a-zA-Z0-9_.]+)}/, (_, name) => state("$" + name))`. */
  function ReplaceFirstBrace(doc: Doc, s: string): (r: string)
    ensures FindBrace(s, 0).None? ==> r == s
  {
    match FindBrace(s, 0)
    case None => s
    case Some(i) => ReplaceBraceAt(doc, s, i)
  }

  /** The replacement of the `${name}` reference that starts at `i`. */
  function ReplaceBraceAt(doc: Doc, s: string, i: nat): string
    requires BraceStart(s, i)
  {
    var j := RunEnd(s, i + 2, IsNameChar);
    s[..i] + ToString(Get(doc, "$" + s[i + 2..j], Null)) + s[j + 1..]
  }

  /** With a match at `i`, only the first `${name}` is replaced, by the
      string form of the state value of `$name`, and the text around it is
      kept. */
  lemma ReplaceFirstBraceAt(doc: Doc, s: string, i: nat)
    requires FindBrace(s, 0) == Some(i)
    ensures BraceStart(s, i) && forall k :: 0 <= k < i ==> !BraceStart(s, k)
    ensures var j := RunEnd(s, i + 2, IsNameChar);
      && j < |s| && s[j] == '}'
      && ReplaceFirstBrace(doc, s) == s[..i] + ToString(Get(doc, "$" + s[i + 2..j], Null)) + s[j + 1..]
  {
    BraceMatchEnd(s, i);
    ReplaceFirstBraceIs(doc, s, i);
  }

  lemma BraceMatchEnd(s: string, i: nat)
    requires FindBrace(s, 0) == Some(i)
    ensures var j := RunEnd(s, i + 2, IsNameChar); i + 2 <= j < |s| && s[j] == '}'
  {
    assert BraceStart(s, i);
  }

  lemma ReplaceFirstBraceIs(doc: Doc, s: string, i: nat)
    requires FindBrace(s, 0) == Some(i)
    ensures var j := RunEnd(s, i + 2, IsNameChar);
      j < |s| && ReplaceFirstBrace(doc, s) == s[..i] + ToString(Get(doc, "$" + s[i + 2..j], Null)) + s[j + 1..]
  {
    BraceMatchEnd(s, i);
    assert ReplaceFirstBrace(doc, s) == ReplaceBraceAt(doc, s, i);
  }

  /** `state.interpolate(input)`. */
  function Interpolate(doc: Doc, input: string): (r: string)
    ensures '$' !in input ==> r == input
  {
    ReplaceFirstBrace(doc, ReplaceFirstRef(doc, input))
  }

  /** A leading `$a`, with `a` a word and the next character outside the
      name class, is the first reference, and it ends where `a` ends. */
  lemma LeadingRef(a: string, rest: string)
    requires |a| > 0 && forall k :: 0 <= k < |a| ==> IsWordChar(a[k])
    requires |rest| > 0 && !IsNameChar(rest[0])
    ensures FindRef("$" + a + rest, 0) == Some(0)
    ensures RunEnd("$" + a + rest, 1, IsNameChar) == |a| + 1
  {
    var s := "$" + a + rest;
    assert s[1] == a[0];
    assert RefStart(s, 0);
    var j := RunEnd(s, 1, IsNameChar);
    forall k | 1 <= k < |a| + 1 ensures IsNameChar(s[k]) { assert s[k] == a[k - 1]; }
    assert s[|a| + 1] == rest[0];
  }

  /** No `${` in a string means no `${name}` reference. */
  lemma NoBraceWithoutOpening(s: string)
    requires forall i :: 0 <= i < |s| - 1 ==> !(s[i] == '$' && s[i + 1] == '{')
    ensures FindBrace(s, 0).None?
  {
  }

  /** Only the first plain reference is substituted: for `$a rest` where
      `a` is a top-level name whose value's string has no `$`, the result is
      that string followed by `rest` exactly as written, even when `rest`
      holds more `$name` references. */
  lemma InterpolateFirstOnly(doc: Doc, a: string, rest: string)
    requires |a| > 0 && forall k :: 0 <= k < |a| ==> IsWordChar(a[k])
    requires |rest| > 0 && !IsNameChar(rest[0]) && '{' !in rest
    requires '$' !in ToString(Lookup(doc, "$" + a))
    ensures Interpolate(doc, "$" + a + rest) == ToString(Lookup(doc, "$" + a)) + rest
  {
    var t := ReplaceFirstRef(doc, "$" + a + rest);
    ReplaceLeadingRef(doc, a, rest);
    NoBraceAfterValue(ToString(Lookup(doc, "$" + a)), rest);
    assert Interpolate(doc, "$" + a + rest) == ReplaceFirstBrace(doc, t) == t;
  }

  /** A leading `$a` followed by a character outside the name class is
      replaced by the string of the top-level value `$a`. */
  lemma ReplaceLeadingRef(doc: Doc, a: string, rest: string)
    requires |a| > 0 && forall k :: 0 <= k < |a| ==> IsWordChar(a[k])
    requires |rest| > 0 && !IsNameChar(rest[0])
    ensures ReplaceFirstRef(doc, "$" + a + rest) == ToString(Lookup(doc, "$" + a)) + rest
  {
    var s := "$" + a + rest;
    var name := "$" + a;
    LeadingRef(a, rest);
    assert s[0..|a| + 1] == name;
    assert s[|a| + 1..] == rest;
    WordNameHasNoDot(a);
    GetTopLevel(doc, name, Null);
    assert ReplaceFirstRef(doc, s) == s[..0] + ToString(Get(doc, s[0..|a| + 1], Null)) + s[|a| + 1..];
    assert s[..0] == [];
  }

  /** A `$` followed by word characters names a top-level value. */
  lemma WordNameHasNoDot(a: string)
    requires forall k :: 0 <= k < |a| ==> IsWordChar(a[k])
    ensures '.' !in "$" + a
  {
    var name := "$" + a;
    forall k | 0 <= k < |name| ensures name[k] != '.' {
      if k > 0 { assert name[k] == a[k - 1]; }
    }
  }

  /** A value string without `$` followed by text without `{` holds no
      `${name}` reference. */
  lemma NoBraceAfterValue(v: string, rest: string)
    requires '$' !in v && '{' !in rest
    ensures FindBrace(v + rest, 0).None?
  {
    var t := v + rest;
    forall i | 0 <= i < |t| - 1 ensures !(t[i] == '$' && t[i + 1] == '{') {
      if i + 1 < |v| {
        assert t[i] == v[i];
      } else {
        assert t[i + 1] == rest[i + 1 - |v|];
      }
    }
    NoBraceWithoutOpening(t);
  }

  /** One match of `/(\$\w+)\s*=\s*(\$?\w+)/`: where it starts, the
      assigned name, the right-hand side, and where the match ends. */
  datatype Assignment = Assignment(start: nat, target: string, source: string, end: nat)

  /** `\$\w+`. */
  predicate IsTarget(t: string)
  {
    |t| >= 2 && t[0] == '$' && forall k :: 1 <= k < |t| ==> IsWordChar(t[k])
  }

  /** `\s*=\s*`: one `=` with white space around it. */
  ghost predicate IsGap(g: string)
  {
    exists q :: 0 <= q < |g| && g[q] == '=' && forall k :: 0 <= k < |g| && k != q ==> IsSpace(g[k])
  }

  /** `\$?\w+`, the optional `$` taken when it is there. */
  predicate IsSource(t: string)
  {
    && |t| >= 1
    && (t[0] == '$' ==> |t| >= 2 && forall k :: 1 <= k < |t| ==> IsWordChar(t[k]))
    && (t[0] != '$' ==> forall k :: 0 <= k < |t| ==> IsWordChar(t[k]))
  }

  /** `m` is the match of the assignment pattern at `m.start`: the text
      from `m.start` to `m.end` is the target, a gap and the source, and the
      greedy `\w+` at its end takes every word character there is. */
  ghost predicate MatchesAt(s: string, m: Assignment)
  {
    var a := m.start + |m.target|;
    var c := m.end - |m.source|;
    && a <= c <= m.end <= |s|
    && s[m.start..a] == m.target && IsTarget(m.target)
    && IsGap(s[a..c])
    && s[c..m.end] == m.source && IsSource(m.source)
    && (m.end == |s| || !IsWordChar(s[m.end]))
  }

  /** Where `\s*=\s*` taken as long as possible ends, when it matches at `a`. */
  function GapEnd(s: string, a: nat): (c: Option<nat>)
    requires a <= |s|
    ensures c.Some? ==> a < c.value <= |s|
  {
    var b := RunEnd(s, a, IsSpace);
    if b < |s| && s[b] == '=' then Some(RunEnd(s, b + 1, IsSpace)) else None
  }

  /** Where `\$?\w+` taken as long as possible ends; `c` itself when it
      does not match at `c`. */
  function SourceEnd(s: string, c: nat): (e: nat)
    requires c <= |s|
    ensures c <= e <= |s|
  {
    if c + 1 < |s| && s[c] == '$' && IsWordChar(s[c + 1]) then RunEnd(s, c + 1, IsWordChar)
    else if c < |s| && IsWordChar(s[c]) then RunEnd(s, c, IsWordChar)
    else c
  }

  /** The match of the assignment pattern that starts at `i`, if any. Each
      part of the pattern can only be taken as long as possible, because the
      character classes that follow one another are disjoint. */
  function AssignmentAt(s: string, i: nat): (r: Option<Assignment>)
    requires i <= |s|
    ensures r.Some? ==> r.value.start == i && i < r.value.end <= |s|
    ensures r.Some? ==> |r.value.target| >= 2 && r.value.target[0] == '$'
    ensures r.Some? ==> forall k :: 1 <= k < |r.value.target| ==> IsWordChar(r.value.target[k])
    ensures r.Some? ==> |r.value.source| >= 1
    ensures r.Some? && r.value.source[0] == '$' ==> |r.value.source| >= 2
  {
    if i + 1 < |s| && s[i] == '$' && IsWordChar(s[i + 1]) then
      var a := RunEnd(s, i + 1, IsWordChar);
      match GapEnd(s, a)
      case Some(c) =>
        var e := SourceEnd(s, c);
        if c < e then Some(Assignment(i, s[i..a], s[c..e], e)) else None
      case None => None
    else None
  }

  /** What `AssignmentAt` finds is a match of the pattern. */
  lemma AssignmentAtMatches(s: string, i: nat)
    requires i <= |s| && AssignmentAt(s, i).Some?
    ensures MatchesAt(s, AssignmentAt(s, i).value)
  {
    var m := AssignmentAt(s, i).value;
    var a := RunEnd(s, i + 1, IsWordChar);
    var c := GapEnd(s, a).value;
    assert m.start + |m.target| == a && m.end - |m.source| == c;
    GapEndIsGap(s, a);
    var t := m.target;
    forall k | 1 <= k < |t| ensures IsWordChar(t[k]) { assert t[k] == s[i + k]; }
    SourceEndIsSource(s, c);
  }

  /** What `GapEnd` takes is a gap. */
  lemma GapEndIsGap(s: string, a: nat)
    requires a <= |s| && GapEnd(s, a).Some?
    ensures IsGap(s[a..GapEnd(s, a).value])
  {
    var b := RunEnd(s, a, IsSpace);
    var c := GapEnd(s, a).value;
    var g := s[a..c];
    assert g[b - a] == '=';
    forall k | 0 <= k < |g| && k != b - a ensures IsSpace(g[k]) {
      assert g[k] == s[a + k];
    }
  }

  /** What `SourceEnd` takes, when it takes anything, is a source that no
      word character follows. */
  lemma SourceEndIsSource(s: string, c: nat)
    requires c <= |s| && c < SourceEnd(s, c)
    ensures IsSource(s[c..SourceEnd(s, c)])
    ensures SourceEnd(s, c) == |s| || !IsWordChar(s[SourceEnd(s, c)])
  {
    var src := s[c..SourceEnd(s, c)];
    assert src[0] == s[c];
    forall k | 0 <= k < |src| && (k > 0 || src[0] != '$') ensures IsWordChar(src[k]) { assert src[k] == s[c + k]; }
  }

  /** A match of the pattern at `m.start` is what `AssignmentAt` finds
      there: the pattern has no other match at that position. */
  lemma MatchIsAssignmentAt(s: string, m: Assignment)
    requires MatchesAt(s, m)
    ensures m.start < m.end <= |s| && AssignmentAt(s, m.start) == Some(m)
  {
    var i := m.start;
    var a := i + |m.target|;
    var c := m.end - |m.source|;
    assert s[c] == m.source[0];
    MatchGap(s, a, c);
    MatchTarget(s, i, a);
    MatchSource(s, c, m.end);
  }

  /** A target followed by something other than a word character ends
      where the longest word run after its `$` ends. */
  lemma MatchTarget(s: string, i: nat, a: nat)
    requires i <= a < |s| && IsTarget(s[i..a]) && !IsWordChar(s[a])
    ensures i + 1 < |s| && s[i] == '$' && IsWordChar(s[i + 1])
    ensures RunEnd(s, i + 1, IsWordChar) == a
  {
    var t := s[i..a];
    assert s[i] == t[0] && s[i + 1] == t[1];
    forall k | i + 1 <= k < a ensures IsWordChar(s[k]) { assert s[k] == t[k - i]; }
    RunEndIs(s, i + 1, a, IsWordChar);
  }

  /** A gap followed by something other than white space is what `GapEnd`
      takes. */
  lemma MatchGap(s: string, a: nat, c: nat)
    requires a <= c < |s| && IsGap(s[a..c]) && !IsSpace(s[c])
    ensures GapEnd(s, a) == Some(c)
    ensures !IsWordChar(s[a])
  {
    var g := s[a..c];
    var q :| 0 <= q < |g| && g[q] == '=' && forall k :: 0 <= k < |g| && k != q ==> IsSpace(g[k]);
    forall k | a <= k < c && k != a + q ensures IsSpace(s[k]) { assert s[k] == g[k - a]; }
    assert s[a + q] == g[q];
    GapRuns(s, a, a + q, c);
  }

  /** White space, `=` at `b` and white space up to `c` is what `GapEnd`
      takes. */
  lemma GapRuns(s: string, a: nat, b: nat, c: nat)
    requires a <= b < c < |s| && s[b] == '=' && !IsSpace(s[c])
    requires forall k :: a <= k < c && k != b ==> IsSpace(s[k])
    ensures GapEnd(s, a) == Some(c)
    ensures !IsWordChar(s[a])
  {
    RunEndIs(s, a, b, IsSpace);
    RunEndIs(s, b + 1, c, IsSpace);
  }

  /** A source that no word character follows is what `SourceEnd` takes. */
  lemma MatchSource(s: string, c: nat, e: nat)
    requires c <= e <= |s| && IsSource(s[c..e]) && (e == |s| || !IsWordChar(s[e]))
    ensures c < |s| && !IsSpace(s[c])
    ensures SourceEnd(s, c) == e
  {
    var src := s[c..e];
    assert s[c] == src[0];
    forall k | c <= k < e && (k > c || src[0] != '$') ensures IsWordChar(s[k]) { assert s[k] == src[k - c]; }
    if src[0] == '$' {
      assert s[c + 1] == src[1];
      RunEndIs(s, c + 1, e, IsWordChar);
    } else {
      RunEndIs(s, c, e, IsWordChar);
    }
  }

  /** `input.matchAll(/(\$\w+)\s*=\s*(\$?\w+)/g)` from position `from`. */
  function AssignmentsFrom(s: string, from: nat): seq<Assignment>
    requires from <= |s|
    decreases |s| - from
  {
    if from == |s| then []
    else match AssignmentAt(s, from)
      case Some(m) => [m] + AssignmentsFrom(s, m.end)
      case None => AssignmentsFrom(s, from + 1)
  }

  /** Where `matchAll` resumes the search for the `k`-th match: at `from`
      for the first, after the previous match for the others. */
  function Resume(from: nat, ms: seq<Assignment>, k: nat): nat
    requires k <= |ms|
  {
    if k == 0 then from else ms[k - 1].end
  }

  /** The `k`-th assignment `matchAll` finds is a match of the pattern. */
  lemma {:induction false} AssignmentFromIsMatch(s: string, from: nat, k: nat)
    requires from <= |s| && k < |AssignmentsFrom(s, from)|
    ensures MatchesAt(s, AssignmentsFrom(s, from)[k])
    decreases |s| - from
  {
    var ms := AssignmentsFrom(s, from);
    if AssignmentAt(s, from).Some? {
      var m0 := AssignmentAt(s, from).value;
      var rest := AssignmentsFrom(s, m0.end);
      assert ms == [m0] + rest;
      if k == 0 {
        AssignmentAtMatches(s, from);
      } else {
        AssignmentFromIsMatch(s, m0.end, k - 1);
        assert ms[k] == rest[k - 1];
      }
    } else {
      AssignmentFromIsMatch(s, from + 1, k);
    }
  }

  /** The `k`-th assignment `matchAll` finds starts no earlier than where
      the search resumed, so the assignments do not overlap. */
  lemma {:induction false} AssignmentFromAfterResume(s: string, from: nat, k: nat)
    requires from <= |s| && k < |AssignmentsFrom(s, from)|
    ensures Resume(from, AssignmentsFrom(s, from), k) <= AssignmentsFrom(s, from)[k].start
    decreases |s| - from
  {
    if AssignmentAt(s, from).None? {
      AssignmentFromAfterResume(s, from + 1, k);
    } else if k > 0 {
      var m0 := AssignmentAt(s, from).value;
      ResumeCons(from, m0, AssignmentsFrom(s, m0.end), k);
      AssignmentFromAfterResume(s, m0.end, k - 1);
    }
  }

  /** Resuming after the first of `[m0] + rest` is resuming in `rest`. */
  lemma ResumeCons(from: nat, m0: Assignment, rest: seq<Assignment>, k: nat)
    requires 1 <= k <= |rest| + 1
    ensures Resume(from, [m0] + rest, k) == Resume(m0.end, rest, k - 1)
    ensures k <= |rest| ==> ([m0] + rest)[k] == rest[k - 1]
  {
  }

  /** A position at or after where the search for the `k`-th assignment
      resumed, where a match starts, is no earlier than that assignment, and
      after the last assignment no match starts at all: the search takes
      the leftmost match each time. */
  lemma {:induction false} AssignmentFromLeftmost(s: string, from: nat, k: nat, p: nat)
    requires from <= |s| && p <= |s| && k <= |AssignmentsFrom(s, from)|
    requires AssignmentAt(s, p).Some? && Resume(from, AssignmentsFrom(s, from), k) <= p
    ensures k < |AssignmentsFrom(s, from)| && AssignmentsFrom(s, from)[k].start <= p
    decreases |s| - from
  {
    if from == |s| {
    } else if AssignmentAt(s, from).None? {
      assert AssignmentsFrom(s, from) == AssignmentsFrom(s, from + 1);
      assert p != from;
      AssignmentFromLeftmost(s, from + 1, k, p);
    } else {
      var m0 := AssignmentAt(s, from).value;
      var rest := AssignmentsFrom(s, m0.end);
      assert AssignmentsFrom(s, from) == [m0] + rest;
      if k > 0 {
        ResumeCons(from, m0, rest, k);
        AssignmentFromLeftmost(s, m0.end, k - 1, p);
      }
    }
  }

  /** `AssignmentsFrom` is `matchAll`, first half: its assignments are
      matches of the pattern, in order and without overlap. */
  lemma AssignmentsFromAreMatches(s: string, from: nat)
    requires from <= |s|
    ensures var ms := AssignmentsFrom(s, from);
      forall k :: 0 <= k < |ms| ==> MatchesAt(s, ms[k]) && Resume(from, ms, k) <= ms[k].start
  {
    var ms := AssignmentsFrom(s, from);
    forall k | 0 <= k < |ms| ensures MatchesAt(s, ms[k]) && Resume(from, ms, k) <= ms[k].start {
      AssignmentFromIsMatch(s, from, k);
      AssignmentFromAfterResume(s, from, k);
    }
  }

  /** `AssignmentsFrom` is `matchAll`, second half: each assignment is the
      leftmost match from where the search resumed, and no match starts
      after the last one. */
  lemma AssignmentsFromAreLeftmost(s: string, from: nat)
    requires from <= |s|
    ensures var ms := AssignmentsFrom(s, from);
      forall k, m :: 0 <= k <= |ms| && MatchesAt(s, m) && Resume(from, ms, k) <= m.start ==>
        k < |ms| && ms[k].start <= m.start
  {
    var ms := AssignmentsFrom(s, from);
    forall k, m | 0 <= k <= |ms| && MatchesAt(s, m) && Resume(from, ms, k) <= m.start
      ensures k < |ms| && ms[k].start <= m.start
    {
      MatchIsAssignmentAt(s, m);
      AssignmentFromLeftmost(s, from, k, m.start);
    }
  }

  function Assignments(s: string): seq<Assignment>
  {
    AssignmentsFrom(s, 0)
  }

  /** The value an assignment stores: a `$`-prefixed right-hand side is
      interpolated against the state, any other is looked up in the
      context object. */
  function AssignedValue(doc: Doc, context: map<string, Value>, m: Assignment): Value
  {
    if |m.source| > 0 && m.source[0] == '$' then Str(Interpolate(doc, m.source))
    else Lookup(context, m.source)
  }

  function AssignmentEntries(doc: Doc, context: map<string, Value>, ms: seq<Assignment>): (es: seq<(string, Value)>)
    ensures |es| == |ms|
    ensures forall i :: 0 <= i < |ms| ==> es[i] == (ms[i].target, AssignedValue(doc, context, ms[i]))
  {
    seq(|ms|, i requires 0 <= i < |ms| => (ms[i].target, AssignedValue(doc, context, ms[i])))
  }

  /** The loop of the `parseAction` closure that fills `action`, one match
      at a time; a later assignment to the same name overwrites an earlier
      one. */
  method BuildAction(doc: Doc, input: string, context: map<string, Value>) returns (action: map<string, Value>)
    ensures action == FromEntries(AssignmentEntries(doc, context, Assignments(input)))
  {
    var ms := Assignments(input);
    ghost var es := AssignmentEntries(doc, context, ms);
    action := map[];
    var i := 0;
    while i < |ms|
      invariant 0 <= i <= |ms|
      invariant action == FromEntries(es[..i])
    {
      var value := AssignedValue(doc, context, ms[i]);
      FromEntriesPrefix(es, i);
      action := action[ms[i].target := value];
      i := i + 1;
    }
    assert es[..|ms|] == es;
  }

  /** What the closure puts in its single update: every assigned name, each
      with the value of its last assignment. */
  lemma ActionContents(doc: Doc, input: string, context: map<string, Value>, k: string)
    ensures var action := FromEntries(AssignmentEntries(doc, context, Assignments(input)));
      var ms := Assignments(input);
      && (k in action <==> exists i :: 0 <= i < |ms| && ms[i].target == k)
      && forall i :: (0 <= i < |ms| && ms[i].target == k && forall j :: i < j < |ms| ==> ms[j].target != k)
           ==> action[k] == AssignedValue(doc, context, ms[i])
  {
    EntriesContents(doc, context, Assignments(input), k);
  }

  /** `ActionContents` for any list of assignments. */
  lemma EntriesContents(doc: Doc, context: map<string, Value>, ms: seq<Assignment>, k: string)
    ensures var action := FromEntries(AssignmentEntries(doc, context, ms));
      && (k in action <==> exists i :: 0 <= i < |ms| && ms[i].target == k)
      && forall i :: (0 <= i < |ms| && ms[i].target == k && forall j :: i < j < |ms| ==> ms[j].target != k)
           ==> action[k] == AssignedValue(doc, context, ms[i])
  {
    EntriesKeys(doc, context, ms, k);
    forall i | 0 <= i < |ms| && ms[i].target == k && forall j :: i < j < |ms| ==> ms[j].target != k
      ensures FromEntries(AssignmentEntries(doc, context, ms))[k] == AssignedValue(doc, context, ms[i])
    {
      EntriesLastValue(doc, context, ms, i);
    }
  }

  /** The names the closure assigns are the targets of the matches. */
  lemma EntriesKeys(doc: Doc, context: map<string, Value>, ms: seq<Assignment>, k: string)
    ensures k in FromEntries(AssignmentEntries(doc, context, ms)) <==> exists i :: 0 <= i < |ms| && ms[i].target == k
  {
    var es := AssignmentEntries(doc, context, ms);
    FromEntriesKeys(es, k);
    if exists i :: 0 <= i < |es| && es[i].0 == k {
      var i :| 0 <= i < |es| && es[i].0 == k;
      assert ms[i].target == k;
    }
    if exists i :: 0 <= i < |ms| && ms[i].target == k {
      var i :| 0 <= i < |ms| && ms[i].target == k;
      assert es[i].0 == k;
    }
  }

  /** A match that no later match to the same name overrides gives that
      name its value. */
  lemma EntriesLastValue(doc: Doc, context: map<string, Value>, ms: seq<Assignment>, i: nat)
    requires i < |ms| && forall j :: i < j < |ms| ==> ms[j].target != ms[i].target
    ensures ms[i].target in FromEntries(AssignmentEntries(doc, context, ms))
    ensures FromEntries(AssignmentEntries(doc, context, ms))[ms[i].target] == AssignedValue(doc, context, ms[i])
  {
    var es := AssignmentEntries(doc, context, ms);
    forall j | i < j < |es| ensures es[j].0 != es[i].0 {
      assert es[j].0 == ms[j].target;
    }
    FromEntriesLastValue(es, i);
  }
}
