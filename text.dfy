/** String scanning shared by the store and the components: the character
    classes of the regular expressions they use (`\w`, `\s`, and the state
    name class `[a-zA-Z0-9_.]`), `String.split` on a character and on
    `/\s+/`, and the token lists `matchAll(/\w+/g)` and
    `matchAll(/\$\w+/g)` produce. */
module Text {
  import opened Values

  /** `\w`: ASCII letters, digits and underscore. */
  predicate IsWordChar(c: char)
  {
    ('a' <= c <= 'z') || ('A' <= c <= 'Z') || ('0' <= c <= '9') || c == '_'
  }

  /** `[a-zA-Z0-9_.]`: the characters of a state name in a template. */
  predicate IsNameChar(c: char)
  {
    IsWordChar(c) || c == '.'
  }

  /** End of the longest run of characters satisfying `p` that starts at `i`. */
  function RunEnd(s: string, i: nat, p: char -> bool): (j: nat)
    requires i <= |s|
    ensures i <= j <= |s|
    ensures forall k :: i <= k < j ==> p(s[k])
    ensures j == |s| || !p(s[j])
    decreases |s| - i
  {
    if i == |s| || !p(s[i]) then i else RunEnd(s, i + 1, p)
  }

  /** A run that stops where the class stops is the run `RunEnd` finds. */
  lemma {:induction false} RunEndIs(s: string, i: nat, j: nat, p: char -> bool)
    requires i <= j <= |s|
    requires forall k :: i <= k < j ==> p(s[k])
    requires j == |s| || !p(s[j])
    ensures RunEnd(s, i, p) == j
    decreases j - i
  {
    if i < j {
      RunEndIs(s, i + 1, j, p);
    }
  }

  /** A run that no longer run of the same class contains. */
  ghost predicate MaximalRun(s: string, i: int, j: int, p: char -> bool)
  {
    && 0 <= i < j <= |s|
    && (forall k :: i <= k < j ==> p(s[k]))
    && (i == 0 || !p(s[i - 1]))
    && (j == |s| || !p(s[j]))
  }

  /** Position of the first occurrence of `c` in `s`. */
  function FirstIndex(s: string, c: char): (i: nat)
    requires c in s
    ensures i < |s| && s[i] == c && c !in s[..i]
  {
    if s[0] == c then 0 else
      var i := 1 + FirstIndex(s[1..], c);
      assert s[..i] == [s[0]] + s[1..][..i - 1];
      i
  }

  /** `s.split(sep)` for a one-character separator. */
  function Split(s: string, sep: char): (parts: seq<string>)
    ensures |parts| > 0
    ensures forall k :: 0 <= k < |parts| ==> sep !in parts[k]
    decreases |s|
  {
    if sep !in s then [s]
    else
      var i := FirstIndex(s, sep);
      [s[..i]] + Split(s[i + 1..], sep)
  }

  /** `parts.join(sep)`. */
  function Join(parts: seq<string>, sep: char): string
  {
    if |parts| <= 1 then (if parts == [] then "" else parts[0])
    else parts[0] + [sep] + Join(parts[1..], sep)
  }

  /** Splitting and joining again gives back the original string. */
  lemma {:induction false} JoinSplit(s: string, sep: char)
    ensures Join(Split(s, sep), sep) == s
    decreases |s|
  {
    if sep in s {
      var i := FirstIndex(s, sep);
      var head, tail := s[..i], s[i + 1..];
      var rest := Split(tail, sep);
      JoinSplit(tail, sep);
      assert Split(s, sep) == [head] + rest;
      JoinCons(head, rest, sep);
      SplitAround(s, i);
    } else {
      assert Split(s, sep) == [s];
    }
  }

  lemma JoinCons(head: string, rest: seq<string>, sep: char)
    requires |rest| > 0
    ensures Join([head] + rest, sep) == head + [sep] + Join(rest, sep)
  {
    var parts := [head] + rest;
    assert |parts| > 1 && parts[0] == head && parts[1..] == rest;
  }

  lemma SplitAround(s: string, i: nat)
    requires i < |s|
    ensures s == s[..i] + [s[i]] + s[i + 1..]
  {
  }

  /** `s.split(sep)[0]`: the part of `s` before the first separator. */
  function FirstSegment(s: string, sep: char): (head: string)
    ensures |head| <= |s| && head == s[..|head|]
    ensures sep !in head
    ensures |head| == |s| || s[|head|] == sep
  {
    Split(s, sep)[0]
  }

  /** Position of the first character of `s` satisfying `p`, if any. */
  function FirstWhere(s: string, p: char -> bool): (r: Option<nat>)
    ensures r.Some? ==> r.value < |s| && p(s[r.value]) && forall k :: 0 <= k < r.value ==> !p(s[k])
    ensures r.None? ==> forall k :: 0 <= k < |s| ==> !p(s[k])
  {
    if s == [] then None
    else if p(s[0]) then Some(0)
    else
      var r := FirstWhere(s[1..], p);
      if r.None? then None else Some(r.value + 1)
  }

  /** `s.split(/\s+/)`: the pieces between maximal runs of white space; a
      leading or trailing run yields an empty first or last piece. */
  function SplitSpaces(s: string): (parts: seq<string>)
    ensures |parts| > 0
    ensures forall k, m :: 0 <= k < |parts| && 0 <= m < |parts[k]| ==> !IsSpace(parts[k][m])
    decreases |s|
  {
    match FirstWhere(s, IsSpace)
    case None => [s]
    case Some(i) =>
      var j := RunEnd(s, i, IsSpace);
      [s[..i]] + SplitSpaces(s[j..])
  }

  function Concat(parts: seq<string>): string
  {
    if parts == [] then "" else parts[0] + Concat(parts[1..])
  }

  /** `s` with every white-space character removed. */
  function WithoutSpaces(s: string): string
  {
    if s == [] then "" else (if IsSpace(s[0]) then "" else [s[0]]) + WithoutSpaces(s[1..])
  }

  lemma {:induction false} WithoutSpacesAppend(a: string, b: string)
    ensures WithoutSpaces(a + b) == WithoutSpaces(a) + WithoutSpaces(b)
    decreases |a|
  {
    if a != [] {
      assert (a + b)[1..] == a[1..] + b;
      WithoutSpacesAppend(a[1..], b);
    } else {
      assert a + b == b;
    }
  }

  lemma {:induction false} WithoutSpacesOfSpaces(s: string)
    requires forall k :: 0 <= k < |s| ==> IsSpace(s[k])
    ensures WithoutSpaces(s) == ""
    decreases |s|
  {
    if s != [] { WithoutSpacesOfSpaces(s[1..]); }
  }

  lemma {:induction false} WithoutSpacesOfNoSpaces(s: string)
    requires forall k :: 0 <= k < |s| ==> !IsSpace(s[k])
    ensures WithoutSpaces(s) == s
    decreases |s|
  {
    if s != [] { WithoutSpacesOfNoSpaces(s[1..]); }
  }

  /** Splitting on white space loses exactly the white space: the pieces,
      put back together, are the non-space characters of `s` in order. */
  lemma {:induction false} SplitSpacesKeepsText(s: string)
    ensures Concat(SplitSpaces(s)) == WithoutSpaces(s)
    decreases |s|
  {
    match FirstWhere(s, IsSpace)
    case None =>
      WithoutSpacesOfNoSpaces(s);
      assert Concat([s]) == s + Concat([]);
    case Some(i) =>
      var j := RunEnd(s, i, IsSpace);
      ConcatSplitSpaces(s, i, j);
      SplitSpacesKeepsText(s[j..]);
      WithoutSpacesAround(s, i, j);
  }

  /** The first piece of a split at the first white space, then the rest. */
  lemma ConcatSplitSpaces(s: string, i: nat, j: nat)
    requires FirstWhere(s, IsSpace) == Some(i) && j == RunEnd(s, i, IsSpace)
    ensures Concat(SplitSpaces(s)) == s[..i] + Concat(SplitSpaces(s[j..]))
  {
    var rest := SplitSpaces(s[j..]);
    assert SplitSpaces(s) == [s[..i]] + rest;
    assert ([s[..i]] + rest)[1..] == rest;
  }

  /** Removing white space from the text before the first white space, the
      run of white space there, and the tail. */
  lemma WithoutSpacesAround(s: string, i: nat, j: nat)
    requires FirstWhere(s, IsSpace) == Some(i) && j == RunEnd(s, i, IsSpace)
    ensures WithoutSpaces(s) == s[..i] + WithoutSpaces(s[j..])
  {
    var head, gap, tail := s[..i], s[i..j], s[j..];
    NoSpacesBefore(s, i);
    SpaceRunVanishes(s, i, j);
    CutTwice(s, i, j);
    WithoutSpacesOfThree(head, gap, tail);
  }

  lemma CutTwice(s: string, i: nat, j: nat)
    requires i <= j <= |s|
    ensures s == s[..i] + s[i..j] + s[j..]
  {
  }

  /** Text with no white space, then only white space, then anything. */
  lemma WithoutSpacesOfThree(head: string, gap: string, tail: string)
    requires WithoutSpaces(head) == head && WithoutSpaces(gap) == ""
    ensures WithoutSpaces(head + gap + tail) == head + WithoutSpaces(tail)
  {
    WithoutSpacesAppend(head + gap, tail);
    WithoutSpacesAppend(head, gap);
    assert head + "" == head;
  }

  lemma NoSpacesBefore(s: string, i: nat)
    requires FirstWhere(s, IsSpace) == Some(i)
    ensures WithoutSpaces(s[..i]) == s[..i]
  {
    var head := s[..i];
    forall k | 0 <= k < |head| ensures !IsSpace(head[k]) { assert head[k] == s[k]; }
    WithoutSpacesOfNoSpaces(head);
  }

  lemma SpaceRunVanishes(s: string, i: nat, j: nat)
    requires i <= |s| && j == RunEnd(s, i, IsSpace)
    ensures WithoutSpaces(s[i..j]) == ""
  {
    var gap := s[i..j];
    forall k | 0 <= k < |gap| ensures IsSpace(gap[k]) { assert gap[k] == s[i + k]; }
    WithoutSpacesOfSpaces(gap);
  }

  /** No white space in `t`. */
  ghost predicate SpaceFree(t: string)
  {
    forall m :: 0 <= m < |t| ==> !IsSpace(t[m])
  }

  /** A non-empty run of white space. */
  ghost predicate SpaceRun(g: string)
  {
    |g| > 0 && forall m :: 0 <= m < |g| ==> IsSpace(g[m])
  }

  /** `parts[0] + gaps[0] + parts[1] + … + parts[|parts| - 1]`. */
  function Interleave(parts: seq<string>, gaps: seq<string>): string
    requires |parts| == |gaps| + 1
    decreases |gaps|
  {
    if gaps == [] then parts[0] else parts[0] + gaps[0] + Interleave(parts[1..], gaps[1..])
  }

  /** `s` is cut into space-free pieces by the runs of white space `gaps`.
      Only the first and the last piece may be empty, so every gap is a
      maximal run of white space and every inner piece a maximal run of
      other characters. */
  ghost predicate SpaceCut(s: string, parts: seq<string>, gaps: seq<string>)
  {
    && |parts| == |gaps| + 1
    && (forall k :: 0 <= k < |parts| ==> SpaceFree(parts[k]))
    && (forall k :: 0 <= k < |gaps| ==> SpaceRun(gaps[k]))
    && (forall k :: 0 < k < |parts| - 1 ==> parts[k] != "")
    && Interleave(parts, gaps) == s
  }

  /** The runs of white space `SplitSpaces` cuts at, left to right. */
  ghost function SpaceGaps(s: string): seq<string>
    decreases |s|
  {
    match FirstWhere(s, IsSpace)
    case None => []
    case Some(i) =>
      var j := RunEnd(s, i, IsSpace);
      [s[i..j]] + SpaceGaps(s[j..])
  }

  /** The first piece is empty exactly when `s` is empty or starts with
      white space; the last piece exactly when `s` is empty or ends with it. */
  lemma {:induction false} SplitSpacesEnds(s: string)
    ensures SplitSpaces(s)[0] == "" <==> s == "" || IsSpace(s[0])
    ensures SplitSpaces(s)[|SplitSpaces(s)| - 1] == "" <==> s == "" || IsSpace(s[|s| - 1])
    decreases |s|
  {
    match FirstWhere(s, IsSpace)
    case None =>
    case Some(i) =>
      var j := RunEnd(s, i, IsSpace);
      var rest := SplitSpaces(s[j..]);
      assert SplitSpaces(s) == [s[..i]] + rest;
      SplitSpacesEnds(s[j..]);
      if j < |s| {
        assert s[j..][|s[j..]| - 1] == s[|s| - 1];
      }
  }

  /** `SplitSpaces` and `SpaceGaps` cut `s` as `SpaceCut` describes. */
  lemma {:induction false} SplitSpacesCuts(s: string)
    ensures SpaceCut(s, SplitSpaces(s), SpaceGaps(s))
    decreases |s|
  {
    match FirstWhere(s, IsSpace)
    case None =>
    case Some(i) =>
      var j := RunEnd(s, i, IsSpace);
      var tail := s[j..];
      SplitSpacesCuts(tail);
      SplitSpacesEnds(tail);
      SplitSpacesAt(s, i, j);
      CutAtFirstSpace(s, i, j);
      if tail == [] {
        assert SpaceGaps(tail) == [];
      }
      SpaceCutCons(s[..i], s[i..j], tail, SplitSpaces(tail), SpaceGaps(tail));
      CutTwice(s, i, j);
  }

  /** The text before the first white space is space-free, and the run
      there is a run of white space. */
  lemma CutAtFirstSpace(s: string, i: nat, j: nat)
    requires FirstWhere(s, IsSpace) == Some(i) && j == RunEnd(s, i, IsSpace)
    ensures SpaceFree(s[..i]) && SpaceRun(s[i..j])
  {
    forall m | 0 <= m < j - i ensures IsSpace(s[i..j][m]) { assert s[i..j][m] == s[i + m]; }
    forall m | 0 <= m < i ensures !IsSpace(s[..i][m]) { assert s[..i][m] == s[m]; }
  }

  /** A space-free piece and a run of white space put in front of a cut. */
  lemma SpaceCutCons(p: string, g: string, rest: string, parts: seq<string>, gaps: seq<string>)
    requires SpaceCut(rest, parts, gaps) && SpaceFree(p) && SpaceRun(g)
    requires gaps != [] ==> parts[0] != ""
    ensures SpaceCut(p + g + rest, [p] + parts, [g] + gaps)
  {
    var ps, gs := [p] + parts, [g] + gaps;
    assert ps[1..] == parts && gs[1..] == gaps;
    forall k | 0 <= k < |ps| ensures SpaceFree(ps[k]) { if k > 0 { assert ps[k] == parts[k - 1]; } }
    forall k | 0 <= k < |gs| ensures SpaceRun(gs[k]) { if k > 0 { assert gs[k] == gaps[k - 1]; } }
    forall k | 0 < k < |ps| - 1 ensures ps[k] != "" { assert ps[k] == parts[k - 1]; }
  }

  /** A cut as `SpaceCut` describes is the one `SplitSpaces` makes: the
      pieces determine where the cuts fall. */
  lemma {:induction false} SpaceCutUnique(s: string, parts: seq<string>, gaps: seq<string>)
    requires SpaceCut(s, parts, gaps)
    ensures SplitSpaces(s) == parts && SpaceGaps(s) == gaps
    decreases |gaps|
  {
    if gaps == [] {
      assert SpaceFree(parts[0]);
      assert SplitSpaces(s) == [s];
    } else {
      var p, g := parts[0], gaps[0];
      var rest := Interleave(parts[1..], gaps[1..]);
      SpaceCutTail(s, parts, gaps);
      SpaceCutUnique(rest, parts[1..], gaps[1..]);
      RestStartsWithoutSpace(parts[1..], gaps[1..]);
      SplitSpacesCons(p, g, rest);
      assert parts == [p] + parts[1..] && gaps == [g] + gaps[1..];
    }
  }

  /** Splitting a space-free piece, a run of white space and a text that
      does not start with white space cuts at that run. */
  lemma SplitSpacesCons(p: string, g: string, rest: string)
    requires SpaceFree(p) && SpaceRun(g) && (rest == [] || !IsSpace(rest[0]))
    ensures SplitSpaces(p + g + rest) == [p] + SplitSpaces(rest)
    ensures SpaceGaps(p + g + rest) == [g] + SpaceGaps(rest)
  {
    var s := p + g + rest;
    var i, j := |p|, |p| + |g|;
    FirstSpaceAfter(p, g, rest);
    forall k | i <= k < j ensures IsSpace(s[k]) { assert s[k] == g[k - i]; }
    assert j < |s| ==> s[j] == rest[0];
    RunEndIs(s, i, j, IsSpace);
    assert s[..i] == p && s[i..j] == g && s[j..] == rest;
    SplitSpacesAt(s, i, j);
  }

  /** Past the first piece and gap, what remains is cut the same way. */
  lemma SpaceCutTail(s: string, parts: seq<string>, gaps: seq<string>)
    requires SpaceCut(s, parts, gaps) && gaps != []
    ensures s == parts[0] + gaps[0] + Interleave(parts[1..], gaps[1..])
    ensures SpaceFree(parts[0]) && SpaceRun(gaps[0]) && SpaceFree(parts[1])
    ensures gaps[1..] != [] ==> parts[1] != ""
    ensures SpaceCut(Interleave(parts[1..], gaps[1..]), parts[1..], gaps[1..])
  {
    var ps, gs := parts[1..], gaps[1..];
    forall k | 0 <= k < |ps| ensures SpaceFree(ps[k]) { assert ps[k] == parts[k + 1]; }
    forall k | 0 <= k < |gs| ensures SpaceRun(gs[k]) { assert gs[k] == gaps[k + 1]; }
    forall k | 0 < k < |ps| - 1 ensures ps[k] != "" { assert ps[k] == parts[k + 1]; }
  }

  /** One step of `SplitSpaces` and `SpaceGaps` at the first run of white space. */
  lemma SplitSpacesAt(s: string, i: nat, j: nat)
    requires FirstWhere(s, IsSpace) == Some(i) && j == RunEnd(s, i, IsSpace)
    ensures SplitSpaces(s) == [s[..i]] + SplitSpaces(s[j..])
    ensures SpaceGaps(s) == [s[i..j]] + SpaceGaps(s[j..])
  {
  }

  /** White space first occurs after a space-free prefix. */
  lemma FirstSpaceAfter(p: string, g: string, rest: string)
    requires SpaceFree(p) && SpaceRun(g)
    ensures FirstWhere(p + g + rest, IsSpace) == Some(|p|)
  {
    var s := p + g + rest;
    assert IsSpace(s[|p|]) by { assert s[|p|] == g[0]; }
    forall k | 0 <= k < |p| ensures !IsSpace(s[k]) { assert s[k] == p[k]; }
    var r := FirstWhere(s, IsSpace);
    assert r.Some?;
  }

  /** An interleaving whose first piece is non-empty, or that is one piece
      only, does not start with white space. */
  lemma RestStartsWithoutSpace(parts: seq<string>, gaps: seq<string>)
    requires |parts| == |gaps| + 1 && SpaceFree(parts[0])
    requires gaps != [] ==> parts[0] != ""
    ensures var t := Interleave(parts, gaps); t == [] || !IsSpace(t[0])
  {
    if gaps != [] {
      assert Interleave(parts, gaps)[0] == parts[0][0];
    }
  }

  /** `s.split(/\s+/)` is the unique cut of `s` into space-free pieces at
      maximal runs of white space. */
  lemma SplitSpacesIff(s: string, parts: seq<string>)
    ensures SplitSpaces(s) == parts <==> exists gaps :: SpaceCut(s, parts, gaps)
  {
    if SplitSpaces(s) == parts {
      SplitSpacesCuts(s);
    }
    if gaps :| SpaceCut(s, parts, gaps) {
      SpaceCutUnique(s, parts, gaps);
    }
  }

  /** `matchAll(/\w+/g)` from position `from`: the maximal word runs, left to
      right. */
  function WordTokensFrom(s: string, from: nat): (tokens: seq<string>)
    requires from <= |s|
    ensures forall k :: 0 <= k < |tokens| ==> |tokens[k]| > 0
    decreases |s| - from
  {
    if from == |s| then []
    else if IsWordChar(s[from]) then
      var j := RunEnd(s, from, IsWordChar);
      [s[from..j]] + WordTokensFrom(s, j)
    else WordTokensFrom(s, from + 1)
  }

  function WordTokens(s: string): seq<string>
  {
    WordTokensFrom(s, 0)
  }

  /** No word run straddles position `from`. */
  ghost predicate WordBoundary(s: string, from: nat)
  {
    from == 0 || from >= |s| || !IsWordChar(s[from - 1]) || !IsWordChar(s[from])
  }

  /** The word tokens from a boundary are exactly the maximal word runs that
      start there or later. */
  lemma {:induction false} WordTokensFromAreRuns(s: string, from: nat, t: string)
    requires from <= |s| && WordBoundary(s, from)
    ensures t in WordTokensFrom(s, from) <==>
      exists i, j :: from <= i && MaximalRun(s, i, j, IsWordChar) && t == s[i..j]
    decreases |s| - from
  {
    if from == |s| {
    } else if IsWordChar(s[from]) {
      var j := RunEnd(s, from, IsWordChar);
      assert WordTokensFrom(s, from) == [s[from..j]] + WordTokensFrom(s, j);
      WordTokensFromAreRuns(s, j, t);
      assert MaximalRun(s, from, j, IsWordChar);
      if exists i, j' :: from <= i && MaximalRun(s, i, j', IsWordChar) && t == s[i..j'] {
        var i, j' :| from <= i && MaximalRun(s, i, j', IsWordChar) && t == s[i..j'];
        if i == from {
          RunEndIs(s, from, j', IsWordChar);
        } else {
          assert !IsWordChar(s[i - 1]);
          assert j <= i;
        }
      }
    } else {
      WordTokensFromAreRuns(s, from + 1, t);
    }
  }

  /** `matchAll(/\$\w+/g)` from position `from`: every `$` followed by the
      longest word run after it. */
  function DollarTokensFrom(s: string, from: nat): (tokens: seq<string>)
    requires from <= |s|
    ensures forall k :: 0 <= k < |tokens| ==> |tokens[k]| >= 2 && tokens[k][0] == '$'
    decreases |s| - from
  {
    if from == |s| then []
    else if s[from] == '$' && from + 1 < |s| && IsWordChar(s[from + 1]) then
      var j := RunEnd(s, from + 1, IsWordChar);
      [s[from..j]] + DollarTokensFrom(s, j)
    else DollarTokensFrom(s, from + 1)
  }

  function DollarTokens(s: string): seq<string>
  {
    DollarTokensFrom(s, 0)
  }

  /** A `$` at `i` followed by the maximal word run ending at `j`. */
  ghost predicate DollarRef(s: string, i: int, j: int)
  {
    && 0 <= i && i + 1 < j <= |s|
    && s[i] == '$'
    && (forall k :: i + 1 <= k < j ==> IsWordChar(s[k]))
    && (j == |s| || !IsWordChar(s[j]))
  }

  /** The dollar tokens are exactly the `$`-prefixed maximal word runs. */
  lemma {:induction false} DollarTokensFromAreRefs(s: string, from: nat, t: string)
    requires from <= |s|
    ensures t in DollarTokensFrom(s, from) <==>
      exists i, j :: from <= i && DollarRef(s, i, j) && t == s[i..j]
    decreases |s| - from
  {
    if from == |s| {
    } else if s[from] == '$' && from + 1 < |s| && IsWordChar(s[from + 1]) {
      var j := RunEnd(s, from + 1, IsWordChar);
      DollarTokensFromAreRefs(s, j, t);
      assert DollarTokensFrom(s, from) == [s[from..j]] + DollarTokensFrom(s, j);
      assert DollarRef(s, from, j);
      if exists i, j' :: from <= i && DollarRef(s, i, j') && t == s[i..j'] {
        var i, j' :| from <= i && DollarRef(s, i, j') && t == s[i..j'];
        assert s[i] == '$' && !IsWordChar(s[i]);
        if i == from {
          assert j' == j;
        }
      }
    } else {
      DollarTokensFromAreRefs(s, from + 1, t);
      assert DollarTokensFrom(s, from) == DollarTokensFrom(s, from + 1);
      if exists i, j' :: from <= i && DollarRef(s, i, j') && t == s[i..j'] {
        var i, j' :| from <= i && DollarRef(s, i, j') && t == s[i..j'];
        assert i != from;
      }
    }
  }
}
