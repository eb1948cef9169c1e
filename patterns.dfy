/** The regular expressions of the script metadata extractor, each written as an explicit
    scanner over the text, with its ASCII matching behaviour stated in the contracts
    (leftmost match, greedy or lazy repetition, word boundaries). */
module Patterns {
  import opened Options
  import opened Text

  // ---------------------------------------------------------------------------
  // `param\s*\((.*?)\n\)`, searched with DOTALL and IGNORECASE.

  /** `param` at `i`, ignoring case. */
  predicate ParamAt(s: string, i: nat) {
    i + 5 <= |s|
    && ToLower(s[i]) == 'p' && ToLower(s[i + 1]) == 'a' && ToLower(s[i + 2]) == 'r'
    && ToLower(s[i + 3]) == 'a' && ToLower(s[i + 4]) == 'm'
  }

  /** Where the captured group starts when `param\s*\(` matches at `i`. */
  function ParamHeadAt(s: string, i: nat): (r: Option<nat>)
    requires i <= |s|
    ensures r.Some? ==> i + 6 <= r.value <= |s| && s[r.value - 1] == '('
    ensures r.Some? ==> ParamAt(s, i) && AllSpace(s[i + 5..r.value - 1])
  {
    if ParamAt(s, i) then
      var j := Span(s, i + 5, IsSpace);
      if j < |s| && s[j] == '(' then
        SpanRun(s, i + 5, IsSpace);
        Some(j + 1)
      else None
    else None
  }

  /** A line consisting of `)` starts at `k + 1`: the text `\n)` occurs at `k`. */
  predicate CloseAt(s: string, k: nat) {
    k + 2 <= |s| && s[k] == '\n' && s[k + 1] == ')'
  }

  /** The lazy `(.*?)\n\)`: the first `\n)` at or after `j`. */
  function FirstCloseFrom(s: string, j: nat): (r: Option<nat>)
    requires j <= |s|
    ensures r.Some? ==> j <= r.value && CloseAt(s, r.value)
    ensures r.Some? ==> forall k :: j <= k < r.value ==> !CloseAt(s, k)
    ensures r.None? ==> forall k :: j <= k ==> !CloseAt(s, k)
    decreases |s| - j
  {
    if j + 2 > |s| then None
    else if CloseAt(s, j) then Some(j)
    else FirstCloseFrom(s, j + 1)
  }

  /** The whole pattern matches when started at `i`. */
  predicate ParamMatchAt(s: string, i: nat) {
    i <= |s| && ParamHeadAt(s, i).Some? && FirstCloseFrom(s, ParamHeadAt(s, i).value).Some?
  }

  /** `re.search`: the leftmost start, at or after `i`, where the pattern matches. */
  function SearchParamBlock(s: string, i: nat): (r: Option<nat>)
    requires i <= |s|
    ensures r.Some? ==> i <= r.value && ParamMatchAt(s, r.value)
    ensures r.Some? ==> forall p :: i <= p < r.value ==> !ParamMatchAt(s, p)
    ensures r.None? ==> forall p :: i <= p ==> !ParamMatchAt(s, p)
    decreases |s| - i
  {
    if ParamMatchAt(s, i) then Some(i)
    else if i == |s| then None
    else SearchParamBlock(s, i + 1)
  }

  /** `group(1)` of the search: the text between `param (` and the first following `\n)`. */
  function ParamBlock(s: string): (r: Option<string>)
    ensures r.None? <==> forall p :: !ParamMatchAt(s, p)
    ensures r.Some? ==> !Contains(r.value, "\n)")
    ensures r.Some? ==> exists j :: 1 <= j <= |s| && s[j - 1] == '(' && OccursAt(s, r.value, j) && CloseAt(s, j + |r.value|)
  {
    match SearchParamBlock(s, 0)
    case None => None
    case Some(p) =>
      var j := ParamHeadAt(s, p).value;
      var k := FirstCloseFrom(s, j).value;
      var b := s[j..k];
      assert OccursAt(s, b, j);
      LazyGroupHasNoClose(s, j);
      Some(b)
  }

  /** `param\s*\(` matches at `i` exactly when `param` is there, followed by whitespace up to
      a `(`; the group then starts right after that `(`. */
  lemma ParamHeadAtMeans(s: string, i: nat)
    requires i <= |s|
    ensures forall x: nat :: ParamAt(s, i) && Run(s, i + 5, x, IsSpace) && x < |s| && s[x] == '(' ==>
              ParamHeadAt(s, i) == Some(x + 1)
    ensures ParamHeadAt(s, i).Some? ==>
              ParamAt(s, i) && Run(s, i + 5, ParamHeadAt(s, i).value - 1, IsSpace)
              && s[ParamHeadAt(s, i).value - 1] == '('
  {
    if ParamAt(s, i) {
      SpanMaxRun(s, i + 5, IsSpace);
      SpanAll(s, i + 5, IsSpace);
      forall x: nat | Run(s, i + 5, x, IsSpace) && x < |s| && s[x] == '(' ensures ParamHeadAt(s, i) == Some(x + 1) {
        assert MaxRun(s, i + 5, x, IsSpace);
      }
    }
  }

  /** The captured group of the match that starts at `p`: from after `param (` up to the
      first `\n)`. */
  function ParamGroup(s: string, p: nat): string
    requires ParamMatchAt(s, p)
  {
    var h := ParamHeadAt(s, p).value;
    s[h..FirstCloseFrom(s, h).value]
  }

  /** The pattern matches at `p` and at no earlier start: the match `re.search` reports. */
  predicate LeftmostParamMatch(s: string, p: nat) {
    ParamMatchAt(s, p) && forall q :: 0 <= q < p ==> !ParamMatchAt(s, q)
  }

  /** The block is the group of the leftmost match, and there is a block only when there is
      a leftmost match. */
  lemma ParamBlockIsLeftmostGroup(s: string)
    ensures forall p :: LeftmostParamMatch(s, p) ==> ParamBlock(s) == Some(ParamGroup(s, p))
    ensures ParamBlock(s).Some? ==> exists p :: LeftmostParamMatch(s, p)
  {
    match SearchParamBlock(s, 0)
    case None =>
    case Some(q) =>
      assert LeftmostParamMatch(s, q);
      assert ParamBlock(s) == Some(ParamGroup(s, q));
      forall p | LeftmostParamMatch(s, p) ensures p == q {
        LeftmostParamMatchUnique(s, p, q);
      }
  }

  lemma LeftmostParamMatchUnique(s: string, p: nat, q: nat)
    requires LeftmostParamMatch(s, p) && LeftmostParamMatch(s, q)
    ensures p == q
  {
  }

  /** A block is found only where a `\n)` follows it. */
  lemma ParamBlockHasClose(s: string)
    requires ParamBlock(s).Some?
    ensures exists k :: CloseAt(s, k)
  {
    var p := SearchParamBlock(s, 0).value;
    var k := FirstCloseFrom(s, ParamHeadAt(s, p).value).value;
    assert CloseAt(s, k);
  }

  /** The lazily captured text before the first `\n)` holds no `\n)` itself. */
  lemma LazyGroupHasNoClose(s: string, j: nat)
    requires j <= |s| && FirstCloseFrom(s, j).Some?
    ensures !Contains(s[j..FirstCloseFrom(s, j).value], "\n)")
  {
    var k := FirstCloseFrom(s, j).value;
    var b := s[j..k];
    forall m: nat | m + 2 <= |b| ensures !OccursAt(b, "\n)", m) {
      assert b[m] == s[j + m] && b[m + 1] == s[j + m + 1];
      assert !CloseAt(s, j + m);
    }
  }

  // ---------------------------------------------------------------------------
  // `re.split(r',\s*(?=\[)', block)`.

  /** The separator `,\s*` followed by `[` starts at `i`. */
  predicate SplitAt(b: string, i: nat) {
    i < |b| && b[i] == ',' && Span(b, i + 1, IsSpace) < |b| && b[Span(b, i + 1, IsSpace)] == '['
  }

  ghost predicate NoSplitPoint(b: string) {
    forall i :: 0 <= i < |b| ==> !SplitAt(b, i)
  }

  /** A separator's text: a comma and then whitespace only. */
  predicate IsSeparator(t: string) {
    t != [] && t[0] == ',' && AllSpace(t[1..])
  }

  /** The pieces of `b[start..]`, where no separator starts in `b[start..i]`. */
  function SplitFrom(b: string, start: nat, i: nat): (r: seq<string>)
    requires start <= i <= |b|
    ensures |r| >= 1
    decreases |b| - i
  {
    if i == |b| then [b[start..]]
    else if SplitAt(b, i) then
      var j := Span(b, i + 1, IsSpace);
      [b[start..i]] + SplitFrom(b, j, j)
    else SplitFrom(b, start, i + 1)
  }

  /** The separators that `SplitFrom` cut out, in order. */
  function SeparatorsFrom(b: string, start: nat, i: nat): (r: seq<string>)
    requires start <= i <= |b|
    ensures |r| == |SplitFrom(b, start, i)| - 1
    ensures forall k :: 0 <= k < |r| ==> IsSeparator(r[k])
    decreases |b| - i
  {
    if i == |b| then []
    else if SplitAt(b, i) then
      var j := Span(b, i + 1, IsSpace);
      SpanRun(b, i + 1, IsSpace);
      assert b[i..j][1..] == b[i + 1..j];
      [b[i..j]] + SeparatorsFrom(b, j, j)
    else SeparatorsFrom(b, start, i + 1)
  }

  /** The list `re.split` returns, never empty. */
  function SplitSections(b: string): (r: seq<string>)
    ensures |r| >= 1
  {
    SplitFrom(b, 0, 0)
  }

  function Separators(b: string): (r: seq<string>)
    ensures |r| == |SplitSections(b)| - 1
  {
    SeparatorsFrom(b, 0, 0)
  }

  /** `pieces[0] + seps[0] + pieces[1] + ... + pieces[n]`. */
  function Interleave(pieces: seq<string>, seps: seq<string>): string
    requires |seps| + 1 == |pieces|
  {
    if |seps| == 0 then pieces[0]
    else pieces[0] + seps[0] + Interleave(pieces[1..], seps[1..])
  }

  /** Splitting loses nothing: the sections put back together with the separators that were
      cut out give the block back, each separator is a comma followed by whitespace, no
      section holds a separator, and every section after the first begins with `[`. */
  lemma SplitSectionsRoundTrip(b: string)
    ensures Interleave(SplitSections(b), Separators(b)) == b
    ensures forall k :: 0 <= k < |Separators(b)| ==> IsSeparator(Separators(b)[k])
    ensures forall k :: 0 <= k < |SplitSections(b)| ==> NoSplitPoint(SplitSections(b)[k])
    ensures forall k :: 1 <= k < |SplitSections(b)| ==> SplitSections(b)[k] != [] && SplitSections(b)[k][0] == '['
  {
    SplitFromRoundTrip(b, 0, 0);
    SplitFromNoSplitPoint(b, 0, 0);
    SplitFromBrackets(b, 0, 0);
  }

  /** The first piece runs from `start` to the first split point at or after `i`, or to the end. */
  lemma {:induction false} SplitFromFirst(b: string, start: nat, i: nat)
    requires start <= i <= |b|
    ensures exists x :: i <= x <= |b| && (x == |b| || SplitAt(b, x)) && SplitFrom(b, start, i)[0] == b[start..x]
    decreases |b| - i
  {
    if i == |b| {
      assert SplitFrom(b, start, i)[0] == b[start..|b|];
    } else if SplitAt(b, i) {
      assert SplitFrom(b, start, i)[0] == b[start..i];
    } else {
      SplitFromFirst(b, start, i + 1);
    }
  }

  /** A piece that begins right after a separator begins with `[`. */
  lemma PieceAfterSeparator(b: string, j: nat)
    requires j < |b| && b[j] == '['
    ensures SplitFrom(b, j, j)[0] != [] && SplitFrom(b, j, j)[0][0] == '['
  {
    SplitFromFirst(b, j, j);
    var x :| j <= x <= |b| && (x == |b| || SplitAt(b, x)) && SplitFrom(b, j, j)[0] == b[j..x];
    assert x != j;
  }

  /** Every piece but the first begins with the `[` the lookahead `(?=\[)` demanded. */
  lemma {:induction false} SplitFromBrackets(b: string, start: nat, i: nat)
    requires start <= i <= |b|
    ensures forall k :: 1 <= k < |SplitFrom(b, start, i)| ==>
              SplitFrom(b, start, i)[k] != [] && SplitFrom(b, start, i)[k][0] == '['
    decreases |b| - i
  {
    if i == |b| {
    } else if SplitAt(b, i) {
      var j := Span(b, i + 1, IsSpace);
      var r := SplitFrom(b, start, i);
      var rest := SplitFrom(b, j, j);
      SplitFromBrackets(b, j, j);
      PieceAfterSeparator(b, j);
      assert r == [b[start..i]] + rest;
      forall k | 1 <= k < |r| ensures r[k] != [] && r[k][0] == '[' {
        assert r[k] == rest[k - 1];
      }
    } else {
      SplitFromBrackets(b, start, i + 1);
    }
  }

  lemma {:induction false} SplitFromRoundTrip(b: string, start: nat, i: nat)
    requires start <= i <= |b|
    ensures Interleave(SplitFrom(b, start, i), SeparatorsFrom(b, start, i)) == b[start..]
    decreases |b| - i
  {
    if i == |b| {
    } else if SplitAt(b, i) {
      var j := Span(b, i + 1, IsSpace);
      SplitFromRoundTrip(b, j, j);
      assert b[start..] == b[start..i] + b[i..j] + b[j..];
    } else {
      SplitFromRoundTrip(b, start, i + 1);
    }
  }

  /** A greedy run inside a slice ends where the same run ends in the whole text. */
  lemma {:induction false} SpanInSlice(b: string, lo: nat, hi: nat, x: nat, p: char -> bool)
    requires lo <= hi <= |b| && x <= hi - lo
    requires Span(b[lo..hi], x, p) < hi - lo
    ensures Span(b, lo + x, p) == lo + Span(b[lo..hi], x, p)
    decreases hi - lo - x
  {
    var piece := b[lo..hi];
    if x < |piece| && p(piece[x]) {
      SpanInSlice(b, lo, hi, x + 1, p);
    }
  }

  lemma SplitAtInSlice(b: string, lo: nat, hi: nat, m: nat)
    requires lo <= hi <= |b|
    ensures SplitAt(b[lo..hi], m) ==> SplitAt(b, lo + m)
  {
    if SplitAt(b[lo..hi], m) {
      SpanInSlice(b, lo, hi, m + 1, IsSpace);
    }
  }

  lemma {:induction false} SplitFromNoSplitPoint(b: string, start: nat, i: nat)
    requires start <= i <= |b|
    requires forall m :: start <= m < i ==> !SplitAt(b, m)
    ensures forall k :: 0 <= k < |SplitFrom(b, start, i)| ==> NoSplitPoint(SplitFrom(b, start, i)[k])
    decreases |b| - i
  {
    var r := SplitFrom(b, start, i);
    if i == |b| {
      assert b[start..|b|] == b[start..];
      forall m | 0 <= m < |b[start..]| ensures !SplitAt(b[start..], m) {
        SplitAtInSlice(b, start, |b|, m);
      }
    } else if SplitAt(b, i) {
      var j := Span(b, i + 1, IsSpace);
      SplitFromNoSplitPoint(b, j, j);
      forall m | 0 <= m < i - start ensures !SplitAt(b[start..i], m) {
        SplitAtInSlice(b, start, i, m);
      }
      assert r == [b[start..i]] + SplitFrom(b, j, j);
      forall k | 0 <= k < |r| ensures NoSplitPoint(r[k]) {
        if k > 0 { assert r[k] == SplitFrom(b, j, j)[k - 1]; }
      }
    } else {
      SplitFromNoSplitPoint(b, start, i + 1);
    }
  }

  // ---------------------------------------------------------------------------
  // `\[Parameter\([^)]*Mandatory\s*=\s*\$(\w+)`, searched with IGNORECASE.

  /** The captured word when `Mandatory\s*=\s*\$(\w+)` matches at `j`. */
  function MandatoryTailAt(s: string, j: nat): (r: Option<string>)
    requires j <= |s|
    ensures r.Some? ==> r.value != [] && AllWordChars(r.value)
    ensures r.Some? ==> MandatoryAt(s, j)
  {
    if MandatoryAt(s, j) then
      var a := Span(s, j + 9, IsSpace);
      if a < |s| && s[a] == '=' then
        var b := Span(s, a + 1, IsSpace);
        if b < |s| && s[b] == '$' then
          var e := Span(s, b + 1, IsWordChar);
          if e > b + 1 then
            SpanRun(s, b + 1, IsWordChar);
            Some(s[b + 1..e])
          else None
        else None
      else None
    else None
  }

  /** `Mandatory\s*=\s*\$(\w+)` matches at `j` with `=` at `a`, `$` at `b`, and the greedy
      `\w+` running over `s[b + 1..e]`. */
  predicate MandatoryTailMatch(s: string, j: nat, a: nat, b: nat, e: nat) {
    MandatoryAt(s, j)
    && Run(s, j + 9, a, IsSpace) && a < |s| && s[a] == '='
    && Run(s, a + 1, b, IsSpace) && b < |s| && s[b] == '$'
    && b + 1 < e && MaxRun(s, b + 1, e, IsWordChar)
  }

  /** The scanner succeeds exactly when the tail of the pattern matches, and it captures the
      whole word after `$`. */
  lemma MandatoryTailAtMeans(s: string, j: nat)
    requires j <= |s|
    ensures forall a: nat, b: nat, e: nat :: MandatoryTailMatch(s, j, a, b, e) ==>
              MandatoryTailAt(s, j) == Some(s[b + 1..e])
    ensures MandatoryTailAt(s, j).Some? ==> exists a: nat, b: nat, e: nat :: MandatoryTailMatch(s, j, a, b, e)
  {
    forall a: nat, b: nat, e: nat | MandatoryTailMatch(s, j, a, b, e)
      ensures MandatoryTailAt(s, j) == Some(s[b + 1..e])
    {
      MandatoryTailFromMatch(s, j, a, b, e);
    }
    if MandatoryTailAt(s, j).Some? {
      MandatoryTailHasMatch(s, j);
    }
  }

  /** Given the places of `=`, `$` and the end of the word, the scanner captures that word. */
  lemma MandatoryTailFromMatch(s: string, j: nat, a: nat, b: nat, e: nat)
    requires MandatoryTailMatch(s, j, a, b, e)
    ensures MandatoryTailAt(s, j) == Some(s[b + 1..e])
  {
    SpanMaxRun(s, j + 9, IsSpace);
    assert MaxRun(s, j + 9, a, IsSpace);
    SpanMaxRun(s, a + 1, IsSpace);
    assert MaxRun(s, a + 1, b, IsSpace);
    SpanMaxRun(s, b + 1, IsWordChar);
  }

  /** When the scanner captures a word, the tail of the pattern matches. */
  lemma MandatoryTailHasMatch(s: string, j: nat)
    requires j <= |s| && MandatoryTailAt(s, j).Some?
    ensures exists a: nat, b: nat, e: nat :: MandatoryTailMatch(s, j, a, b, e)
  {
    MandatoryTailSpans(s, j);
    var a := Span(s, j + 9, IsSpace);
    var b := Span(s, a + 1, IsSpace);
    var e := Span(s, b + 1, IsWordChar);
    SpanEndsMaxRun(s, j + 9, IsSpace);
    SpanEndsMaxRun(s, a + 1, IsSpace);
    SpanEndsMaxRun(s, b + 1, IsWordChar);
    assert MandatoryTailMatch(s, j, a, b, e);
  }

  /** The places the scanner passed through when it found the tail. */
  lemma MandatoryTailSpans(s: string, j: nat)
    requires j <= |s| && MandatoryTailAt(s, j).Some?
    ensures MandatoryAt(s, j)
    ensures var a := Span(s, j + 9, IsSpace);
            a < |s| && s[a] == '='
            && var b := Span(s, a + 1, IsSpace);
               b < |s| && s[b] == '$' && Span(s, b + 1, IsWordChar) > b + 1
  {
  }

  /** `mandatory` at `j`, ignoring case. */
  predicate MandatoryAt(s: string, j: nat) {
    j + 9 <= |s|
    && ToLower(s[j]) == 'm' && ToLower(s[j + 1]) == 'a' && ToLower(s[j + 2]) == 'n'
    && ToLower(s[j + 3]) == 'd' && ToLower(s[j + 4]) == 'a' && ToLower(s[j + 5]) == 't'
    && ToLower(s[j + 6]) == 'o' && ToLower(s[j + 7]) == 'r' && ToLower(s[j + 8]) == 'y'
  }

  /** `\[Parameter\(` matches at `i`, ignoring case. */
  predicate AttributeOpenAt(s: string, i: nat) {
    i + 11 <= |s| && s[i] == '['
    && ToLower(s[i + 1]) == 'p' && ToLower(s[i + 2]) == 'a' && ToLower(s[i + 3]) == 'r'
    && ToLower(s[i + 4]) == 'a' && ToLower(s[i + 5]) == 'm' && ToLower(s[i + 6]) == 'e'
    && ToLower(s[i + 7]) == 't' && ToLower(s[i + 8]) == 'e' && ToLower(s[i + 9]) == 'r'
    && s[i + 10] == '('
  }

  /** The whole pattern matches from `i`, with `[^)]*` consuming `s[i + 11..j]`. */
  predicate MarkerAt(s: string, i: nat, j: nat) {
    AttributeOpenAt(s, i) && i + 11 <= j <= |s|
    && (forall k :: i + 11 <= k < j ==> s[k] != ')')
    && MandatoryTailAt(s, j).Some?
  }

  /** The largest `j` in `[lo, hi)` satisfying `p`, searching downwards from `hi`. */
  function Rightmost(lo: nat, hi: nat, p: nat -> bool): (r: Option<nat>)
    requires lo <= hi
    ensures r.Some? ==> lo <= r.value < hi
    decreases hi - lo
  {
    if lo == hi then None
    else if p(hi - 1) then Some(hi - 1)
    else Rightmost(lo, hi - 1, p)
  }

  /** The downward search finds the rightmost place satisfying `p`, and nothing only when
      no place in the range does. */
  lemma {:induction false} RightmostSpec(lo: nat, hi: nat, p: nat -> bool)
    requires lo <= hi
    ensures var r := Rightmost(lo, hi, p);
            && (r.Some? ==> p(r.value))
            && (r.Some? ==> forall j :: r.value < j < hi ==> !p(j))
            && (r.None? ==> forall j :: lo <= j < hi ==> !p(j))
    decreases hi - lo
  {
    if lo < hi && !p(hi - 1) {
      RightmostSpec(lo, hi - 1, p);
    }
  }

  /** Whether the rest of the pattern after `[^)]*` matches at `j`. */
  function TailMatches(s: string): nat -> bool {
    (j: nat) => j <= |s| && MandatoryTailAt(s, j).Some?
  }

  /** The greedy `[^)]*` backtracks from the right: the largest `j` in `[lo, hi)` where the
      rest of the pattern matches. */
  function RightmostTail(s: string, lo: nat, hi: nat): (r: Option<nat>)
    requires lo <= hi <= |s|
    ensures r.Some? ==> lo <= r.value < hi
  {
    Rightmost(lo, hi, TailMatches(s))
  }

  /** The backtracking finds the rightmost place where the rest of the pattern matches,
      and nothing only when it matches nowhere in the range. */
  lemma RightmostTailSpec(s: string, lo: nat, hi: nat)
    requires lo <= hi <= |s|
    ensures var r := RightmostTail(s, lo, hi);
            && (r.Some? ==> MandatoryTailAt(s, r.value).Some?)
            && (r.Some? ==> forall j :: r.value < j < hi ==> MandatoryTailAt(s, j).None?)
            && (r.None? ==> forall j :: lo <= j < hi ==> MandatoryTailAt(s, j).None?)
  {
    var p := TailMatches(s);
    RightmostSpec(lo, hi, p);
    var r := Rightmost(lo, hi, p);
    if r.Some? {
      assert p(r.value);
      forall j | r.value < j < hi ensures MandatoryTailAt(s, j).None? {
        assert !p(j);
      }
    } else {
      forall j | lo <= j < hi ensures MandatoryTailAt(s, j).None? {
        assert !p(j);
      }
    }
  }

  predicate NotCloseParen(c: char) {
    c != ')'
  }

  /** Where the pattern is tried at `q`: `None` unless `\[Parameter\(` opens there,
      and otherwise the rightmost place before the first `)` where `Mandatory` begins. */
  function MatchFrom(s: string, q: nat): (r: Option<nat>)
    requires q <= |s|
    ensures r.Some? ==> AttributeOpenAt(s, q)
  {
    if AttributeOpenAt(s, q) then RightmostTail(s, q + 11, Span(s, q + 11, NotCloseParen))
    else None
  }

  /** Trying the pattern at `q` finds exactly the greedy match there: the largest end of
      `[^)]*` at which the rest matches, and nothing when no end works. */
  lemma MatchFromMeans(s: string, q: nat)
    requires q <= |s|
    ensures MatchFrom(s, q).Some? ==> MarkerAt(s, q, MatchFrom(s, q).value)
    ensures MatchFrom(s, q).Some? ==> forall j :: MatchFrom(s, q).value < j ==> !MarkerAt(s, q, j)
    ensures MatchFrom(s, q).None? ==> forall j :: !MarkerAt(s, q, j)
  {
    if AttributeOpenAt(s, q) {
      SpanAll(s, q + 11, NotCloseParen);
      MarkerWithinRun(s, q, Span(s, q + 11, NotCloseParen));
      RightmostTailSpec(s, q + 11, Span(s, q + 11, NotCloseParen));
    }
  }

  /** The match `re.search` finds from `i` on: the leftmost start where the pattern
      matches, with the end `MatchFrom` gives there. */
  function SearchMarker(s: string, i: nat): (r: Option<(nat, nat)>)
    requires i <= |s|
    ensures r.Some? ==> i <= r.value.0 <= |s| && MatchFrom(s, r.value.0) == Some(r.value.1)
    ensures r.Some? ==> forall q :: i <= q < r.value.0 ==> MatchFrom(s, q).None?
    ensures r.None? ==> forall q :: i <= q <= |s| ==> MatchFrom(s, q).None?
    decreases |s| - i
  {
    if i + 11 > |s| then
      assert forall q :: i <= q <= |s| ==> !AttributeOpenAt(s, q);
      None
    else
      match MatchFrom(s, i)
      case Some(j) => Some((i, j))
      case None => SearchMarker(s, i + 1)
  }

  /** The search finds the leftmost match and, at it, the greedy end; it finds nothing
      only when the pattern matches nowhere. */
  lemma SearchMarkerSpec(s: string)
    ensures var r := SearchMarker(s, 0);
            && (r.Some? ==> MarkerAt(s, r.value.0, r.value.1))
            && (r.Some? ==> forall q: nat, j: nat :: q < r.value.0 ==> !MarkerAt(s, q, j))
            && (r.Some? ==> forall j :: r.value.1 < j ==> !MarkerAt(s, r.value.0, j))
            && (r.None? <==> forall q: nat, j: nat :: !MarkerAt(s, q, j))
  {
    var r := SearchMarker(s, 0);
    if r.Some? {
      MatchFromMeans(s, r.value.0);
      forall q: nat, j: nat | q < r.value.0 ensures !MarkerAt(s, q, j) {
        MatchFromMeans(s, q);
      }
    } else {
      forall q: nat, j: nat ensures !MarkerAt(s, q, j) {
        if q <= |s| {
          MatchFromMeans(s, q);
        }
      }
    }
  }

  /** `[^)]*` cannot run past a `)`, and `Mandatory` cannot start at one. */
  lemma MarkerWithinRun(s: string, i: nat, e: nat)
    requires AttributeOpenAt(s, i) && e == Span(s, i + 11, NotCloseParen)
    ensures forall j: nat :: MarkerAt(s, i, j) ==> j < e
  {
    assert MandatoryTailAt(s, e).None? by {
      if e + 9 <= |s| { assert ToLower(s[e]) == ')'; }
    }
  }

  /** `group(1)` of the search, or `None` when the section has no Mandatory marker. */
  function MandatoryWord(s: string): (r: Option<string>)
    ensures r.None? <==> forall q, j :: !MarkerAt(s, q, j)
    ensures r.Some? ==> r.value != [] && AllWordChars(r.value)
    ensures r.Some? ==> exists q, j :: MarkerAt(s, q, j) && MandatoryTailAt(s, j) == r
  {
    SearchMarkerSpec(s);
    match SearchMarker(s, 0)
    case None => None
    case Some((q, j)) => MandatoryTailAt(s, j)
  }

  /** The match `re.search` reports: the leftmost start, and at it the greedy end. */
  ghost predicate SearchedMarker(s: string, q: nat, j: nat) {
    MarkerAt(s, q, j)
    && (forall q2: nat, j2: nat :: q2 < q ==> !MarkerAt(s, q2, j2))
    && (forall j2: nat :: j < j2 ==> !MarkerAt(s, q, j2))
  }

  lemma SearchedMarkerUnique(s: string, q1: nat, j1: nat, q2: nat, j2: nat)
    requires SearchedMarker(s, q1, j1) && SearchedMarker(s, q2, j2)
    ensures q1 == q2 && j1 == j2
  {
  }

  /** The word is the one captured by the reported match, and there is a word only when
      there is such a match. */
  lemma MandatoryWordIsSearched(s: string)
    ensures forall q: nat, j: nat :: SearchedMarker(s, q, j) ==> MandatoryWord(s) == MandatoryTailAt(s, j)
    ensures MandatoryWord(s).Some? ==>
              exists q: nat, j: nat :: SearchedMarker(s, q, j) && MandatoryWord(s) == MandatoryTailAt(s, j)
  {
    SearchMarkerSpec(s);
    match SearchMarker(s, 0)
    case None =>
    case Some((q0, j0)) =>
      assert SearchedMarker(s, q0, j0);
      forall q: nat, j: nat | SearchedMarker(s, q, j) ensures MandatoryWord(s) == MandatoryTailAt(s, j) {
        SearchedMarkerUnique(s, q, j, q0, j0);
      }
  }

  // ---------------------------------------------------------------------------
  // `\[(\w+)\]\s*\$(\w+)(?:\s*=\s*"?([^",\n]*)"?)?`, searched.

  /** The three groups of a match; an absent default group is the empty text. */
  datatype Declaration = Declaration(typeName: string, name: string, rawDefault: string)

  predicate IsDefaultChar(c: char) {
    c != '"' && c != ',' && c != '\n'
  }

  /** The optional default group, tried where the name ends. */
  function DefaultAt(s: string, n: nat): (d: string)
    requires n <= |s|
    ensures forall k :: 0 <= k < |d| ==> IsDefaultChar(d[k])
    ensures d != [] ==> Span(s, n, IsSpace) < |s| && s[Span(s, n, IsSpace)] == '='
  {
    var a := Span(s, n, IsSpace);
    if a < |s| && s[a] == '=' then
      var b := Span(s, a + 1, IsSpace);
      var c := if b < |s| && s[b] == '"' then b + 1 else b;
      var e := Span(s, c, IsDefaultChar);
      SpanRun(s, c, IsDefaultChar);
      s[c..e]
    else []
  }

  /** The match started at `i`, if there is one. */
  function DeclarationAt(s: string, i: nat): (r: Option<Declaration>)
    requires i <= |s|
    ensures r.Some? ==> r.value.typeName != [] && AllWordChars(r.value.typeName)
    ensures r.Some? ==> r.value.name != [] && AllWordChars(r.value.name)
    ensures r.Some? ==> forall k :: 0 <= k < |r.value.rawDefault| ==> IsDefaultChar(r.value.rawDefault[k])
    ensures r.Some? ==> i < |s| && s[i] == '['
  {
    if i < |s| && s[i] == '[' then
      var t := Span(s, i + 1, IsWordChar);
      if t > i + 1 && t < |s| && s[t] == ']' then
        SpanRun(s, i + 1, IsWordChar);
        DeclarationAfterType(s, i, t)
      else None
    else None
  }

  /** The rest of the match once `[`, the type `s[i + 1..t]` and `]` are read: whitespace,
      `$`, the name and the optional default. */
  function DeclarationAfterType(s: string, i: nat, t: nat): (r: Option<Declaration>)
    requires i + 1 < t < |s|
    ensures r.Some? ==> r.value.typeName == s[i + 1..t]
    ensures r.Some? ==> r.value.name != [] && AllWordChars(r.value.name)
    ensures r.Some? ==> forall k :: 0 <= k < |r.value.rawDefault| ==> IsDefaultChar(r.value.rawDefault[k])
  {
    var d := Span(s, t + 1, IsSpace);
    if d < |s| && s[d] == '$' then
      var n := Span(s, d + 1, IsWordChar);
      if n > d + 1 then
        SpanRun(s, d + 1, IsWordChar);
        Some(Declaration(s[i + 1..t], s[d + 1..n], DefaultAt(s, n)))
      else None
    else None
  }

  /** `\s*=\s*"?([^",\n]*)` matches after the name ending at `n`: `=` at `a`, the greedy
      whitespace after it ending at `b`, an optional `"`, and the greedy group `s[c..e]`. */
  predicate DefaultMatch(s: string, n: nat, a: nat, b: nat, c: nat, e: nat) {
    Run(s, n, a, IsSpace) && a < |s| && s[a] == '='
    && MaxRun(s, a + 1, b, IsSpace)
    && c == (if b < |s| && s[b] == '"' then b + 1 else b)
    && MaxRun(s, c, e, IsDefaultChar)
  }

  /** Given the places of the match, the default group is the text it captures. */
  lemma DefaultFromMatch(s: string, n: nat, a: nat, b: nat, c: nat, e: nat)
    requires DefaultMatch(s, n, a, b, c, e)
    ensures DefaultAt(s, n) == s[c..e]
  {
    SpanMaxRun(s, n, IsSpace);
    assert MaxRun(s, n, a, IsSpace);
    SpanMaxRun(s, a + 1, IsSpace);
    SpanMaxRun(s, c, IsDefaultChar);
  }

  /** An `=` after the name and whitespace starts a default match. */
  lemma DefaultHasMatch(s: string, n: nat, a: nat)
    requires Run(s, n, a, IsSpace) && a < |s| && s[a] == '='
    ensures exists b: nat, c: nat, e: nat :: DefaultMatch(s, n, a, b, c, e)
  {
    var b := Span(s, a + 1, IsSpace);
    SpanEndsMaxRun(s, a + 1, IsSpace);
    var c := if b < |s| && s[b] == '"' then b + 1 else b;
    var e := Span(s, c, IsDefaultChar);
    SpanEndsMaxRun(s, c, IsDefaultChar);
    assert DefaultMatch(s, n, a, b, c, e);
  }

  /** Without an `=` after the name and whitespace, the optional group is skipped. */
  lemma DefaultAbsent(s: string, n: nat)
    requires n <= |s|
    requires forall a: nat :: Run(s, n, a, IsSpace) && a < |s| ==> s[a] != '='
    ensures DefaultAt(s, n) == []
  {
    SpanMaxRun(s, n, IsSpace);
  }

  /** `\[(\w+)\]\s*\$(\w+)` matches at `i` with `]` at `t`, `$` at `d` and the greedy name
      running over `s[d + 1..n]`. */
  predicate DeclarationHead(s: string, i: nat, t: nat, d: nat, n: nat) {
    i + 1 < t && Run(s, i + 1, t, IsWordChar) && t < |s| && s[i] == '[' && s[t] == ']'
    && Run(s, t + 1, d, IsSpace) && d < |s| && s[d] == '$'
    && d + 1 < n && MaxRun(s, d + 1, n, IsWordChar)
  }

  /** Given the places of the match, the scanner returns its three groups. */
  lemma DeclarationFromHead(s: string, i: nat, t: nat, d: nat, n: nat)
    requires DeclarationHead(s, i, t, d, n)
    ensures DeclarationAt(s, i) == Some(Declaration(s[i + 1..t], s[d + 1..n], DefaultAt(s, n)))
  {
    HeadRuns(s, i, t, d, n);
    SpanIs(s, i + 1, t, IsWordChar);
    SpanIs(s, t + 1, d, IsSpace);
    SpanIs(s, d + 1, n, IsWordChar);
    DeclarationFromSpans(s, i, t, d, n);
  }

  /** The scanner's three greedy runs, once known to end at `t`, `d` and `n`, give its groups. */
  lemma DeclarationFromSpans(s: string, i: nat, t: nat, d: nat, n: nat)
    requires i < t < d < n <= |s| && s[i] == '[' && s[t] == ']' && s[d] == '$' && i + 1 < t && d + 1 < n
    requires Span(s, i + 1, IsWordChar) == t && Span(s, t + 1, IsSpace) == d && Span(s, d + 1, IsWordChar) == n
    ensures DeclarationAt(s, i) == Some(Declaration(s[i + 1..t], s[d + 1..n], DefaultAt(s, n)))
  {
    TypeThenRest(s, i, t);
    RestFromSpans(s, i, t, d, n);
  }

  /** After `[` and a greedy type ending at `]`, the match is the rest of it. */
  lemma TypeThenRest(s: string, i: nat, t: nat)
    requires i + 1 < t < |s| && s[i] == '[' && s[t] == ']' && Span(s, i + 1, IsWordChar) == t
    ensures DeclarationAt(s, i) == DeclarationAfterType(s, i, t)
  {
  }

  /** Greedy whitespace ending at `$` and a greedy name ending at `n` give the groups. */
  lemma RestFromSpans(s: string, i: nat, t: nat, d: nat, n: nat)
    requires i + 1 < t < d && d + 1 < n <= |s| && s[d] == '$'
    requires Span(s, t + 1, IsSpace) == d && Span(s, d + 1, IsWordChar) == n
    ensures DeclarationAfterType(s, i, t) == Some(Declaration(s[i + 1..t], s[d + 1..n], DefaultAt(s, n)))
  {
  }

  /** The runs a declaration head names are maximal. */
  lemma HeadRuns(s: string, i: nat, t: nat, d: nat, n: nat)
    requires DeclarationHead(s, i, t, d, n)
    ensures MaxRun(s, i + 1, t, IsWordChar) && MaxRun(s, t + 1, d, IsSpace) && MaxRun(s, d + 1, n, IsWordChar)
  {
  }

  /** When the scanner succeeds, the pattern matches there. */
  lemma DeclarationHasHead(s: string, i: nat)
    requires i <= |s| && DeclarationAt(s, i).Some?
    ensures exists t: nat, d: nat, n: nat :: DeclarationHead(s, i, t, d, n)
  {
    DeclarationSpans(s, i);
    var t := Span(s, i + 1, IsWordChar);
    var d := Span(s, t + 1, IsSpace);
    var n := Span(s, d + 1, IsWordChar);
    HeadFromSpans(s, i, t, d, n);
  }

  /** The greedy runs between `[`, `]`, `$` and the end of the name make a declaration head. */
  lemma HeadFromSpans(s: string, i: nat, t: nat, d: nat, n: nat)
    requires i + 1 < t < |s| && s[i] == '[' && s[t] == ']' && d < |s| && s[d] == '$' && d + 1 < n
    requires Span(s, i + 1, IsWordChar) == t && Span(s, t + 1, IsSpace) == d && Span(s, d + 1, IsWordChar) == n
    ensures DeclarationHead(s, i, t, d, n)
  {
    SpanEndIsMaxRun(s, i + 1, t, IsWordChar);
    SpanEndIsMaxRun(s, t + 1, d, IsSpace);
    SpanEndIsMaxRun(s, d + 1, n, IsWordChar);
    HeadFromRuns(s, i, t, d, n);
  }

  /** Maximal runs between `[`, `]`, `$` and the end of the name make a declaration head. */
  lemma HeadFromRuns(s: string, i: nat, t: nat, d: nat, n: nat)
    requires i + 1 < t < |s| && s[i] == '[' && s[t] == ']' && d < |s| && s[d] == '$' && d + 1 < n
    requires MaxRun(s, i + 1, t, IsWordChar) && MaxRun(s, t + 1, d, IsSpace) && MaxRun(s, d + 1, n, IsWordChar)
    ensures DeclarationHead(s, i, t, d, n)
  {
  }

  /** The places the scanner passed through when it found a declaration. */
  lemma DeclarationSpans(s: string, i: nat)
    requires i <= |s| && DeclarationAt(s, i).Some?
    ensures var t := Span(s, i + 1, IsWordChar);
            t > i + 1 && t < |s| && s[t] == ']'
            && var d := Span(s, t + 1, IsSpace);
               d < |s| && s[d] == '$' && Span(s, d + 1, IsWordChar) > d + 1
  {
  }

  /** The declaration pattern matches at `i` exactly when its head does, and the groups are
      the type between `[` and `]`, the whole word after `$`, and the default group. */
  lemma DeclarationAtMeans(s: string, i: nat)
    requires i <= |s|
    ensures forall t: nat, d: nat, n: nat :: DeclarationHead(s, i, t, d, n) ==>
              DeclarationAt(s, i) == Some(Declaration(s[i + 1..t], s[d + 1..n], DefaultAt(s, n)))
    ensures DeclarationAt(s, i).Some? ==> exists t: nat, d: nat, n: nat :: DeclarationHead(s, i, t, d, n)
  {
    forall t: nat, d: nat, n: nat | DeclarationHead(s, i, t, d, n)
      ensures DeclarationAt(s, i) == Some(Declaration(s[i + 1..t], s[d + 1..n], DefaultAt(s, n)))
    {
      DeclarationFromHead(s, i, t, d, n);
    }
    if DeclarationAt(s, i).Some? {
      DeclarationHasHead(s, i);
    }
  }

  /** The default group is empty when no `=` follows the name, and otherwise it is the text
      that the match of the optional group captures. */
  lemma DefaultAtMeans(s: string, n: nat)
    requires n <= |s|
    ensures (forall a: nat :: Run(s, n, a, IsSpace) && a < |s| ==> s[a] != '=') ==> DefaultAt(s, n) == []
    ensures forall a: nat, b: nat, c: nat, e: nat :: DefaultMatch(s, n, a, b, c, e) ==> DefaultAt(s, n) == s[c..e]
    ensures forall a: nat :: Run(s, n, a, IsSpace) && a < |s| && s[a] == '=' ==>
              exists b: nat, c: nat, e: nat :: DefaultMatch(s, n, a, b, c, e)
  {
    if forall a: nat :: Run(s, n, a, IsSpace) && a < |s| ==> s[a] != '=' {
      DefaultAbsent(s, n);
    }
    forall a: nat, b: nat, c: nat, e: nat | DefaultMatch(s, n, a, b, c, e) ensures DefaultAt(s, n) == s[c..e] {
      DefaultFromMatch(s, n, a, b, c, e);
    }
    forall a: nat | Run(s, n, a, IsSpace) && a < |s| && s[a] == '='
      ensures exists b: nat, c: nat, e: nat :: DefaultMatch(s, n, a, b, c, e)
    {
      DefaultHasMatch(s, n, a);
    }
  }

  function SearchDeclaration(s: string, i: nat): (r: Option<nat>)
    requires i <= |s|
    ensures r.Some? ==> i <= r.value <= |s| && DeclarationAt(s, r.value).Some?
    ensures r.Some? ==> forall q :: i <= q < r.value ==> DeclarationAt(s, q).None?
    ensures r.None? ==> forall q :: i <= q <= |s| ==> DeclarationAt(s, q).None?
    decreases |s| - i
  {
    if DeclarationAt(s, i).Some? then Some(i)
    else if i == |s| then None
    else SearchDeclaration(s, i + 1)
  }

  /** The groups of the leftmost match in the section, if any. */
  function FindDeclaration(s: string): (r: Option<Declaration>)
    ensures r.None? <==> forall q :: 0 <= q <= |s| ==> DeclarationAt(s, q).None?
    ensures r.Some? ==> exists q :: 0 <= q <= |s| && DeclarationAt(s, q) == r
                                    && forall p :: 0 <= p < q ==> DeclarationAt(s, p).None?
  {
    match SearchDeclaration(s, 0)
    case None => None
    case Some(q) => DeclarationAt(s, q)
  }

  // ---------------------------------------------------------------------------
  // `re.sub(r'([A-Z])', r' \1', name)`.

  /** A space before every capital letter. */
  function SpaceBeforeCapitals(s: string): (r: string)
    ensures |r| >= |s|
  {
    if s == [] then []
    else
      var rest := SpaceBeforeCapitals(s[1..]);
      if IsUpper(s[0]) then [' ', s[0]] + rest else [s[0]] + rest
  }

  /** Every capital letter of the result has a space just before it. */
  lemma {:induction false} SpaceBeforeCapitalsSpaced(s: string)
    ensures forall k :: 0 <= k < |SpaceBeforeCapitals(s)| && IsUpper(SpaceBeforeCapitals(s)[k]) ==>
              k > 0 && SpaceBeforeCapitals(s)[k - 1] == ' '
    decreases |s|
  {
    if s != [] {
      var rest := SpaceBeforeCapitals(s[1..]);
      SpaceBeforeCapitalsSpaced(s[1..]);
      var head := if IsUpper(s[0]) then [' ', s[0]] else [s[0]];
      var n := |head|;
      var r := SpaceBeforeCapitals(s);
      assert r == head + rest;
      forall k | 0 <= k < |r| && IsUpper(r[k]) ensures k > 0 && r[k - 1] == ' ' {
        if k > n {
          assert r[k] == rest[k - n] && r[k - 1] == rest[k - 1 - n];
        }
      }
    }
  }

  /** The insertion adds spaces and nothing else. */
  lemma {:induction false} SpaceBeforeCapitalsAddsOnlySpaces(s: string)
    ensures RemoveSpaces(SpaceBeforeCapitals(s)) == RemoveSpaces(s)
    decreases |s|
  {
    if s != [] {
      var rest := SpaceBeforeCapitals(s[1..]);
      SpaceBeforeCapitalsAddsOnlySpaces(s[1..]);
      if IsUpper(s[0]) {
        RemoveSpacesAppend([' ', s[0]], rest);
        assert [' ', s[0]][1..] == [s[0]];
      } else {
        RemoveSpacesAppend([s[0]], rest);
      }
    }
  }

  /** The number of capital letters in `s`. */
  function Capitals(s: string): (n: nat)
    ensures n <= |s|
  {
    if s == [] then 0 else (if IsUpper(s[0]) then 1 else 0) + Capitals(s[1..])
  }

  /** Where the insertion puts the character at `k`: further right by the number of capitals
      up to and including it. */
  function Place(s: string, k: nat): (p: nat)
    requires k < |s|
    ensures k <= p
  {
    k + Capitals(s[..k + 1])
  }

  /** The place of a character, counted from the place of the one after the first. */
  lemma PlaceStep(s: string, k: nat)
    requires k < |s|
    ensures Place(s, k) == (if IsUpper(s[0]) then 1 else 0) + (if k == 0 then 0 else 1 + Place(s[1..], k - 1))
  {
    assert s[..k + 1][1..] == s[1..][..k];
    if k == 0 {
      assert s[1..][..0] == [];
    }
  }

  /** Where each character lands: the character at `k` moves to `Place(s, k)`, a capital gets
      a space just before it, and the result is longer by the number of capitals. The places
      named account for every position of the result, so this fixes it completely. */
  lemma {:induction false} SpaceBeforeCapitalsPlaces(s: string)
    ensures |SpaceBeforeCapitals(s)| == |s| + Capitals(s)
    ensures forall k :: 0 <= k < |s| ==>
              Place(s, k) < |SpaceBeforeCapitals(s)| && SpaceBeforeCapitals(s)[Place(s, k)] == s[k]
    ensures forall k :: 0 <= k < |s| && IsUpper(s[k]) ==>
              0 < Place(s, k) && SpaceBeforeCapitals(s)[Place(s, k) - 1] == ' '
    decreases |s|
  {
    if s != [] {
      var t := s[1..];
      SpaceBeforeCapitalsPlaces(t);
      var r := SpaceBeforeCapitals(s);
      forall k | 0 <= k < |s|
        ensures Place(s, k) < |r| && r[Place(s, k)] == s[k]
        ensures IsUpper(s[k]) ==> 0 < Place(s, k) && r[Place(s, k) - 1] == ' '
      {
        if k == 0 {
          PlaceStep(s, 0);
        } else {
          assert s[k] == t[k - 1];
          PlaceLater(s, k);
        }
      }
    }
  }

  /** A later character lands one past the head's width further right than it does in the
      insertion on the rest of the text. */
  lemma PlaceLater(s: string, k: nat)
    requires 0 < k < |s|
    requires Place(s[1..], k - 1) < |SpaceBeforeCapitals(s[1..])|
    requires SpaceBeforeCapitals(s[1..])[Place(s[1..], k - 1)] == s[k]
    requires IsUpper(s[k]) ==>
               0 < Place(s[1..], k - 1) && SpaceBeforeCapitals(s[1..])[Place(s[1..], k - 1) - 1] == ' '
    ensures Place(s, k) < |SpaceBeforeCapitals(s)| && SpaceBeforeCapitals(s)[Place(s, k)] == s[k]
    ensures IsUpper(s[k]) ==> 0 < Place(s, k) && SpaceBeforeCapitals(s)[Place(s, k) - 1] == ' '
  {
    PlaceStep(s, k);
    var head := if IsUpper(s[0]) then [' ', s[0]] else [s[0]];
    assert SpaceBeforeCapitals(s) == head + SpaceBeforeCapitals(s[1..]);
  }

  // ---------------------------------------------------------------------------
  // `re.sub(r'(?<!^)(?=[A-Z])', ' ', name)`.

  /** A space before every capital letter except one at the very start. */
  function SpaceCamelCase(s: string): (r: string)
    ensures s == [] ==> r == []
    ensures s != [] ==> r != [] && r[0] == s[0]
  {
    if s == [] then [] else [s[0]] + SpaceBeforeCapitals(s[1..])
  }

  /** Every capital letter after the first character has a space just before it. */
  lemma SpaceCamelCaseSpaced(s: string)
    ensures forall k :: 1 <= k < |SpaceCamelCase(s)| && IsUpper(SpaceCamelCase(s)[k]) ==>
              SpaceCamelCase(s)[k - 1] == ' '
  {
    if s != [] {
      var rest := SpaceBeforeCapitals(s[1..]);
      SpaceBeforeCapitalsSpaced(s[1..]);
      var r := SpaceCamelCase(s);
      assert r == [s[0]] + rest;
      forall k | 1 <= k < |r| && IsUpper(r[k]) ensures r[k - 1] == ' ' {
        assert r[k] == rest[k - 1];
        if k > 1 {
          assert r[k - 1] == rest[k - 2];
        }
      }
    }
  }

  /** Where each character lands: the first stays first, every later character at `k` moves
      to just after the place `SpaceBeforeCapitals` gives it in `s[1..]`, and only the capitals
      after the first character get a space before them. */
  lemma SpaceCamelCasePlaces(s: string)
    ensures s != [] ==> |SpaceCamelCase(s)| == |s| + Capitals(s[1..])
    ensures forall k :: 1 <= k < |s| ==>
              1 + Place(s[1..], k - 1) < |SpaceCamelCase(s)| && SpaceCamelCase(s)[1 + Place(s[1..], k - 1)] == s[k]
    ensures forall k :: 1 <= k < |s| && IsUpper(s[k]) ==> SpaceCamelCase(s)[Place(s[1..], k - 1)] == ' '
  {
    if s != [] {
      var t := s[1..];
      SpaceBeforeCapitalsPlaces(t);
      var rest := SpaceBeforeCapitals(t);
      var r := SpaceCamelCase(s);
      assert r == [s[0]] + rest;
      forall k | 1 <= k < |s|
        ensures 1 + Place(t, k - 1) < |r| && r[1 + Place(t, k - 1)] == s[k]
        ensures IsUpper(s[k]) ==> r[Place(t, k - 1)] == ' '
      {
        assert s[k] == t[k - 1];
      }
    }
  }

  /** The insertion adds spaces and nothing else. */
  lemma SpaceCamelCaseAddsOnlySpaces(s: string)
    ensures RemoveSpaces(SpaceCamelCase(s)) == RemoveSpaces(s)
  {
    if s != [] {
      SpaceBeforeCapitalsAddsOnlySpaces(s[1..]);
      RemoveSpacesAppend([s[0]], SpaceBeforeCapitals(s[1..]));
      RemoveSpacesAppend([s[0]], s[1..]);
      assert s == [s[0]] + s[1..];
    }
  }

  // ---------------------------------------------------------------------------
  // `re.sub(r'\b(script|ps1)\b', '', name, flags=re.IGNORECASE)`.

  /** `script` at `i`, ignoring case. */
  predicate ScriptAt(s: string, i: nat) {
    i + 6 <= |s|
    && ToLower(s[i]) == 's' && ToLower(s[i + 1]) == 'c' && ToLower(s[i + 2]) == 'r'
    && ToLower(s[i + 3]) == 'i' && ToLower(s[i + 4]) == 'p' && ToLower(s[i + 5]) == 't'
  }

  /** `ps1` at `i`, ignoring case. */
  predicate Ps1At(s: string, i: nat) {
    i + 3 <= |s| && ToLower(s[i]) == 'p' && ToLower(s[i + 1]) == 's' && s[i + 2] == '1'
  }

  /** `script` or `ps1` at `i`, followed by a word boundary (the end or a non-word
      character); the boundary before `i` is checked separately. */
  predicate WordEndsAt(s: string, i: nat) {
    || (ScriptAt(s, i) && (i + 6 == |s| || !IsWordChar(s[i + 6])))
    || (Ps1At(s, i) && (i + 3 == |s| || !IsWordChar(s[i + 3])))
  }

  /** The length of the whole-word `script` or `ps1` starting at `i` (0 when there is none). */
  function ScriptWordAt(s: string, i: nat): (n: nat)
    requires i <= |s|
    ensures n == 0 || n == 3 || n == 6
    ensures n > 0 <==> (i == 0 || !IsWordChar(s[i - 1])) && WordEndsAt(s, i)
    ensures n > 0 ==> i + n <= |s| && (i + n == |s| || !IsWordChar(s[i + n]))
    ensures n == 6 <==> (i == 0 || !IsWordChar(s[i - 1])) && ScriptAt(s, i) && (i + 6 == |s| || !IsWordChar(s[i + 6]))
    ensures n == 3 <==> (i == 0 || !IsWordChar(s[i - 1])) && !(ScriptAt(s, i) && (i + 6 == |s| || !IsWordChar(s[i + 6])))
                        && Ps1At(s, i) && (i + 3 == |s| || !IsWordChar(s[i + 3]))
  {
    if i > 0 && IsWordChar(s[i - 1]) then 0
    else if ScriptAt(s, i) && (i + 6 == |s| || !IsWordChar(s[i + 6])) then 6
    else if Ps1At(s, i) && (i + 3 == |s| || !IsWordChar(s[i + 3])) then 3
    else 0
  }

  function RemoveScriptWordsFrom(s: string, i: nat): string
    requires i <= |s|
    decreases |s| - i
  {
    if i == |s| then []
    else
      var n := ScriptWordAt(s, i);
      if n > 0 then RemoveScriptWordsFrom(s, i + n) else [s[i]] + RemoveScriptWordsFrom(s, i + 1)
  }

  /** Every whole-word `script`/`ps1` removed, scanning left to right. */
  function RemoveScriptWords(s: string): string {
    RemoveScriptWordsFrom(s, 0)
  }

  /** A match in `t` at `p`, where `leftWord` says whether the character before `t` is a
      word character (it matters only at `p == 0`). */
  predicate MatchInContext(t: string, p: nat, leftWord: bool) {
    p <= |t|
    && (if p == 0 then !leftWord else !IsWordChar(t[p - 1]))
    && WordEndsAt(t, p)
  }

  /** Position `q` lies inside a whole-word `script` or `ps1` of `s`. */
  ghost predicate Covered(s: string, q: nat) {
    exists p: nat :: p <= q && p <= |s| && q < p + ScriptWordAt(s, p)
  }

  /** The characters of `s` from `i` on that no match covers, in their order. */
  ghost function Kept(s: string, i: nat): string
    requires i <= |s|
    decreases |s| - i
  {
    if i == |s| then [] else (if Covered(s, i) then [] else [s[i]]) + Kept(s, i + 1)
  }

  /** The removal keeps exactly the characters that no match covers, in order. Matches never
      overlap, so removing them one after another from the left removes all of them. */
  lemma RemoveScriptWordsKeepsUncovered(s: string)
    ensures RemoveScriptWords(s) == Kept(s, 0)
  {
    RemoveFromKeeps(s, 0);
  }

  /** Every character of a match is a word character. */
  lemma ScriptWordIsWord(s: string, p: nat, k: nat)
    requires p <= |s| && p <= k < p + ScriptWordAt(s, p)
    ensures IsWordChar(s[k])
  {
  }

  /** No match starts inside another: the character before such a start is a word character. */
  lemma NoMatchInside(s: string, p: nat, q: nat)
    requires q <= |s| && p < q < p + ScriptWordAt(s, p)
    ensures ScriptWordAt(s, q) == 0
  {
    ScriptWordIsWord(s, p, q - 1);
  }

  /** The positions a match starting at `i` covers contribute nothing. */
  lemma {:induction false} KeptSkipsMatch(s: string, i: nat, m: nat)
    requires i <= m <= |s| && m <= i + ScriptWordAt(s, i) <= |s|
    ensures Kept(s, m) == Kept(s, i + ScriptWordAt(s, i))
    decreases i + ScriptWordAt(s, i) - m
  {
    if m < i + ScriptWordAt(s, i) {
      assert Covered(s, m);
      KeptSkipsMatch(s, i, m + 1);
    }
  }

  /** From any position that no earlier match reaches past, the scan keeps what is uncovered. */
  lemma {:induction false} RemoveFromKeeps(s: string, i: nat)
    requires i <= |s|
    requires forall p: nat :: p < i ==> p + ScriptWordAt(s, p) <= i
    ensures RemoveScriptWordsFrom(s, i) == Kept(s, i)
    decreases |s| - i
  {
    if i < |s| {
      var n := ScriptWordAt(s, i);
      if n > 0 {
        KeptSkipsMatch(s, i, i);
        forall p: nat | p < i + n ensures p + ScriptWordAt(s, p) <= i + n {
          if i < p {
            NoMatchInside(s, i, p);
          }
        }
        RemoveFromKeeps(s, i + n);
      } else {
        assert !Covered(s, i) by {
          forall p: nat | p <= i && p <= |s| ensures i >= p + ScriptWordAt(s, p) {
          }
        }
        RemoveFromKeeps(s, i + 1);
      }
    }
  }

  /** No whole-word `script` or `ps1` is left after the removal. */
  lemma NoScriptWordLeft(s: string)
    ensures forall p :: 0 <= p <= |RemoveScriptWords(s)| ==> ScriptWordAt(RemoveScriptWords(s), p) == 0
  {
    NoMatchAfterRemoval(s, 0, false);
    var r := RemoveScriptWords(s);
    forall p | 0 <= p <= |r| ensures ScriptWordAt(r, p) == 0 {
      assert !MatchInContext(r, p, false);
    }
  }

  /** The output context of `RemoveScriptWordsFrom(s, i)`: what precedes it in the final
      text is the start of the text, the kept character `s[i - 1]`, or a removed word that
      ended before a non-word character. */
  predicate RemovalContext(s: string, i: nat, leftWord: bool) {
    i <= |s|
    && ((i == 0 && !leftWord)
        || (i > 0 && leftWord == IsWordChar(s[i - 1]))
        || (i > 0 && !leftWord && (i == |s| || !IsWordChar(s[i]))))
  }

  lemma {:induction false} NoMatchAfterRemoval(s: string, i: nat, leftWord: bool)
    requires RemovalContext(s, i, leftWord)
    ensures forall p :: !MatchInContext(RemoveScriptWordsFrom(s, i), p, leftWord)
    decreases |s| - i
  {
    var r := RemoveScriptWordsFrom(s, i);
    if i < |s| {
      var n := ScriptWordAt(s, i);
      if n > 0 {
        NoMatchAfterRemoval(s, i + n, false);
      } else {
        var rest := RemoveScriptWordsFrom(s, i + 1);
        KeepOne(s, i);
        NoMatchAfterRemoval(s, i + 1, IsWordChar(s[i]));
        forall p ensures !MatchInContext(r, p, leftWord) {
          if p == 0 {
            NoMatchAtKeptStart(s, i, leftWord);
          } else {
            MatchShift(s[i], rest, p, leftWord);
          }
        }
      }
    }
  }

  lemma MatchShift(c: char, u: string, p: nat, leftWord: bool)
    requires 1 <= p
    ensures MatchInContext([c] + u, p, leftWord) == MatchInContext(u, p - 1, IsWordChar(c))
  {
    var t := [c] + u;
    if p <= |t| {
      if p >= 2 { assert t[p - 1] == u[p - 2]; }
      forall m | p <= m < |t| ensures t[m] == u[m - 1] {
      }
    }
  }

  /** Where nothing is removed, the output goes on with the character itself. */
  lemma KeepOne(s: string, i: nat)
    requires i < |s| && ScriptWordAt(s, i) == 0
    ensures RemoveScriptWordsFrom(s, i) == [s[i]] + RemoveScriptWordsFrom(s, i + 1)
  {
  }

  /** A run of `k` word characters at the start of the output, where nothing is removed
      at `j`, is `s[j..j + k]` character for character, and the output then goes on as
      from `j + k`: after a word character nothing can be removed. */
  lemma {:induction false} KeptRun(s: string, j: nat, k: nat)
    requires j <= |s| && WordPrefix(RemoveScriptWordsFrom(s, j), k)
    requires 0 < k ==> j < |s| && ScriptWordAt(s, j) == 0
    ensures j + k <= |s|
    ensures forall q :: 0 <= q < k ==> RemoveScriptWordsFrom(s, j)[q] == s[j + q]
    ensures |RemoveScriptWordsFrom(s, j)| == k + |RemoveScriptWordsFrom(s, j + k)|
    ensures k < |RemoveScriptWordsFrom(s, j)| ==>
              RemoveScriptWordsFrom(s, j)[k] == RemoveScriptWordsFrom(s, j + k)[0]
    decreases k
  {
    if 0 < k {
      KeptRunStep(s, j, k);
      KeptRun(s, j + 1, k - 1);
      KeptShift(s, j, k, RemoveScriptWordsFrom(s, j), RemoveScriptWordsFrom(s, j + 1));
    }
  }

  /** Putting the kept `s[j]` in front of a run copied from `s[j + 1..]`. */
  lemma KeptShift(s: string, j: nat, k: nat, r: string, rest: string)
    requires j < |s| && 0 < k && j + k <= |s|
    requires r == [s[j]] + rest && k <= |r|
    requires forall q :: 0 <= q < k - 1 ==> rest[q] == s[j + 1 + q]
    ensures forall q :: 0 <= q < k ==> r[q] == s[j + q]
    ensures k < |r| ==> r[k] == rest[k - 1]
  {
    forall q | 0 <= q < k ensures r[q] == s[j + q] {
      if 0 < q {
        assert r[q] == rest[q - 1] == s[j + 1 + (q - 1)];
      }
    }
  }

  /** One step of `KeptRun`: `s[j]` is kept and is a word character, and the rest of the
      run starts at `j + 1` under the same conditions. */
  lemma KeptRunStep(s: string, j: nat, k: nat)
    requires j < |s| && 0 < k && WordPrefix(RemoveScriptWordsFrom(s, j), k)
    requires ScriptWordAt(s, j) == 0
    ensures RemoveScriptWordsFrom(s, j) == [s[j]] + RemoveScriptWordsFrom(s, j + 1)
    ensures IsWordChar(s[j])
    ensures WordPrefix(RemoveScriptWordsFrom(s, j + 1), k - 1)
    ensures 0 < k - 1 ==> j + 1 < |s| && ScriptWordAt(s, j + 1) == 0
  {
    var r := RemoveScriptWordsFrom(s, j);
    var rest := RemoveScriptWordsFrom(s, j + 1);
    KeepOne(s, j);
    assert IsWordChar(s[j]) by { assert r[0] == s[j]; }
    forall q | 0 <= q < k - 1 ensures IsWordChar(rest[q]) {
      assert rest[q] == r[q + 1];
    }
    if 1 < k {
      NonEmptyRemainder(s, j + 1);
      NothingRemovedAfterWordChar(s, j + 1);
    }
  }

  /** The first `k` characters of `t` are word characters. */
  predicate WordPrefix(t: string, k: nat) {
    k <= |t| && forall q :: 0 <= q < k ==> IsWordChar(t[q])
  }

  /** Output is left only while input is left. */
  lemma NonEmptyRemainder(s: string, j: nat)
    requires j <= |s| && RemoveScriptWordsFrom(s, j) != []
    ensures j < |s|
  {
  }

  /** Right after a word character no script word can start. */
  lemma NothingRemovedAfterWordChar(s: string, j: nat)
    requires 1 <= j <= |s| && IsWordChar(s[j - 1])
    ensures ScriptWordAt(s, j) == 0
  {
  }

  /** The characters of a `script` or `ps1` are word characters. */
  lemma MatchedWordChars(t: string, p: nat)
    requires WordEndsAt(t, p)
    ensures var n := if ScriptAt(t, p) then 6 else 3;
            p + n <= |t| && forall q :: p <= q < p + n ==> IsWordChar(t[q])
  {
    var n := if ScriptAt(t, p) then 6 else 3;
    forall q | p <= q < p + n ensures IsWordChar(t[q]) {
      assert IsWordChar(ToLower(t[q]));
    }
  }

  /** Right after a word character nothing is removed: the output goes on with `s[j]`. */
  lemma KeptAfterWordChar(s: string, j: nat)
    requires 1 <= j <= |s| && IsWordChar(s[j - 1])
    ensures j == |s| <==> RemoveScriptWordsFrom(s, j) == []
    ensures j < |s| ==> RemoveScriptWordsFrom(s, j)[0] == s[j]
  {
    if j < |s| {
      assert RemoveScriptWordsFrom(s, j) == [s[j]] + RemoveScriptWordsFrom(s, j + 1);
    }
  }

  /** A word matched at the start of the output for a kept `s[i]` was already there, with
      the same boundary after it, in `s`. */
  lemma KeptMatchWasInText(s: string, i: nat)
    requires i < |s| && ScriptWordAt(s, i) == 0
    requires WordEndsAt(RemoveScriptWordsFrom(s, i), 0)
    ensures WordEndsAt(s, i)
  {
    var r := RemoveScriptWordsFrom(s, i);
    var n := if ScriptAt(r, 0) then 6 else 3;
    MatchedWordChars(r, 0);
    KeptRun(s, i, n);
    assert r[0] == s[i] && r[1] == s[i + 1] && r[2] == s[i + 2];
    if n == 6 {
      assert r[3] == s[i + 3] && r[4] == s[i + 4] && r[5] == s[i + 5];
    }
    assert IsWordChar(s[i + n - 1]) by { assert r[n - 1] == s[i + n - 1]; }
    KeptAfterWordChar(s, i + n);
  }

  /** If nothing was removed at `i`, the output starting with `s[i]` does not start with
      a whole-word match either. */
  lemma NoMatchAtKeptStart(s: string, i: nat, leftWord: bool)
    requires RemovalContext(s, i, leftWord) && i < |s| && ScriptWordAt(s, i) == 0
    ensures !MatchInContext(RemoveScriptWordsFrom(s, i), 0, leftWord)
  {
    var r := RemoveScriptWordsFrom(s, i);
    KeepOne(s, i);
    assert r[0] == s[i];
    if WordEndsAt(r, 0) {
      KeptMatchWasInText(s, i);
      MatchedWordChars(r, 0);
      assert IsWordChar(s[i]);
      assert i > 0 && IsWordChar(s[i - 1]);
    }
  }
}
