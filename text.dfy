/** Character classes and string operations of Python's `str`, restricted to ASCII.
    These are the building blocks of the script metadata extractor. */
module Text {

  /** Whitespace as `str.isspace`, `str.strip` and the pattern class `\s` see it, restricted
      to ASCII: tab, line feed, vertical tab, form feed, carriage return, the information
      separators 0x1C-0x1F, and space. */
  predicate IsSpace(c: char) {
    9 <= c as int <= 13 || 28 <= c as int <= 32
  }

  /** The pattern class `\w` restricted to ASCII. */
  predicate IsWordChar(c: char) {
    'a' <= c <= 'z' || 'A' <= c <= 'Z' || '0' <= c <= '9' || c == '_'
  }

  predicate IsNonSpace(c: char) {
    !IsSpace(c)
  }

  predicate IsUpper(c: char) {
    'A' <= c <= 'Z'
  }

  predicate IsLower(c: char) {
    'a' <= c <= 'z'
  }

  /** `str.lower` on one ASCII character. */
  function ToLower(c: char): (r: char)
    ensures IsUpper(c) ==> IsLower(r)
    ensures !IsUpper(c) ==> r == c
  {
    if IsUpper(c) then (c as int + 32) as char else c
  }

  /** `str.upper` on one ASCII character. */
  function ToUpper(c: char): (r: char)
    ensures IsLower(c) ==> IsUpper(r)
    ensures !IsLower(c) ==> r == c
    ensures IsSpace(r) == IsSpace(c) && IsWordChar(r) == IsWordChar(c)
  {
    if IsLower(c) then (c as int - 32) as char else c
  }

  function LowerStr(s: string): (r: string)
    ensures |r| == |s|
    ensures forall i :: 0 <= i < |s| ==> r[i] == ToLower(s[i])
  {
    seq(|s|, i requires 0 <= i < |s| => ToLower(s[i]))
  }

  function UpperStr(s: string): (r: string)
    ensures |r| == |s|
    ensures forall i :: 0 <= i < |s| ==> r[i] == ToUpper(s[i])
  {
    seq(|s|, i requires 0 <= i < |s| => ToUpper(s[i]))
  }

  predicate AllSpace(s: string) {
    forall i :: 0 <= i < |s| ==> IsSpace(s[i])
  }

  predicate NoSpace(s: string) {
    forall i :: 0 <= i < |s| ==> !IsSpace(s[i])
  }

  predicate AllWordChars(s: string) {
    forall i :: 0 <= i < |s| ==> IsWordChar(s[i])
  }

  /** The end of the longest run of characters satisfying `p` that starts at `i`:
      the greedy `p*` of a pattern. */
  function Span(s: string, i: nat, p: char -> bool): (j: nat)
    requires i <= |s|
    ensures i <= j <= |s|
    ensures j < |s| ==> !p(s[j])
    decreases |s| - i
  {
    if i < |s| && p(s[i]) then Span(s, i + 1, p) else i
  }

  /** Every character `Span` passes over satisfies the predicate. */
  lemma {:induction false} SpanAll(s: string, i: nat, p: char -> bool)
    requires i <= |s|
    ensures forall k :: i <= k < Span(s, i, p) ==> p(s[k])
    decreases |s| - i
  {
    if i < |s| && p(s[i]) {
      SpanAll(s, i + 1, p);
    }
  }

  /** Every character of the run that `Span` measures satisfies the predicate. */
  lemma SpanRun(s: string, i: nat, p: char -> bool)
    requires i <= |s|
    ensures forall k :: 0 <= k < |s[i..Span(s, i, p)]| ==> p(s[i..Span(s, i, p)][k])
  {
    var e := Span(s, i, p);
    SpanAll(s, i, p);
    forall k | 0 <= k < e - i ensures p(s[i..e][k]) {
      assert s[i..e][k] == s[i + k];
    }
  }

  /** Every character of `s[x..y]` satisfies `p`. */
  predicate Run(s: string, x: nat, y: nat, p: char -> bool) {
    x <= y <= |s| && forall k :: x <= k < y ==> p(s[k])
  }

  /** `s[x..y]` is a run of `p` that cannot be extended: what a greedy `p*` consumes from `x`. */
  predicate MaxRun(s: string, x: nat, y: nat, p: char -> bool) {
    Run(s, x, y, p) && (y == |s| || !p(s[y]))
  }

  /** `Span` ends the one maximal run: the greedy repetition has exactly one way to stop. */
  lemma SpanMaxRun(s: string, i: nat, p: char -> bool)
    requires i <= |s|
    ensures MaxRun(s, i, Span(s, i, p), p)
    ensures forall y :: MaxRun(s, i, y, p) ==> y == Span(s, i, p)
  {
    var e := Span(s, i, p);
    SpanAll(s, i, p);
    forall y | MaxRun(s, i, y, p) ensures y == e {
      MaxRunUnique(s, i, y, e, p);
    }
  }

  /** `Span` ends a maximal run. */
  lemma SpanEndsMaxRun(s: string, i: nat, p: char -> bool)
    requires i <= |s|
    ensures MaxRun(s, i, Span(s, i, p), p)
  {
    SpanAll(s, i, p);
  }

  /** A maximal run from `i` ends where `Span` does. */
  lemma SpanIs(s: string, i: nat, y: nat, p: char -> bool)
    requires MaxRun(s, i, y, p)
    ensures Span(s, i, p) == y
  {
    SpanMaxRun(s, i, p);
  }

  /** Where `Span` ends, a maximal run from `i` ends. */
  lemma SpanEndIsMaxRun(s: string, i: nat, y: nat, p: char -> bool)
    requires i <= |s| && Span(s, i, p) == y
    ensures MaxRun(s, i, y, p)
  {
    SpanEndsMaxRun(s, i, p);
  }

  /** Two maximal runs from the same place end at the same place. */
  lemma MaxRunUnique(s: string, x: nat, y1: nat, y2: nat, p: char -> bool)
    requires MaxRun(s, x, y1, p) && MaxRun(s, x, y2, p)
    ensures y1 == y2
  {
  }

  /** Index of the first character that is not whitespace (|s| when there is none). */
  function StripStart(s: string): (i: nat)
    ensures i <= |s| && AllSpace(s[..i])
    ensures i < |s| ==> !IsSpace(s[i])
  {
    SpanAll(s, 0, IsSpace);
    Span(s, 0, IsSpace)
  }

  /** Index just past the last character that is not whitespace (0 when there is none). */
  function StripEnd(s: string): (j: nat)
    ensures j <= |s| && AllSpace(s[j..])
    ensures j > 0 ==> !IsSpace(s[j - 1])
  {
    if s == [] then 0
    else if IsSpace(s[|s| - 1]) then
      var j := StripEnd(s[..|s| - 1]);
      assert s[j..] == s[..|s| - 1][j..] + [s[|s| - 1]];
      j
    else |s|
  }

  /** `str.strip()`: removes leading and trailing whitespace. */
  function Strip(s: string): (r: string)
    ensures r == [] <==> AllSpace(s)
    ensures r != [] ==> !IsSpace(r[0]) && !IsSpace(r[|r| - 1])
    ensures r != [] ==> StripStart(s) < StripEnd(s) && r == s[StripStart(s)..StripEnd(s)]
    ensures AllSpace(s[..StripStart(s)]) && AllSpace(s[StripEnd(s)..])
  {
    var i, j := StripStart(s), StripEnd(s);
    if i < j then s[i..j]
    else
      assert forall k :: j <= k < |s| ==> IsSpace(s[k]) by {
        forall k | j <= k < |s| ensures IsSpace(s[k]) { assert s[k] == s[j..][k - j]; }
      }
      assert s[..i] == s;
      []
  }

  /** `str.lstrip(c)`: removes the leading occurrences of `c`. */
  function LStripChar(s: string, c: char): (r: string)
    ensures |r| <= |s|
    decreases |s|
  {
    if s != [] && s[0] == c then LStripChar(s[1..], c) else s
  }

  /** `lstrip` keeps a suffix that does not start with `c` and removes only `c`s before it. */
  lemma {:induction false} LStripCharSpec(s: string, c: char)
    ensures var r := LStripChar(s, c);
            && r == s[|s| - |r|..]
            && (r != [] ==> r[0] != c)
            && forall k :: 0 <= k < |s| - |r| ==> s[k] == c
    decreases |s|
  {
    if s != [] && s[0] == c {
      var r := LStripChar(s[1..], c);
      LStripCharSpec(s[1..], c);
      assert s[1..][|s| - 1 - |r|..] == s[|s| - |r|..];
      forall k | 1 <= k < |s| - |r| ensures s[k] == c {
        assert s[k] == s[1..][k - 1];
      }
    }
  }

  predicate StartsWith(s: string, prefix: string) {
    |prefix| <= |s| && s[..|prefix|] == prefix
  }

  predicate OccursAt(s: string, t: string, i: nat) {
    i + |t| <= |s| && s[i..i + |t|] == t
  }

  /** Whether `t` occurs in `s` at or after index `from`. */
  function ContainsFrom(s: string, t: string, from: nat): (b: bool)
    ensures b <==> exists i :: from <= i && OccursAt(s, t, i)
    decreases |s| - from
  {
    if from + |t| > |s| then false
    else if OccursAt(s, t, from) then true
    else ContainsFrom(s, t, from + 1)
  }

  /** Python's `t in s` for strings. */
  function Contains(s: string, t: string): (b: bool)
    ensures b <==> exists i :: OccursAt(s, t, i)
  {
    ContainsFrom(s, t, 0)
  }

  /** Index of the first `c` at or after `from` (|s| when there is none). */
  function IndexOf(s: string, c: char, from: nat): (i: nat)
    requires from <= |s|
    ensures from <= i <= |s|
    ensures i < |s| ==> s[i] == c
    decreases |s| - from
  {
    if from < |s| && s[from] != c then IndexOf(s, c, from + 1) else from
  }

  /** `IndexOf` passes only characters other than `c`: it finds the first `c`. */
  lemma {:induction false} IndexOfSkips(s: string, c: char, from: nat)
    requires from <= |s|
    ensures forall k :: from <= k < IndexOf(s, c, from) ==> s[k] != c
    decreases |s| - from
  {
    if from < |s| && s[from] != c {
      IndexOfSkips(s, c, from + 1);
    }
  }

  /** In a piece without `c` followed by `c`, the first `c` is the one after the piece. */
  lemma IndexOfAfterPiece(p: string, c: char, rest: string)
    requires c !in p
    ensures IndexOf(p + [c] + rest, c, 0) == |p|
  {
    var s := p + [c] + rest;
    var i := IndexOf(s, c, 0);
    IndexOfSkips(s, c, 0);
    assert s[|p|] == c;
  }

  /** `s.split(sep)` with a one-character separator: never empty, one more piece than
      there are separators. */
  function SplitOn(s: string, sep: char): (r: seq<string>)
    ensures |r| >= 1
    decreases |s|
  {
    var i := IndexOf(s, sep, 0);
    if i == |s| then [s] else [s[..i]] + SplitOn(s[i + 1..], sep)
  }

  /** No piece holds the separator. */
  lemma {:induction false} SplitOnPieces(s: string, sep: char)
    ensures forall k :: 0 <= k < |SplitOn(s, sep)| ==> sep !in SplitOn(s, sep)[k]
    decreases |s|
  {
    var i := IndexOf(s, sep, 0);
    IndexOfSkips(s, sep, 0);
    if i < |s| {
      SplitOnPieces(s[i + 1..], sep);
      var r := SplitOn(s, sep);
      assert sep !in r[0] by {
        forall k | 0 <= k < |r[0]| ensures r[0][k] != sep {
          assert r[0][k] == s[k];
        }
      }
      forall k | 1 <= k < |r| ensures sep !in r[k] {
        assert r[k] == SplitOn(s[i + 1..], sep)[k - 1];
      }
    } else {
      assert forall k :: 0 <= k < |s| ==> s[k] != sep;
    }
  }

  /** `sep.join(parts)`. */
  function JoinWith(parts: seq<string>, sep: char): (r: string)
    requires |parts| >= 1
  {
    if |parts| == 1 then parts[0] else parts[0] + [sep] + JoinWith(parts[1..], sep)
  }

  /** Splitting and joining on the same separator are inverse: nothing of the text is lost. */
  lemma {:induction false} JoinSplitOn(s: string, sep: char)
    ensures JoinWith(SplitOn(s, sep), sep) == s
    decreases |s|
  {
    var i := IndexOf(s, sep, 0);
    if i < |s| {
      var rest := SplitOn(s[i + 1..], sep);
      JoinSplitOn(s[i + 1..], sep);
      var r := [s[..i]] + rest;
      assert r[0] == s[..i] && r[1..] == rest;
      assert JoinWith(r, sep) == s[..i] + [sep] + JoinWith(rest, sep);
      assert s == s[..i] + [sep] + s[i + 1..];
    }
  }

  /** ... and in the other direction, for pieces that do not hold the separator. */
  lemma {:induction false} SplitJoinOn(parts: seq<string>, sep: char)
    requires |parts| >= 1
    requires forall k :: 0 <= k < |parts| ==> sep !in parts[k]
    ensures SplitOn(JoinWith(parts, sep), sep) == parts
    decreases |parts|
  {
    var s := JoinWith(parts, sep);
    var p := parts[0];
    if |parts| == 1 {
      IndexOfSkips(s, sep, 0);
      assert s[..|p|] == p;
    } else {
      var rest := JoinWith(parts[1..], sep);
      assert s == p + [sep] + rest;
      SplitOnAfterPiece(p, sep, rest);
      SplitJoinOn(parts[1..], sep);
      assert parts == [p] + parts[1..];
    }
  }

  /** A piece without the separator, followed by the separator, is split off first. */
  lemma SplitOnAfterPiece(p: string, sep: char, rest: string)
    requires sep !in p
    ensures SplitOn(p + [sep] + rest, sep) == [p] + SplitOn(rest, sep)
  {
    var s := p + [sep] + rest;
    IndexOfAfterPiece(p, sep, rest);
    assert s[..|p|] == p;
    assert s[|p| + 1..] == rest;
  }

  /** `str.split()` with no argument: the maximal runs of non-whitespace, in order. */
  function Words(s: string): (r: seq<string>)
    ensures forall k :: 0 <= k < |r| ==> r[k] != [] && NoSpace(r[k])
    decreases |s|
  {
    var a := Span(s, 0, IsSpace);
    if a == |s| then []
    else
      var b := Span(s, a, IsNonSpace);
      SpanRun(s, a, IsNonSpace);
      [s[a..b]] + Words(s[b..])
  }

  /** A text of whitespace only has no words. */
  lemma WordsOfSpaces(s: string)
    requires AllSpace(s)
    ensures Words(s) == []
  {
    SpanMaxRun(s, 0, IsSpace);
    assert MaxRun(s, 0, |s|, IsSpace);
  }

  /** Splitting on whitespace finds a word after its leading whitespace. */
  lemma WordsStep(pre: string, w: string, rest: string)
    requires AllSpace(pre) && w != [] && NoSpace(w)
    requires rest == [] || IsSpace(rest[0])
    ensures Words(pre + w + rest) == [w] + Words(rest)
  {
    var s := pre + w + rest;
    var a, b := |pre|, |pre| + |w|;
    assert s[a..b] == w && s[b..] == rest;
    assert MaxRun(s, 0, a, IsSpace) by {
      forall k | 0 <= k < a ensures IsSpace(s[k]) {
        assert s[k] == pre[k];
      }
      assert s[a] == w[0];
    }
    assert MaxRun(s, a, b, IsNonSpace) by {
      forall k | a <= k < b ensures IsNonSpace(s[k]) {
        assert s[k] == w[k - a];
      }
      if b < |s| {
        assert s[b] == rest[0];
      }
    }
    SpanIs(s, 0, a, IsSpace);
    SpanIs(s, a, b, IsNonSpace);
    WordsUnfold(s, a, b);
  }

  /** Once the leading whitespace is known to end at `a < |s|` and the word after it at `b`,
      that word is the first. */
  lemma WordsUnfold(s: string, a: nat, b: nat)
    requires a < |s| && Span(s, 0, IsSpace) == a && Span(s, a, IsNonSpace) == b
    ensures Words(s) == [s[a..b]] + Words(s[b..])
  {
  }

  /** Splitting on whitespace finds a leading word. */
  lemma WordsFirst(w: string, rest: string)
    requires w != [] && NoSpace(w)
    requires rest == [] || IsSpace(rest[0])
    ensures Words(w + rest) == [w] + Words(rest)
  {
    var none: string := [];
    assert none + w + rest == w + rest;
    WordsStep(none, w, rest);
  }

  function Concat(parts: seq<string>): string {
    if parts == [] then [] else parts[0] + Concat(parts[1..])
  }

  lemma {:induction false} ConcatAppend(parts: seq<string>, last: string)
    ensures Concat(parts + [last]) == Concat(parts) + last
    decreases |parts|
  {
    if parts != [] {
      assert (parts + [last])[1..] == parts[1..] + [last];
      ConcatAppend(parts[1..], last);
    }
  }

  /** The text with every whitespace character deleted. */
  function RemoveSpaces(s: string): string {
    if s == [] then [] else KeepNonSpace(s[0]) + RemoveSpaces(s[1..])
  }

  function KeepNonSpace(c: char): string {
    if IsSpace(c) then [] else [c]
  }

  lemma {:induction false} RemoveSpacesAppend(a: string, b: string)
    ensures RemoveSpaces(a + b) == RemoveSpaces(a) + RemoveSpaces(b)
    decreases |a|
  {
    if a != [] {
      assert (a + b)[0] == a[0];
      assert (a + b)[1..] == a[1..] + b;
      RemoveSpacesAppend(a[1..], b);
      assert RemoveSpaces(a + b) == KeepNonSpace(a[0]) + RemoveSpaces(a[1..] + b);
    } else {
      assert a + b == b;
    }
  }

  lemma {:induction false} RemoveSpacesAll(s: string)
    requires AllSpace(s)
    ensures RemoveSpaces(s) == []
    decreases |s|
  {
    if s != [] { RemoveSpacesAll(s[1..]); }
  }

  lemma {:induction false} RemoveSpacesNone(s: string)
    requires NoSpace(s)
    ensures RemoveSpaces(s) == s
    decreases |s|
  {
    if s != [] { RemoveSpacesNone(s[1..]); }
  }

  /** The words of a text are exactly its non-whitespace characters, in order. */
  lemma {:induction false} WordsCoverText(s: string)
    ensures Concat(Words(s)) == RemoveSpaces(s)
    decreases |s|
  {
    var a := Span(s, 0, IsSpace);
    if a < |s| {
      var b := Span(s, a, IsNonSpace);
      SpanRun(s, a, IsNonSpace);
      WordsCoverText(s[b..]);
      WordsCoverStep(s, a, b);
    } else {
      SpanAll(s, 0, IsSpace);
      SplitRemoveSpaces(s, a);
      RemoveSpacesAll(s[..a]);
    }
  }

  /** The first word and its leading whitespace cover the text up to `b`. */
  lemma WordsCoverStep(s: string, a: nat, b: nat)
    requires a < |s| && Span(s, 0, IsSpace) == a && Span(s, a, IsNonSpace) == b
    requires Concat(Words(s[b..])) == RemoveSpaces(s[b..])
    ensures Concat(Words(s)) == RemoveSpaces(s)
  {
    WordsUnfold(s, a, b);
    ConcatCons(s[a..b], Words(s[b..]));
    assert AllSpace(s[..a]) by {
      SpanAll(s, 0, IsSpace);
    }
    assert NoSpace(s[a..b]) by {
      SpanRun(s, a, IsNonSpace);
    }
    RemoveSpacesHead(s, a, b);
  }

  /** Deleting whitespace from leading whitespace, a word and the rest keeps the word and
      the rest with its whitespace deleted. */
  lemma RemoveSpacesHead(s: string, a: nat, b: nat)
    requires a <= b <= |s| && AllSpace(s[..a]) && NoSpace(s[a..b])
    ensures RemoveSpaces(s) == s[a..b] + RemoveSpaces(s[b..])
  {
    var w, rest := s[a..b], s[b..];
    calc {
      RemoveSpaces(s);
      == { SplitRemoveSpaces(s, a); RemoveSpacesAll(s[..a]); }
      [] + RemoveSpaces(s[a..]);
      == { assert s[a..] == w + rest; }
      RemoveSpaces(w + rest);
      == { RemoveSpacesAppend(w, rest); RemoveSpacesNone(w); }
      w + RemoveSpaces(rest);
    }
  }

  lemma SplitRemoveSpaces(s: string, a: nat)
    requires a <= |s|
    ensures RemoveSpaces(s) == RemoveSpaces(s[..a]) + RemoveSpaces(s[a..])
  {
    assert s == s[..a] + s[a..];
    RemoveSpacesAppend(s[..a], s[a..]);
  }

  lemma ConcatCons(w: string, ws: seq<string>)
    ensures Concat([w] + ws) == w + Concat(ws)
  {
    assert ([w] + ws)[1..] == ws;
  }

  /** Stripping removes whitespace and nothing else. */
  lemma StripRemovesOnlySpaces(s: string)
    ensures RemoveSpaces(Strip(s)) == RemoveSpaces(s)
  {
    var r := Strip(s);
    var i, j := StripStart(s), StripEnd(s);
    if r == [] {
      RemoveSpacesAll(s);
    } else {
      assert s == s[..i] + r + s[j..];
      RemoveSpacesAppend(s[..i] + r, s[j..]);
      RemoveSpacesAppend(s[..i], r);
      RemoveSpacesAll(s[..i]);
      RemoveSpacesAll(s[j..]);
    }
  }

  /** Lower-casing distributes over concatenation. */
  lemma LowerStrAppend(a: string, b: string)
    ensures LowerStr(a + b) == LowerStr(a) + LowerStr(b)
  {
  }

  /** `s.replace(a, b)` for single characters. */
  function ReplaceChar(s: string, a: char, b: char): (r: string)
    ensures |r| == |s|
    ensures forall k :: 0 <= k < |s| ==> r[k] == (if s[k] == a then b else s[k])
  {
    seq(|s|, k requires 0 <= k < |s| => if s[k] == a then b else s[k])
  }
}
