/** How `_extract_first_comment` picks a script's description: the first meaningful
    `#` comment among the first thirty lines, or a generic fallback. */
module Descriptions {
  import opened Text

  /** Only the first this many lines of a script are looked at. */
  const ScanLimit: nat := 30

  /** The description used when no comment qualifies. */
  function Fallback(scriptName: string): (r: string)
    ensures |r| == 19 + |scriptName| && r[19..] == scriptName
    ensures r[..19] == "PowerShell script: "
  {
    "PowerShell script: " + scriptName
  }

  /** `s` with every occurrence of `c` deleted (`str.replace(c, '')`). */
  function Without(s: string, c: char): (r: string)
    ensures c !in r
    ensures |r| <= |s|
  {
    if s == [] then []
    else (if s[0] == c then [] else [s[0]]) + Without(s[1..], c)
  }

  /** Deleting works piece by piece, so the order of the kept characters is the text's. */
  lemma {:induction false} WithoutAppend(a: string, b: string, c: char)
    ensures Without(a + b, c) == Without(a, c) + Without(b, c)
    decreases |a|
  {
    if a == [] {
      assert a + b == b;
    } else {
      assert (a + b)[0] == a[0] && (a + b)[1..] == a[1..] + b;
      WithoutAppend(a[1..], b, c);
    }
  }

  /** Every `c` is deleted and every other character is kept as often as it occurs. */
  lemma {:induction false} WithoutCounts(s: string, c: char)
    ensures multiset(Without(s, c)) == multiset(s)[c := 0]
    decreases |s|
  {
    if s != [] {
      WithoutCounts(s[1..], c);
      assert s == [s[0]] + s[1..];
      assert multiset(s) == multiset{s[0]} + multiset(s[1..]);
    }
  }

  /** A character is left exactly when the text holds it and it is not `c`. */
  lemma WithoutKeeps(s: string, c: char)
    ensures forall x :: x in Without(s, c) <==> x in s && x != c
  {
    WithoutCounts(s, c);
    forall x ensures x in Without(s, c) <==> x in s && x != c {
      assert x in Without(s, c) <==> x in multiset(Without(s, c));
      assert x in s <==> x in multiset(s);
    }
  }

  /** The text of a comment line: the line with its leading `#`s and then its surrounding
      whitespace removed. */
  function CommentText(stripped: string): string {
    Strip(LStripChar(stripped, '#'))
  }

  /** A description is long enough (more than ten characters) and is not a separator
      line: something other than whitespace is left after deleting `-` and `=`. */
  predicate Qualifies(desc: string) {
    |desc| > 10 && Strip(Without(Without(desc, '-'), '=')) != []
  }

  /** A separator line is made only of `-`, `=` and whitespace. */
  predicate SeparatorOnly(desc: string) {
    forall k :: 0 <= k < |desc| ==> desc[k] == '-' || desc[k] == '=' || IsSpace(desc[k])
  }

  /** The separator test of `Qualifies` rejects exactly the separator lines. */
  lemma QualifiesMeans(desc: string)
    ensures Qualifies(desc) <==> |desc| > 10 && !SeparatorOnly(desc)
  {
    var w := Without(Without(desc, '-'), '=');
    WithoutKeeps(desc, '-');
    WithoutKeeps(Without(desc, '-'), '=');
    if SeparatorOnly(desc) {
      forall k | 0 <= k < |w| ensures IsSpace(w[k]) {
        assert w[k] in w;
        var m :| 0 <= m < |desc| && desc[m] == w[k];
      }
    } else {
      var k :| 0 <= k < |desc| && !(desc[k] == '-' || desc[k] == '=' || IsSpace(desc[k]));
      assert desc[k] in w;
      var n :| 0 <= n < |w| && w[n] == desc[k];
      assert !AllSpace(w);
    }
  }

  /** A line whose comment text becomes the description once the scan reaches it. */
  predicate DescriptionLine(line: string) {
    var t := Strip(line);
    StartsWith(t, "#") && !StartsWith(t, "#!") && Qualifies(CommentText(t))
  }

  /** A line the scan moves past: blank, a `#` line that is no description (a shebang,
      a short or separator comment) or the opening of a `<#` block comment. */
  predicate ContinuesScan(line: string) {
    var t := Strip(line);
    !DescriptionLine(line) && (t == [] || StartsWith(t, "#") || StartsWith(t, "<#"))
  }

  /** What the scan does with one line. */
  datatype Step = Skip | Take(desc: string) | Stop

  /** One turn of the scan: blank lines and shebangs are skipped, a `#` line whose text
      qualifies is taken, any other line that does not open a comment stops the scan,
      and every remaining line is skipped. */
  function LineStep(line: string): Step {
    var t := Strip(line);
    if t == [] || StartsWith(t, "#!") then Skip
    else if StartsWith(t, "#") && Qualifies(CommentText(t)) then Take(CommentText(t))
    else if !StartsWith(t, "#") && !StartsWith(t, "<#") then Stop
    else Skip
  }

  /** A step takes exactly the description lines, with their comment text, and skips
      exactly the lines that continue the scan. */
  lemma LineStepMeans(line: string)
    ensures LineStep(line).Take? <==> DescriptionLine(line)
    ensures LineStep(line).Take? ==> LineStep(line).desc == CommentText(Strip(line))
    ensures LineStep(line).Skip? <==> ContinuesScan(line)
  {
  }

  /** The step the scan takes on each line. */
  function Steps(lines: seq<string>): (r: seq<Step>)
    ensures |r| == |lines|
  {
    seq(|lines|, k requires 0 <= k < |lines| => LineStep(lines[k]))
  }

  /** The scan started at `i` reaches line `j`: every line from `i` up to `j` is skipped. */
  predicate ReachedFrom(steps: seq<Step>, i: nat, j: nat)
    requires j <= |steps|
  {
    forall k :: i <= k < j ==> steps[k].Skip?
  }

  /** The scan, one step at a time from index `i`. */
  function ScanFrom(steps: seq<Step>, i: nat, fallback: string): string
    decreases |steps| - i
  {
    if i >= |steps| then fallback
    else
      match steps[i]
      case Skip => ScanFrom(steps, i + 1, fallback)
      case Take(desc) => desc
      case Stop => fallback
  }

  /** One turn of the scan: a skipped line moves on, a taken text is the result and a
      stop gives the fallback. */
  lemma ScanStep(steps: seq<Step>, i: nat, fallback: string)
    requires i < |steps|
    ensures steps[i].Skip? ==> ScanFrom(steps, i, fallback) == ScanFrom(steps, i + 1, fallback)
    ensures steps[i].Take? ==> ScanFrom(steps, i, fallback) == steps[i].desc
    ensures steps[i].Stop? ==> ScanFrom(steps, i, fallback) == fallback
    ensures ScanFrom(steps, |steps|, fallback) == fallback
  {
  }

  /** The lines the scan looks at: the first `ScanLimit` lines of the content, or all of
      them when there are fewer. */
  function HeadLines(content: string): (r: seq<string>)
    ensures |r| == if |SplitOn(content, '\n')| < ScanLimit then |SplitOn(content, '\n')| else ScanLimit
    ensures r == SplitOn(content, '\n')[..|r|]
  {
    var lines := SplitOn(content, '\n');
    if |lines| < ScanLimit then lines else lines[..ScanLimit]
  }

  /** The description taken from the content of a script. */
  function CommentDescription(content: string, scriptName: string): string {
    ScanFrom(Steps(HeadLines(content)), 0, Fallback(scriptName))
  }

  /** The scan from `i` returns the text taken at the first line it reaches that takes a
      text, and the fallback when it reaches none. */
  lemma {:induction false} ScanFromSpec(steps: seq<Step>, i: nat, fallback: string)
    requires i <= |steps|
    ensures forall j :: i <= j < |steps| && steps[j].Take? && ReachedFrom(steps, i, j) ==>
              ScanFrom(steps, i, fallback) == steps[j].desc
    ensures (forall j :: i <= j < |steps| && steps[j].Take? ==> !ReachedFrom(steps, i, j)) ==>
              ScanFrom(steps, i, fallback) == fallback
    decreases |steps| - i
  {
    if i < |steps| {
      ScanFromSpec(steps, i + 1, fallback);
      if steps[i].Skip? {
        forall j | i < j < |steps| && ReachedFrom(steps, i + 1, j) ensures ReachedFrom(steps, i, j) {
        }
        forall j | i < j < |steps| && ReachedFrom(steps, i, j) ensures ReachedFrom(steps, i + 1, j) {
        }
      } else {
        forall j | i < j <= |steps| ensures !ReachedFrom(steps, i, j) {
          assert !steps[i].Skip?;
        }
      }
    }
  }

  /** The description of a script is the comment text of the first description line
      (see `LineStepMeans`) among its first thirty lines that the scan reaches, and the
      fallback when it reaches none. */
  lemma CommentDescriptionSpec(content: string, scriptName: string)
    ensures var steps := Steps(HeadLines(content));
            forall j :: 0 <= j < |steps| && steps[j].Take? && ReachedFrom(steps, 0, j) ==>
              CommentDescription(content, scriptName) == steps[j].desc
    ensures var steps := Steps(HeadLines(content));
            (forall j :: 0 <= j < |steps| && steps[j].Take? ==> !ReachedFrom(steps, 0, j)) ==>
              CommentDescription(content, scriptName) == Fallback(scriptName)
  {
    ScanFromSpec(Steps(HeadLines(content)), 0, Fallback(scriptName));
  }

  /** A description that is long enough, not a separator line and free of surrounding
      whitespace. */
  predicate WellFormed(desc: string) {
    |desc| > 10 && !SeparatorOnly(desc) && !IsSpace(desc[0]) && !IsSpace(desc[|desc| - 1])
  }

  /** Every text a line step takes is well formed. */
  lemma TakenIsWellFormed(line: string)
    ensures LineStep(line).Take? ==> WellFormed(LineStep(line).desc)
  {
    if LineStep(line).Take? {
      QualifiesMeans(LineStep(line).desc);
    }
  }

  /** The scan returns the fallback or one of the texts its steps take. */
  lemma {:induction false} ScanFromTakes(steps: seq<Step>, i: nat, fallback: string)
    ensures var r := ScanFrom(steps, i, fallback);
            r == fallback || exists k :: i <= k < |steps| && steps[k] == Take(r)
    decreases |steps| - i
  {
    if i < |steps| && steps[i].Skip? {
      ScanFromTakes(steps, i + 1, fallback);
    }
  }

  /** Every description taken from a script's content is the fallback or well formed. */
  lemma CommentDescriptionShape(content: string, scriptName: string)
    ensures var r := CommentDescription(content, scriptName);
            r == Fallback(scriptName) || WellFormed(r)
  {
    var lines := HeadLines(content);
    ScanFromTakes(Steps(lines), 0, Fallback(scriptName));
    var r := CommentDescription(content, scriptName);
    if r != Fallback(scriptName) {
      var k :| 0 <= k < |lines| && Steps(lines)[k] == Take(r);
      assert Steps(lines)[k] == LineStep(lines[k]);
      TakenIsWellFormed(lines[k]);
    }
  }
}
