/** How `get_display_name` turns a script's file stem into the name shown in the menu. */
module DisplayNames {
  import opened Text
  import opened Patterns

  /** Words kept in a fixed spelling, keyed by their lower-case form. */
  const Acronyms: map<string, string> := map[
    "mfa" := "MFA",
    "mg" := "Mg",
    "upn" := "UPN",
    "sku" := "SKU",
    "graph" := "Graph"
  ]

  /** Every fixed spelling has its key's letters: it differs from the key in case only,
      and it starts with a capital. */
  lemma AcronymSpellings(key: string)
    requires key in Acronyms
    ensures |Acronyms[key]| == |key| && LowerStr(Acronyms[key]) == key
    ensures Acronyms[key][0] == ToUpper(key[0])
  {
    assert key == "mfa" || key == "mg" || key == "upn" || key == "sku" || key == "graph";
    if key == "mfa" {
      assert Acronyms[key] == "MFA";
    } else if key == "mg" {
      assert Acronyms[key] == "Mg";
    } else if key == "upn" {
      assert Acronyms[key] == "UPN";
    } else if key == "sku" {
      assert Acronyms[key] == "SKU";
    } else {
      assert Acronyms[key] == "Graph";
    }
  }

  /** `str.capitalize`: the first character in upper case and the rest in lower case. */
  function Capitalize(w: string): (r: string)
    ensures |r| == |w|
    ensures w != [] ==> r[0] == ToUpper(w[0])
    ensures forall k :: 1 <= k < |w| ==> r[k] == ToLower(w[k])
  {
    if w == [] then [] else [ToUpper(w[0])] + LowerStr(w[1..])
  }

  /** One word of the display name: its fixed spelling when it has one, otherwise the word
      capitalized. */
  function RenderWord(w: string): string {
    var lower := LowerStr(w);
    if lower in Acronyms then Acronyms[lower] else Capitalize(w)
  }

  /** Rendering changes the case of a word and nothing else, and it capitalizes the first
      letter; a word without a fixed spelling has the rest of its letters in lower case. */
  lemma RenderWordMeans(w: string)
    ensures |RenderWord(w)| == |w| && LowerStr(RenderWord(w)) == LowerStr(w)
    ensures w != [] ==> RenderWord(w)[0] == ToUpper(w[0])
    ensures LowerStr(w) in Acronyms ==> RenderWord(w) == Acronyms[LowerStr(w)]
    ensures LowerStr(w) !in Acronyms ==> forall k :: 1 <= k < |w| ==> RenderWord(w)[k] == ToLower(w[k])
  {
    var lower := LowerStr(w);
    if lower in Acronyms {
      AcronymSpellings(lower);
      var r := Acronyms[lower];
      forall k | 0 <= k < |w| ensures ToLower(r[k]) == ToLower(w[k]) {
        assert LowerStr(r)[k] == lower[k];
      }
      if w != [] {
        assert ToUpper(lower[0]) == ToUpper(w[0]);
      }
    } else {
      var r := Capitalize(w);
      forall k | 0 <= k < |w| ensures ToLower(r[k]) == ToLower(w[k]) {
      }
    }
  }

  /** The stem with `_` and `-` read as spaces. */
  function Separated(stem: string): (r: string)
    ensures |r| == |stem|
    ensures '_' !in r && '-' !in r
    ensures forall k :: 0 <= k < |stem| ==> r[k] == (if stem[k] == '_' || stem[k] == '-' then ' ' else stem[k])
  {
    ReplaceChar(ReplaceChar(stem, '_', ' '), '-', ' ')
  }

  /** The words of the display name: separators become spaces, whole-word `script` and
      `ps1` go, the rest is trimmed, camel case is split, and the text is split on
      whitespace. */
  function DisplayWords(stem: string): (r: seq<string>)
    ensures forall k :: 0 <= k < |r| ==> r[k] != [] && NoSpace(r[k])
  {
    Words(SpaceCamelCase(Strip(RemoveScriptWords(Separated(stem)))))
  }

  /** Every word rendered, in order. */
  function RenderAll(words: seq<string>): (r: seq<string>)
    ensures |r| == |words| && forall k :: 0 <= k < |words| ==> r[k] == RenderWord(words[k])
  {
    seq(|words|, k requires 0 <= k < |words| => RenderWord(words[k]))
  }

  /** The display name: the rendered words joined with nothing between them. */
  function DisplayName(stem: string): string {
    Concat(RenderAll(DisplayWords(stem)))
  }

  /** Lower-casing a concatenation lower-cases each part. */
  lemma {:induction false} LowerConcat(parts: seq<string>)
    ensures LowerStr(Concat(parts)) == Concat(seq(|parts|, k requires 0 <= k < |parts| => LowerStr(parts[k])))
    decreases |parts|
  {
    if parts != [] {
      LowerConcat(parts[1..]);
      LowerStrAppend(parts[0], Concat(parts[1..]));
      var lowered := seq(|parts|, k requires 0 <= k < |parts| => LowerStr(parts[k]));
      assert lowered[1..] == seq(|parts| - 1, k requires 0 <= k < |parts| - 1 => LowerStr(parts[1..][k]));
    }
  }

  /** A concatenation of parts without whitespace has no whitespace. */
  lemma {:induction false} ConcatNoSpace(parts: seq<string>)
    requires forall k :: 0 <= k < |parts| ==> NoSpace(parts[k])
    ensures NoSpace(Concat(parts))
    decreases |parts|
  {
    if parts != [] {
      ConcatNoSpace(parts[1..]);
      var rest := Concat(parts[1..]);
      assert forall k :: 0 <= k < |rest| ==> (parts[0] + rest)[|parts[0]| + k] == rest[k];
    }
  }

  /** A display name holds no whitespace. */
  lemma DisplayNameHasNoSpace(stem: string)
    ensures NoSpace(DisplayName(stem))
  {
    var words := DisplayWords(stem);
    var rendered := RenderAll(words);
    forall k | 0 <= k < |rendered| ensures NoSpace(rendered[k]) {
      RenderWordMeans(words[k]);
      forall m | 0 <= m < |rendered[k]| ensures !IsSpace(rendered[k][m]) {
        assert LowerStr(rendered[k])[m] == LowerStr(words[k])[m];
      }
    }
    ConcatNoSpace(rendered);
  }

  /** Up to case, the display name is the stem with `_`, `-`, whitespace and every
      whole-word `script` or `ps1` deleted: nothing else is added, dropped or reordered. */
  lemma DisplayNameLetters(stem: string)
    ensures LowerStr(DisplayName(stem)) == LowerStr(RemoveSpaces(RemoveScriptWords(Separated(stem))))
  {
    var removed := RemoveScriptWords(Separated(stem));
    var words := DisplayWords(stem);
    var rendered := RenderAll(words);
    LowerConcat(rendered);
    LowerConcat(words);
    forall k | 0 <= k < |words| ensures LowerStr(rendered[k]) == LowerStr(words[k]) {
      RenderWordMeans(words[k]);
    }
    assert seq(|rendered|, k requires 0 <= k < |rendered| => LowerStr(rendered[k]))
        == seq(|words|, k requires 0 <= k < |words| => LowerStr(words[k]));
    WordsCoverText(SpaceCamelCase(Strip(removed)));
    SpaceCamelCaseAddsOnlySpaces(Strip(removed));
    StripRemovesOnlySpaces(removed);
  }

  // ---------------------------------------------------------------------------
  // A name already in PascalCase is shown as it is.

  /** A capitalized word: a capital letter followed by lower-case letters. */
  predicate CapWord(w: string) {
    |w| >= 1 && IsUpper(w[0]) && forall k :: 1 <= k < |w| ==> IsLower(w[k])
  }

  /** Each word preceded by one space. */
  function SpacedWords(ws: seq<string>): (r: string)
    ensures r == [] || r[0] == ' '
  {
    if ws == [] then [] else [' '] + ws[0] + SpacedWords(ws[1..])
  }

  /** Lower-case letters get no space. */
  lemma {:induction false} SpaceBeforeLower(s: string)
    requires forall k :: 0 <= k < |s| ==> IsLower(s[k])
    ensures SpaceBeforeCapitals(s) == s
    decreases |s|
  {
    if s != [] {
      SpaceBeforeLower(s[1..]);
    }
  }

  /** The insertion works piece by piece. */
  lemma {:induction false} SpaceBeforeAppend(a: string, b: string)
    ensures SpaceBeforeCapitals(a + b) == SpaceBeforeCapitals(a) + SpaceBeforeCapitals(b)
    decreases |a|
  {
    if a == [] {
      assert a + b == b;
    } else {
      assert (a + b)[0] == a[0] && (a + b)[1..] == a[1..] + b;
      SpaceBeforeAppend(a[1..], b);
    }
  }

  /** A capitalized word gets exactly one space, in front. */
  lemma SpaceBeforeCapWord(w: string)
    requires CapWord(w)
    ensures SpaceBeforeCapitals(w) == [' '] + w
  {
    assert SpaceBeforeCapitals(w) == [' ', w[0]] + SpaceBeforeCapitals(w[1..]);
    SpaceBeforeLower(w[1..]);
    assert [' ', w[0]] + w[1..] == [' '] + w;
  }

  /** A run of capitalized words gets a space in front of each. */
  lemma {:induction false} SpaceBeforeCapWords(ws: seq<string>)
    requires forall k :: 0 <= k < |ws| ==> CapWord(ws[k])
    ensures SpaceBeforeCapitals(Concat(ws)) == SpacedWords(ws)
    decreases |ws|
  {
    if ws != [] {
      SpaceBeforeCapWords(ws[1..]);
      SpaceBeforeAppend(ws[0], Concat(ws[1..]));
      SpaceBeforeCapWord(ws[0]);
    }
  }

  /** After the first letter of a capitalized word, the insertion spaces only the
      capitalized words that follow. */
  lemma SpaceBeforeTail(w: string, ws: seq<string>)
    requires CapWord(w) && forall k :: 0 <= k < |ws| ==> CapWord(ws[k])
    ensures SpaceBeforeCapitals(w[1..] + Concat(ws)) == w[1..] + SpacedWords(ws)
  {
    SpaceBeforeAppend(w[1..], Concat(ws));
    SpaceBeforeLower(w[1..]);
    SpaceBeforeCapWords(ws);
  }

  /** The first character of a concatenation and what follows it. */
  lemma ConcatHead(ws: seq<string>)
    requires ws != [] && |ws[0]| >= 1
    ensures Concat(ws) != [] && Concat(ws)[0] == ws[0][0]
    ensures Concat(ws)[1..] == ws[0][1..] + Concat(ws[1..])
  {
    assert Concat(ws) == ws[0] + Concat(ws[1..]);
  }

  /** The camel-case split keeps the first character and spaces the rest. */
  lemma SpaceCamelCaseUnfold(s: string)
    requires s != []
    ensures SpaceCamelCase(s) == [s[0]] + SpaceBeforeCapitals(s[1..])
  {
  }

  /** Putting a word's first character back in front of the rest of it. */
  lemma Regroup(w: string, t: string)
    requires |w| >= 1
    ensures [w[0]] + (w[1..] + t) == w + t
  {
    assert w == [w[0]] + w[1..];
  }

  /** Camel-case splitting of capitalized words separates them with single spaces. */
  lemma CamelCaseCapWords(ws: seq<string>)
    requires ws != [] && forall k :: 0 <= k < |ws| ==> CapWord(ws[k])
    ensures SpaceCamelCase(Concat(ws)) == ws[0] + SpacedWords(ws[1..])
  {
    ConcatHead(ws);
    SpaceBeforeTail(ws[0], ws[1..]);
    CamelCaseJoin(Concat(ws), ws[0], SpacedWords(ws[1..]));
  }

  /** When the text after the first character is spaced into the rest of `w` followed by
      `t`, and the text starts like `w`, camel-case splitting gives `w + t`. */
  lemma CamelCaseJoin(s: string, w: string, t: string)
    requires s != [] && |w| >= 1 && s[0] == w[0]
    requires SpaceBeforeCapitals(s[1..]) == w[1..] + t
    ensures SpaceCamelCase(s) == w + t
  {
    SpaceCamelCaseUnfold(s);
    Regroup(w, t);
  }

  /** Splitting spaced words on whitespace gives the words back. */
  lemma {:induction false} WordsOfSpaced(ws: seq<string>)
    requires forall k :: 0 <= k < |ws| ==> ws[k] != [] && NoSpace(ws[k])
    ensures Words(SpacedWords(ws)) == ws
    decreases |ws|
  {
    if ws == [] {
      assert Span([], 0, IsSpace) == 0;
    } else {
      WordsOfSpaced(ws[1..]);
      WordsStep([' '], ws[0], SpacedWords(ws[1..]));
    }
  }

  /** Capitalized words consist of letters. */
  lemma {:induction false} CapWordsLetters(ws: seq<string>)
    requires forall k :: 0 <= k < |ws| ==> CapWord(ws[k])
    ensures forall k :: 0 <= k < |Concat(ws)| ==> IsUpper(Concat(ws)[k]) || IsLower(Concat(ws)[k])
    decreases |ws|
  {
    if ws != [] {
      CapWordsLetters(ws[1..]);
      var w := ws[0];
      var rest := Concat(ws[1..]);
      assert forall k :: |w| <= k < |w| + |rest| ==> (w + rest)[k] == rest[k - |w|];
    }
  }

  /** Nothing is removed from text without a word boundary inside it. */
  lemma {:induction false} KeepFrom(s: string, i: nat)
    requires i <= |s|
    requires forall j :: i <= j < |s| ==> ScriptWordAt(s, j) == 0
    ensures RemoveScriptWordsFrom(s, i) == s[i..]
    decreases |s| - i
  {
    if i < |s| {
      KeepFrom(s, i + 1);
      assert s[i..] == [s[i]] + s[i + 1..];
    }
  }

  /** A single run of more than six word characters holds no whole-word `script` or `ps1`. */
  lemma KeepLongWord(s: string)
    requires |s| > 6 && AllWordChars(s)
    ensures RemoveScriptWords(s) == s
  {
    forall j | 0 <= j < |s| ensures ScriptWordAt(s, j) == 0 {
      if j == 0 {
        assert IsWordChar(s[6]) && IsWordChar(s[3]);
      } else {
        assert IsWordChar(s[j - 1]);
      }
    }
    KeepFrom(s, 0);
  }

  /** The text of capitalized words is kept by every step before the camel-case split. */
  lemma CapWordsSurviveCleanup(ws: seq<string>)
    requires ws != [] && forall k :: 0 <= k < |ws| ==> CapWord(ws[k])
    requires |Concat(ws)| > 6
    ensures Strip(RemoveScriptWords(Separated(Concat(ws)))) == Concat(ws)
  {
    var s := Concat(ws);
    CapWordsLetters(ws);
    assert Separated(s) == s;
    assert AllWordChars(s);
    KeepLongWord(s);
    assert NoSpace(s);
    assert StripStart(s) == 0;
    assert StripEnd(s) == |s|;
  }

  /** The words found in capitalized words are those words. */
  lemma CapWordsAreFound(ws: seq<string>)
    requires ws != [] && forall k :: 0 <= k < |ws| ==> CapWord(ws[k])
    ensures Words(SpaceCamelCase(Concat(ws))) == ws
  {
    CamelCaseCapWords(ws);
    WordsOfCapWords(ws);
  }

  /** Splitting capitalized words separated by single spaces gives the words back. */
  lemma WordsOfCapWords(ws: seq<string>)
    requires ws != [] && forall k :: 0 <= k < |ws| ==> CapWord(ws[k])
    ensures Words(ws[0] + SpacedWords(ws[1..])) == ws
  {
    forall k | 0 <= k < |ws| ensures ws[k] != [] && NoSpace(ws[k]) {
    }
    WordsOfSpaced(ws[1..]);
    WordsFirst(ws[0], SpacedWords(ws[1..]));
    assert [ws[0]] + ws[1..] == ws;
  }

  /** A stem made of capitalized words that render as themselves (longer than six
      characters, so that it is not the word `script` itself) is its own display name. */
  lemma PascalCaseIsKept(ws: seq<string>)
    requires ws != [] && forall k :: 0 <= k < |ws| ==> CapWord(ws[k]) && RenderWord(ws[k]) == ws[k]
    requires |Concat(ws)| > 6
    ensures DisplayName(Concat(ws)) == Concat(ws)
  {
    CapWordsSurviveCleanup(ws);
    CapWordsAreFound(ws);
    assert DisplayWords(Concat(ws)) == ws;
    assert RenderAll(ws) == ws;
  }

  /** `Mg` and `Graph` are their own fixed spellings. */
  lemma FixedSpellingsKept()
    ensures RenderWord("Mg") == "Mg" && RenderWord("Graph") == "Graph"
  {
    assert LowerStr("Mg") == "mg";
    assert LowerStr("Graph") == "graph";
  }

  /** A capitalized word without a fixed spelling renders as itself. */
  lemma CapWordKept(w: string)
    requires CapWord(w) && LowerStr(w) !in Acronyms
    ensures RenderWord(w) == w
  {
    assert Capitalize(w) == w;
  }

  /** `User` and `Creation` have no fixed spelling and are already capitalized. */
  lemma CapitalizedWordsKept()
    ensures RenderWord("User") == "User" && RenderWord("Creation") == "Creation"
  {
    assert LowerStr("User") == "user";
    CapWordKept("User");
    assert LowerStr("Creation") == "creation";
    CapWordKept("Creation");
  }

  /** `Mg`, `Graph`, `User` and `Creation` are capitalized words. */
  lemma LiteralCapWords()
    ensures CapWord("Mg") && CapWord("Graph") && CapWord("User") && CapWord("Creation")
  {
    var c := "Creation";
    forall k | 1 <= k < |c| ensures IsLower(c[k]) {
    }
  }

  /** The words of `MgGraphUserCreation` are capitalized and render as themselves. */
  lemma MgGraphUserCreationWords()
    ensures var ws := ["Mg", "Graph", "User", "Creation"];
            forall k :: 0 <= k < |ws| ==> CapWord(ws[k]) && RenderWord(ws[k]) == ws[k]
  {
    var ws := ["Mg", "Graph", "User", "Creation"];
    FixedSpellingsKept();
    CapitalizedWordsKept();
    LiteralCapWords();
    forall k | 0 <= k < |ws| ensures CapWord(ws[k]) && RenderWord(ws[k]) == ws[k] {
      if k == 0 {
        assert ws[k] == "Mg";
      } else if k == 1 {
        assert ws[k] == "Graph";
      } else if k == 2 {
        assert ws[k] == "User";
      } else {
        assert ws[k] == "Creation";
      }
    }
  }

  /** `MgGraphUserCreation` is shown as it is. */
  lemma MgGraphUserCreationIsKept()
    ensures DisplayName("MgGraphUserCreation") == "MgGraphUserCreation"
  {
    var ws := ["Mg", "Graph", "User", "Creation"];
    assert Concat(ws) == "MgGraphUserCreation";
    MgGraphUserCreationWords();
    PascalCaseIsKept(ws);
  }
}
