/** `ScriptRegistry`: the scripts found in a directory, each parsed into a `ScriptInfo`
    and kept in a dictionary keyed by the file's stem. */
module Registry {
  import opened Options
  import opened Text
  import opened Patterns
  import opened Parameters
  import opened Descriptions
  import opened DisplayNames

  /** What the launcher knows about one script. */
  datatype ScriptInfo = ScriptInfo(
    name: string,
    path: string,
    description: string,
    parameters: seq<ScriptParameter>,
    hasSwitches: bool,
    switchDescription: string)

  /** One `*.ps1` file of the scripts directory: its path, its stem (the file name without
      `.ps1`) and its text, or `None` when it cannot be read as UTF-8. */
  datatype ScriptFile = ScriptFile(path: string, stem: string, content: Option<string>)

  /** The hint shown for a script that has utility switches. */
  const SwitchHint: string := "Supports utility switches (press 'S' for options)"

  /** A script has utility switches when it mentions `-ListLicenses` or declares a
      `[switch]` parameter. */
  function HasSwitches(content: string): (b: bool)
    ensures b <==> exists i :: OccursAt(content, "-ListLicenses", i) || OccursAt(content, "switch]", i)
  {
    Contains(content, "-ListLicenses") || Contains(content, "switch]")
  }

  /** The description of a script: its override when there is one, otherwise the one taken
      from its comments. */
  function DescriptionOf(overrides: map<string, string>, scriptName: string, content: string): string {
    if scriptName in overrides then overrides[scriptName] else CommentDescription(content, scriptName)
  }

  /** `_parse_script` as a value: `None` exactly when the file cannot be read, otherwise the
      information of the script named after the file's stem. */
  function ScriptInfoOf(overrides: map<string, string>, file: ScriptFile): (r: Option<ScriptInfo>)
    ensures r.None? <==> file.content.None?
    ensures r.Some? ==> r.value.name == file.stem && r.value.path == file.path
  {
    match file.content
    case None => None
    case Some(content) =>
      var hasSwitches := HasSwitches(content);
      Some(ScriptInfo(
        file.stem,
        file.path,
        DescriptionOf(overrides, file.stem, content),
        ParametersOf(content),
        hasSwitches,
        if hasSwitches then SwitchHint else ""))
  }

  /** The switch hint is shown exactly for scripts with utility switches, and those are
      the scripts that mention `-ListLicenses` or `switch]`. */
  lemma SwitchHintMeans(overrides: map<string, string>, file: ScriptFile)
    requires file.content.Some?
    ensures var info := ScriptInfoOf(overrides, file).value;
            (info.switchDescription != [] <==> info.hasSwitches)
            && (info.hasSwitches <==> exists i :: OccursAt(file.content.value, "-ListLicenses", i)
                                                  || OccursAt(file.content.value, "switch]", i))
  {
  }

  /** A description is the script's override when it has one; otherwise it is the generic
      fallback or a comment text that is long enough, not a separator line and trimmed. */
  lemma DescriptionShape(overrides: map<string, string>, file: ScriptFile)
    requires file.content.Some?
    ensures var info := ScriptInfoOf(overrides, file).value;
            if file.stem in overrides then info.description == overrides[file.stem]
            else info.description == Fallback(file.stem) || WellFormed(info.description)
  {
    CommentDescriptionShape(file.content.value, file.stem);
  }

  /** Entries stored into `m` in order: an absent value stores nothing, and a later entry
      replaces an earlier one with the same key. */
  function StoreAll<V>(m: map<string, V>, entries: seq<(string, Option<V>)>): map<string, V>
    decreases |entries|
  {
    if entries == [] then m
    else
      var n := |entries| - 1;
      var before := StoreAll(m, entries[..n]);
      if entries[n].1.Some? then before[entries[n].0 := entries[n].1.value] else before
  }

  /** The keys after storing are the old keys and the keys of the present entries. */
  lemma {:induction false} StoreAllKeys<V>(m: map<string, V>, entries: seq<(string, Option<V>)>)
    ensures forall k :: k in StoreAll(m, entries) <==>
              k in m || exists i :: 0 <= i < |entries| && entries[i].0 == k && entries[i].1.Some?
    decreases |entries|
  {
    if entries != [] {
      var n := |entries| - 1;
      StoreAllKeys(m, entries[..n]);
      assert forall i :: 0 <= i < n ==> entries[..n][i] == entries[i];
    }
  }

  /** No two entries share a key. */
  predicate UniqueKeys<V>(entries: seq<(string, V)>) {
    forall i, j :: 0 <= i < j < |entries| ==> entries[i].0 != entries[j].0
  }

  /** With distinct keys every present entry is stored as it is, and an old entry that no
      present entry replaces is kept. */
  lemma {:induction false} StoreAllValues<V>(m: map<string, V>, entries: seq<(string, Option<V>)>)
    requires UniqueKeys(entries)
    ensures forall i :: 0 <= i < |entries| && entries[i].1.Some? ==>
              entries[i].0 in StoreAll(m, entries) && StoreAll(m, entries)[entries[i].0] == entries[i].1.value
    ensures forall k :: k in m && (forall i :: 0 <= i < |entries| && entries[i].0 == k ==> entries[i].1.None?) ==>
              k in StoreAll(m, entries) && StoreAll(m, entries)[k] == m[k]
    decreases |entries|
  {
    if entries != [] {
      var n := |entries| - 1;
      var init := entries[..n];
      assert forall i :: 0 <= i < n ==> init[i] == entries[i];
      StoreAllValues(m, init);
    }
  }

  /** Each file's stem with the result of parsing it with `parse`. */
  function Parsed<V>(parse: ScriptFile -> Option<V>, files: seq<ScriptFile>): (r: seq<(string, Option<V>)>)
    ensures |r| == |files|
    ensures forall k :: 0 <= k < |files| ==> r[k] == (files[k].stem, parse(files[k]))
  {
    seq(|files|, k requires 0 <= k < |files| => (files[k].stem, parse(files[k])))
  }

  /** `_parse_script` with the given description overrides, as a function value. */
  function ParseWith(overrides: map<string, string>): ScriptFile -> Option<ScriptInfo> {
    file => ScriptInfoOf(overrides, file)
  }

  /** Discovery as a value: the files are parsed in order and every readable one is stored
      under its stem, a later file replacing an earlier one with the same stem. */
  function Discovered(overrides: map<string, string>, m: map<string, ScriptInfo>, files: seq<ScriptFile>): map<string, ScriptInfo> {
    StoreAll(m, Parsed(ParseWith(overrides), files))
  }

  /** After discovery the keys are the old keys and the stems of the readable files. */
  lemma DiscoveredKeys(overrides: map<string, string>, m: map<string, ScriptInfo>, files: seq<ScriptFile>)
    ensures forall k :: k in Discovered(overrides, m, files) <==>
              k in m || exists i :: 0 <= i < |files| && files[i].stem == k && files[i].content.Some?
  {
    var entries := Parsed(ParseWith(overrides), files);
    StoreAllKeys(m, entries);
    forall i | 0 <= i < |files| ensures entries[i].0 == files[i].stem && (entries[i].1.Some? <==> files[i].content.Some?) {
      assert entries[i].1 == ScriptInfoOf(overrides, files[i]);
    }
  }

  /** No two files share a stem (as is the case for the `*.ps1` files of one directory). */
  predicate UniqueStems(files: seq<ScriptFile>) {
    forall i, j :: 0 <= i < j < |files| ==> files[i].stem != files[j].stem
  }

  /** With distinct stems, every readable file's information is stored under its stem, and
      an old entry no readable file replaces is kept. */
  lemma DiscoveredValues(overrides: map<string, string>, m: map<string, ScriptInfo>, files: seq<ScriptFile>)
    requires UniqueStems(files)
    ensures forall i :: 0 <= i < |files| && files[i].content.Some? ==>
              files[i].stem in Discovered(overrides, m, files)
              && Discovered(overrides, m, files)[files[i].stem] == ScriptInfoOf(overrides, files[i]).value
    ensures forall k :: k in m && (forall i :: 0 <= i < |files| && files[i].stem == k ==> files[i].content.None?) ==>
              k in Discovered(overrides, m, files) && Discovered(overrides, m, files)[k] == m[k]
  {
    var entries := Parsed(ParseWith(overrides), files);
    StoreAllValues(m, entries);
    var d := Discovered(overrides, m, files);
    forall i | 0 <= i < |files| && files[i].content.Some?
      ensures files[i].stem in d && d[files[i].stem] == ScriptInfoOf(overrides, files[i]).value
    {
      assert entries[i] == (files[i].stem, ScriptInfoOf(overrides, files[i]));
    }
    forall k | k in m && (forall i :: 0 <= i < |files| && files[i].stem == k ==> files[i].content.None?)
      ensures k in d && d[k] == m[k]
    {
      forall i | 0 <= i < |entries| && entries[i].0 == k ensures entries[i].1.None? {
        assert entries[i].1 == ScriptInfoOf(overrides, files[i]);
      }
    }
  }

  /** With distinct keys, the order of the entries does not matter: the same entries give
      the same dictionary. */
  lemma StoreAllOrderIrrelevant<V>(m: map<string, V>, a: seq<(string, Option<V>)>, b: seq<(string, Option<V>)>)
    requires UniqueKeys(a) && UniqueKeys(b)
    requires forall e :: e in a <==> e in b
    ensures StoreAll(m, a) == StoreAll(m, b)
  {
    var da := StoreAll(m, a);
    var db := StoreAll(m, b);
    StoreAllKeys(m, a);
    StoreAllKeys(m, b);
    StoreAllValues(m, a);
    StoreAllValues(m, b);
    forall k | k in da ensures k in db && da[k] == db[k] {
      if i :| 0 <= i < |a| && a[i].0 == k && a[i].1.Some? {
        assert a[i] in b;
        var j :| 0 <= j < |b| && b[j] == a[i];
      } else {
        forall j | 0 <= j < |b| && b[j].0 == k ensures b[j].1.None? {
          assert b[j] in a;
          var i :| 0 <= i < |a| && a[i] == b[j];
        }
      }
    }
    forall k | k in db ensures k in da {
      if j :| 0 <= j < |b| && b[j].0 == k && b[j].1.Some? {
        assert b[j] in a;
        var i :| 0 <= i < |a| && a[i] == b[j];
      }
    }
  }

  /** The order in which the directory lists its files does not matter when stems are
      distinct: the same files give the same dictionary. */
  lemma DiscoveryOrderIrrelevant(overrides: map<string, string>, m: map<string, ScriptInfo>, a: seq<ScriptFile>, b: seq<ScriptFile>)
    requires UniqueStems(a) && UniqueStems(b)
    requires forall f :: f in a <==> f in b
    ensures Discovered(overrides, m, a) == Discovered(overrides, m, b)
  {
    var parse := ParseWith(overrides);
    var ea := Parsed(parse, a);
    var eb := Parsed(parse, b);
    forall e | e in ea ensures e in eb {
      var i :| 0 <= i < |ea| && ea[i] == e;
      assert a[i] in b;
      var j :| 0 <= j < |b| && b[j] == a[i];
      assert eb[j] == e;
    }
    forall e | e in eb ensures e in ea {
      var j :| 0 <= j < |eb| && eb[j] == e;
      assert b[j] in a;
      var i :| 0 <= i < |a| && a[i] == b[j];
      assert ea[i] == e;
    }
    StoreAllOrderIrrelevant(m, ea, eb);
  }

  /** Every entry of the dictionary is stored under its script's name. */
  ghost predicate KeyedByName(m: map<string, ScriptInfo>) {
    forall k :: k in m ==> m[k].name == k
  }

  /** Discovery keeps every entry under its script's name. */
  lemma DiscoveredKeyedByName(overrides: map<string, string>, m: map<string, ScriptInfo>, files: seq<ScriptFile>)
    requires KeyedByName(m)
    ensures KeyedByName(Discovered(overrides, m, files))
  {
    StoreAllKeyedByName(m, Parsed(ParseWith(overrides), files));
  }

  /** Storing entries whose values carry their keys as names keeps a dictionary keyed by name. */
  lemma {:induction false} StoreAllKeyedByName(m: map<string, ScriptInfo>, entries: seq<(string, Option<ScriptInfo>)>)
    requires KeyedByName(m)
    requires forall i :: 0 <= i < |entries| && entries[i].1.Some? ==> entries[i].1.value.name == entries[i].0
    ensures KeyedByName(StoreAll(m, entries))
    decreases |entries|
  {
    if entries != [] {
      var n := |entries| - 1;
      assert forall i :: 0 <= i < n ==> entries[..n][i] == entries[i];
      StoreAllKeyedByName(m, entries[..n]);
    }
  }

  /** `a` comes strictly before `b` in code-point order (Python's string comparison). */
  predicate LexLess(a: string, b: string)
    decreases |a|
  {
    if a == [] then b != []
    else b != [] && (a[0] < b[0] || (a[0] == b[0] && LexLess(a[1..], b[1..])))
  }

  /** The order is strict and total. */
  lemma {:induction false} LexLessTotal(a: string, b: string)
    ensures !(LexLess(a, b) && LexLess(b, a))
    ensures a != b ==> LexLess(a, b) || LexLess(b, a)
    ensures !LexLess(a, a)
    decreases |a|
  {
    if a != [] {
      LexLessTotal(a[1..], a[1..]);
    }
    if a != [] && b != [] {
      LexLessTotal(a[1..], b[1..]);
      if a[0] == b[0] && a != b {
        assert a == [a[0]] + a[1..] && b == [b[0]] + b[1..];
      }
    }
  }

  /** The order is transitive. */
  lemma {:induction false} LexLessTransitive(a: string, b: string, c: string)
    requires LexLess(a, b) && LexLess(b, c)
    ensures LexLess(a, c)
    decreases |a|
  {
    if a != [] && a[0] == b[0] && b[0] == c[0] {
      LexLessTransitive(a[1..], b[1..], c[1..]);
    }
  }

  /** Strictly increasing, hence without repeats. */
  predicate Sorted(names: seq<string>) {
    forall i, j :: 0 <= i < j < |names| ==> LexLess(names[i], names[j])
  }

  /** There is only one sorted list of a given set of names. */
  lemma {:induction false} SortedUnique(a: seq<string>, b: seq<string>)
    requires Sorted(a) && Sorted(b)
    requires forall x :: x in a <==> x in b
    ensures a == b
    decreases |a|
  {
    if a != [] {
      assert a[0] in b;
    }
    if b != [] {
      assert b[0] in a;
    }
    if a != [] && b != [] {
      var j :| 0 <= j < |b| && b[j] == a[0];
      var i :| 0 <= i < |a| && a[i] == b[0];
      if j > 0 && i > 0 {
        LexLessTotal(a[0], b[0]);
      }
      LexLessTotal(a[0], a[0]);
      assert a[0] == b[0];
      forall x ensures x in a[1..] <==> x in b[1..] {
        if x in a[1..] {
          var k :| 0 <= k < |a| - 1 && a[1..][k] == x;
          assert LexLess(a[0], a[k + 1]);
          LexLessTotal(x, x);
          assert x in b;
          var m :| 0 <= m < |b| && b[m] == x;
          assert m != 0;
          assert b[1..][m - 1] == x;
        }
        if x in b[1..] {
          var k :| 0 <= k < |b| - 1 && b[1..][k] == x;
          assert LexLess(b[0], b[k + 1]);
          LexLessTotal(x, x);
          assert x in a;
          var m :| 0 <= m < |a| && a[m] == x;
          assert m != 0;
          assert a[1..][m - 1] == x;
        }
      }
      SortedUnique(a[1..], b[1..]);
      assert a == [a[0]] + a[1..] && b == [b[0]] + b[1..];
    }
  }

  /** `x` put into its place in a sorted list. */
  function Insert(x: string, names: seq<string>): (r: seq<string>)
    requires Sorted(names) && x !in names
    ensures Sorted(r)
    ensures forall y :: y in r <==> y == x || y in names
    ensures |r| == |names| + 1
  {
    if names == [] then [x]
    else if LexLess(x, names[0]) then
      assert forall j :: 0 < j < |names| ==> LexLess(x, names[j]) by {
        forall j | 0 < j < |names| ensures LexLess(x, names[j]) {
          LexLessTransitive(x, names[0], names[j]);
        }
      }
      [x] + names
    else
      LexLessTotal(x, names[0]);
      var rest := Insert(x, names[1..]);
      assert forall j :: 0 <= j < |rest| ==> LexLess(names[0], rest[j]) by {
        forall j | 0 <= j < |rest| ensures LexLess(names[0], rest[j]) {
          assert rest[j] in rest;
          if rest[j] != x {
            assert rest[j] in names[1..];
            var i :| 0 <= i < |names| - 1 && names[1..][i] == rest[j];
            assert names[i + 1] == rest[j];
          }
        }
      }
      [names[0]] + rest
  }

  /** The registry of one scripts directory. */
  class ScriptRegistry {
    const scriptsDir: string
    const descriptionOverrides: map<string, string>
    var scripts: map<string, ScriptInfo>

    /** Every script is stored under its own name. */
    ghost predicate Valid()
      reads this
    {
      KeyedByName(scripts)
    }

    /** A registry for `scriptsDir`, discovered at once. The directory's existence and its
        `*.ps1` files, in the order the directory lists them, are given as parameters, and
        so is the table of description overrides. */
    constructor (scriptsDir: string, descriptionOverrides: map<string, string>, dirExists: bool, files: seq<ScriptFile>)
      ensures this.scriptsDir == scriptsDir && this.descriptionOverrides == descriptionOverrides
      ensures scripts == if dirExists then Discovered(descriptionOverrides, map[], files) else map[]
      ensures Valid()
    {
      this.scriptsDir := scriptsDir;
      this.descriptionOverrides := descriptionOverrides;
      scripts := map[];
      new;
      DiscoverScripts(dirExists, files);
    }

    /** `_discover_scripts`: nothing happens when the directory is missing; otherwise every
        readable file is parsed and stored under its stem. */
    method DiscoverScripts(dirExists: bool, files: seq<ScriptFile>)
      requires Valid()
      modifies this
      ensures Valid()
      ensures scripts == if dirExists then Discovered(descriptionOverrides, old(scripts), files) else old(scripts)
    {
      if !dirExists {
        return;
      }
      for i := 0 to |files|
        invariant scripts == Discovered(descriptionOverrides, old(scripts), files[..i])
      {
        assert Parsed(ParseWith(descriptionOverrides), files[..i + 1])
            == Parsed(ParseWith(descriptionOverrides), files[..i]) + [(files[i].stem, ScriptInfoOf(descriptionOverrides, files[i]))];
        var scriptInfo := ParseScript(files[i]);
        if scriptInfo.Some? {
          scripts := scripts[files[i].stem := scriptInfo.value];
        }
      }
      assert files[..|files|] == files;
      DiscoveredKeyedByName(descriptionOverrides, old(scripts), files);
    }

    /** `_parse_script`: the file's information, or `None` when it cannot be read. */
    method ParseScript(file: ScriptFile) returns (scriptInfo: Option<ScriptInfo>)
      ensures scriptInfo == ScriptInfoOf(descriptionOverrides, file)
    {
      if file.content.None? {
        return None;
      }
      var content := file.content.value;
      var scriptName := file.stem;
      var description;
      if scriptName in descriptionOverrides {
        description := descriptionOverrides[scriptName];
      } else {
        description := ExtractFirstComment(content, scriptName);
      }
      var parameters := ExtractParameters(content);
      var hasSwitches := Contains(content, "-ListLicenses") || Contains(content, "switch]");
      var switchDesc := if hasSwitches then SwitchHint else "";
      return Some(ScriptInfo(scriptName, file.path, description, parameters, hasSwitches, switchDesc));
    }

    /** `_extract_first_comment`: the first thirty lines are scanned; blank lines and
        shebangs are skipped, a qualifying `#` comment is returned, and a line that is
        neither a comment nor a block-comment opening ends the scan with the fallback. */
    method ExtractFirstComment(content: string, scriptName: string) returns (description: string)
      ensures description == CommentDescription(content, scriptName)
    {
      var lines := HeadLines(content);
      ghost var steps := Steps(lines);
      ghost var fallback := Fallback(scriptName);
      var i := 0;
      while i < |lines|
        invariant 0 <= i <= |lines|
        invariant ScanFrom(steps, i, fallback) == ScanFrom(steps, 0, fallback)
      {
        ScanStep(steps, i, fallback);
        var step := ScanLine(lines[i]);
        assert step == steps[i];
        match step
        case Take(desc) =>
          return desc;
        case Stop =>
          break;
        case Skip =>
          i := i + 1;
      }
      return Fallback(scriptName);
    }

    /** The body of the loop of `_extract_first_comment` for one line: `Skip` where the loop
        `continue`s or goes on, `Take` with the text it returns, `Stop` where it `break`s. */
    method ScanLine(line: string) returns (step: Step)
      ensures step == LineStep(line)
    {
      var stripped := Strip(line);
      if stripped == [] || StartsWith(stripped, "#!") {
        return Skip;
      }
      if StartsWith(stripped, "#") {
        var desc := CommentText(stripped);
        if Qualifies(desc) {
          return Take(desc);
        }
      }
      if !StartsWith(stripped, "#") && !StartsWith(stripped, "<#") {
        return Stop;
      }
      return Skip;
    }

    /** `_extract_parameters`: the parameters of the sections of the first `param( … \n)`
        block, in order; none when there is no such block. */
    method ExtractParameters(content: string) returns (parameters: seq<ScriptParameter>)
      ensures parameters == ParametersOf(content)
    {
      parameters := [];
      var paramMatch := ParamBlock(content);
      if paramMatch.None? {
        return;
      }
      var paramSections := SplitSections(paramMatch.value);
      for i := 0 to |paramSections|
        invariant parameters == CollectParameters(paramSections[..i])
      {
        assert paramSections[..i + 1][..i] == paramSections[..i];
        var parameter := ParseSection(paramSections[i]);
        if parameter.Some? {
          parameters := parameters + [parameter.value];
        }
      }
      assert paramSections[..|paramSections|] == paramSections;
    }

    /** The body of the loop of `_extract_parameters` for one section: `None` where the
        loop `continue`s (an empty section, no `[type]$name`, a switch), otherwise the
        parameter it appends. */
    method ParseSection(rawSection: string) returns (parameter: Option<ScriptParameter>)
      ensures parameter == SectionParameter(rawSection)
    {
      var section := Strip(rawSection);
      if section == [] {
        return None;
      }
      var mandatoryMatch := MandatoryWord(section);
      var typeNameMatch := FindDeclaration(section);
      if typeNameMatch.None? {
        return None;
      }
      var declaration := typeNameMatch.value;
      if LowerStr(declaration.typeName) == "switch" {
        return None;
      }
      var isRequired := if mandatoryMatch.Some? then LowerStr(mandatoryMatch.value) == "true"
                        else Strip(declaration.rawDefault) == [];
      var prompt := ParamNameToPrompt(declaration.name);
      var isPassword := Contains(LowerStr(declaration.name), "password");
      return Some(ScriptParameter(declaration.name, prompt, Strip(declaration.rawDefault), isRequired, isPassword));
    }

    /** `get_script_list`: the names of all scripts, each once, in sorted order. */
    method GetScriptList() returns (names: seq<string>)
      ensures Sorted(names)
      ensures forall x :: x in names <==> x in scripts
    {
      names := [];
      var remaining := scripts.Keys;
      while remaining != {}
        invariant Sorted(names)
        invariant forall x :: x in names ==> x !in remaining
        invariant forall x :: x in scripts <==> x in names || x in remaining
        decreases |remaining|
      {
        var x :| x in remaining;
        names := Insert(x, names);
        remaining := remaining - {x};
      }
    }

    /** `get_script_info`: the stored information of a script, or `None` for an unknown
        name; a stored script carries the name it is looked up by. */
    function GetScriptInfo(scriptName: string): (r: Option<ScriptInfo>)
      reads this
      ensures r.Some? <==> scriptName in scripts
      ensures r.Some? ==> r.value == scripts[scriptName]
      ensures Valid() && r.Some? ==> r.value.name == scriptName
    {
      if scriptName in scripts then Some(scripts[scriptName]) else None
    }

    /** `get_display_name`: the stem turned into a PascalCase display name. */
    method GetDisplayName(scriptName: string) returns (displayName: string)
      ensures displayName == DisplayName(scriptName)
    {
      var name := ReplaceChar(ReplaceChar(scriptName, '_', ' '), '-', ' ');
      name := RemoveScriptWords(name);
      name := Strip(name);
      name := SpaceCamelCase(name);
      var words := Words(name);
      var pascalWords := PascalWords(words);
      displayName := Concat(pascalWords);
    }

    /** The loop of `get_display_name`: each word in its fixed spelling or capitalized. */
    method PascalWords(words: seq<string>) returns (pascalWords: seq<string>)
      ensures pascalWords == RenderAll(words)
    {
      pascalWords := [];
      for i := 0 to |words|
        invariant |pascalWords| == i
        invariant forall k :: 0 <= k < i ==> pascalWords[k] == RenderWord(words[k])
      {
        var wordLower := LowerStr(words[i]);
        if wordLower in Acronyms {
          pascalWords := pascalWords + [Acronyms[wordLower]];
        } else {
          pascalWords := pascalWords + [Capitalize(words[i])];
        }
      }
    }
  }
}
