/** What `_extract_parameters` produces from one script: the parameter record, how one
    section of the `param( … )` block becomes a parameter, and the friendly prompt. */
module Parameters {
  import opened Options
  import opened Text
  import opened Patterns

  /** One parameter the launcher asks the operator for. */
  datatype ScriptParameter = ScriptParameter(
    name: string,
    prompt: string,
    default: string,
    required: bool,
    password: bool)

  /** The exact-match overrides of `_param_name_to_prompt`. */
  const PromptReplacements: map<string, string> := map[
    "Upn" := "UPN (User Principal Name)",
    "Sku" := "SKU",
    "Mfa" := "MFA",
    "Display Name" := "Display Name (Full Name)",
    "User Principal Name" := "User Principal Name (Email)",
    "Usage Location" := "Usage Location (2-letter country code)",
    "Password" := "Password (min 8 characters)",
    "License Index" := "License Index (0 to skip, or number from list)",
    "Target User Email" := "Target User Email",
    "Mailbox Type" := "Mailbox Type (All, UserMailbox, SharedMailbox, etc.)"
  ]

  /** The name with a space inserted before every capital letter, then stripped. */
  function SpacedName(name: string): (r: string)
    ensures r == [] || (!IsSpace(r[0]) && !IsSpace(r[|r| - 1]))
    ensures forall k :: 1 <= k < |r| && IsUpper(r[k]) ==> r[k - 1] == ' '
  {
    var spaced := SpaceBeforeCapitals(name);
    SpaceBeforeCapitalsSpaced(name);
    var r := Strip(spaced);
    assert forall k :: 1 <= k < |r| ==> r[k] == spaced[StripStart(spaced) + k];
    r
  }

  /** `_param_name_to_prompt`: the table entry for the spaced name, or the spaced name. */
  function ParamNameToPrompt(name: string): string {
    var spaced := SpacedName(name);
    if spaced in PromptReplacements then PromptReplacements[spaced] else spaced
  }

  /** A prompt is the override for the spaced name when there is one; otherwise it is the
      spaced name itself, which has no surrounding whitespace and, for a name without
      whitespace, gives the name back once the inserted spaces are deleted. */
  lemma PromptProperties(name: string)
    ensures SpacedName(name) in PromptReplacements ==>
              ParamNameToPrompt(name) == PromptReplacements[SpacedName(name)]
    ensures SpacedName(name) !in PromptReplacements ==>
              var p := ParamNameToPrompt(name);
              p == SpacedName(name) && (p == [] || (!IsSpace(p[0]) && !IsSpace(p[|p| - 1])))
    ensures NoSpace(name) ==> RemoveSpaces(SpacedName(name)) == name
  {
    StripRemovesOnlySpaces(SpaceBeforeCapitals(name));
    SpaceBeforeCapitalsAddsOnlySpaces(name);
    if NoSpace(name) { RemoveSpacesNone(name); }
  }

  /** A one-word name spelt as a table key gets the table's expansion. */
  lemma PromptForUpn()
    ensures ParamNameToPrompt("Upn") == "UPN (User Principal Name)"
  {
    assert SpaceBeforeCapitals("Upn") == " Upn";
    StripUpn();
    assert "Upn" in PromptReplacements && PromptReplacements["Upn"] == "UPN (User Principal Name)";
  }

  lemma StripUpn()
    ensures Strip(" Upn") == "Upn"
  {
    var s := " Upn";
    assert s[1..4] == "Upn";
    assert Span(s, 1, IsSpace) == 1;
    assert StripStart(s) == 1;
    assert StripEnd(s) == 4;
    assert !AllSpace(s) by { assert !IsSpace(s[1]); }
  }

  /** `required` for a section: an explicit `Mandatory=$word` decides (true exactly when the
      word is `true` in any case); without one, a parameter is required when its default is
      empty after trimming. */
  function IsRequired(section: string, rawDefault: string): (b: bool)
    ensures MandatoryWord(section).Some? ==> (b <==> LowerStr(MandatoryWord(section).value) == "true")
    ensures (forall q, j :: !MarkerAt(section, q, j)) ==> (b <==> AllSpace(rawDefault))
  {
    match MandatoryWord(section)
    case Some(word) => LowerStr(word) == "true"
    case None => Strip(rawDefault) == []
  }

  /** The parameter one section of the block declares, or `None` when the section is empty
      after trimming, holds no `[type]$name`, or declares a switch. */
  function SectionParameter(section: string): Option<ScriptParameter>
  {
    var t := Strip(section);
    if t == [] then None
    else
      match FindDeclaration(t)
      case None => None
      case Some(d) =>
        if LowerStr(d.typeName) == "switch" then None
        else
          Some(ScriptParameter(
            d.name,
            ParamNameToPrompt(d.name),
            Strip(d.rawDefault),
            IsRequired(t, d.rawDefault),
            Contains(LowerStr(d.name), "password")))
  }

  /** A section yields a parameter exactly when, once trimmed, it is not empty and declares
      a `[type]$name` whose type is not `switch` in any case; the parameter then carries the
      declared name (word characters only), the default without surrounding whitespace,
      the required flag of `IsRequired`, and is a password exactly when its name contains
      `password` in any case. */
  lemma SectionParameterMeans(section: string)
    ensures var t := Strip(section);
            SectionParameter(section).Some? <==>
              t != [] && FindDeclaration(t).Some? && LowerStr(FindDeclaration(t).value.typeName) != "switch"
    ensures var t := Strip(section);
            SectionParameter(section).Some? ==>
              var p := SectionParameter(section).value;
              var d := FindDeclaration(t).value;
              && p.name == d.name && p.name != [] && AllWordChars(p.name)
              && p.prompt == ParamNameToPrompt(p.name)
              && p.default == Strip(d.rawDefault)
              && (p.default == [] || (!IsSpace(p.default[0]) && !IsSpace(p.default[|p.default| - 1])))
              && p.required == IsRequired(t, d.rawDefault)
              && (p.password <==> exists i :: OccursAt(LowerStr(p.name), "password", i))
  {
    var t := Strip(section);
    if t != [] && FindDeclaration(t).Some? {
      var d := FindDeclaration(t).value;
      var q :| 0 <= q <= |t| && DeclarationAt(t, q) == FindDeclaration(t);
    }
  }

  /** The results of `f` on `xs` that are present, in order: a loop that appends when a
      value is found and `continue`s otherwise. */
  function FilterMap<A, B>(xs: seq<A>, f: A -> Option<B>): seq<B> {
    if xs == [] then []
    else
      var n := |xs| - 1;
      FilterMap(xs[..n], f) + (if f(xs[n]).Some? then [f(xs[n]).value] else [])
  }

  /** The indices of `xs` where `f` gives a value, in order. */
  function KeptIndices<A, B>(xs: seq<A>, f: A -> Option<B>): seq<nat> {
    if xs == [] then []
    else
      var n := |xs| - 1;
      KeptIndices(xs[..n], f) + (if f(xs[n]).Some? then [n] else [])
  }

  /** `FilterMap` is a filter: it lists, at increasing indices, exactly the present values. */
  lemma {:induction false} FilterMapIsFilter<A, B>(xs: seq<A>, f: A -> Option<B>)
    ensures |KeptIndices(xs, f)| == |FilterMap(xs, f)|
    ensures forall k, m :: 0 <= k < m < |KeptIndices(xs, f)| ==> KeptIndices(xs, f)[k] < KeptIndices(xs, f)[m]
    ensures forall k :: 0 <= k < |KeptIndices(xs, f)| ==>
              KeptIndices(xs, f)[k] < |xs| && f(xs[KeptIndices(xs, f)[k]]) == Some(FilterMap(xs, f)[k])
    ensures forall i :: 0 <= i < |xs| ==> (i in KeptIndices(xs, f) <==> f(xs[i]).Some?)
    decreases |xs|
  {
    if xs != [] {
      var n := |xs| - 1;
      var init := xs[..n];
      FilterMapIsFilter(init, f);
      assert forall i :: 0 <= i < n ==> init[i] == xs[i];
    }
  }

  /** The parameters of the sections, in section order. */
  function CollectParameters(sections: seq<string>): seq<ScriptParameter> {
    FilterMap(sections, SectionParameter)
  }

  /** A section from which a parameter named `name` comes: it declares `[type]$name` with a
      type other than `switch`. */
  ghost predicate DeclaresNonSwitch(section: string, name: string) {
    var t := Strip(section);
    FindDeclaration(t).Some?
    && LowerStr(FindDeclaration(t).value.typeName) != "switch"
    && FindDeclaration(t).value.name == name
  }

  /** Every collected parameter comes from a section that declares it with a type other
      than `switch`: a switch is never prompted for. */
  lemma NoSwitchCollected(sections: seq<string>)
    ensures forall k :: 0 <= k < |CollectParameters(sections)| ==>
              exists i :: 0 <= i < |sections| && DeclaresNonSwitch(sections[i], CollectParameters(sections)[k].name)
  {
    FilterMapIsFilter(sections, SectionParameter);
    forall k | 0 <= k < |CollectParameters(sections)|
      ensures exists i :: 0 <= i < |sections| && DeclaresNonSwitch(sections[i], CollectParameters(sections)[k].name)
    {
      var i := KeptIndices(sections, SectionParameter)[k];
      assert DeclaresNonSwitch(sections[i], CollectParameters(sections)[k].name);
    }
  }

  /** `_extract_parameters` as a value: no `param( … \n)` block means no parameters;
      otherwise the parameters of the block's sections. */
  function ParametersOf(content: string): (r: seq<ScriptParameter>)
    ensures ParamBlock(content).None? ==> r == []
  {
    match ParamBlock(content)
    case None => []
    case Some(block) => CollectParameters(SplitSections(block))
  }

  /** Every parameter of a script comes from a section of its `param( … )` block that
      declares it with a type other than `switch`. */
  lemma NoSwitchParameter(content: string)
    ensures ParametersOf(content) != [] ==> ParamBlock(content).Some?
    ensures ParamBlock(content).Some? ==>
              var sections := SplitSections(ParamBlock(content).value);
              forall k :: 0 <= k < |ParametersOf(content)| ==>
                exists i :: 0 <= i < |sections| && DeclaresNonSwitch(sections[i], ParametersOf(content)[k].name)
  {
    if ParamBlock(content).Some? {
      NoSwitchCollected(SplitSections(ParamBlock(content).value));
    }
  }

  /** A `\n)` found by the block search is an occurrence of the text `\n)`. */
  lemma CloseOccurs(s: string, k: nat)
    requires CloseAt(s, k)
    ensures OccursAt(s, "\n)", k)
  {
    assert s[k..k + 2] == "\n)";
  }

  /** The block must end with a line that starts with `)`: a script whose `param( … )`
      closes on the same line as its last declaration, with no `\n)` anywhere, has no
      parameters at all. */
  lemma ParametersNeedClosingLine(content: string)
    ensures ParametersOf(content) != [] ==> exists k :: OccursAt(content, "\n)", k)
  {
    if ParamBlock(content).Some? {
      ParamBlockHasClose(content);
      var k :| CloseAt(content, k);
      CloseOccurs(content, k);
    }
  }
}
