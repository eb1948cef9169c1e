# Script registry of a PowerShell launcher, modelled in Dafny

The launcher keeps a registry of the PowerShell scripts (`*.ps1`) in its scripts
directory. When the registry is created it parses every script into a `ScriptInfo`:

- the script's name (the file's stem) and path;
- a description, taken from an override table or from the first meaningful `#` comment
  among the script's first thirty lines, with a generic fallback;
- the parameters declared in the script's `param( … )` block, each with a friendly
  prompt, a default, a required flag and a password flag (switch parameters are never
  prompted for);
- whether the script has utility switches, and a hint when it does.

Scripts are stored in a dictionary keyed by stem. The registry lists the names in
sorted order, looks one up, and turns a stem into a PascalCase display name.

The project models `lib/script_registry.py` in these modules:

- `Text` (text.dfy): the string built-ins the code relies on: `strip`, `lstrip`,
  `split('\n')`, `split()`, `lower`, `replace` and `in`.
- `Patterns` (patterns.dfy): each regular expression of the code as an explicit scanner.
  The contracts state leftmost-match, greedy/lazy and word-boundary behaviour.
- `Parameters` (parameters.dfy): one `param` section turned into a `ScriptParameter`, and
  the prompt derived from a name.
- `Descriptions` (descriptions.dfy): the first-comment scan as a step function over lines.
- `DisplayNames` (display_names.dfy): the display name of a stem.
- `Registry` (registry.dfy): `ScriptInfo`, the discovery of scripts as a value, and the
  `ScriptRegistry` class. The class holds the dictionary as a `map` field and has the
  imperative methods of the source (the loops of discovery, of the comment scan, of
  parameter extraction and of display-name rendering). Each method is proved equal to
  the specification function that the lemmas are about.

## Model

| member | source | states |
|---|---|---|
| Text.Strip | lib/script_registry.py:94 | the result is empty exactly when the text is all whitespace; otherwise it is the slice between the first and last non-whitespace characters, with no whitespace at either end |
| Text.StripRemovesOnlySpaces | lib/script_registry.py:204 | stripping deletes whitespace and nothing else |
| Text.LStripCharSpec | lib/script_registry.py:102 | `lstrip('#')` keeps a suffix that does not start with `#` and removes only `#`s before it |
| Text.Contains | lib/script_registry.py:74 | `t in s` holds exactly when `t` occurs at some index of `s` |
| Text.SplitOnPieces | lib/script_registry.py:91 | no piece of `split('\n')` holds a newline |
| Text.JoinSplitOn | lib/script_registry.py:91 | joining the pieces of `split('\n')` with newlines gives the content back |
| Text.SplitJoinOn | lib/script_registry.py:91 | splitting the join of newline-free pieces gives the pieces back |
| Text.Words | lib/script_registry.py:210 | `split()` gives non-empty words without whitespace; which words they are is stated by `Text.WordsStep`, `Text.WordsFirst` and `Text.WordsOfSpaces` |
| Text.WordsStep | lib/script_registry.py:210 | after leading whitespace, a maximal run of non-whitespace characters is the next word, and splitting goes on after it |
| Text.WordsFirst | lib/script_registry.py:210 | a maximal run of non-whitespace characters at the start is the first word |
| Text.WordsOfSpaces | lib/script_registry.py:210 | a text of whitespace only has no words |
| Text.WordsCoverText | lib/script_registry.py:210 | the words, concatenated, are exactly the non-whitespace characters of the text in order |
| Text.ReplaceChar | lib/script_registry.py:201 | `replace` of one character changes exactly the positions holding it and keeps the length |
| Text.LowerStr | lib/script_registry.py:135 | `lower()` lower-cases each character in place and keeps the length |
| Text.SpanMaxRun | lib/script_registry.py:119 | a greedy repetition such as `\s*` or `\w+` stops at the end of the one maximal run of its class, and at no other place |
| Patterns.ParamHeadAt | lib/script_registry.py:119 | a match of `param\s*\(` at an index, ignoring case, has `param` there and only whitespace up to a `(`, and ends right after it |
| Patterns.ParamHeadAtMeans | lib/script_registry.py:119 | `param\s*\(` matches at an index exactly when `param`, a run of whitespace and `(` follow in turn, and the match then ends right after that `(` |
| Patterns.FirstCloseFrom | lib/script_registry.py:119 | the lazy `(.*?)\n\)` stops at the first `\n)` at or after the start, and fails only when there is none |
| Patterns.SearchParamBlock | lib/script_registry.py:119 | the search finds the leftmost start where `param\s*\(…\n\)` matches, and nothing only when it matches nowhere |
| Patterns.ParamBlock | lib/script_registry.py:119-123 | there is no block exactly when the pattern matches nowhere; a found block follows a `(`, ends right before a `\n)` and holds no `\n)` |
| Patterns.ParamBlockIsLeftmostGroup | lib/script_registry.py:119-123 | the block is the lazily captured group of the leftmost start where the pattern matches, and a block exists only when such a start does |
| Patterns.LazyGroupHasNoClose | lib/script_registry.py:119 | the lazily captured group holds no `\n)` |
| Patterns.ParamBlockHasClose | lib/script_registry.py:119 | a block is found only when the text contains a `\n)` |
| Patterns.SeparatorsFrom | lib/script_registry.py:126 | the cut-out separators are one fewer than the sections, each a comma followed by whitespace only |
| Patterns.SplitSections | lib/script_registry.py:126 | the split gives at least one section; what the sections are is stated by `Patterns.SplitSectionsRoundTrip` |
| Patterns.SplitSectionsRoundTrip | lib/script_registry.py:126 | `re.split(r',\s*(?=\[)')` loses nothing: the sections interleaved with the separators give the block back, no section holds a split point, and every section after the first is non-empty and starts with `[` |
| Patterns.SplitFromBrackets | lib/script_registry.py:126 | every piece after the first starts with the `[` that the lookahead demanded |
| Patterns.MandatoryTailAt | lib/script_registry.py:134 | `Mandatory\s*=\s*\$(\w+)`, case-insensitive, captures a non-empty run of word characters |
| Patterns.MandatoryTailAtMeans | lib/script_registry.py:134 | the tail matches exactly when `Mandatory`, whitespace, `=`, whitespace, `$` and at least one word character follow in turn, and the group is then the whole run of word characters after the `$` |
| Patterns.RightmostTailSpec | lib/script_registry.py:134 | the greedy `[^)]*` backtracks to the rightmost end where the rest of the pattern matches, and fails only when no end works |
| Patterns.MatchFromMeans | lib/script_registry.py:134 | trying the pattern at one start finds exactly its greedy match there, or nothing when it cannot match there |
| Patterns.SearchMarker | lib/script_registry.py:134 | the search returns the leftmost start at which the pattern matches, and nothing only when it matches at no start |
| Patterns.SearchMarkerSpec | lib/script_registry.py:134 | the search finds the leftmost match with its greedy end, and nothing only when the pattern matches nowhere |
| Patterns.MandatoryWord | lib/script_registry.py:134-135 | `group(1)` is absent exactly when the pattern matches nowhere; when present it is a non-empty word captured by a match |
| Patterns.MandatoryWordIsSearched | lib/script_registry.py:134-135 | `group(1)` is the word captured at the leftmost start, with the greedy `[^)]*` ending at the rightmost place that lets the rest match |
| Patterns.DefaultAt | lib/script_registry.py:138 | the optional default group holds no `"`, `,` or newline, and is non-empty only after a `=` |
| Patterns.DeclarationAt | lib/script_registry.py:138 | a match of `\[(\w+)\]\s*\$(\w+)…` at an index starts with `[` and captures a non-empty type, a non-empty name and a default without `"`, `,` or newline |
| Patterns.DeclarationAtMeans | lib/script_registry.py:138 | the pattern matches at an index exactly when `[`, a run of word characters, `]`, whitespace, `$` and a run of word characters follow in turn; the groups are then the type between the brackets, the whole word after `$` and the default group |
| Patterns.DefaultAtMeans | lib/script_registry.py:138 | the default group is empty when no `=` follows the name and its whitespace; otherwise it is the longest run without `"`, `,` or newline after the `=`, its whitespace and an optional `"` |
| Patterns.SearchDeclaration | lib/script_registry.py:138 | the search returns the leftmost index where a declaration matches, and nothing only when none matches |
| Patterns.FindDeclaration | lib/script_registry.py:138-140 | there is no match exactly when the pattern matches at no index; otherwise the groups are those of the leftmost match |
| Patterns.SpaceBeforeCapitals | lib/script_registry.py:172 | the result is never shorter; where each character goes is stated by `Patterns.SpaceBeforeCapitalsPlaces` |
| Patterns.SpaceBeforeCapitalsPlaces | lib/script_registry.py:172 | the result is longer by the number of capitals; the character at `k` moves right by the number of capitals up to and including it, and a capital has a space just before it; these places fill the whole result |
| Patterns.SpaceBeforeCapitalsSpaced | lib/script_registry.py:172 | after `re.sub(r'([A-Z])', r' \1')` every capital letter has a space just before it |
| Patterns.SpaceBeforeCapitalsAddsOnlySpaces | lib/script_registry.py:172 | that substitution adds spaces and nothing else |
| Patterns.SpaceCamelCase | lib/script_registry.py:207 | the empty name stays empty and the first character is kept in front |
| Patterns.SpaceCamelCaseSpaced | lib/script_registry.py:207 | after `re.sub(r'(?<!^)(?=[A-Z])', ' ')` every capital after the first character has a space just before it |
| Patterns.SpaceCamelCasePlaces | lib/script_registry.py:207 | the first character stays first; every later character moves right by the number of capitals after the first position up to and including it, and such a capital has a space just before it |
| Patterns.SpaceCamelCaseAddsOnlySpaces | lib/script_registry.py:207 | that substitution adds spaces and nothing else |
| Patterns.ScriptWordAt | lib/script_registry.py:203 | a whole-word `script` (6) or `ps1` (3), case-insensitive, is recognised exactly when word boundaries lie on both sides; the length is 6 exactly when `script` matches there, and 3 exactly when `script` does not and `ps1` does, as the alternation tries `script` first |
| Patterns.RemoveScriptWords | lib/script_registry.py:203 | computes the removal; what it keeps is stated by `Patterns.RemoveScriptWordsKeepsUncovered` |
| Patterns.RemoveScriptWordsKeepsUncovered | lib/script_registry.py:203 | the result is exactly the characters of the text that lie inside no whole-word `script` or `ps1`, in order |
| Patterns.NoMatchInside | lib/script_registry.py:203 | no whole-word match starts inside another, so the matches never overlap |
| Patterns.NoScriptWordLeft | lib/script_registry.py:203 | after the removal no whole-word `script` or `ps1` is left in the text |
| Parameters.SpacedName | lib/script_registry.py:172 | the spaced name has no surrounding whitespace and a space before each capital after the first position |
| Parameters.ParamNameToPrompt | lib/script_registry.py:169-188 | computes the prompt; its meaning is stated by `Parameters.PromptProperties` |
| Parameters.PromptProperties | lib/script_registry.py:169-188 | the prompt is the table's text for a spaced name the table holds, and the spaced name otherwise; removing the inserted spaces gives back a name without whitespace |
| Parameters.PromptForUpn | lib/script_registry.py:176 | the name `Upn` is prompted as `UPN (User Principal Name)` |
| Parameters.IsRequired | lib/script_registry.py:133-151 | an explicit `Mandatory=$word` decides (required exactly when the word is `true` in any case); without one a parameter is required exactly when its default is blank |
| Parameters.SectionParameter | lib/script_registry.py:128-165 | computes one section's parameter; its meaning is stated by `Parameters.SectionParameterMeans` |
| Parameters.SectionParameterMeans | lib/script_registry.py:128-165 | a section yields a parameter exactly when it is non-blank and declares a non-switch type; the parameter has the declared name, the prompt derived from that name, the trimmed default, the required flag of `IsRequired`, and is a password exactly when its lower-cased name contains `password` |
| Parameters.CollectParameters | lib/script_registry.py:128-165 | collects the sections' parameters; `Parameters.FilterMapIsFilter` states which ones, in which order |
| Parameters.FilterMapIsFilter | lib/script_registry.py:128-165 | the loop's appending keeps, at increasing section indices, exactly the sections that yield a parameter, with their parameters |
| Parameters.NoSwitchCollected | lib/script_registry.py:145-147 | every collected parameter comes from a section declaring it with a type other than `switch` |
| Parameters.ParametersOf | lib/script_registry.py:119-121 | without a `param` block there are no parameters |
| Parameters.NoSwitchParameter | lib/script_registry.py:114-167 | every parameter of a script comes from a section of its block that declares it with a non-switch type |
| Parameters.ParametersNeedClosingLine | lib/script_registry.py:119 | a script has parameters only if its text contains a newline followed by `)` |
| Descriptions.Fallback | lib/script_registry.py:112 | the fallback is the fixed prefix `PowerShell script: ` followed by the script name |
| Descriptions.Without | lib/script_registry.py:104 | `replace(c, '')` leaves no `c` and never lengthens the text |
| Descriptions.WithoutKeeps | lib/script_registry.py:104 | a character is left exactly when the text holds it and it is not `c` |
| Descriptions.WithoutCounts | lib/script_registry.py:104 | `replace(c, '')` keeps every other character as often as it occurs, and no `c` |
| Descriptions.WithoutAppend | lib/script_registry.py:104 | `replace(c, '')` works piece by piece: on a concatenation it gives the concatenation of the results |
| Descriptions.QualifiesMeans | lib/script_registry.py:104 | a comment text qualifies exactly when it is longer than ten characters and is not made only of `-`, `=` and whitespace |
| Descriptions.LineStep | lib/script_registry.py:94-109 | computes what one line does to the scan; its meaning is stated by `Descriptions.LineStepMeans` |
| Descriptions.LineStepMeans | lib/script_registry.py:94-109 | a line is taken exactly when it is a non-shebang `#` line whose text qualifies, and it is skipped exactly when it is blank, a `#` line or opens `<#` without being taken |
| Descriptions.HeadLines | lib/script_registry.py:91-93 | the scan sees the lines of the content split on newlines, in order, from the first: the first thirty, or all of them when there are fewer |
| Descriptions.ScanStep | lib/script_registry.py:93-112 | a skipped line moves the scan on, a taken text is the result, and a stop or the end gives the fallback |
| Descriptions.ScanFromSpec | lib/script_registry.py:93-112 | the scan returns the text of the first line it reaches that takes a text, and the fallback when it reaches none |
| Descriptions.CommentDescription | lib/script_registry.py:89-112 | computes the description; its meaning is stated by `Descriptions.CommentDescriptionSpec` and `Descriptions.CommentDescriptionShape` |
| Descriptions.CommentDescriptionSpec | lib/script_registry.py:89-112 | the description is the comment text of the first description line the scan reaches among the first thirty lines, and the fallback otherwise |
| Descriptions.CommentDescriptionShape | lib/script_registry.py:89-112 | a description is the fallback or is longer than ten characters, not a separator line, and trimmed |
| DisplayNames.AcronymSpellings | lib/script_registry.py:213 | every fixed spelling differs from its key only in case and starts with a capital |
| DisplayNames.Capitalize | lib/script_registry.py:221 | `capitalize()` upper-cases the first character, lower-cases the rest, and keeps the length |
| DisplayNames.RenderWord | lib/script_registry.py:216-221 | computes one rendered word; its meaning is stated by `DisplayNames.RenderWordMeans` |
| DisplayNames.RenderWordMeans | lib/script_registry.py:216-221 | a rendered word differs from the word only in case and starts with a capital; it is the fixed spelling when there is one, and otherwise the rest is lower case |
| DisplayNames.Separated | lib/script_registry.py:201 | every `_` and every `-` becomes a space and every other character stays where it was, so no `_` or `-` is left and the length is kept |
| DisplayNames.DisplayWords | lib/script_registry.py:201-210 | the words are non-empty and hold no whitespace |
| DisplayNames.RenderAll | lib/script_registry.py:215-221 | each word is rendered in order, one output word per input word |
| DisplayNames.DisplayName | lib/script_registry.py:198-223 | computes the display name; its meaning is stated by `DisplayNames.DisplayNameHasNoSpace`, `DisplayNames.DisplayNameLetters` and `DisplayNames.PascalCaseIsKept` |
| DisplayNames.DisplayNameHasNoSpace | lib/script_registry.py:198-223 | a display name holds no whitespace |
| DisplayNames.DisplayNameLetters | lib/script_registry.py:198-223 | up to case, the display name is the stem with `_`, `-`, whitespace and each whole-word `script`/`ps1` deleted |
| DisplayNames.PascalCaseIsKept | lib/script_registry.py:198-223 | a stem of capitalized words that render as themselves is its own display name |
| DisplayNames.MgGraphUserCreationIsKept | lib/script_registry.py:206 | `MgGraphUserCreation` is shown unchanged |
| Registry.HasSwitches | lib/script_registry.py:74 | a script has switches exactly when it contains `-ListLicenses` or `switch]` |
| Registry.ScriptInfoOf | lib/script_registry.py:58-87 | parsing fails exactly when the file cannot be read; otherwise the information carries the file's stem as name and its path |
| Registry.SwitchHintMeans | lib/script_registry.py:74-75 | the hint is non-empty exactly when the script has switches, which is exactly when it mentions `-ListLicenses` or `switch]` |
| Registry.DescriptionOf | lib/script_registry.py:63-68 | chooses the override or the comment description; `Registry.DescriptionShape` states the result |
| Registry.DescriptionShape | lib/script_registry.py:63-68 | the description is the override when the name has one, and otherwise the fallback or a well-formed comment text |
| Registry.StoreAllKeys | lib/script_registry.py:53-56 | after storing, the keys are the old keys and the keys of the present entries |
| Registry.StoreAllValues | lib/script_registry.py:53-56 | with distinct keys, each present entry is stored as it is, and an old entry that nothing replaces is kept |
| Registry.Discovered | lib/script_registry.py:48-56 | discovery as a value; `Registry.DiscoveredKeys`, `Registry.DiscoveredValues` and `Registry.DiscoveredKeyedByName` state the result |
| Registry.DiscoveredKeys | lib/script_registry.py:48-56 | after discovery the keys are the old keys and the stems of the readable files |
| Registry.DiscoveredValues | lib/script_registry.py:48-56 | with distinct stems, each readable file's information is stored under its stem, and an untouched old entry is kept |
| Registry.StoreAllOrderIrrelevant | lib/script_registry.py:53-56 | with distinct keys, storing the same entries in any order gives the same dictionary |
| Registry.DiscoveryOrderIrrelevant | lib/script_registry.py:53 | the order in which the directory lists its files does not change the registry |
| Registry.DiscoveredKeyedByName | lib/script_registry.py:53-56 | discovery keeps every script stored under its own name |
| Registry.LexLessTotal | lib/script_registry.py:192 | string order is strict and total |
| Registry.LexLessTransitive | lib/script_registry.py:192 | string order is transitive |
| Registry.SortedUnique | lib/script_registry.py:192 | only one sorted list holds a given set of names |
| Registry.Insert | lib/script_registry.py:192 | inserting a new name into a sorted list keeps it sorted and adds exactly that name |
| Registry.ScriptRegistry.constructor | lib/script_registry.py:43-46 | a new registry holds exactly the discovered scripts (none when the directory is missing), each under its own name |
| Registry.ScriptRegistry.DiscoverScripts | lib/script_registry.py:48-56 | a missing directory changes nothing; otherwise the dictionary becomes the old one with every readable file stored under its stem, in order, and every script stays stored under its own name |
| Registry.ScriptRegistry.ParseScript | lib/script_registry.py:58-87 | the method computes `ScriptInfoOf` |
| Registry.ScriptRegistry.ExtractFirstComment | lib/script_registry.py:89-112 | the loop returns the description that `CommentDescriptionSpec` characterises |
| Registry.ScriptRegistry.ScanLine | lib/script_registry.py:94-109 | one turn of the loop does what `LineStepMeans` characterises |
| Registry.ScriptRegistry.ExtractParameters | lib/script_registry.py:114-167 | the loop returns the parameters of the block's sections, in order |
| Registry.ScriptRegistry.ParseSection | lib/script_registry.py:128-165 | one turn of the loop yields what `SectionParameterMeans` characterises |
| Registry.ScriptRegistry.GetScriptList | lib/script_registry.py:190-192 | the names are strictly sorted and are exactly the stored names |
| Registry.ScriptRegistry.GetScriptInfo | lib/script_registry.py:194-196 | a lookup succeeds exactly for stored names, returns the stored entry, and a found script carries the name it was looked up by |
| Registry.ScriptRegistry.GetDisplayName | lib/script_registry.py:198-223 | the method computes the display name the `DisplayNames` lemmas are about |
| Registry.ScriptRegistry.PascalWords | lib/script_registry.py:215-221 | the loop renders every word in order |

## Left out

- The filesystem is an input. `scripts_dir.exists()` becomes a flag. `glob("*.ps1")`
  becomes a sequence of files in listing order, each with its path, its stem and its
  text (`None` when `read_text` fails). Path handling and stem derivation are not modelled.
- The error report printed by `_parse_script` (line 86) is left out. A file that cannot
  be read is modelled as skipped, which is what the code does after printing. No other
  exception is modelled.
- The override table `SCRIPT_DESCRIPTIONS` (lines 14-16) is empty in the source. It is a
  parameter of the registry, so the override branch stays reachable.
- Character classes are ASCII only:
  - whitespace for `str.strip`, `str.split` and `\s` is character codes 9-13 and 28-32;
  - `\w` is `[A-Za-z0-9_]`;
  - `lower`, `upper`, `capitalize` and `IGNORECASE` fold ASCII letters only.
- Changes to the directory while discovery runs are not modelled: each file's text is
  read once, as an input.
- The loop bodies of `_extract_first_comment` and `_extract_parameters` are the helper
  methods `ScanLine` and `ParseSection`. Each returns the step or the parameter that its
  loop acts on.
- The pattern at line 119 needs a newline followed by `)` after `param(`. A script whose
  text holds no such pair has no parameters (`Parameters.ParametersNeedClosingLine`). A
  block that closes on the line of its last declaration is still matched when some later
  line starts with `)`; the group then runs up to that line.
- `DisplayNames.PascalCaseIsKept` requires the stem to be longer than six characters.
  A shorter stem could be the word `Script` itself, which the cleanup removes.
- The rest of the application is not part of this model: the terminal interface, the
  PowerShell runner, logging, configuration and the stopwatch.
