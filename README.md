# MyTemplateGenerator template pipeline in Dafny

MyTemplateGenerator is a VS Code extension. It creates files from a template directory. A template is a directory tree whose file names and file contents contain placeholders `{{ name }}` or `{{ name.modifier }}`. The extension:

1. lists every file of the template (`readDirRecursive`);
2. collects the base names used by the placeholders (`getAllTemplateVariables`);
3. asks the user for one value per base name (`collectUserVars`);
4. adds a derived entry `name.modifier` for each of the nine case modifiers (`buildVarsObject`);
5. renders every relative path and every content (`applyTemplate`);
6. writes the results below a target directory (`copyTemplateWithVars`).

The source has the pipeline twice:

- `src/extension.ts` has its own case transforms. Its copy routine breaks out of the write loop and returns whether it wrote any file.
- The refactored `src/core/` has a registry built on the `change-case-all` package. Its copy routine returns `true` after writing, or it throws.

The model has both versions.

Modules:

- `Wrappers`: `Option` and `Result`.
- `Chars`: ASCII letters, JavaScript's `\s` set, and character-wise upper- and lower-casing.
- `CaseTransforms`: the nine transforms of `src/extension.ts`, each a function written the way the source's `replace`/`split`/`map`/`join` chain works.
- `CaseExamples`: the expected outputs for the input `my super-name`.
- `ExpansionExamples`: the expected `buildVarsObject` result for the same input.
- `Modifiers`: the modifier registry as a sequence in `Object.entries` order.
  - `ExtensionModifiers()` is the extension's registry.
  - `CoreModifiers(lib)` is the core's registry. `lib` holds the seven `change-case-all` functions as uninterpreted function values.
- `Tokens`: the placeholder regex `{{\s*([a-zA-Z0-9_]+)(?:\.([a-zA-Z0-9_]+))?\s*}}`, written as a small automaton (`Lex`, `SpanAt`).
  - `ApplyTemplate` is the global `replace` with its replacement callback.
  - `TokenBases` is the set of base names the regex captures.
- `Expansion`: `buildVarsObject` and `collectUserVars`.
  - `buildVarsObject` is a method with nested loops. It is proved against the recursive specification `Expand`.
  - `collectUserVars` is a loop over the answers of the input box, which are a parameter.
- `TemplateTree`: the template directory as a tree of entries and `readDirRecursive` over it.
- `Discovery`: `getAllTemplateVariables`. The `exec` loop keeps a `lastIndex` exactly as the global regex does.
- `Materialize`: a `FileSystem` class with `mkdirSync`, `writeFileSync` and `existsSync`, and both `copyTemplateWithVars` routines. Each copy routine is proved equal to an outcome function (`ExtensionCopy`, `CoreCopy`) whose properties are lemmas.

## Behaviour of the code worth noting

- **Unknown modifier.** `{{ name.bogus }}` renders as the plain value of `name`. When `modifiers[mod]` finds no registered entry, the callback falls through to `return value` (src/extension.ts:178-182). `Tokens.ResolveCases` states this rule. Names that a JavaScript object inherits, such as `toString`, behave differently; see "## Left out".
- **Key lookup.** The renderer looks up only the base name in the variable map and applies the modifier function itself. The derived `name.modifier` entries of `buildVarsObject` are never read. `Expansion.RenderExpanded` proves that they never change what is rendered.
- **Collision pre-check.** It runs only when `overwrite` is false and a message dictionary `dict` is given (src/extension.ts:196, src/core/templateUtils.ts:100).
- **Result.** Neither routine reports a count:
  - The extension returns only `createdCount > 0`.
  - The core returns `false` on a pre-check hit and `true` otherwise. A failed `mkdirSync` or `writeFileSync` throws out of it.

## Model

| member | source | states |
|---|---|---|
| CaseTransforms.ToPascalCase | src/extension.ts:47-53 | definition of `toPascalCase`; its meaning is stated by `PascalCaseIsWordScan` and `PascalCaseAvoidsSeparators` |
| CaseTransforms.ToCamelCase | src/extension.ts:55-58 | definition of `toCamelCase`; its meaning is stated by `CamelCaseIsPascalLowerFirst` |
| CaseTransforms.ToSnakeCase | src/extension.ts:60-65 | definition of `toSnakeCase`; its meaning is stated for every input by `SnakeKebabIsRunScan`, with `SplitCamelAtBoundaries` and `SnakeKebabAlphabet` |
| CaseTransforms.ToKebabCase | src/extension.ts:67-72 | definition of `toKebabCase`; its meaning is stated for every input by `SnakeKebabIsRunScan`, with `SplitCamelAtBoundaries` and `SnakeKebabAlphabet` |
| CaseTransforms.ToScreamingSnakeCase | src/extension.ts:74-76 | definition of `toScreamingSnakeCase`; its meaning is stated by `ScreamingSnakeInvertsToSnake` |
| CaseTransforms.ToUpperCaseAll | src/extension.ts:78-80 | definition of `toUpperCaseAll`; its meaning is stated by `UpperLowerCaseAllStrip` |
| CaseTransforms.ToLowerCaseAll | src/extension.ts:82-84 | definition of `toLowerCaseAll`; its meaning is stated by `UpperLowerCaseAllStrip` |
| CaseTransforms.ToLowerCase | src/extension.ts:143 | definition of the registry's `lowerCase` entry; its meaning is stated by `LowerCaseKeepsShape` |
| CaseTransforms.ToUpperCaseFirst | src/extension.ts:43-45 | same length; the first character upper-cased; every other character unchanged |
| CaseTransforms.PascalCaseIsWordScan | src/extension.ts:47-53 | replacing runs of `-`, `_` and space by one space, splitting, capitalising each word and joining equals a one-pass scan that upper-cases a character exactly when it starts a word and lower-cases the rest |
| CaseTransforms.PascalCaseAvoidsSeparators | src/extension.ts:47-53 | the Pascal-case result contains no `-`, `_` or space, and its length is the number of non-separator characters of the input |
| CaseTransforms.CamelCaseIsPascalLowerFirst | src/extension.ts:55-58 | camel case is Pascal case with the first character lower-cased and the rest unchanged; it has no separators either |
| CaseTransforms.SplitCamelLeavesNoBoundary | src/extension.ts:60-72 | after the `([a-z])([A-Z])` → `$1<sep>$2` replacement no lower-case letter is directly followed by an upper-case one, and the first character is kept |
| CaseTransforms.SplitCamelOnlyInserts | src/extension.ts:60-72 | that replacement only inserts separators: removing the separator character gives the same text before and after |
| CaseTransforms.SplitCamelAtBoundaries | src/extension.ts:60-72 | the `([a-z])([A-Z])` replacement equals an independent definition that copies every character and writes the separator right after each lower-case letter followed by an upper-case one, and nowhere else |
| CaseTransforms.SnakeKebabAtBoundaries | src/extension.ts:60-72 | on a name without `-` and whitespace, snake case is the name with `_` at exactly those boundaries, lower-cased; on a name without `_` and whitespace, kebab case is the same with `-` |
| CaseTransforms.ReplaceRunsIsRunScan | src/extension.ts:63-70 | `replace(/[p]+/g, sep)` equals the one-pass `RunScan`: each maximal run of `p` becomes exactly one `sep`, every other character is copied |
| CaseTransforms.SnakeKebabIsRunScan | src/extension.ts:60-72 | for every input, snake case is the input with `_` at exactly the lower-to-upper boundaries, then each maximal run of `-` and whitespace turned into one `_`, lower-cased; kebab case is the same with `-` and runs of `_` and whitespace |
| CaseExamples.RunCollapseExample | src/extension.ts:60-72 | `a--b` gives `a_b` in snake case and `a__b` gives `a-b` in kebab case: a run is replaced, not dropped |
| CaseTransforms.SnakeKebabAlphabet | src/extension.ts:60-72 | snake case contains no upper-case letter, no `-` and no `\s` character; kebab case contains no upper-case letter, no `_` and no `\s` character |
| CaseTransforms.ScreamingSnakeInvertsToSnake | src/extension.ts:74-76 | screaming snake case lower-cased is snake case; it contains no lower-case letter, no `-` and no whitespace |
| CaseTransforms.UpperLowerCaseAllStrip | src/extension.ts:78-84 | `upperCaseAll`/`lowerCaseAll` equal upper-/lower-casing the input with every `-`, `_` and `\s` character removed; the results contain none of them, and no lower-case (resp. upper-case) letter |
| CaseTransforms.LowerCaseKeepsShape | src/extension.ts:143 | `toLowerCase` keeps the length, turns each upper-case letter into its lower-case partner (32 code points on), leaves every other character in place, agrees with the input after upper-casing, and is idempotent |
| CaseExamples.MySuperNameExamples | src/test/extension.test.ts:28-54 | the nine transforms map `my super-name` to the outputs the test suite expects |
| Modifiers.ExtensionModifiers | src/extension.ts:136-146 | definition of `CASE_MODIFIERS`; its contents are stated by `ExtensionLookup` and `RegistryNames` |
| Modifiers.CoreModifiers | src/core/templateUtils.ts:8-18 | definition of the core's `CASE_MODIFIERS`; its contents are stated by `CoreLookup` and `RegistryNames` |
| Modifiers.IndexOf | src/extension.ts:178-179 | the lookup `modifiers[mod]` finds the first entry with that name, or reports that no entry has it |
| Modifiers.IndexOfDistinct | src/extension.ts:136-146 | with distinct names, looking up an entry's name finds that entry |
| Modifiers.RegistryNames | src/extension.ts:136-146 | both registries have the same nine distinct names, in the same order |
| Modifiers.ExtensionLookup | src/extension.ts:136-146 | each of the nine names selects the matching transform of src/extension.ts |
| Modifiers.CoreLookup | src/core/templateUtils.ts:8-18 | each of the nine names selects its entry of the core registry: the library's `pascalCase`, `camelCase`, `snakeCase`, `kebabCase`, `upperCase` and `lowerCase`, `constantCase` for `screamingSnakeCase`, and the two inline `upperCaseAll`/`lowerCaseAll` lambdas |
| Modifiers.UnknownModifierNotFound | src/extension.ts:178 | a name outside the nine is found in neither registry |
| Tokens.Lex | src/extension.ts:175 | a match found by the automaton has a non-empty base, either no modifier or a non-empty one after the dot, and room for the closing `}}` inside the string; it ends after where it started |
| Tokens.SpanAt | src/extension.ts:175 | a match at position i has its base after the two opening braces and has the same shape as a match of `Lex`, inside the string |
| Tokens.SpanAtFacts | src/extension.ts:175 | a match contains no `{` after its opening braces; its base and modifier are identifiers |
| Tokens.MatchSpelled | src/extension.ts:175 | every well-spelled placeholder (any whitespace, base, optional modifier) is matched in full at its start and yields exactly that base and modifier |
| Tokens.MatchesDoNotOverlap | src/extension.ts:175 | no match starts strictly inside another, so the global scan cannot miss one |
| Tokens.Resolve | src/extension.ts:176-182 | definition of the replacement callback; its three cases are stated by `ResolveCases` |
| Tokens.ApplyFrom | src/extension.ts:175 | definition of the global scan from a position; its behaviour is stated by `ApplyPrefixMatch`, `ApplyBraceFreePrefix` and `ApplyFromShift` |
| Tokens.ApplyTemplate | src/extension.ts:174-183 | definition of `applyTemplate`; its behaviour is stated by `ApplySpelled`, `NoTokenUnchanged`, `NoPlaceholderUnchanged` and `ApplyDependsOnlyOnBases` |
| Tokens.MatchIsSpelled | src/extension.ts:175 | every match is a well-spelled placeholder: `{{`, whitespace, the match's own base, its own modifier after a dot when there is one, whitespace, `}}` |
| Tokens.MatchIffSpelled | src/extension.ts:175 | the regex matches at a position with base `x` exactly when a well-spelled placeholder with base `x` starts there |
| Tokens.MatchIffSpelledAt | src/extension.ts:175 | the regex matches at a position exactly when a well-spelled placeholder starts there |
| Tokens.SpelledBasesExact | src/extension.ts:117-130 | a name is a captured base exactly when a well-spelled placeholder with that base occurs in the string |
| Tokens.NoPlaceholderUnchanged | src/extension.ts:174-183 | a string in which no well-spelled placeholder starts renders as itself |
| Tokens.ResolveCases | src/extension.ts:176-182 | an unknown base gives the empty string; a known base with a registered modifier gives that transform of its value; otherwise it gives the plain value, also for an unknown modifier |
| Tokens.ApplySpelled | src/extension.ts:174-183 | rendering a placeholder followed by more text gives the three cases of `ResolveCases` followed by the rendering of the rest |
| Tokens.ApplySpelledResolve | src/extension.ts:174-183 | rendering is compositional: a placeholder's replacement is not scanned again |
| Tokens.ApplyPrefixMatch | src/extension.ts:174-183 | a prefix that is exactly one match is replaced by its resolution, and rendering continues after it |
| Tokens.ApplyBraceFreePrefix | src/extension.ts:174-183 | text without `{` is copied unchanged |
| Tokens.NoTokenUnchanged | src/extension.ts:174-183 | a string without any placeholder renders as itself |
| Tokens.ApplyFromShift | src/extension.ts:174-183 | scanning after a prefix behaves as scanning the rest alone |
| Tokens.ApplyDependsOnlyOnBases | src/extension.ts:174-183 | two variable maps that agree on the base names of the string's placeholders render it identically |
| Tokens.TokenBasesExact | src/extension.ts:117-130 | a name is a captured base exactly when some match of the string has it as its base |
| Tokens.TokenBasesAreIdents | src/extension.ts:117 | every captured base is a non-empty run of `[A-Za-z0-9_]` |
| Expansion.Expand | src/extension.ts:149-158 | definition of what `buildVarsObject` returns; its contents are stated by `ExpandKeys`, `ExpandPlainKey`, `ExpandModifiedKey` and `BuildVarsObject` |
| Expansion.Key | src/extension.ts:154 | the key `${base}.${mod}` has the dot right after the base |
| Expansion.BuildVarsObject | src/extension.ts:149-158 | the nested loops compute `Expand`: each base entry, then one entry per modifier, in insertion order (the same loops appear at src/core/vars.ts:4-13, run over that module's registry) |
| Expansion.KeyInjective | src/extension.ts:154 | for dot-free bases, different (base, modifier) pairs give different keys |
| Expansion.WithModifiersKeys | src/extension.ts:153-155 | the inner loop adds exactly the keys `base.name` for the registered names |
| Expansion.WithModifiersAt | src/extension.ts:153-155 | after the inner loop, `base.name` maps to that modifier applied to the value |
| Expansion.WithModifiersOther | src/extension.ts:153-155 | the inner loop leaves every other key as it was |
| Expansion.ToMapKeys | src/extension.ts:151 | the keys of the input record are the first components of its entries |
| Expansion.ExpandKeys | src/extension.ts:149-158 | the result's keys are the input's keys plus `base.name` for every input key and modifier name |
| Expansion.ExpandPlainKey | src/extension.ts:152 | a dot-free key is in the result exactly when it is in the input, with the same value |
| Expansion.ExpandModifiedKey | src/extension.ts:153-155 | for dot-free bases, `base.name` holds that modifier applied to the input value |
| Expansion.ModKeysSize | src/extension.ts:153-155 | one base gets exactly as many derived keys as there are modifiers |
| Expansion.ExpandSize | src/extension.ts:149-158 | with distinct dot-free bases the result has `n * (1 + modifiers)` keys |
| Expansion.ExtensionExpandSize | src/extension.ts:149-158 | with the extension's registry, ten keys per input variable |
| Expansion.RenderExpanded | src/extension.ts:174-183 | rendering with the expanded map gives what rendering with the user's map gives: the derived keys never matter to `applyTemplate` |
| ExpansionExamples.BuildVarsExample | src/test/extension.test.ts:60-72 | `buildVarsObject({name: 'my super-name'})` holds the ten keys and values the test expects |
| Expansion.CollectUserVars | src/extension.ts:160-172 | success exactly when every base name gets a non-empty answer; then the keys are the base names with their answers; otherwise it stops at the first missing or empty answer and names that variable (src/core/vars.ts:17-27 is the same loop, with the same throw at line 24) |
| TemplateTree.ReadDirRecursive | src/extension.ts:28-41 | the result is `Flatten`: the files depth-first in listing order, a sub-directory's files in place of the directory (src/core/templateUtils.ts:20-33 is the same walk) |
| TemplateTree.FlattenAppend | src/extension.ts:31-39 | the files of two listings are the files of each, in order |
| TemplateTree.FlattenSound | src/extension.ts:28-41 | every returned path lies below the directory walked and names a file of the template with that content |
| TemplateTree.FlattenComplete | src/extension.ts:28-41 | every file of the template is returned |
| TemplateTree.FlattenDistinct | src/extension.ts:28-41 | when no directory lists a name twice, no path is returned twice |
| TemplateTree.FileIsNotDir | src/extension.ts:34-37 | a returned path never names a directory |
| TemplateTree.JoinPath | src/extension.ts:190 | definition of `path.relative` for a file below the template root; its meaning is stated by `JoinPathSplit` and `Materialize.FirstLevelRelPath` |
| TemplateTree.JoinPathSplit | src/extension.ts:190-192 | splitting the relative path at `/` gives back its segments when no segment holds a `/` (the round trip of `path.relative` and `split(path.sep)`) |
| Discovery.Exec | src/extension.ts:123 | `exec` from `lastIndex` returns the leftmost match at or after it, or null when there is none |
| Discovery.ExecBases | src/extension.ts:123-125 | the bases found from a position are the one `exec` returns plus those found after its match |
| Discovery.AddMatches | src/extension.ts:123-130 | the `while exec` loop adds exactly the string's captured bases to the set |
| Discovery.GetAllTemplateVariables | src/extension.ts:114-133 | the result is the union of the bases of every file's relative path and content (src/core/templateUtils.ts:62-78 is the same loop) |
| Discovery.FilesBasesExact | src/extension.ts:114-133 | a name is discovered exactly when some placeholder in some file's path or content has it as its base |
| Discovery.FilesBasesAreIdents | src/extension.ts:117 | every discovered name is an identifier, never a `name.modifier` key |
| Discovery.FilesBasesCover | src/extension.ts:119-131 | each file's own bases are among the discovered ones |
| Discovery.RenderUsesDiscovered | src/extension.ts:205-219 | values for the discovered names fix every rendered path and content |
| Materialize.Mkdir | src/extension.ts:218 | definition of recursive `mkdirSync(path.dirname(p))` on a disk: the parents of `p` with its trailing `/` ignored, as `dirname` does; stated by `FileSystem.MkdirSync`, `MkdirIdempotent` and `TrailingSeparatorRefused` |
| Materialize.WriteOk | src/extension.ts:219 | definition of when `writeFileSync` succeeds (refused with EISDIR for a directory or a path ending in `/`); stated by `FileSystem.WriteFileSync` and `TrailingSeparatorRefused` |
| Materialize.FileSystem.ExistsSync | src/extension.ts:199 | definition of `existsSync`: the path is the target directory, a file or a directory |
| Materialize.ExtensionCopy | src/extension.ts:185-234 | definition of the extension routine's outcome; stated by `ExtensionCopyOutcome` |
| Materialize.CoreCopy | src/core/templateUtils.ts:91-118 | definition of the core routine's outcome; stated by `CoreCopyOutcome` |
| Materialize.DirsAfter | src/extension.ts:218 | definition of the directories after `mkdirSync` for a run of paths; stated by `DirsAfterMembers` |
| Materialize.DirsAfterMembers | src/extension.ts:218 | a directory is there after a run of `mkdirSync` calls exactly when it was there before or is a parent of one of the paths |
| Materialize.FileSystem.MkdirSync | src/extension.ts:218 | recursive `mkdirSync` of `path.dirname(p)` succeeds unless one of its directories is a file, and then adds the missing ones; a trailing `/` of `p` adds no directory |
| Materialize.FileSystem.WriteFileSync | src/extension.ts:219 | the write succeeds unless it fails, the target is a directory or ends in `/`, or the flag `'wx'` meets an existing file; only then the file holds the content |
| Materialize.Outputs | src/extension.ts:206-217 | one output per template file: its rendered relative path and rendered content |
| Materialize.FirstLevel | src/extension.ts:192 | the first segment of a path is its prefix up to the first `/` |
| Materialize.FirstLevelIsSplitHead | src/extension.ts:192 | the first level is the first piece of `split(path.sep)` |
| Materialize.FirstLevelRelPath | src/extension.ts:190-192 | before rendering, the first level of a file's relative path is the top template entry it lies under |
| Materialize.FirstLevelIsAncestor | src/extension.ts:192-199 | the first segment is the path itself or one of its parent directories |
| Materialize.FirstLevelDirs | src/extension.ts:186-194 | the set collected is the first segments of all rendered paths (src/core/templateUtils.ts:92-99 is the same loop) |
| Materialize.PreCheck | src/extension.ts:196-204 | the pre-check stops exactly when some first segment exists below the target |
| Materialize.PreCheckCoversTargets | src/extension.ts:196-204 | on a consistent disk, a passed pre-check means no target path exists yet |
| Materialize.WriteRunConsistent | src/extension.ts:205-229 | the write loop leaves a disk whose files and directories all have their parent directories in that state, also when it stops after `mkdirSync` (the same loop at src/core/templateUtils.ts:109-116) |
| Materialize.OverlayOther | src/extension.ts:205-229 | writing a run of outputs leaves every path that is not among them as it was |
| Materialize.TrailingSeparatorRefused | src/extension.ts:205-233 | a rendered path `x/` (a value ending in `/`, or a last segment that renders empty) creates nothing: into an empty target the extension returns false with the disk unchanged, and the refactored routine (src/core/templateUtils.ts:109-116) throws |
| Materialize.MkdirIdempotent | src/extension.ts:218 | creating directories already created again changes nothing |
| Materialize.WriteRun | src/extension.ts:205-229 | the loop writes at most the remaining files |
| Materialize.WriteRunPrefix | src/extension.ts:205-229 | the loop writes a prefix of the outputs in order; if it stops early, the next file was refused by the existence test, `mkdirSync` or `writeFileSync` |
| Materialize.WriteRunDirs | src/extension.ts:205-229 | the directories after the loop are the old ones plus the parents of every written file, and of the file the loop stopped at exactly when its `mkdirSync` ran and succeeded (`MkdirRan`), that is, when neither the existence test nor `mkdirSync` stopped it |
| Materialize.WriteRunFiles | src/extension.ts:205-229 | the files after the loop are the old files with the written outputs laid over them in order |
| Materialize.WriteRunStops | src/extension.ts:211-228 | when the loop ends before the last output, the next output was refused by the existence test, `mkdirSync` or `writeFileSync` |
| Materialize.WriteRunKeeps | src/extension.ts:219 | with the flag `'wx'` no file that existed before is changed |
| Materialize.WriteRunContent | src/extension.ts:219 | with the flag `'wx'` every file the loop wrote holds its rendered content at the end |
| Materialize.GuardOnlyChangesMessage | src/extension.ts:211-215 | the in-loop `existsSync && dict` test does not change which files are written: without it the same files are written and the same count results |
| Materialize.ExtensionCopyOutcome | src/extension.ts:185-234 | a pre-check hit writes nothing and gives false; otherwise a prefix is written, the loop stops at the first refused file, and the result says whether any file was written; the directories are the parents of the written files, and of the refused one exactly when its `mkdirSync` ran (`MkdirRan`); an empty template gives false; with `'wx'` existing files are kept |
| Materialize.CopyTemplateWithVarsExtension | src/extension.ts:185-234 | the routine leaves the disk and returns the value that `ExtensionCopy` describes |
| Materialize.WriteCounted | src/extension.ts:205-229 | the extension's write loop leaves the disk `WriteRun` describes and counts the files it wrote |
| Materialize.CoreCopyOutcome | src/core/templateUtils.ts:91-118 | false exactly on a pre-check hit, with nothing written; true when every output was written, also for an empty template; otherwise the routine throws at the first refused file, keeping what it wrote before; the directories are the parents of the written files, and of the refused one exactly when its `mkdirSync` ran (`MkdirRan`); with `'wx'` existing files are kept |
| Materialize.WriteFiles | src/core/templateUtils.ts:109-116 | the core's write loop leaves the disk `WriteRun` describes and completes exactly when every output was written |
| Materialize.CopyTemplateWithVarsCore | src/core/templateUtils.ts:91-118 | the routine leaves the disk and returns or throws as `CoreCopy` describes |

## Left out

- User interaction is not modelled: `showInputBox`, `showErrorMessage`, `showInformationMessage`, the template picker, the webview and the command registration. The answers of the input box are the parameter `answer` of `CollectUserVars`. Messages are not modelled, since they do not change the files written or the value returned.
- `copyTemplate`, the Handlebars-based routine of src/core/templateUtils.ts, is not part of this model. Handlebars is outside the source.
- The `change-case-all` functions (`camelCase`, `pascalCase`, `snakeCase`, `kebabCase`, `constantCase`, `upperCase`, `lowerCase`) are not in the repository. They are uninterpreted function values in `ChangeCaseLib`.
- Case mapping covers ASCII letters only. JavaScript's `toUpperCase`/`toLowerCase` also map other Unicode letters and can change a string's length (`ß` → `SS`).
- `\s` is JavaScript's whitespace set (ASCII whitespace, no-break space, the Unicode space separators, line and paragraph separators, BOM). Characters are Unicode scalar values; JavaScript's UTF-16 code units (surrogate pairs, lone surrogates) are not modelled.
- Paths are `/`-joined segments. `path.join`/`path.relative` normalisation, Windows separators and `.`/`..` segments are left out. A rendered path that contains `//` is taken as written; `path.join` would collapse it. A trailing `/` is modelled: `dirname` ignores it and the write is refused.
- The target directory is assumed to exist; it is the empty path `""`. `path.join(targetDir, p)` is modelled as `p` relative to it.
- `readFileSync` failures, a missing template directory and symbolic links are not modelled.
- I/O failures that the model cannot predict are the parameter `fails(k)`, consulted at the k-th write. A failure inside `mkdirSync` other than a file in the way is not modelled.
- Records are modelled as Dafny maps, and `Object.entries` as a sequence of pairs in insertion order. JavaScript puts integer-like keys first, and inherited prototype keys such as `constructor` are visible through `vars[name]`; neither is modelled.
- Tokens.Resolve: the lookup `modifiers[mod]` is modelled as finding exactly the nine registered names. A JavaScript object literal also finds the keys it inherits from `Object.prototype`. `{{ name.toString }}` renders `[object Object]`, and `{{ name.hasOwnProperty }}` renders `true` or `false`. `{{ name.__proto__ }}` throws a `TypeError`, because the prototype is not a function. In a path (src/extension.ts:191, 208, outside the `try`) that error escapes `copyTemplateWithVars`. In a content (src/extension.ts:217) it is caught and ends the write loop. None of this is modelled.
- Modifiers.UnknownModifierNotFound: "not registered" covers only the nine names; the inherited `Object.prototype` keys are not modelled (see `Tokens.Resolve`).
- Tokens.ResolveCases: the plain-value case for an unknown modifier holds for the names a JavaScript object does not inherit; `toString`, `hasOwnProperty`, `__proto__` and the other `Object.prototype` keys are not modelled (see `Tokens.Resolve`).
- Expansion.ExpandSize: the key count and `Expansion.ExpandModifiedKey` require dot-free, distinct bases. A base containing a dot, such as `a.b`, could collide with a derived key; `collectUserVars` only ever receives discovered identifiers (`Discovery.FilesBasesAreIdents`).
- Expansion.CollectUserVars: the `Set` of base names is a sequence without duplicates, in insertion order. Awaiting the input box is a call of `answer` with the variable's position.
- Discovery.GetAllTemplateVariables: the result is a mathematical set, so the `Set` insertion order is not modelled.
