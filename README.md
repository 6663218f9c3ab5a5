# jsx-preview: the text-processing front of the preview pipeline, in Dafny

The preview component takes a JSX snippet as text and turns it into a
rendered component. Before Babel sees the snippet, four pieces of plain
string and collection logic run. This project models them and proves what
they promise:

- **Import scanner** (`ImportScan`, `ExtractDependencies`, `SpecificImports`).
  `extractDependencies` turns the snippet into the ordered, de-duplicated
  list of package names it imports. `extractSpecificImports` lists the names
  in `import { … } from '<dep>'` (both copies of it are identical and are
  modelled once). `extractNamespaceImports` builds the module-to-alias table
  of `import * as X from '…'`.
- **Registry** (`DependencyRegistry`): the `dependencyMap` table, the
  `internalDependencies` list and the support check run against the table.
- **Loader bookkeeping** (`DependencyLoader`): `extractAndLoadDependencies`.
  As written (src/JsxPreview.jsx:46-73) it cannot load anything: validation
  is a truthiness test that also accepts `Object.prototype` names (line 47),
  and `cdnUrls.forEach` is called on a registry value that is a string, so
  every validated name throws a `TypeError` before any script is appended
  (lines 54-56). The as-written members (`CdnValueAsWritten`,
  `FirstRejectedAsWritten`, `ForEachAsWritten`, `ExtractAndLoadAsWritten`,
  `AsWrittenNeverLoads`) prove exactly that. The rest of the module models
  the loader as corrected in "## Findings" rows 1 and 2. It scans without
  the `s` flag, stops at the first name that is not a registry key, takes
  each name's single locator, derives a script id from it, and appends a
  `<script>` to `document.head` only when no element has that id.
  `document.head` is a class whose field is the sequence of appended
  scripts, each recorded by id and `src`.
- **Source normaliser** (`SourceNormalizer`). It strips import statements,
  takes the entry name from the first `export default <Ident>` (falling back
  to `Component`), then applies the three export-removal replaces in order.
- **Password scorer** (`PasswordStrength`): `evaluatePasswordStrength` and
  `getStrengthBarColor` from the password-strength sample snippet.

Regular-expression matching of import statements is abstracted. A snippet is
a sequence of segments, each either an import statement or other code. An
import statement records the text the lazy `.*?` spans before `from`, the
quoted specifier, and the statement as written. The `s` flag decides whether
a statement whose lazy parts cross a line end is matched. The export patterns
and the namespace-clause pattern have no lazy parts; they are modelled
exactly, character by character. `split`, `join`, `trim`, `includes` and
ECMAScript's `\s` class are in `JsStrings`.

Where the code and its own comments disagree, the model follows the code:

- The comment at src/JsxPreview.jsx:43 calls each registry value "CDN URLs",
  and line 54 iterates it as a list. Each value in src/dependencyMap.js:2-16
  is one locator string.
- The comment at src/utils/extractDependencies.js:3 uses the `s` flag "to
  handle multi-line imports". The loader's own copy of the scan
  (src/JsxPreview.jsx:14) has no `s` flag. A multi-line import is therefore
  neither loaded nor stripped (`DependencyLoader.MultiLineImportMissed`,
  `SourceNormalizer.StatementStripped`).

Other behaviour of the code that the model keeps:

- `export default function Widget` gives the entry name `function`, not
  `Widget` (`SourceNormalizer.FunctionDeclarationName`).
- Named imports come back as raw text such as `"A as B"`, not as
  (name, alias) pairs.
- The only record of loading is the set of script ids in `document.head`.

## Model

| member | source | states |
|---|---|---|
| ImportScan.MatchedSpecs | src/utils/extractDependencies.js:4-10 | at most one specifier per segment; without the `s` flag no captured specifier holds a line break |
| ImportScan.MatchedSpecsMembers | src/utils/extractDependencies.js:4-10 | a specifier is captured exactly when some statement the pattern matches carries it |
| ImportScan.NoImportNoSpecs | src/utils/extractDependencies.js:6-9 | a snippet without import statements yields no specifier |
| ImportScan.DotAllFindsMore | src/JsxPreview.jsx:14 | without the `s` flag the scan finds a subsequence of what it finds with it: it loses exactly one specifier per multi-line statement, and nothing when no statement spans lines |
| ExtractDependencies.PackageName | src/utils/extractDependencies.js:13-27 | a specifier names a package exactly when it is non-empty, does not start with `.` or `/`, and holds a `/` if scoped; the name is a prefix ending at a `/` or at the end, with one `/` if scoped and none otherwise |
| ExtractDependencies.FirstSegment | src/utils/extractDependencies.js:24 | `split('/')[0]` is the prefix before the first `/` |
| ExtractDependencies.ScopedName | src/utils/extractDependencies.js:16-21 | a scoped name exists exactly when the specifier holds a `/`, and it is the prefix through the second segment |
| ExtractDependencies.ScopedSpecifier | src/utils/extractDependencies.js:16-21 | `@a/b/...` names `@a/b` |
| ExtractDependencies.PlainSpecifier | src/utils/extractDependencies.js:22-25 | `p/q/...` names `p` |
| ExtractDependencies.LoneScopeIgnored | src/utils/extractDependencies.js:16-27 | a lone `@a` with no `/` names nothing |
| ExtractDependencies.DedupMembers | src/utils/extractDependencies.js:27-28 | de-duplication keeps exactly the elements of its input |
| ExtractDependencies.DedupDistinct | src/utils/extractDependencies.js:27-28 | the de-duplicated list has no repeats |
| ExtractDependencies.DedupFirstAppearance | src/utils/extractDependencies.js:27-28 | names appear in order of their first occurrence in the input |
| ExtractDependencies.CandidatesMembers | src/utils/extractDependencies.js:9-30 | a name is a candidate exactly when some captured specifier reduces to it |
| ExtractDependencies.CollectDependencies | src/utils/extractDependencies.js:9-31 | the `exec` loop returns the first-appearance de-duplication of the reduced names; the list is distinct and holds exactly the names some specifier reduces to |
| ExtractDependencies.ExtractDependencies | src/utils/extractDependencies.js:2-34 | with the `s` flag the result is distinct and holds exactly the package names of the import statements, multi-line ones included |
| ExtractDependencies.MatchedPackage | src/utils/extractDependencies.js:4-13 | with the `s` flag the packages named by the captured specifiers are those of the import statements |
| ExtractDependencies.NoImportNoDependencies | src/utils/extractDependencies.js:6-33 | a snippet without import statements yields `[]`, with or without the `s` flag |
| ExtractDependencies.NamespaceAlias | src/utils/extractDependencies.js:57 | an alias is read only from a clause made of `*`, whitespace, `as`, whitespace, an alias run and whitespace |
| ExtractDependencies.ParseSound | src/utils/extractDependencies.js:57 | what the clause reader accepts is well-formed and rebuilds the clause |
| ExtractDependencies.ParseComplete | src/utils/extractDependencies.js:57 | every well-formed clause is read back into exactly its pieces |
| ExtractDependencies.NamespaceAliasOf | src/utils/extractDependencies.js:57 | a well-formed `* as Alias ` clause yields exactly `Alias` |
| ExtractDependencies.NamespaceImports | src/utils/extractDependencies.js:54-69 | the table never has a `__proto__` key; every key is a one-line specifier and every value an alias run of `[A-Za-z0-9_$]` characters |
| ExtractDependencies.NamespaceImportsKeys | src/utils/extractDependencies.js:60-66 | a module is a key exactly when some statement imports it as a namespace (`__proto__` excepted) |
| ExtractDependencies.NamespaceImportsLastWins | src/utils/extractDependencies.js:60-66 | a later `import * as` of the same module overwrites the alias; the last one wins |
| ExtractDependencies.ExtractNamespaceImports | src/utils/extractDependencies.js:54-69 | the loop builds exactly the table `NamespaceImports` describes, never with a `__proto__` key |
| SpecificImports.BraceBody | src/utils/extractSpecificImports.js:5 | a brace list is read only from `{`, a non-empty run free of `}`, `}`, then whitespace up to `from` |
| SpecificImports.ImportedNames | src/utils/extractSpecificImports.js:12 | one entry more than the list has commas; no entry holds a comma or starts or ends with whitespace |
| SpecificImports.ImportedNamesPieces | src/utils/extractSpecificImports.js:12 | the entries are the trimmed pieces of a comma-free cut of the list that joins back to it with `,` |
| SpecificImports.ExtractSpecificImports | src/utils/extractSpecificImports.js:2-16 | the result is `[]` exactly when no statement `import { … } from '<dependency>'` matches; no entry holds a comma |
| SpecificImports.ExtractConcat | src/utils/extractSpecificImports.js:6-13 | names of two stretches of source are those of the first, then those of the second |
| SpecificImports.EntriesTrimmed | src/utils/extractSpecificImports.js:12 | every returned entry is already trimmed |
| SpecificImports.DefaultPlusNamedIgnored | src/utils/extractSpecificImports.js:5 | `import React, { … } from 'dep'` contributes nothing |
| SpecificImports.SingleEntry | src/utils/extractSpecificImports.js:12 | a list without a comma, `A as B` included, is one entry |
| SpecificImports.TrailingComma | src/utils/extractSpecificImports.js:12 | a trailing comma adds an empty-string entry |
| SpecificImports.RoundTrip | src/utils/extractSpecificImports.js:2-16 | the statement written from a list of names gives back exactly that list |
| JsStrings.JoinSplit | src/utils/extractSpecificImports.js:12 | joining the pieces of `split(c)` with `c` gives the text back |
| JsStrings.SplitJoin | src/utils/extractSpecificImports.js:12 | splitting the join of separator-free pieces gives the pieces back |
| JsStrings.SplitCount | src/utils/extractSpecificImports.js:12 | `split` yields one piece more than there are separators |
| JsStrings.Trim | src/utils/extractSpecificImports.js:12 | `trim` returns an infix with only whitespace outside it, starting and ending with non-whitespace |
| JsStrings.TrimIdempotent | src/utils/extractSpecificImports.js:12 | trimming twice changes nothing |
| JsStrings.TrimPadded | src/utils/extractSpecificImports.js:12 | `trim` returns exactly the text between surrounding whitespace |
| DependencyRegistry.MapOfEntries | src/dependencyMap.js:1-19 | the keys of the object literal are the entry names, and each value is that of an entry with that name |
| DependencyRegistry.SupportedNames | src/dependencyMap.js:1-19 | exactly the eight names react, chart.js, axios, lodash, motion, clsx, lucide-react and mathjs are keys |
| DependencyRegistry.RegistryValues | src/dependencyMap.js:2-16 | each registry value is a single non-empty locator string |
| DependencyRegistry.VersionsPinned | src/dependencyMap.js:2-16 | every locator is `https://esm.sh/<its own name>@<version>` with an explicit dotted version |
| DependencyRegistry.InternalNotSupported | src/dependencyMap.js:21 | `recharts` and `framer-motion` are not keys, so the support check rejects them |
| DependencyRegistry.Read | src/JsxPreview.jsx:47 | `dependencyMap[name]` is an own string exactly for registry keys, and that string is the registry's value |
| DependencyRegistry.SupportedAsWrittenExactly | src/JsxPreview.jsx:46-50 | the check as written accepts a name exactly when it is a key or an inherited `Object.prototype` name |
| DependencyRegistry.PrototypeNameAccepted | src/JsxPreview.jsx:47 | `constructor` passes the check as written but is not a registry key |
| DependencyRegistry.CheckLoadedNotExported | src/JsxPreview.jsx:2 | `checkLoadedDependencies` is imported from the registry module, which does not export it |
| DependencyLoader.Sanitize | src/JsxPreview.jsx:58 | a character is kept when it is ASCII alphanumeric and becomes `-` otherwise, so the result is alphanumeric exactly when the input is |
| DependencyLoader.ScriptId | src/JsxPreview.jsx:58 | the id is `dependency-` followed by one character per locator character: that character when ASCII alphanumeric, `-` otherwise |
| DependencyLoader.ScriptIdSame | src/JsxPreview.jsx:58 | two locators share an id exactly when they agree after sanitising |
| DependencyLoader.ScriptIdCollision | src/JsxPreview.jsx:58 | two distinct locators can share one id |
| DependencyLoader.DocumentHead.AppendChild | src/JsxPreview.jsx:67 | the head gains the script at the end and its id joins the id set; nothing else changes |
| DependencyLoader.NewScripts | src/JsxPreview.jsx:56-72 | at most one script per locator |
| DependencyLoader.NewScriptsIds | src/JsxPreview.jsx:53-73 | after loading, the head holds exactly the ids it held before plus those of the locators |
| DependencyLoader.NewScriptsFresh | src/JsxPreview.jsx:58-71 | each appended script carries a locator of the run and that locator's id, no appended id was already present, and no id is appended twice |
| DependencyLoader.NewScriptsNone | src/JsxPreview.jsx:61-71 | when every locator's id is present, nothing is appended |
| DependencyLoader.LoadTwice | src/JsxPreview.jsx:53-73 | loading the same locators a second time appends nothing |
| DependencyLoader.SameIdLoadsOnce | src/JsxPreview.jsx:58-71 | of two locators with one id, only the first gets a script |
| DependencyLoader.CollidingUrlsLoadOnce | src/JsxPreview.jsx:58-61 | two locators with the same id load once |
| DependencyLoader.LoadUrls | src/JsxPreview.jsx:54 | corrected loader (Findings row 1): one locator per validated name, that name's registry value |
| DependencyLoader.FirstUnsupported | src/JsxPreview.jsx:46-50 | corrected validation (Findings row 2): there is no rejected name exactly when all names are own registry keys, and a rejected name is one from the list that is not |
| DependencyLoader.FirstUnsupportedAt | src/JsxPreview.jsx:46-50 | the rejected name is the one at the first unsupported index |
| DependencyLoader.ValidateDependencies | src/JsxPreview.jsx:46-50 | corrected validation (Findings row 2): the loop returns the first name that is not an own registry key, or none |
| DependencyLoader.LoadScript | src/JsxPreview.jsx:56-72 | one script is appended exactly when its id is absent; existing entries are unchanged |
| DependencyLoader.LoadUrlList | src/JsxPreview.jsx:56-72 | the inner loop appends exactly the scripts `NewScripts` describes |
| DependencyLoader.LoadDependencies | src/JsxPreview.jsx:53-73 | corrected loader (Findings row 1): the outer loop leaves the head as before, followed by exactly the scripts `NewScripts` describes |
| DependencyLoader.ExtractAndLoadDependencies | src/JsxPreview.jsx:12-76 | corrected loader (Findings rows 1 and 2): fails exactly when a scanned name is unsupported, with the message naming the first such name and the head untouched; otherwise returns the scanned names, appends exactly the missing scripts, and every name then passes the loaded check |
| DependencyLoader.LoadedAfterLoading | src/JsxPreview.jsx:87-93 | after loading, every validated name's script id is in the head |
| DependencyLoader.MultiLineImportMissed | src/JsxPreview.jsx:14-41 | on the mathjs sample's two imports, `extractDependencies` reports react and mathjs and the loader's scan only react |
| DependencyLoader.CdnValueAsWritten | src/JsxPreview.jsx:54 | as written: every registry key yields a non-array (its locator string), and the `[]` fallback is taken exactly for a name that is neither a key nor an `Object.prototype` name |
| DependencyLoader.FirstRejectedAsWritten | src/JsxPreview.jsx:46-50 | no name is rejected exactly when all pass the check as written |
| DependencyLoader.ForEachAsWritten | src/JsxPreview.jsx:53-56 | as written, the loading loop completes exactly when every name reads the `[]` fallback, and otherwise fails with the `forEach` TypeError |
| DependencyLoader.ExtractAndLoadAsWritten | src/JsxPreview.jsx:46-73 | as written: fails with the unsupported message at the first name the truthiness check rejects, and succeeds only if every name both passes that check and reads the `[]` fallback |
| DependencyLoader.AsWrittenNeverLoads | src/JsxPreview.jsx:46-73 | as written, every non-empty dependency list fails; when validation passes, the failure is the `forEach` TypeError |
| SourceNormalizer.StripImports | src/JsxPreview.jsx:104 | import stripping only removes text, and leaves the snippet unchanged when no statement on one line is present |
| SourceNormalizer.StatementStripped | src/JsxPreview.jsx:104 | a one-line import statement disappears whole; a multi-line one stays as written |
| SourceNormalizer.KeywordSpaceSpec | src/JsxPreview.jsx:120 | `export\s+` matches exactly when `export` is followed by whitespace, and then takes the whole whitespace run |
| SourceNormalizer.RemoveAll | src/JsxPreview.jsx:118-120 | a global replace by `''` never lengthens the text |
| SourceNormalizer.RemoveAllSubsequence | src/JsxPreview.jsx:118-120 | a removal pass only leaves characters out: the result is a subsequence of its input |
| SourceNormalizer.RemoveAllNoExport | src/JsxPreview.jsx:118-120 | text without `export` is left as it is by every removal pass |
| SourceNormalizer.FirstDefaultExport | src/JsxPreview.jsx:111 | a name found by `export\s+default\s+(\w+)` is a non-empty run of word characters |
| SourceNormalizer.FirstDefaultExportSpec | src/JsxPreview.jsx:111 | a name is found exactly when some position matches, and it is the name of the leftmost match |
| SourceNormalizer.EntryName | src/JsxPreview.jsx:108-115 | the entry name is a non-empty identifier |
| SourceNormalizer.Normalise | src/JsxPreview.jsx:104-120 | the normalised code is no longer than the stripped text, and the entry name is a non-empty identifier |
| SourceNormalizer.NormaliseNoExport | src/JsxPreview.jsx:104-120 | without `export`, the stripped text is kept as it is under the name `Component` |
| SourceNormalizer.EntryNameOf | src/JsxPreview.jsx:111-115 | `export default <name>` at the start gives exactly that name |
| SourceNormalizer.FunctionDeclarationName | src/JsxPreview.jsx:111-115 | `export default function …` gives the entry name `function` |
| SourceNormalizer.ExportStatementRemoved | src/JsxPreview.jsx:118 | `export default <name>;` is removed whole by the first pass |
| SourceNormalizer.KeywordPassNotExhaustive | src/JsxPreview.jsx:120 | `exexport port x` becomes `export x`, so the keyword pass can leave an `export ` behind |
| SourceNormalizer.RemoveAllKeepsWholeWords | src/JsxPreview.jsx:118-120 | each removal pass keeps `export` a whole word |
| SourceNormalizer.KeywordPassClean | src/JsxPreview.jsx:120 | on text where `export` is always a whole word, the keyword pass leaves no `export\s+` anywhere |
| SourceNormalizer.NormaliseRemovesExports | src/JsxPreview.jsx:104-120 | when `export` is a whole word in the stripped text, none of the three export patterns matches anywhere in the normalised code |
| PasswordStrength.LengthPoints | src/code/password-strength-checker-main.jsx:24-32 | the length adds 5 per character below 6, 20 for 6 to 8, and 40 above 8 |
| PasswordStrength.ClassCount | src/code/password-strength-checker-main.jsx:40-44 | at most four classes, and four exactly when every class occurs |
| PasswordStrength.Score | src/code/password-strength-checker-main.jsx:24-61 | the score is 0 exactly for the empty password |
| PasswordStrength.CommonNeedsLetterOrDigit | src/code/password-strength-checker-main.jsx:52-53 | a password holding a common pattern has at least five characters and a letter or digit |
| PasswordStrength.Hints | src/code/password-strength-checker-main.jsx:24-56 | the too-short hint exactly below 6 characters, the make-longer hint exactly for 6 to 8, the common-pattern hint exactly for a common pattern |
| PasswordStrength.BandOf | src/code/password-strength-checker-main.jsx:67-77 | Very Strong exactly from 80, Very Weak exactly below 20 |
| PasswordStrength.Message | src/code/password-strength-checker-main.jsx:64-77 | the message is the prompt exactly for the empty password, and otherwise opens with the band of the score |
| PasswordStrength.CheckCommon | src/code/password-strength-checker-main.jsx:52-53 | the `some` loop answers whether the lower-cased password holds one of the four patterns |
| PasswordStrength.LengthStep | src/code/password-strength-checker-main.jsx:24-32 | the length branch gives the length points and the length hint |
| PasswordStrength.ClassPoints | src/code/password-strength-checker-main.jsx:35-44 | ten points, and one count, per class present |
| PasswordStrength.ClassStep | src/code/password-strength-checker-main.jsx:46-49 | one hint appended per missing class, in test order |
| PasswordStrength.ComposeMessage | src/code/password-strength-checker-main.jsx:64-77 | the if-chain yields the prompt or the band prefix with the joined hints or the band's praise |
| PasswordStrength.EvaluatePasswordStrength | src/code/password-strength-checker-main.jsx:19-80 | returns the specified score and message |
| PasswordStrength.ScoreBounds | src/code/password-strength-checker-main.jsx:24-61 | the score is a multiple of 5 between 0 and 80, so the clamp to 0..100 never changes it |
| PasswordStrength.TopScore | src/code/password-strength-checker-main.jsx:24-57 | the score is 80 exactly for more than eight characters, all four classes and no common pattern |
| PasswordStrength.CommonCapped | src/code/password-strength-checker-main.jsx:52-57 | a password with a common pattern scores at most 60 and is never Very Strong |
| PasswordStrength.HintCount | src/code/password-strength-checker-main.jsx:24-56 | one hint for length at most 8, one per missing class, one for a common pattern |
| PasswordStrength.ClassHint | src/code/password-strength-checker-main.jsx:46-49 | a class's hint is given exactly when the class is missing |
| PasswordStrength.EmptyPassword | src/code/password-strength-checker-main.jsx:65-66 | the empty password scores 0 and gets the prompt |
| PasswordStrength.VeryStrongMessage | src/code/password-strength-checker-main.jsx:24-76 | a Very Strong verdict has no hints, so its message is exactly `Very Strong: Great job!` |
| PasswordStrength.StrengthBarColor | src/code/password-strength-checker-main.jsx:88-94 | the bar colour is the colour of the verdict band, with the same thresholds 20/40/60/80 |

## Findings

| source | as written | input that shows it | evidently intended | confidence | as-written member | corrected member |
|---|---|---|---|---|---|---|
| src/JsxPreview.jsx:54-56 | `cdnUrls.forEach` is called on the fallback `dependencyMap[dep]` or `[]`, but every registry value is a string, which has no `forEach` | any snippet importing `react` | iterate the one locator of each name | high; not executed | DependencyLoader.AsWrittenNeverLoads | DependencyLoader.ExtractAndLoadDependencies |
| src/JsxPreview.jsx:47 | `!dependencyMap[dep]` also reads names inherited from `Object.prototype` | `import x from 'constructor'` passes validation | accept only the registry's own keys | medium; not executed | DependencyRegistry.PrototypeNameAccepted | DependencyLoader.ValidateDependencies |
| src/JsxPreview.jsx:2 | `checkLoadedDependencies` is imported from a module that does not export it | every preview that reaches the polling step | a check that every dependency's script is present | high; not executed | DependencyRegistry.CheckLoadedNotExported | DependencyLoader.LoadedAfterLoading |

## Left out

- Regular-expression matching of import statements is abstracted into segments. In particular, with the `s` flag a side-effect import `import './x.css'` (no `from`) lets `.*?` run on to the next `from '…'`. The model does not capture this, because it takes statements as already cut.
- `extractSpecificImports` interpolates `dependency` into the pattern unescaped. The model compares the specifier with the dependency for equality, as if it were escaped.
- The `i` flag of the namespace pattern is modelled only for the `as` keyword; the `import` and `from` keywords are part of the segment abstraction.
- DOM script creation, `crossOrigin`, network fetches and the `console.log` calls are I/O. The head is only the sequence of appended (id, src) records.
- The `waitForDependencies` polling loop, the `setTimeout` retry and the definition of `checkLoadedDependencies`. This is timer-driven async code, and its callee does not exist in the registry module. `DependencyLoader.CheckLoadedDependencies` states what that callee would need to check.
- `window.Babel.transform`, the `window.Chart` prelude, `new Function` compilation and execution, React rendering, state setters and the error boundary. These are foreign code, dynamic evaluation or UI framework behaviour.
- Stale-request suppression. The effect keeps no generation token, so no ordering property between requests is modelled.
- The other sample snippets (`src/code/*.jsx` except the password checker, `src/code.js`, `src/code2.js`, `src/code3.js`). They are UI components; several use random shuffles and floating-point maths.
- The React state around `evaluatePasswordStrength` (`setStrengthScore`, `setFeedbackMessage`) is left out.
- PasswordStrength.Score: lengths are counted in characters, where `pwd.length` counts UTF-16 code units. For `"😀😀😀"` JavaScript sees length 6, giving 20 length points and "Make it longer…"; the model sees length 3, giving 15 points and "too short". `PasswordStrength.LengthPoints`, `Hints` and `Message` share this.
- DependencyLoader.ScriptId: writes one `-` per character outside the ASCII alphanumerics, where `/[^a-zA-Z0-9]/g` replaces each UTF-16 code unit and so writes two for a character outside the Basic Multilingual Plane. The registry's locators are ASCII, so their ids are unaffected.
- SourceNormalizer.NormaliseRemovesExports: proved only for text in which every `export` is a whole word. `SourceNormalizer.KeywordPassNotExhaustive` shows that, without this condition, the keyword pass can join `ex` and `port` into a new `export `.
