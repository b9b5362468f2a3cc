# Excel template catalog: a Dafny model

The administration page of this email-template application turns an Excel
sheet into a bilingual (French/English) template catalog. It does the
following:

- it finds the header row of the sheet and keys every later row by it
  (`rowsToObjects`);
- it validates each row and sanitises its template id (`idSanitize`,
  `uniqueId`);
- it extracts the `<<Name>>` placeholders of the French and English bodies
  (`extractPlaceholders`, `canonicalVar`);
- it parses the `VARIABLES_Description_*` cells, which use the small grammar
  `<<Name>>: Description (Default)` (`parseVariableDescriptionEntries`);
- it fills a global variable catalog, inferring each variable's format and
  example (`ensureVar`, `inferFormat`, `exampleFor`);
- on request, it drafts templates for missing categories
  (`suggestMissingTemplates`, `genShortDesc`, `translateDesc`);
- it exports the result with a small metadata record.

The pill editor (`SimplePillEditor`) renders a template body as HTML. Each
placeholder becomes a "pill" and all other text is HTML-escaped.

This project models that pipeline in Dafny and proves its properties:

- Strings are `seq<char>`.
- Every regular expression of the source is written out as a recursive
  function, and a lemma checks the hand-written matcher of `<<([^>]+)>>`
  against the declarative reading of the pattern.
- The row-by-row loop of `buildOutput` is a left fold over an explicit state
  record.
- Diagnostics are datatypes. The French message wording is not modelled.

Modules, one per file, follow the source's structure:

| file | module | models |
|---|---|---|
| chars.dfy | `Chars` | character classes; per-character lower-casing and Latin-1 decomposition |
| strings.dfy | `Strings` | trim, filter, dedup, sort, `indexOf`, `replace`, run replacement |
| sanitize.dfy | `Sanitize` | `toAscii`, `idSanitize`, `uniqueId`, `normKey`, `canonicalKey`, `canonicalVar` |
| placeholders.dfy | `Placeholders` | the `<<([^>]+)>>` scanner and `extractPlaceholders` |
| vardesc.dfy | `VarDesc` | `parseVariableDescriptionEntries` |
| catalog.dfy | `Variables` | `inferFormat`, `exampleFor`, `ensureVar` |
| header.dfy | `Header` | `H`, `REQUIRED_KEYS`, `rowsToObjects` |
| builder.dfy | `Builder` | the per-record checks and the fold of `buildOutput` |
| suggest.dfy | `Suggest` | `genShortDesc`, `translateDesc`, `suggestMissingTemplates`, the output of `buildOutput`, the export metadata |
| objects.dfy | `Objects` | reading a key of a plain JavaScript object, own or inherited from `Object.prototype` |
| pilleditor.dfy | `PillEditor` | `escapeHtml` and `renderContent` of the pill editor |

Some facts fall out of the proofs:

- **A dropped row still reserves its id.** The id is added to the taken set
  before the mandatory-field check. A row dropped for a missing field
  therefore still blocks a later row with the same id
  (`Builder.DroppedRecordReservesId`).
- **The category fallback never applies.** `category_fr` is mandatory, so
  the fallback to `category_en` or the default category is never used
  (`Builder.TemplateShape`).
- **"Délai" never matches.** The `Délai` alternative of `inferFormat` can
  never match a catalog key. Catalog keys are canonical names made of
  `[a-z0-9_]` only (`Variables.DelaiNeverMatches`).
- **Two header entries are unreachable.** The two synonym entries written
  with underscores can never be looked up, because a normalised header holds
  no `_` (`Header.UnderscoreSynonymsUnreachable`). The same keys are still
  reached through `canonicalKey`.
- **A variable named `constructor` breaks the build.** The catalog is a
  plain object, and `constructor` is a canonical variable name that every
  object inherits. `ensureVar` finds the inherited function, creates no
  entry, and then throws when it reads its `description`. So a valid row
  whose template uses `<<constructor>>` makes `buildOutput` return nothing
  (`Builder.ConstructorThrows`, `Suggest.BuildOutput`). The pill editor
  throws the same way on a placeholder such as `<<toString>>`
  (`PillEditor.RenderInheritedThrows`).
- **Draft ids are never suffixed.** `uniqueId` is called with an empty set
  for drafts (`Suggest.DraftShape`).
- **Drafts stay out of the catalog.** A draft's variables are never added to
  the catalog: `Suggest.BuildOutput` fixes the catalog before drafts are
  made.

## Model

| member | source | states |
|---|---|---|
| Chars.ToLowerChar | assets/admin-excel.js:43 | lower-casing leaves no ASCII or Latin-1 capital; any other character is unchanged; the result is in `[a-z0-9_]` exactly when the input is, or is an ASCII capital |
| Chars.Decompose | assets/admin-excel.js:42 | NFD of one character gives one or two characters, and leaves every character below U+00C0 alone |
| Strings.Lower | assets/admin-excel.js:43 | `toLowerCase` keeps the length, lowers each character in place, and leaves no capital |
| Strings.ToAscii | assets/admin-excel.js:42 | no combining mark U+0300–U+036F survives `toAscii` |
| Strings.ToAsciiOfPlain | assets/admin-excel.js:42 | `toAscii` is the identity on text below U+00C0 |
| Strings.Trim | assets/admin-excel.js:53 | a trimmed text neither starts nor ends with white space (that only white space is cut is `Strings.TrimSlice`) |
| Strings.TrimSlice | assets/admin-excel.js:53 | the trimmed text is one contiguous slice of the input, and everything cut off on either side is white space |
| Strings.TrimEmpty | assets/admin-excel.js:98 | a text trims to `''` exactly when it is all white space |
| Strings.TrimOfTrimmed | assets/admin-excel.js:53 | trimming a text without white space at its ends changes nothing |
| Strings.Filter | assets/admin-excel.js:265 | `filter` keeps exactly the elements satisfying the predicate |
| Strings.FilterConcat | assets/admin-excel.js:265 | filtering distributes over concatenation |
| Strings.Dedup | assets/admin-excel.js:138 | `Array.from(new Set(xs))` is duplicate-free and has exactly the elements of `xs` |
| Strings.DedupOfDistinct | assets/admin-excel.js:138 | deduplicating a duplicate-free list changes nothing |
| Strings.DedupAppend | assets/admin-excel.js:308 | the set of two duplicate-free lists is the first list, then the elements of the second not in the first, in order |
| Strings.DedupSnoc | assets/admin-excel.js:308 | adding one element to a set either changes nothing or appends it |
| Strings.FirstPosition | assets/admin-excel.js:138 | the first position of an element is where it occurs and no earlier position holds it |
| Strings.DedupFilterOrder | assets/admin-excel.js:138 | `Array.from(new Set(xs.filter(p)))` lists its elements in the order of their first occurrence in `xs` |
| Strings.DedupOrder | assets/admin-excel.js:138 | `Array.from(new Set(xs))` lists the elements of `xs` in the order of their first occurrence |
| Strings.LessIrreflexive | assets/admin-excel.js:267 | the string order of `sort()` is irreflexive |
| Strings.LessTransitive | assets/admin-excel.js:267 | the string order of `sort()` is transitive |
| Strings.LessTotal | assets/admin-excel.js:267 | the string order of `sort()` is total |
| Strings.Insert | assets/admin-excel.js:267 | inserting into a strictly sorted list keeps it strictly sorted and adds exactly the new element |
| Strings.SortDedup | assets/admin-excel.js:265-268 | `Array.from(new Set(xs)).sort()` is strictly sorted with exactly the elements of `xs` |
| Strings.SortedUnique | assets/admin-excel.js:267-268 | two strictly sorted lists with the same elements are equal, so the sorted variable list is determined by its set |
| Strings.ReplaceRuns | assets/admin-excel.js:44-46 | after replacing each maximal run of matching characters, every character comes from the replacement or is a non-matching input character |
| Strings.ReplaceRunsNoMatch | assets/admin-excel.js:44-46 | with no matching character, replacing runs changes nothing |
| Strings.ReplaceRunsNoDouble | assets/admin-excel.js:46 | replacing runs by a single matching character never leaves that character doubled |
| Strings.ReplaceRunsIsolated | assets/admin-excel.js:56-57 | when no two matching characters are adjacent, replacing runs is replacing characters |
| Strings.ReplaceRunsSingle | assets/admin-excel.js:46 | `/_+/g → '_'` changes nothing on text without a double `_` |
| Strings.IndexOfFrom | assets/admin-excel.js:160 | the search returns the first occurrence at or after the start, or none when there is none |
| Strings.IndexOf | assets/admin-excel.js:168 | `indexOf` returns the first occurrence, or none exactly when there is none |
| Strings.FirstIndexOf | assets/admin-excel.js:159 | the first position holding the character, and none exactly when it is absent |
| Strings.FirstIndexOfAt | assets/admin-excel.js:159 | a position holding the character, with none before it, is the one found |
| Strings.LastIndexOf | assets/admin-excel.js:186-187 | `lastIndexOf` returns the last position holding the character, and none exactly when it is absent |
| Strings.ReplaceFirstAt | assets/admin-excel.js:352 | `replace` with a string pattern replaces exactly the first occurrence |
| Strings.ReplaceFirstNone | assets/admin-excel.js:352 | `replace` with an absent pattern changes nothing |
| Strings.Decimal | assets/admin-excel.js:49 | the decimal text of a number is non-empty and all digits |
| Strings.DecimalInjective | assets/admin-excel.js:49 | different numbers have different decimal texts |
| Sanitize.IdSanitize | assets/admin-excel.js:43-48 | a sanitised id has only `[a-z0-9_]`, no `__`, and at most 80 characters |
| Sanitize.Collapse | assets/admin-excel.js:46 | collapsing `_` runs leaves no `__` and adds no character other than `_` |
| Sanitize.StripUnderscores | assets/admin-excel.js:143 | stripping `_` at both ends leaves neither end an `_` and keeps the text free of `__` |
| Sanitize.IdSanitizeOfSanitized | assets/admin-excel.js:43-48 | every stage of `idSanitize` leaves a sanitised id unchanged |
| Sanitize.IdSanitizeIdempotent | assets/admin-excel.js:43-48 | sanitising twice is sanitising once |
| Sanitize.CanonicalVar | assets/admin-excel.js:140-144 | a canonical variable name has only `[a-z0-9_]`, no `__`, and no `_` at either end |
| Sanitize.CanonicalVarOfCanonical | assets/admin-excel.js:140-144 | `canonicalVar` leaves a canonical name unchanged |
| Sanitize.CanonicalVarIdempotent | assets/admin-excel.js:140-144 | `canonicalVar` applied twice is applied once |
| Sanitize.NormKey | assets/admin-excel.js:51-56 | a normalised header has no `_`, `.`, `:` or capital, its only white space is a single space, and it never has two spaces in a row |
| Sanitize.CanonicalKey | assets/admin-excel.js:57 | a canonical key has no white space, `.`, `:` or capital letter, and never two `_` in a row |
| Sanitize.CanonicalKeyOfCanonical | assets/admin-excel.js:51-57 | on a canonical key, `normKey` turns each `_` into a space and `canonicalKey` gives the key back |
| Sanitize.CanonicalKeyIdempotent | assets/admin-excel.js:57 | `canonicalKey` applied twice is applied once |
| Sanitize.SuffixedInjective | assets/admin-excel.js:49 | different suffix numbers give ids that differ even ignoring case |
| Sanitize.TriedBelowSize | assets/admin-excel.js:49 | the candidates tried before suffix `i` are `i - 2` distinct lower-case ids, which bounds the search by the size of the taken set |
| Sanitize.UniqueFrom | assets/admin-excel.js:49 | the suffix search returns a `base_k` whose lower case is free, with `k` at or after the start |
| Sanitize.UniqueId | assets/admin-excel.js:49 | the id returned is free ignoring case; it is the base (or `modele`) when that is free, else `base_k` for the least `k >= 2` that is free |
| Sanitize.UniqueIdNothingTaken | assets/admin-excel.js:390 | with nothing taken, `uniqueId` returns its base unchanged |
| Placeholders.CloseFrom | assets/admin-excel.js:138 | the scan for `>` stops at the first `>` at or after its start, or at the end |
| Placeholders.RegexMatchIff | assets/admin-excel.js:138 | the written-out matcher agrees with the declarative reading of `<<([^>]+)>>`: a match from `i` to `j` exists exactly when the matcher accepts at `i` and `j` is the first `>` after the `<<` |
| Placeholders.MatchEnd | assets/admin-excel.js:138 | a match spans exactly `<<name>>`, with a non-empty name free of `>` |
| Placeholders.NextMatch | assets/admin-excel.js:138 | the global scan resumes at the leftmost match at or after its position |
| Placeholders.ScanHead | src/components/SimplePillEditor.jsx:28-50 | the scan of an empty text is empty; a leading literal is cut exactly at the first match, and a leading placeholder is a match at position 0 |
| Placeholders.ScanRoundTrip | src/components/SimplePillEditor.jsx:28-50 | the literal pieces and `<<name>>` for each placeholder, in order, give back the scanned text |
| Placeholders.ScanWellFormed | src/components/SimplePillEditor.jsx:23-29 | every scanned placeholder name is non-empty and free of `>`, and every literal is non-empty |
| Placeholders.ScanUnscan | src/components/SimplePillEditor.jsx:28-50 | a token list with non-empty `>`-free names, literals holding no `<<` and not ending with `<`, and no two literals in a row, is recovered by scanning its text |
| Placeholders.UnscanAppend | src/components/SimplePillEditor.jsx:52 | the text of two token lists is the concatenation of their texts |
| Placeholders.Names | assets/admin-excel.js:138 | the listed names are exactly the names of the placeholder tokens |
| Placeholders.NamesAppend | assets/admin-excel.js:138 | the names of a concatenation are the names of each part, in order, so names come in token order |
| Placeholders.NamesOne | assets/admin-excel.js:138 | a placeholder token contributes its name, a literal token nothing |
| Placeholders.ExtractPlaceholders | assets/admin-excel.js:137-139 | the extracted names are duplicate-free, are exactly the names of the text's matches, and come in the order of their first match, as `Array.from(new Set(...))` gives them |
| Placeholders.ExtractedNamesWellFormed | assets/admin-excel.js:137-139 | every extracted name is non-empty and free of `>` |
| Placeholders.ExtractOfUnscan | assets/admin-excel.js:137-139 | on a text built from well-separated tokens, the extracted names are the placeholder names in first-seen order |
| Variables.ContainsCiMeaning | assets/admin-excel.js:146 | `/pat/i.test(s)` holds exactly when the lower-case pattern occurs in the lower-case text |
| Variables.NumberWords | assets/admin-excel.js:146 | the number test holds exactly when "montant", "nb" or "nombre" occurs in any case |
| Variables.TimeWord | assets/admin-excel.js:147 | the time test holds exactly when "heure" occurs in any case |
| Variables.DateWords | assets/admin-excel.js:148 | the date test holds exactly when "date" or "délai" occurs; the two longer alternatives add nothing |
| Variables.LongDateWords | assets/admin-excel.js:148 | an occurrence of "nouvelledate" or "dateinitiale" is one of "date" |
| Variables.InferFormatSpec | assets/admin-excel.js:145-150 | the format is number, else time, else date, else text, each decided by the words that occur, with the earlier tests taking priority |
| Variables.MontantIsNumber | assets/admin-excel.js:146 | any name holding "montant", in any case, is a number |
| Variables.DelaiNeverMatches | assets/admin-excel.js:148 | the `Délai` alternative never matches a name made of `[a-z0-9_]` |
| Variables.ExampleFor | assets/admin-excel.js:151 | every format has a non-empty example |
| Variables.ExampleForInjective | assets/admin-excel.js:151 | different formats have different examples |
| Objects.Get | assets/admin-excel.js:289 | reading a key gives the own value when there is one, else an inherited property exactly when the key is an `Object.prototype` name, else `undefined` |
| Variables.EnsureEntry | assets/admin-excel.js:289-303 | the key is added or kept and other keys are untouched; its entry is well formed with the format re-inferred; a non-empty description of the record overwrites the stored one; the FR default wins over the EN one as the example; a new key without a description gets `Valeur pour key` / `Value for key`, and without a default the example of its inferred format |
| Variables.EnsureVar | assets/admin-excel.js:287-304 | an empty key changes nothing; a key the catalog lacks but every object inherits (`constructor`) throws; any other key gets exactly the update `EnsureEntry` describes |
| Variables.EnsureVarKeeps | assets/admin-excel.js:294-303 | ensuring a stored key never throws, and what the record does not supply is kept: a stored description or example survives a record without one |
| Variables.EnsureVarIdempotent | assets/admin-excel.js:287-304 | ensuring the same key twice with the same record, when the first call does not throw, is ensuring it once |
| Variables.EnsureVars | assets/admin-excel.js:305-306 | ensuring a list throws exactly when one of its keys is inherited and not stored; otherwise it adds exactly its non-empty keys, leaves every other entry alone, leaves each added entry well formed, and each key ends with the record's non-empty descriptions and its default (FR before EN) |
| Variables.EnsureVarsWellFormed | assets/admin-excel.js:305-306 | ensuring variables keeps a well-formed catalog well formed |
| Variables.EnsureVarsNoInherited | assets/admin-excel.js:289-306 | ensuring variables never stores an inherited name in a catalog that holds none |
| VarDesc.SplitLines | assets/admin-excel.js:159 | `split(/\r?\n/)` gives at least one piece, none holding a line feed |
| VarDesc.SplitLinesJoin | assets/admin-excel.js:159 | without carriage returns, joining the pieces with line feeds gives the text back |
| VarDesc.SplitTwoLines | assets/admin-excel.js:159 | two line-feed-free lines joined by a line feed split into exactly those two |
| VarDesc.SplitBefore | assets/admin-excel.js:160 | `split(/(?=<<)/)` gives at least one piece, all non-empty for a non-empty line |
| VarDesc.SplitBeforeSpec | assets/admin-excel.js:160 | the pieces concatenate to the line, and the cuts fall exactly before each `<<` that does not start the line |
| VarDesc.UncutLine | assets/admin-excel.js:160 | a line with no `<` after its first two characters is not cut |
| VarDesc.TrimmedChunks | assets/admin-excel.js:161-162 | the chunks are trimmed and non-empty, and no more numerous than the pieces |
| VarDesc.TrimmedChunksFilter | assets/admin-excel.js:161-162 | the chunks are exactly the pieces trimmed, in order, with the empty ones dropped |
| VarDesc.DefaultOpen | assets/admin-excel.js:186-188 | a default opens exactly when the text ends with `)` and holds a `(`, and it opens at the last `(` |
| VarDesc.SplitDefaultNone | assets/admin-excel.js:184-191 | a text that does not end with `)`, or holds no `(`, is all description, with an empty default |
| VarDesc.DefaultShape | assets/admin-excel.js:186-188 | every other text is some `a(b)` with no `(` inside `b`: the last `(` and the final `)` |
| VarDesc.SplitDefaultAt | assets/admin-excel.js:184-191 | for every `a(b)` with no `(` inside `b`, the description is the trimmed `a` and the default the trimmed `b` |
| VarDesc.SplitDefaultFormatted | assets/admin-excel.js:184-191 | `description(default)` splits back into its description and default when the default holds no `(` |
| VarDesc.Fields | assets/admin-excel.js:164-183 | the syntax checks in the source's order, each as an if-and-only-if: a missing `<<` exactly when the chunk does not start with it; a missing `>>` exactly when it starts with `<<` and holds no `>>`; a missing colon exactly when it is closed and its trimmed text after the first `>>` does not start with `:`; a missing description exactly when that text has a colon and nothing but white space after it; otherwise the parts, whose name is the trimmed text between `<<` and the first `>>` and whose rest is the trimmed, non-empty text after the colon |
| VarDesc.FindClose | assets/admin-excel.js:168-174 | in `<<name>>…` with no `>` in the name, the first `>>` closes the name |
| VarDesc.FieldsWellFormed | assets/admin-excel.js:164-183 | a chunk written as `<<name>>:rest` passes every syntax check with that name and rest |
| VarDesc.ParseChunk | assets/admin-excel.js:164-196 | each of the four syntax rejections exactly when its check in `Fields` fails; an empty-name rejection exactly when the syntax passes and the canonical name is empty; acceptance exactly otherwise, with the canonical name as its key; an accepted key is a non-empty canonical name and no rejection is for an empty description; an accepted chunk's description and default are the split of the trimmed text after the colon |
| VarDesc.RejectMissingFormat | assets/admin-excel.js:164-167 | `nom: x` is rejected for the missing format |
| VarDesc.RejectMissingClose | assets/admin-excel.js:168-172 | `<<nom: x` is rejected for the missing `>>`, since no `>>` occurs anywhere in it |
| VarDesc.RejectMissingColon | assets/admin-excel.js:173-178 | `<<name>>after`, with no `>` in the name and a trimmed `after` not starting with a colon, is rejected for the missing colon |
| VarDesc.RejectMissingDescription | assets/admin-excel.js:179-183 | `<<name>>after`, with no `>` in the name and a trimmed `after` that is a colon followed only by white space, is rejected for the missing description |
| VarDesc.KeysAreAcceptedKeys | assets/admin-excel.js:163-203 | the keys of the parsed map are the accepted keys with repeats removed, in the order the chunks are read |
| VarDesc.StepKeys | assets/admin-excel.js:200-203 | one chunk adds its key to the map's keys when it is accepted and new, and nothing otherwise |
| VarDesc.KeysInAcceptanceOrder | assets/admin-excel.js:278 | `varDesc.keys()` lists the accepted keys in the order of their first acceptance, so the unused-description warnings list them in that order |
| VarDesc.DescriptionKeysOrder | assets/admin-excel.js:153-203 | the keys of a description cell's map come in the order each was first accepted, chunk by chunk, which is the order `varDesc.keys()` gives the unused-description warnings at line 278 |
| VarDesc.ParseWellFormed | assets/admin-excel.js:164-196 | `<<name>>:rest` with a canonical name is accepted under that name with the description and default split from the rest |
| VarDesc.ParseFormatEntry | assets/admin-excel.js:164-196 | formatting an entry `<<name>>:description(default)` and parsing it gives the entry back |
| VarDesc.ChunkIssues | assets/admin-excel.js:164-199 | a rejected chunk raises exactly one issue with its reason; an accepted chunk raises one exactly when its description is empty |
| VarDesc.Step | assets/admin-excel.js:197-202 | folding a chunk appends exactly its issues and keeps the entries keyed by distinct canonical names |
| VarDesc.ParseVariableDescriptions | assets/admin-excel.js:153-205 | the entries are keyed by distinct, non-empty canonical names, and a blank cell gives no entry and no issue |
| VarDesc.IssuesPerChunk | assets/admin-excel.js:163-199 | the issues are those of each chunk, in chunk order |
| VarDesc.StepDescs | assets/admin-excel.js:200-202 | a step adds an entry only for a new accepted key and never changes a stored one |
| VarDesc.FirstAccepting | assets/admin-excel.js:200-202 | the first accepted chunk under a key, or none when no chunk is accepted under it |
| VarDesc.FirstWins | assets/admin-excel.js:197-202 | a key is present exactly when some chunk is accepted under it, and its entry is that of the first such chunk, even when its description is empty |
| VarDesc.FirstAcceptingPrefix | assets/admin-excel.js:200-202 | the first accepting chunk of a list is that of its prefix, or else the last chunk if it accepts |
| VarDesc.TwoAccepted | assets/admin-excel.js:197-202 | two accepted chunks with distinct keys and descriptions are both stored in order with no issue |
| VarDesc.TwoLineCell | assets/admin-excel.js:153-205 | a cell of two entry lines, the first with a default, stores both entries in order and reports nothing |
| VarDesc.TwoLineExample | assets/admin-excel.js:153-205 | `<<a>>:desc(val)` and `<<b>>:desc2` on two lines give `a` ↦ (desc, val) and `b` ↦ (desc2, '') with no issue |
| Header.SynonymsAreRequiredKeys | assets/admin-excel.js:58-67 | every value of the synonym table is a required key |
| Header.UnderscoreSynonymsUnreachable | assets/admin-excel.js:65 | the two underscore entries of the table are never looked up, as no normalised header equals them |
| Header.IsBlankTextMeaning | assets/admin-excel.js:98 | a blank cell is one made only of white space |
| Header.BlankIffTrimsEmpty | assets/admin-excel.js:98 | a row is blank exactly when every cell trims to `''` |
| Header.RawHeader | assets/admin-excel.js:99 | the trimmed header (`TrimEach` of the row) has one cell per column (its contents are `Header.HeaderCells`) |
| Header.Mapped | assets/admin-excel.js:100-101 | the mapped header has one key per column (its contents are `Header.HeaderCells`) |
| Header.HeaderCells | assets/admin-excel.js:99-101 | cell `k` of the trimmed header is cell `k` of the row, trimmed, and mapped cell `k` is the synonym-table or canonical form of that trimmed cell |
| Header.Missing | assets/admin-excel.js:103 | the missing list is no longer than the required list |
| Header.MissingMeaning | assets/admin-excel.js:103 | a key is missing exactly when it is required and not present |
| Header.RequiredKeysAreCanonical | assets/admin-excel.js:67 | every required key is a canonical key |
| Header.MappedAreCanonical | assets/admin-excel.js:101-102 | every mapped header cell is a fixed point of `canonicalKey` |
| Header.MissingKeysMeaning | assets/admin-excel.js:102-103 | a required key is missing exactly when no mapped header cell canonicalises to it |
| Header.CandidatesFrom | assets/admin-excel.js:96-104 | a blank row gives no attempt, and every other row gives the attempt of its own index |
| Header.Candidates | assets/admin-excel.js:96-104 | one candidate per row, absent exactly for blank rows, carrying its row index |
| Header.CandidateIsAttempt | assets/admin-excel.js:97-104 | the candidate of a non-blank row is that row's attempt |
| Header.AttemptsFrom | assets/admin-excel.js:104 | the collected attempts are exactly those of the candidates |
| Header.AttemptsFromOrdered | assets/admin-excel.js:104 | attempts are collected in row order |
| Header.FindHeader | assets/admin-excel.js:96-112 | the search stops at the first complete candidate, and when none is complete it has collected every attempt |
| Header.BestIndex | assets/admin-excel.js:114 | the chosen attempt has the fewest missing keys and no earlier attempt has as few |
| Header.Best | assets/admin-excel.js:114 | the first element after the stable sort is the earliest attempt with the fewest missing keys, and there is none exactly when there are no attempts |
| Header.BestIsBestCandidate | assets/admin-excel.js:114 | the sorted first attempt is the earliest non-blank row with the fewest missing keys |
| Header.Resolve | assets/admin-excel.js:96-123 | the header is the first complete candidate, with its mapped keys; otherwise no candidate is complete, and the best attempt is reported, absent exactly when every row is blank |
| Header.RowsToObjects | assets/admin-excel.js:89-135 | no rows give no records; the error is raised exactly when no row is a complete header; otherwise the records project the rows after the first complete header |
| Header.RowsToObjectsBest | assets/admin-excel.js:113-123 | the error carries no attempt exactly when every row is blank, and otherwise the best attempt |
| Header.CompleteMeaning | assets/admin-excel.js:102-105 | the accepted header row is non-blank and covers every required key |
| Header.Zip | assets/admin-excel.js:128-130 | a record has a key exactly for each non-empty header cell, so unknown header cells are kept |
| Header.ZipLastColumnWins | assets/admin-excel.js:128-130 | a key repeated in the header takes the value of its last column, `''` past the end of the row |
| Header.RowRecordValue | assets/admin-excel.js:126-130 | a data row's value under a header key is its cell in the last column with that key, trimmed, or `''` when the row is shorter |
| Header.NonBlankFrom | assets/admin-excel.js:125-126 | the rows kept are exactly the non-blank rows after the header, in increasing order |
| Header.ProjectOnePerRow | assets/admin-excel.js:124-134 | each non-blank row after the header gives exactly one record, in order, keyed by the header |
| Header.ProjectEntries | assets/admin-excel.js:124-134 | record `k` is the keyed record of the `k`-th non-blank row after the header |
| Builder.NormalizationWarnings | assets/admin-excel.js:222-225 | a warning is raised exactly when the sanitised id differs from both the raw id and its transliterated lower case |
| Builder.CheckId | assets/admin-excel.js:218-227 | an empty id and an id that sanitises to nothing are rejected with their errors; otherwise the id is accepted exactly when its lower case is not taken, and is the sanitised raw id; a taken id is a duplicate |
| Builder.MissingLabels | assets/admin-excel.js:240-252 | the missing labels are the labels of the empty fields, one each, in field order; none is missing exactly when every field is non-empty |
| Builder.MissingErrors | assets/admin-excel.js:253-254 | one error per missing label, in order |
| Builder.TemplateVars | assets/admin-excel.js:265-268 | a template's variable list is strictly sorted and holds exactly the non-empty canonical names of its placeholders |
| Builder.UnionOrder | assets/admin-excel.js:308 | the union is the FR names followed by the EN names the FR list lacks |
| Builder.Undescribed | assets/admin-excel.js:270-277 | the undescribed names are exactly the template variables without an entry |
| Builder.Unused | assets/admin-excel.js:278-285 | the unused names are exactly the described keys the template does not use |
| Builder.Report | assets/admin-excel.js:271-273 | a warning is raised exactly when its list is non-empty |
| Builder.DescriptionWarnings | assets/admin-excel.js:270-285 | each of the four warnings (FR and EN variables without an entry, FR and EN entries the template does not use) is raised exactly when its list is non-empty, and no other warning is; none at all exactly when every variable is described and every description used |
| Builder.FourReports | assets/admin-excel.js:270-285 | four reports of distinct warnings contain each warning exactly when its list is non-empty, and nothing else |
| Builder.Category | assets/admin-excel.js:258 | a non-empty FR category is the template's category |
| Builder.AddVariables | assets/admin-excel.js:305-306 | adding a record's FR then EN variables throws exactly when one of them is inherited and not stored; otherwise the catalog gains exactly the non-empty variables, each with the record's non-empty descriptions and default |
| Builder.AddVariablesWellFormed | assets/admin-excel.js:305-306 | adding a record's variables keeps the catalog well formed and free of inherited names |
| Builder.AnalyzeValid | assets/admin-excel.js:258-285 | a valid record keeps its id and warnings, carries its template, its sorted FR and EN variable lists and its parsed FR and EN description maps, and its further warnings are the EN issues, the FR issues, then the description warnings |
| Builder.Analyze | assets/admin-excel.js:218-320 | a record is rejected exactly when its id check fails, and otherwise keeps the checked id |
| Builder.Apply | assets/admin-excel.js:217-334 | a record whose variables throw stops the build with the state otherwise unchanged. Otherwise: a rejected record adds only its id warnings and its one error; a record with empty fields adds its id warnings and one error per empty field, and takes its id; a valid record adds its id warnings, then its description-cell and description-coverage warnings, no error, one template and one normalized row, and its catalog is the one its variables give. Every accepted id is taken, even when the record is then dropped |
| Builder.AnalyzeRowMatches | assets/admin-excel.js:310-332 | a valid record's normalized row has the same id, titles, descriptions and bodies as its template |
| Builder.ApplyRows | assets/admin-excel.js:310-332 | templates and normalized rows are pushed together, so they stay in step, one row per template |
| Builder.RunRows | assets/admin-excel.js:217-334 | after any run there is one normalized row per template, in the same order, each matching its template |
| Builder.ApplyExtends | assets/admin-excel.js:213-214 | one record only appends to the warnings, errors, templates and rows |
| Builder.RunExtends | assets/admin-excel.js:217-334 | the warnings, errors, templates and rows of the first records are a prefix of the whole run's: every list is in record order |
| Builder.AnalyzeBadId | assets/admin-excel.js:218-221 | an empty or unsanitisable id is rejected with exactly one error |
| Builder.ProcessBadId | assets/admin-excel.js:218-221 | a bad id adds one error and changes nothing else |
| Builder.AnalyzeIncomplete | assets/admin-excel.js:240-256 | a fresh id with an empty mandatory field lists the missing labels |
| Builder.ProcessMissingFields | assets/admin-excel.js:226-256 | such a record adds one error per empty field, naming its label and the id, takes its id, and adds no template |
| Builder.MissingErrorsCover | assets/admin-excel.js:251-254 | the errors name every empty field, one per empty field |
| Builder.AnalyzeComplete | assets/admin-excel.js:258-320 | a fresh id with every field yields its template |
| Builder.DroppedRecordReservesId | assets/admin-excel.js:226-256 | a later record with the id of a dropped one is rejected as a duplicate and adds no template |
| Builder.ProcessDescribes | assets/admin-excel.js:287-306 | after a valid record that does not throw, each variable its template uses is in the catalog with the record's non-empty FR and EN descriptions and its default value, FR before EN |
| Builder.AnalyzeValidDescs | assets/admin-excel.js:258-268 | a valid analysis carries the record's parsed description maps, and its template variables are exactly its non-empty FR and EN variables |
| Builder.ThrowsMeaning | assets/admin-excel.js:287-306 | with a catalog free of inherited names, a record throws exactly when it is valid and one of its template variables is an inherited name |
| Builder.ConstructorThrows | assets/admin-excel.js:210 | `constructor` is a canonical variable name, kept by `canonicalVar`, and inherited, so it throws against any catalog free of inherited names |
| Builder.RunStep | assets/admin-excel.js:217 | the run processes each record in turn, and nothing after a record that throws |
| Builder.AnalyzeValidSound | assets/admin-excel.js:258-320 | a valid analysis has the id of its template and exactly the FR and EN variables |
| Builder.AnalyzeSound | assets/admin-excel.js:218-320 | every analysis has a fresh, sanitised, non-empty id unless rejected, and a valid one has the id and variables of its template |
| Builder.ApplyIds | assets/admin-excel.js:226-227 | applying a sound analysis keeps the emitted ids sanitised, taken and pairwise distinct |
| Builder.ApplyCatalog | assets/admin-excel.js:287-320 | applying a sound analysis keeps the catalog holding exactly the template variables, each entry well formed and none an inherited name |
| Builder.CatalogCovered | assets/admin-excel.js:305-320 | every catalog key still comes from some template once a template is appended |
| Builder.CatalogHolds | assets/admin-excel.js:305-320 | every template variable is still a catalog key once a template is appended |
| Builder.FoldInv | assets/admin-excel.js:217-335 | both invariants hold after any fold whose analyses are sound |
| Builder.RunInv | assets/admin-excel.js:217-335 | the emitted ids are distinct sanitised ids, and the catalog holds exactly the template variables, each well formed and none an inherited name |
| Builder.RunThrows | assets/admin-excel.js:217-335 | a run throws exactly when some record is valid, given the records before it, and uses a variable that is an inherited name |
| Builder.RunThrowsStep | assets/admin-excel.js:217-335 | the throwing records of a run are those of its prefix plus, possibly, the last one |
| Builder.PrefixThrowsAt | assets/admin-excel.js:217-335 | whether an earlier record throws does not depend on the records after it |
| Builder.LastThrowsAt | assets/admin-excel.js:287-306 | the last record throws exactly when it is valid and uses an inherited name |
| Builder.RunLastStep | assets/admin-excel.js:217 | a thrown run stays thrown; otherwise the last record decides |
| Builder.RunNoInherited | assets/admin-excel.js:217-335 | a run that does not throw emits no template variable that is an inherited name |
| Builder.AnalyzeFromRecord | assets/admin-excel.js:258-320 | a valid analysis's template is the one its record describes |
| Builder.FoldTemplates | assets/admin-excel.js:217-335 | a fold emits at most one template per record, each from one of the records |
| Builder.RunTemplates | assets/admin-excel.js:217-335 | every emitted template comes from one of the records, and there are no more templates than records |
| Builder.TemplateShape | assets/admin-excel.js:258-320 | an emitted template has the sanitised id and the FR category; its subject is the title; its variables are the sorted FR names, then the sorted EN names the FR list lacks |
| Suggest.GenShortDesc | assets/admin-excel.js:345-349 | a blank seed gives the generic description; otherwise the French phrase, a space, `«`, a space, the trimmed seed, a space, `»` and a full stop |
| Suggest.TranslateDesc | assets/admin-excel.js:350-353 | a text without the French phrase and without guillemets is left unchanged |
| Suggest.ReplaceQuoted | assets/admin-excel.js:352 | the three replacements of `translateDesc` swap the phrase and both guillemets of a quoted seed |
| Suggest.TranslateGenerated | assets/admin-excel.js:350-353 | the translation of a generated description is the English phrase with the seed in curly quotes |
| Suggest.ChooseFrom | assets/admin-excel.js:385-387 | each chosen starter comes from the list and has a category neither present nor seen |
| Suggest.ChooseDistinct | assets/admin-excel.js:385-387 | no two chosen starters share a category |
| Suggest.ChooseCovers | assets/admin-excel.js:385-387 | every starter with a new category has one of its category chosen |
| Suggest.ChooseSubsequence | assets/admin-excel.js:385-387 | the chosen starters are a subsequence of the starter list, so the list order is kept |
| Suggest.DraftVars | assets/admin-excel.js:391-392 | a draft's variable list is duplicate-free, holds exactly the canonical names of its subject and body placeholders, and lists them in the order first seen: subject placeholders, then body placeholders |
| Suggest.MakeDraft | assets/admin-excel.js:389-403 | a draft is a suggestion with the starter's category, and its title, subject and body are the starter's FR and EN ones |
| Suggest.SuggestMissing | assets/admin-excel.js:377-404 | drafts are suggestions, one per category at most, none for a category already present, and one for every missing starter category |
| Suggest.SuggestMissingFromStarters | assets/admin-excel.js:377-404 | draft `i` is `MakeDraft` of the `i`-th chosen starter, and the chosen starters keep the order of the starter list |
| Suggest.Drafts | assets/admin-excel.js:389-403 | one draft per chosen starter, in order |
| Suggest.DraftShape | assets/admin-excel.js:389-402 | a draft's id is the sanitised French title, never suffixed; its English description is the translation of its French one; its variables are the FR ones, then the EN ones the FR list lacks |
| Suggest.BuildOutput | assets/admin-excel.js:207-342 | no export exactly when some valid record uses an inherited variable name, where the page shows an analysis error; otherwise the export has distinct sanitised ids and a catalog that holds exactly the template variables, each entry well formed and none inherited; each template comes from its own record; drafts are made exactly when requested; the export's warnings, errors and normalized rows are the run's, and there is one row per template, in order, each matching its template; the export's templates and variable catalog (every description and example) are the run's |
| Suggest.Assemble | assets/admin-excel.js:336-341 | the output of a consistent final state is consistent and carries the state's templates, catalog, warnings, errors and normalized rows; drafts are made exactly when requested |
| Suggest.Categories | assets/admin-excel.js:532 | one category per template, in order |
| Suggest.MetadataOf | assets/admin-excel.js:531-535 | version "1.0", languages fr and en, the template count, and the distinct non-empty categories of the templates, each from some template and none left out, in the order of their first use |
| PillEditor.ReplaceAll | src/components/SimplePillEditor.jsx:5-9 | a global replacement of an absent character changes nothing |
| PillEditor.ReplaceAllAppend | src/components/SimplePillEditor.jsx:5-9 | a global replacement distributes over concatenation |
| PillEditor.EscapeHtmlAppend | src/components/SimplePillEditor.jsx:3-9 | escaping distributes over concatenation |
| PillEditor.EscapeChar | assets/admin-excel.js:526 | a character is replaced exactly when it is one of the five specials |
| PillEditor.EscapeEach | assets/admin-excel.js:526 | the one-pass escape leaves no `<`, `>`, `"` or `'` |
| PillEditor.EscapeHtmlChar | src/components/SimplePillEditor.jsx:3-9 | on one character the five passes agree with the one-pass table |
| PillEditor.EscapeHtmlIsEscapeEach | src/components/SimplePillEditor.jsx:3-9 | the editor's five-pass escape equals the page's one-pass escape, because `&` goes first |
| PillEditor.EscapeHtml | src/components/SimplePillEditor.jsx:3-9 | text without a special character is unchanged |
| PillEditor.EscapeHtmlSafe | src/components/SimplePillEditor.jsx:3-9 | the escaped text holds no `<`, `>`, `"` or `'` |
| PillEditor.UnescapeEscape | src/components/SimplePillEditor.jsx:3-9 | decoding the five entities gives the escaped text back, so escaping loses nothing |
| PillEditor.UnescapeEach | assets/admin-excel.js:526 | decoding the one-pass escape gives the text back |
| PillEditor.ValueOf | src/components/SimplePillEditor.jsx:30 | the read throws exactly when the prop is there and lacks but inherits the name; an own value is read as it is; an absent prop or an absent, uninherited name reads as `''` |
| PillEditor.PillFor | src/components/SimplePillEditor.jsx:29-33 | no pill exactly when reading the value throws; otherwise a pill that stores `<<name>>`, is filled exactly when the value, trimmed, is non-empty, and shows the value when filled and `<<name>>` otherwise |
| PillEditor.Pieces | src/components/SimplePillEditor.jsx:28-50 | no pieces exactly when some placeholder's read throws; otherwise one piece per scanned token, in order: each literal as a text piece and each placeholder as its pill |
| PillEditor.StoredOfPieces | src/components/SimplePillEditor.jsx:33-49 | pieces that keep each literal and store `<<name>>` for each placeholder stand for the text of their tokens |
| PillEditor.PiecesRoundTrip | src/components/SimplePillEditor.jsx:28-50 | when nothing throws, the literal pieces and the stored `<<name>>` of each pill, in order, give back the text |
| PillEditor.PillsWellFormed | src/components/SimplePillEditor.jsx:23-33 | every pill names a non-empty placeholder free of `>` |
| PillEditor.PillMarkup | src/components/SimplePillEditor.jsx:29-45 | a pill's markup has class `filled` exactly when the trimmed value is non-empty, a `data-value` that decodes to `<<name>>`, and a body that decodes to the value when filled and to `<<name>>` otherwise; neither escaped part holds a quote or an angle bracket |
| PillEditor.RenderContent | src/components/SimplePillEditor.jsx:20-53 | a missing or empty text renders as nothing; otherwise rendering throws exactly when some placeholder's read throws, and else gives the HTML of the pieces in order |
| PillEditor.RenderInheritedThrows | src/components/SimplePillEditor.jsx:28-31 | a text starting with a placeholder whose name the prop lacks but inherits does not render |
| PillEditor.RenderPlain | src/components/SimplePillEditor.jsx:47-50 | a text with no placeholder renders as its escape |

## Left out

- Reading the workbook (`readXlsx`, `FileReader`, the XLSX library) is left out. It is binary decoding in a foreign library. The model starts from rows of text cells, with an absent cell read as `''`, as the source treats `null`, `undefined` and `''` alike.
- The page itself is left out: DOM rendering, notifications, the preview and suggestion buttons, and the accept action of a draft. The accept action appends a draft to the templates without touching the catalog.
- The export's file name, clock, `Blob` download, `localStorage` and the repository-replace request are I/O. Only the metadata record is modelled.
- Whether drafts are wanted is read from a page control in the source. Here it is the `generate` parameter of `Suggest.BuildOutput`.
- `translateTitleDeterministic`, `capitalize` and `synonymFor` are never called, so they are left out.
- When `ensureVar` throws, `buildOutput` returns nothing and the page shows an analysis error. The model marks the state as thrown and keeps it as it was before the record. The id the source has taken and the warnings it has pushed by then are never returned, so they are not modelled. The error text is not modelled either.
- `PillEditor.ValueOf`: the values of the `variables` prop are taken to be strings. A number or other non-string own value, whose `.trim()` would also throw, is not modelled.
- Messages are structured diagnostics. Their French wording and string interpolation are not modelled.
- The catalog is a map, so the insertion order of its keys in the JSON is not modelled. Template, warning, error and entry orders are modelled.
- Strings are sequences of Unicode scalar values, not UTF-16 code units. Every character the pipeline tests for lies in the Basic Multilingual Plane.
- `Strings.Less`: `sort()` compares UTF-16 code units and the model compares code points. The two orders differ only when characters outside the Basic Multilingual Plane are compared.
- `Strings.Lower`: does not model all of Unicode's `toLowerCase`, only ASCII and Latin-1 capitals. Other capitals are left unchanged.
- `Strings.ToAscii`: does not model all of Unicode NFD, only the Latin-1 letters through a decomposition table. Other characters are kept as they are before the combining marks are dropped.
- `Variables.ContainsCiMeaning`: `/pat/i` is read as comparing lower-case forms. That is exact for the ASCII and Latin-1 letters of the patterns used.
- `Suggest.TranslateGenerated`: states the translation only for generated descriptions with a non-blank seed that holds no closing guillemet. The generic description of a blank seed is not covered. The starters' titles are not blank and hold no guillemet.
- The other sources of the repository are not part of this model: the help center, the variables pop-out and page, the rich-text toolbar, the Lexical editor and its pill plugin, and the editor's DOM text extraction and focus handling. They are UI, cross-window messaging or wrappers over a foreign editor library.
