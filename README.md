# FIA decision documents: reconstructing the penalty record

The worker scrapes the FIA's listing of stewards' decision documents for a series and
season. It downloads each decision or offence PDF and asks a PDF reader for the page text
as a flat, draw-ordered list of fragments. From those fragments and the document's link it
rebuilds a structured penalty record and stores it unless it is already stored. The record
holds the series, the document type, the cleaned name, the date, the grand prix, the
penalty type, the weekend, the incident title, the header fields, the incident fields and
the stewards.

The reconstruction exists in two versions, and both are modelled separately:

- `createPenaltyDocument` (`utils/transformToPenaltyDoc.ts`), the newer one, is split into
  helpers. Module `PenaltyDoc` models it: filename cleaning, the document type and incident
  title, the required-field check, the segmentation of the fragments into header, incident,
  headline and reason/stewards spans, the incident clean-up, the weekend, the grouping of
  multi-fragment values, the key/value pairing and the record.
- `transformToDecOffDoc` (`utils/transformToDecOffDoc.ts`), the older single function, is
  the one the worker calls. Module `DecOffDoc` models it. It has seven required words, joins
  header lines that end in a comma, uses "Offence" as the label that ends the Fact run, and
  takes the stewards from the whole document.
- The `update-all` job of `worker.ts` is module `Worker`. It covers the anchor filter with
  the disallowed words of `myData/myData.ts`, the early return when nothing is accepted, the
  first-three selection, find-then-create against a store, the tally of settled units and
  the job-level errors.

Supporting modules:

- `JsText` gives the JavaScript primitives their ECMAScript meaning. This covers `trim`
  (the full white-space set), ASCII `toLowerCase`, `slice` with negative indices, `splice`
  on an array object, `indexOf`/`lastIndexOf` with -1, `replace`/`replaceAll` with string
  patterns, `split` and `join`.
- `Matchers` writes out the regular expressions as matchers: the suffix strippers, the
  keyword alternation and `no.\/.driver`.
- `Penalty` is the severity-ordered classifier. The list is the same in both transforms.
- `Fields` holds the skip-set grouping, written once and given the middle label
  ("Infringement" or "Offence"), and the stride-2 pairing loop.
- `Failures` holds the errors as a `Result`.

A throw is an `Err` naming the error. Reading a missing array element and calling a method
on it is `UndefinedAccess`. Concatenating a missing element gives the text "undefined", as
JavaScript does.

The loops that mutate state in the source are methods with loops here, and each is proved
equal to a function. Those functions are the subject of the lemmas:

- the grouping `while` loops with their skip set (`Fields.SplitIncidentStrings`,
  `Fields.GroupAt`);
- the pairing `for` loops (`Fields.PairUp`);
- the header comma join (`DecOffDoc.JoinCommaLines`);
- the required-field loops (`PenaltyDoc.CollectMissing`);
- the penalty `for`/`break` scan (`Penalty.ScanPenalty`);
- the anchor `forEach` (`Worker.CollectHrefs`);
- the in-place `splice` (`JsText.JsArray.Splice`);
- the store (`Worker.Store`, a class whose `records` field `Create` appends to).

The store and tally properties of the worker hold for any function `unit` from an href to
its reconstruction, provided each reconstructed record carries the job's series.
`Worker.UnitOf` is the job's own function, the older transform applied to the fetched
fragments, and `Worker.UnitOfSeries` proves that it carries the series.

## Model

| member | source | states |
|---|---|---|
| JsText.TrimStart | utils/transformToPenaltyDoc.ts:33 | the result is a suffix of the input; everything cut off is white space and the result does not start with white space |
| JsText.TrimEnd | utils/transformToPenaltyDoc.ts:33 | the result is a prefix of the input; everything cut off is white space and the result does not end with white space |
| JsText.TrimBounds | utils/transformToPenaltyDoc.ts:133 | `trim` returns the contiguous part between the leading and trailing white space, and that part is trimmed |
| JsText.TrimShape | utils/transformToPenaltyDoc.ts:133 | `trim` never lengthens, yields a trimmed text and keeps only characters of its input |
| JsText.TrimOfTrimmed | utils/transformToPenaltyDoc.ts:133 | `trim` leaves a trimmed text unchanged |
| JsText.TrimAll | utils/transformToDecOffDoc.ts:97 | the trimmed array has one entry per fragment, each the fragment trimmed |
| JsText.Lower | utils/transformToPenaltyDoc.ts:32 | `toLowerCase` keeps the length and lower-cases each character |
| JsText.Upper | worker.ts:113 | `toUpperCase` keeps the length and upper-cases each character |
| JsText.FindFrom | utils/transformToPenaltyDoc.ts:60 | `indexOf(sub, i)` gives the first occurrence from `i` on, or -1 exactly when there is none |
| JsText.ContainsAt | utils/transformToPenaltyDoc.ts:60 | an occurrence at any position makes `includes` true |
| JsText.ContainsWithin | utils/transformToDecOffDoc.ts:63-67 | a word contained in a window of a text is contained in the text |
| JsText.IndexOfFrom | utils/transformToPenaltyDoc.ts:135 | `indexOf` on an array gives the first equal element from `i` on, or -1 exactly when there is none |
| JsText.LastIndexOf | utils/transformToPenaltyDoc.ts:158 | `lastIndexOf` gives the last equal element, or -1 when there is none |
| JsText.Clamp | utils/transformToPenaltyDoc.ts:465 | a possibly negative `slice` index becomes a position within the sequence |
| JsText.SliceSplit | utils/transformToPenaltyDoc.ts:465-470 | `slice(0, k)` followed by `slice(k)` gives back the sequence for every `k`, negative or not |
| JsText.SliceLast | utils/transformToPenaltyDoc.ts:465 | `slice(-n)` is the last `min(n, length)` elements |
| JsText.JsArray.constructor | utils/transformToPenaltyDoc.ts:225 | the array object holds the given elements |
| JsText.JsArray.Splice | utils/transformToPenaltyDoc.ts:226-228 | `splice(start, count)` replaces the elements in place by the sequence with that window removed |
| JsText.ReplaceAllCharGone | utils/transformToPenaltyDoc.ts:31 | after `replaceAll('_', ' ')` no underscore is left and the length is unchanged |
| JsText.JoinAppend | utils/transformToDecOffDoc.ts:184 | joining two non-empty lists is joining each and putting the separator between them |
| JsText.Split | utils/transformToPenaltyDoc.ts:415-416 | `split` always yields at least one part |
| JsText.Without | utils/transformToPenaltyDoc.ts:176 | the filter removes every fragment equal to the given one, keeps only fragments of the input and never lengthens |
| JsText.WithoutAppend | utils/transformToDecOffDoc.ts:295 | the filter distributes over concatenation, so the order is kept |
| JsText.WithoutSplit | utils/transformToDecOffDoc.ts:295-302 | filtering a sequence cut at any index is filtering the two pieces |
| JsText.SliceLastAppend | utils/transformToDecOffDoc.ts:303 | `slice(-n)` of `a + b` is `slice(-n)` of `b` when `b` has at least n elements |
| JsText.TrimAt | utils/transformToPenaltyDoc.ts:34 | `trim` keeps exactly the span between the first and the last non-white character |
| JsText.TrimDash | utils/transformToPenaltyDoc.ts:96-100 | ` - t` trims to `- t`, and what follows the dash trims to `t` |
| JsText.TrimKeepsWord | utils/transformToPenaltyDoc.ts:96 | a word with non-white ends that starts the text still starts it after trimming |
| JsText.ReplaceAllAppend | utils/transformToPenaltyDoc.ts:31 | replacing every occurrence of a character distributes over concatenation |
| JsText.ReplaceAllAbsent | utils/transformToPenaltyDoc.ts:31 | replacing a character that does not occur changes nothing |
| Matchers.LowerIsLowered | utils/transformToPenaltyDoc.ts:89 | a lower-cased text is unchanged by lower-casing |
| Matchers.TrimLowered | utils/transformToPenaltyDoc.ts:32-33 | trimming keeps a text lower case |
| Matchers.ContainsLowered | utils/transformToPenaltyDoc.ts:89 | a lower-case word in a text is also in its lower-cased form |
| Matchers.FoldedIsExactOnLowered | utils/transformToPenaltyDoc.ts:90 | on lower-case text the `i` flag's case-insensitive comparison is plain equality |
| Matchers.DigitRunEnd | utils/transformToPenaltyDoc.ts:30 | `\d{1,}` consumes exactly the maximal run of digits |
| Matchers.KeywordEnd | utils/transformToPenaltyDoc.ts:90 | the alternation `(offence\|decision\|infringement)` either fails or ends within the text |
| Matchers.MatchEnd | utils/transformToPenaltyDoc.ts:29-30 | a match of any of the five patterns, tried at a position, either fails or ends inside the text after that position |
| Matchers.FirstMatchFrom | utils/transformToPenaltyDoc.ts:29-30 | the search finds the leftmost position where the pattern matches, and there is no match before it; it fails only when no position matches |
| Matchers.RemoveFirstMatch | utils/transformToPenaltyDoc.ts:29-30 | `replace(re, '')` never lengthens and keeps only characters of its input |
| Matchers.KeywordAt | utils/transformToPenaltyDoc.ts:90-91 | on lower-case text a keyword match is one of the three words, found at its position |
| Matchers.NoKeywordAt | utils/transformToPenaltyDoc.ts:90 | on lower-case text, where the alternation fails none of the three words starts |
| Matchers.KeywordMatch | utils/transformToPenaltyDoc.ts:90-91 | on lower-case text the matched text is one of the three keywords |
| Matchers.KeywordMatchEmpty | utils/transformToPenaltyDoc.ts:90-91 | on lower-case text the keyword search fails exactly when none of "offence", "decision", "infringement" occurs |
| Matchers.NowhereNotContained | utils/transformToPenaltyDoc.ts:90 | a word that occurs at no position is not contained |
| Matchers.LetterIsNotWhite | utils/transformToPenaltyDoc.ts:196 | a letter is not white space |
| Matchers.NoDriverIsLong | utils/transformToPenaltyDoc.ts:196 | a fragment matching `no.\/.driver` keeps at least eleven characters after trimming |
| Matchers.LowerKeeps | utils/transformToPenaltyDoc.ts:33 | lower-casing a lower-case text changes nothing |
| Matchers.LoweredAppend | utils/transformToPenaltyDoc.ts:33 | joining lower-case texts gives a lower-case text |
| Matchers.FirstMatchSkip | utils/transformToPenaltyDoc.ts:90 | positions where the pattern cannot match do not change the first match |
| Matchers.KeywordLetters | utils/transformToPenaltyDoc.ts:90 | the document keywords are made of lower-case letters |
| Matchers.NoKeywordAtSign | utils/transformToPenaltyDoc.ts:90 | no keyword match starts at a character that is not a letter |
| Matchers.KeywordFirst | utils/transformToPenaltyDoc.ts:90-106 | where a keyword occurs the keyword patterns match it there |
| Matchers.KeywordAfterSigns | utils/transformToPenaltyDoc.ts:90-91 | a keyword after only non-letters is the first match, and it is what `match` returns |
| Matchers.DashZeroAtEnd | utils/transformToPenaltyDoc.ts:29 | a final "_0" or "-0" is removed |
| Matchers.NoParenNoMatch | utils/transformToPenaltyDoc.ts:30 | a name without '(' has no "(n)" suffix to remove |
| Penalty.Classify | utils/transformToPenaltyDoc.ts:359-400 | the penalty type is always one of the twelve fixed strings |
| Penalty.ScanPenalty | utils/transformToPenaltyDoc.ts:377-399 | the `for`/`break` scan returns the classification |
| Penalty.ClassifyFromValues | utils/transformToPenaltyDoc.ts:381-398 | the scan yields "no penalty" or the canonical name of some list entry |
| Penalty.CanonicalInCategories | utils/transformToPenaltyDoc.ts:383-395 | every list entry folds to one of the categories: "drop of one position" to "grid", "stop & go" to "stop and go", "seconds" to "time", "drive through" and "pit lane" unfolded |
| Penalty.ClassifyPicksFirstMatch | utils/transformToPenaltyDoc.ts:381-398 | when entry `k` is contained and no earlier one is, the result is entry `k`'s canonical name |
| Penalty.ClassifyIsFirstEntry | utils/transformToPenaltyDoc.ts:381-398 | a decision is classified by the first list entry, in severity order, that its lower-cased first line contains |
| Penalty.CanonicalNotNone | utils/transformToPenaltyDoc.ts:383-395 | folding never produces "no penalty" |
| Penalty.ClassifyNoPenalty | utils/transformToPenaltyDoc.ts:377-399 | the scan yields "no penalty" exactly when it finds no contained entry |
| Penalty.ClassifyNone | utils/transformToPenaltyDoc.ts:377-399 | a decision is "no penalty" exactly when its lower-cased first line contains none of the fourteen entries |
| Penalty.DisqualifiedWins | utils/transformToPenaltyDoc.ts:362 | a decision mentioning "disqualified" is classified "disqualified", whatever else it mentions |
| PenaltyDoc.LowerKeepsNoUnderscore | utils/transformToPenaltyDoc.ts:31-32 | lower-casing introduces no underscore |
| PenaltyDoc.CleanFilenameShape | utils/transformToPenaltyDoc.ts:16-35 | the cleaned file name has no '_', is lower case and has no white space at either end |
| PenaltyDoc.DocumentType | utils/transformToPenaltyDoc.ts:86-92 | the type is always "offence", "decision", "infringement" or "wrong doc type" |
| PenaltyDoc.DocumentTypeWrong | utils/transformToPenaltyDoc.ts:86-92 | the type is "wrong doc type" exactly when none of the three keywords occurs once the grand prix name is removed |
| PenaltyDoc.DropLeadingDashShape | utils/transformToPenaltyDoc.ts:98-100 | dropping a leading dash keeps the title trimmed and never lengthens it |
| PenaltyDoc.TitleStartShape | utils/transformToPenaltyDoc.ts:96-100 | the title start is trimmed and no longer than the name |
| PenaltyDoc.TitleWithoutKeywordShape | utils/transformToPenaltyDoc.ts:103-112 | removing the keyword, with an optional "f1 "/"f2 "/"f3 " before it, keeps the title trimmed and never lengthens it |
| PenaltyDoc.DropTrailingDotShape | utils/transformToPenaltyDoc.ts:118-120 | dropping a trailing dot keeps a trimmed title trimmed and never lengthens it |
| PenaltyDoc.TitleEndShape | utils/transformToPenaltyDoc.ts:114-120 | the last dash and dot removals keep the title trimmed and never lengthen it |
| PenaltyDoc.IncidentTitleShape | utils/transformToPenaltyDoc.ts:94-122 | the incident title is trimmed and no longer than the file name |
| PenaltyDoc.GrandPrixOfName | utils/transformToPenaltyDoc.ts:440 | for a name `gp - rest` whose grand prix part is trimmed and has no '-', the grand prix name is `gp` |
| PenaltyDoc.AfterGrandPrix | utils/transformToPenaltyDoc.ts:86-100 | removing the first occurrence of `gp` from `gp - rest` leaves ` - rest` |
| PenaltyDoc.RemainderOfName | utils/transformToPenaltyDoc.ts:86-100 | lower-casing what is left after removing `gp` changes nothing when the rest is lower case |
| PenaltyDoc.KeywordPartLowered | utils/transformToPenaltyDoc.ts:86-92 | `kw - rest` is lower case when the rest is |
| PenaltyDoc.DocumentTypeOfName | utils/transformToPenaltyDoc.ts:86-92 | the document type of `gp - kw - rest` is the keyword `kw` |
| PenaltyDoc.DropDashOfSpaced | utils/transformToPenaltyDoc.ts:96-100 | trimming ` - u` and dropping its leading dash gives `u` back |
| PenaltyDoc.TitleStartOfName | utils/transformToPenaltyDoc.ts:96-100 | the title before its keyword check is `kw - rest` for the name `gp - kw - rest` |
| PenaltyDoc.TitleWithoutKeywordOfName | utils/transformToPenaltyDoc.ts:103-111 | the keyword step removes `kw` from the front of `kw - rest`, leaving ` - rest` trimmed |
| PenaltyDoc.NameParts | utils/transformToPenaltyDoc.ts:86-122 | for a clean name `gp - kw - rest` the grand prix name is `gp`, the document type is `kw` and the incident title is `rest` without a trailing dot |
| PenaltyDoc.CleanOfStem | utils/transformToPenaltyDoc.ts:16-35 | for an href without '/' whose stem has only lower-case letters, digits, '_', '-' and spaces, the clean file name drops "_0.pdf", turns '_' into spaces, lower-cases and trims |
| PenaltyDoc.CleanDocName | utils/transformToPenaltyDoc.ts:31-33 | lower-casing and trimming leave a document name `gp - kw - rest` unchanged |
| PenaltyDoc.SpacedDashed | utils/transformToPenaltyDoc.ts:31 | replacing '_' by spaces in `a_-_b` gives `a' - b'`, the pieces spaced |
| PenaltyDoc.SpacedWords | utils/transformToPenaltyDoc.ts:31 | replacing '_' by spaces in `a_b`, with no '_' in `a`, gives `a b'` |
| PenaltyDoc.SpacedStem | utils/transformToPenaltyDoc.ts:31 | the stem `g_-_kw_-_r` becomes `g' - kw - r'` with spaces |
| PenaltyDoc.CleanOfHref | utils/transformToPenaltyDoc.ts:16-35 | the clean file name of `g_-_kw_-_r_0.pdf` is `g' - kw - r'`, the spaced pieces joined by " - " |
| PenaltyDoc.HrefParts | utils/transformToPenaltyDoc.ts:436-442 | for the href `g_-_kw_-_r_0.pdf` the grand prix name is `g` spaced, the document type is `kw` and the incident title is `r` spaced, without a trailing dot |
| PenaltyDoc.PlainAppend | utils/transformToPenaltyDoc.ts:16-35 | names made of plain characters stay plain when joined |
| PenaltyDoc.ExamplePlain | utils/transformToPenaltyDoc.ts:16-35 | the example stem `australian_gp_-_offence_-_turn_4_incident` is made of plain characters |
| PenaltyDoc.ExampleGrandPrix | utils/transformToPenaltyDoc.ts:31 | `australian_gp` spaced is "australian gp" |
| PenaltyDoc.ExampleIncident | utils/transformToPenaltyDoc.ts:31 | `turn_4_incident` spaced is "turn 4 incident" |
| PenaltyDoc.IncidentWords | utils/transformToPenaltyDoc.ts:31 | the words of the example incident spell "turn 4 incident" |
| PenaltyDoc.ExampleParts | utils/transformToPenaltyDoc.ts:16-35 | the example's pieces meet the conditions of `HrefParts` |
| PenaltyDoc.ExampleDocName | utils/transformToPenaltyDoc.ts:86-122 | "australian gp - offence - turn 4 incident" is a document name with no trailing dot |
| PenaltyDoc.ExampleSpelled | utils/transformToPenaltyDoc.ts:16-35 | the example's words spell the href `australian_gp_-_offence_-_turn_4_incident_0.pdf` |
| PenaltyDoc.HrefPartsExample | utils/transformToPenaltyDoc.ts:436-442 | for `australian_gp_-_offence_-_turn_4_incident_0.pdf` the grand prix name is "australian gp", the document type "offence" and the incident title "turn 4 incident" |
| PenaltyDoc.MissingAt | utils/transformToPenaltyDoc.ts:58-73 | the positions of the words no lower-cased fragment includes, each once and in increasing order |
| PenaltyDoc.MissingOf | utils/transformToPenaltyDoc.ts:58-73 | a word is reported missing exactly when it is a required word that no lower-cased fragment includes |
| PenaltyDoc.MissingOfOrder | utils/transformToPenaltyDoc.ts:58-73 | the missing words come in list order: the k-th reported word is the upper-cased word at the k-th missing position |
| PenaltyDoc.IndexOfPrefix | utils/transformToPenaltyDoc.ts:75 | an element of a prefix first occurs in the whole where it first occurs in the prefix |
| PenaltyDoc.Dedup | utils/transformToPenaltyDoc.ts:75 | `Array.from(new Set(...))` keeps exactly the same members, has no duplicates, and lists them in the order of their first occurrences |
| PenaltyDoc.RequiredFieldsCheck | utils/transformToPenaltyDoc.ts:39-83 | the required-field check fails only with the missing-fields error; its list has no duplicates, is the union of the two missing lists, and lists the fields in the order of their first occurrences in the first list's missing words followed by the second's |
| PenaltyDoc.CollectMissing | utils/transformToPenaltyDoc.ts:58-64 | the `for` loop pushes exactly the missing words |
| PenaltyDoc.CheckForRequiredFields | utils/transformToPenaltyDoc.ts:39-83 | the method passes or throws as the required-field check does |
| PenaltyDoc.MissingOfEmpty | utils/transformToPenaltyDoc.ts:58-74 | nothing is missing exactly when every required word is in some fragment |
| PenaltyDoc.AllIncludedSix | utils/transformToPenaltyDoc.ts:40-55 | for a six-word list, "every word is included" is the conjunction over its six words |
| PenaltyDoc.BothMissingIff | utils/transformToPenaltyDoc.ts:74 | two lists that differ only in their fourth word both miss a word exactly when a shared word is missing or both fourth words are |
| PenaltyDoc.RequiredFieldsFailIff | utils/transformToPenaltyDoc.ts:39-83 | the required-field check throws exactly when one of competitor, time, fact, decision, reason is in no fragment, or neither "offence" nor "infringement" is in any |
| PenaltyDoc.FixAll | utils/transformToPenaltyDoc.ts:430-432 | every fragment, and only it, is spelling-fixed in place |
| PenaltyDoc.CleanupFrom | utils/transformToPenaltyDoc.ts:193-215 | the clean-up throws only the not-a-driver-penalty error |
| PenaltyDoc.MapSeq | utils/transformToPenaltyDoc.ts:195-212 | `map` keeps the length and applies the callback to each element |
| PenaltyDoc.MapSeqAppend | utils/transformToPenaltyDoc.ts:195-212 | `map` distributes over concatenation |
| PenaltyDoc.NoDriverIsNoTeam | utils/transformToPenaltyDoc.ts:196-205 | a driver line is never "team" nor "offence" |
| PenaltyDoc.StewardsIsPlain | utils/transformToPenaltyDoc.ts:196-208 | "The Stewards" is neither a driver line, nor "team", nor "offence", so it reaches the drop branch |
| PenaltyDoc.TrimmedLongIsNoKeyword | utils/transformToPenaltyDoc.ts:198-205 | a trimmed fragment longer than seven characters is neither "team" nor "offence" |
| PenaltyDoc.StewardsNoDriver | utils/transformToPenaltyDoc.ts:196 | "The Stewards" does not match `no.\/.driver` |
| PenaltyDoc.ThrowsIff | utils/transformToPenaltyDoc.ts:196-204 | the callback throws at `i` exactly when fragment `i` reads "team" and fragment `i+1` reads "manager" |
| PenaltyDoc.KeptIsRelabelled | utils/transformToPenaltyDoc.ts:196-211 | a non-throwing fragment is dropped exactly when it is "The Stewards" and is otherwise relabelled |
| PenaltyDoc.TeamManagerStep | utils/transformToPenaltyDoc.ts:198-202 | a team/manager pair occurs from `i` on exactly when it is at `i` or occurs from `i+1` on |
| PenaltyDoc.CleanupErrStep | utils/transformToPenaltyDoc.ts:195-213 | the clean-up from `i` throws exactly when fragment `i` throws or the rest does |
| PenaltyDoc.CleanupErrWitness | utils/transformToPenaltyDoc.ts:198-204 | a throwing clean-up has a team fragment directly followed by a manager fragment |
| PenaltyDoc.TeamManagerMakesErr | utils/transformToPenaltyDoc.ts:198-204 | a team fragment directly followed by a manager fragment makes the clean-up throw |
| PenaltyDoc.CleanupErrIff | utils/transformToPenaltyDoc.ts:193-215 | the clean-up throws exactly when some "team" fragment is directly followed by a "manager" fragment |
| PenaltyDoc.CleanupOkStep | utils/transformToPenaltyDoc.ts:195-213 | a successful clean-up is the kept part of the first fragment followed by the clean-up of the rest |
| PenaltyDoc.CleanupOkValue | utils/transformToPenaltyDoc.ts:193-215 | a successful clean-up is the fragments without "The Stewards", in order, each relabelled: driver lines to "Driver", "offence" to "Infringement" |
| PenaltyDoc.RelabelNotStewards | utils/transformToPenaltyDoc.ts:196-205 | relabelling a fragment other than "The Stewards" never produces "The Stewards" |
| PenaltyDoc.CleanupShrinks | utils/transformToPenaltyDoc.ts:193-215 | the cleaned span is never longer and holds no "The Stewards" |
| PenaltyDoc.HeaderFixed | utils/transformToPenaltyDoc.ts:137-147 | with five or more From/To fragments the fourth and fifth become one; with fewer the fragments are kept |
| PenaltyDoc.JoinMerge | utils/transformToPenaltyDoc.ts:139-140 | merging two neighbours with a space leaves the space-joined text unchanged |
| PenaltyDoc.HeaderFixedJoin | utils/transformToPenaltyDoc.ts:137-147 | merging the addressee lines changes the fragments but not their space-joined text |
| PenaltyDoc.FindHeadline | utils/transformToPenaltyDoc.ts:163-167 | the headline index is the first fragment longer than twelve characters that contains "the stewards" in lower case, or -1 when there is none |
| PenaltyDoc.LongerThanFour | utils/transformToPenaltyDoc.ts:231 | the filter keeps only fragments of the input longer than four characters |
| PenaltyDoc.SplicedSubset | utils/transformToPenaltyDoc.ts:226-228 | `splice` leaves only elements that were there |
| PenaltyDoc.WeekendCandidatesFromHead | utils/transformToPenaltyDoc.ts:217-232 | every weekend candidate comes from before the headline, is longer than four characters and is not "The Stewards" |
| PenaltyDoc.SplitSections | utils/transformToPenaltyDoc.ts:124-187 | the segmentation fails only as a non-driver penalty, a missing headline or an undefined weekend fragment |
| PenaltyDoc.GetWeekendDate | utils/transformToPenaltyDoc.ts:217-243 | the method, which splices its array in place, yields the weekend its specification function gives |
| PenaltyDoc.SplitPdfData | utils/transformToPenaltyDoc.ts:124-187 | the method yields the sections or the error its specification function gives |
| PenaltyDoc.KnownFieldsFromHead | utils/transformToPenaltyDoc.ts:225-228 | the three splices leave only fragments from before the headline |
| PenaltyDoc.SectionsWithoutStewardsLine | utils/transformToPenaltyDoc.ts:174-176 | the reason/stewards tail never holds "The Stewards" |
| PenaltyDoc.FindFirstSep | utils/transformToPenaltyDoc.ts:415 | the separator is found right after a part that cannot contain it |
| PenaltyDoc.SplitTwo | utils/transformToPenaltyDoc.ts:415 | splitting "date, time" on ", " gives back the two parts |
| PenaltyDoc.SplitNone | utils/transformToPenaltyDoc.ts:416 | splitting a text without the separator gives the text alone |
| PenaltyDoc.SplitThree | utils/transformToPenaltyDoc.ts:416 | splitting "DD/MM/YYYY" on "/" gives back day, month and year |
| PenaltyDoc.FormatDateRearranges | utils/transformToPenaltyDoc.ts:402-418 | when the locale renders "DD/MM/YYYY, time", the document date is "YYYY/MM/DD time" |
| PenaltyDoc.FormatDocumentDetails | utils/transformToPenaltyDoc.ts:327-336 | the stride-2 loop builds the pairing of the header fragments |
| PenaltyDoc.SessionOrDefault | utils/transformToPenaltyDoc.ts:489 | the session is the paired one when present and non-empty, and "N/A" otherwise |
| PenaltyDoc.WithSessionAndReason | utils/transformToPenaltyDoc.ts:487-491 | the incident information gets a session defaulted to "N/A" and the reason; every other entry is kept unchanged |
| PenaltyDoc.StewardsPartition | utils/transformToPenaltyDoc.ts:463-471 | the reason fragments followed by the stewards are the tail exactly; the stewards are its last `min(N, length)` fragments, N being 4 for f1 and 3 otherwise |
| PenaltyDoc.BuildRecord | utils/transformToPenaltyDoc.ts:437-494 | building the record from the sections fails only with undefined access: an unterminated Fact list or a missing Decision[0] |
| PenaltyDoc.CreatePenaltyDocument | utils/transformToPenaltyDoc.ts:420-495 | the method returns the record, or throws the error, that its specification function gives |
| PenaltyDoc.PenaltyDocumentChecksFirst | utils/transformToPenaltyDoc.ts:430-435 | the transform throws the missing-fields error exactly when the required-field check fails on the spelling-fixed fragments |
| PenaltyDoc.BuildRecordIs | utils/transformToPenaltyDoc.ts:437-494 | a built record is the one made from the grouped incident details and their first Decision line, both of which then exist |
| PenaltyDoc.BuildRecordFields | utils/transformToPenaltyDoc.ts:436-442 | a record's series is the job's, its name is the clean file name of the href and its type is the document type of that name |
| PenaltyDoc.BuildRecordNames | utils/transformToPenaltyDoc.ts:437-443 | a record keeps the series, has one of the four document types and a name with no '_' that is lower case and trimmed |
| PenaltyDoc.BuildRecordPenalty | utils/transformToPenaltyDoc.ts:473 | a record's penalty type is one of the twelve categories |
| PenaltyDoc.BuildRecordIncidentInfo | utils/transformToPenaltyDoc.ts:469-471 | a record's incident information has a non-empty session and the reason: the tail without its stewards, joined by spaces |
| PenaltyDoc.BuildRecordStewards | utils/transformToPenaltyDoc.ts:463-471 | a record's reason fragments followed by its stewards are the tail after the last "Reason" |
| PenaltyDoc.PenaltyDocumentIsBuilt | utils/transformToPenaltyDoc.ts:420-495 | a record is returned only once the required-field check and the segmentation have passed, and it is the record built from the sections |
| PenaltyDoc.PenaltyDocumentStewards | utils/transformToPenaltyDoc.ts:465 | a returned record's stewards never include "The Stewards" |
| PenaltyDoc.PenaltyDocumentThrowsOnOpenList | utils/transformToPenaltyDoc.ts:274-285 | fragments that pass the required-field check and the section split but leave a Fact list unterminated make the transform throw undefined access |
| Fields.FactItems | utils/transformToPenaltyDoc.ts:275-285 | the Fact list has one item per cursor position; an item is glued to its successor when that successor is shorter than six characters |
| Fields.DecisionEnd | utils/transformToPenaltyDoc.ts:304-315 | the Decision run ends at the first empty fragment or at the end |
| Fields.NextAt | utils/transformToPenaltyDoc.ts:259-322 | the next emitted position is past the current one |
| Fields.JoinRun | utils/transformToPenaltyDoc.ts:268-272 | the loop collects the fragments up to the stop label and adds exactly their positions to the skip set |
| Fields.GlueRun | utils/transformToPenaltyDoc.ts:275-284 | the glueing loop succeeds exactly when the middle label occurs from the cursor on; it then collects the Fact items and adds exactly their positions to the skip set, and otherwise reads `.length` of the missing element past the end and throws undefined access |
| Fields.DecisionRun | utils/transformToPenaltyDoc.ts:303-315 | the Decision loop collects the fragments up to the first empty one and adds exactly their positions to the skip set |
| Fields.GroupAt | utils/transformToPenaltyDoc.ts:260-320 | the `map` callback throws undefined access exactly at an unterminated ':'-list after "Fact"; otherwise it yields the group's value, and every position it consumes is in the skip set, so it is never emitted again |
| Fields.SplitIncidentStrings | utils/transformToPenaltyDoc.ts:255-325 | the `map` with its skip set and `while` loops yields the grouping, or throws where the grouping function does |
| Fields.GroupsOf | utils/transformToPenaltyDoc.ts:255-325 | the grouping with its error path: it throws only undefined access |
| Fields.GroupsOfStep | utils/transformToPenaltyDoc.ts:259-322 | the grouping throws at an unterminated ':'-list after "Fact", and is otherwise one value followed by the grouping from the next unskipped position |
| Fields.PrefixedSnoc | utils/transformToPenaltyDoc.ts:259-322 | putting values in front of a grouping, one at a time or all at once, agrees, and an error stays the error |
| Fields.GroupsOfDefined | utils/transformToPenaltyDoc.ts:255-325 | the grouping succeeds exactly when no Fact list is left unterminated, and then it is the error-free grouping |
| Fields.DefinedFinishes | utils/transformToPenaltyDoc.ts:259-322 | a grouping without error finishes |
| Fields.PlainKeepsErr | utils/transformToPenaltyDoc.ts:320 | plain fragments in front of a throwing grouping do not stop the throw |
| Fields.UnterminatedListThrows | utils/transformToPenaltyDoc.ts:276-283 | "Fact" followed by a ':'-ended fragment, with no middle label after it, makes the whole grouping throw undefined access |
| Fields.UnterminatedListExample | utils/transformToDecOffDoc.ts:222-235 | "Driver", "Fact", "parts:", "engine" with no "Offence" throws undefined access |
| Fields.GroupsStep | utils/transformToPenaltyDoc.ts:259-322 | the grouping is one value followed by the grouping from the next unskipped position |
| Fields.GroupsFold | utils/transformToPenaltyDoc.ts:259-322 | a value followed by a defined rest is a defined grouping |
| Fields.Strs | utils/transformToPenaltyDoc.ts:320 | plain fragments pass through as themselves |
| Fields.GroupsLength | utils/transformToPenaltyDoc.ts:259-322 | the grouping never has more values than there are fragments |
| Fields.DecisionTail | utils/transformToPenaltyDoc.ts:300-318 | after "Decision" with no empty fragment, the rest is one Decision value |
| Fields.IndexOfFromIs | utils/transformToPenaltyDoc.ts:268 | the first occurrence of a label is where the cursor stops |
| Fields.PlainThen | utils/transformToPenaltyDoc.ts:320 | a fragment not after a label is emitted as itself |
| Fields.ReasonRun | utils/transformToPenaltyDoc.ts:289-298 | the value after the middle label is the space-join of the fragments up to "Decision" |
| Fields.FactItemsShift | utils/transformToPenaltyDoc.ts:275-285 | the Fact items depend only on the fragments up to the middle label |
| Fields.FactValueAt | utils/transformToPenaltyDoc.ts:264-287 | the value after "Fact" is a prose join or an item list, and it ends at the middle label |
| Fields.FactRun | utils/transformToPenaltyDoc.ts:264-287 | the grouping from after "Fact" is the Fact value followed by the grouping from the middle label |
| Fields.TailGroups | utils/transformToPenaltyDoc.ts:289-318 | from the middle label on, the grouping is the label, the joined reason, "Decision" and the Decision value |
| Fields.FactGroups | utils/transformToPenaltyDoc.ts:264-287 | from "Fact" on, the grouping is "Fact", its value and the grouping from the middle label |
| Fields.GroupsOfWellFormed | utils/transformToPenaltyDoc.ts:255-325 | for a span with a Fact, a middle label and a Decision in order, the grouping is the plain fragments before "Fact", then "Fact" and its value, the label and the joined value, "Decision" and its value |
| Fields.Regroup | utils/transformToPenaltyDoc.ts:259-322 | regrouping the head and two tails gives one flat list |
| Fields.PlainBeforeOf | utils/transformToPenaltyDoc.ts:320 | fragments that are no labels form a plain head |
| Fields.StrsSnoc | utils/transformToPenaltyDoc.ts:320 | one more plain fragment extends the plain head |
| Fields.PlainPrefix | utils/transformToPenaltyDoc.ts:320 | a plain head is emitted unchanged, followed by the grouping after it |
| Fields.HeadIsPlain | utils/transformToPenaltyDoc.ts:320 | the fragments before the first label are emitted as themselves |
| Fields.GroupsListsNonEmpty | utils/transformToPenaltyDoc.ts:285-316 | every list value of the grouping has at least one item |
| Fields.PairUp | utils/transformToPenaltyDoc.ts:348-355 | the stride-2 `for` loop builds the pairing |
| Fields.PairsAbsent | utils/transformToPenaltyDoc.ts:348-355 | a key at no even position leaves the object's entry as it was |
| Fields.PairsLast | utils/transformToPenaltyDoc.ts:348-355 | a key takes the value after its last even position: a later duplicate overwrites an earlier one, and a missing final value is "" |
| Fields.DecisionHead | utils/transformToPenaltyDoc.ts:382 | `Decision[0]` is the first line of a Decision list, and undefined access when there is no Decision |
| Fields.StewardCount | utils/transformToPenaltyDoc.ts:463 | the steward count is 3 or 4 |
| DecOffDoc.FileNameShape | utils/transformToDecOffDoc.ts:17-30 | the file name has no '_' and is lower case |
| DecOffDoc.UnsuffixedChars | utils/transformToDecOffDoc.ts:53-56 | removing the suffixes keeps only characters of the name |
| DecOffDoc.DocNameShape | utils/transformToDecOffDoc.ts:53-56 | the unsuffixed name is trimmed, has no '_' and is lower case |
| DecOffDoc.DocType | utils/transformToDecOffDoc.ts:62-72 | the older type is "offence", "decision" or "wrong doc type" |
| DecOffDoc.DropKeywordShape | utils/transformToDecOffDoc.ts:82-88 | dropping a leading keyword keeps the title trimmed and never lengthens it |
| DecOffDoc.IncidentTitleShape | utils/transformToDecOffDoc.ts:74-94 | the older incident title is trimmed and no longer than the name |
| DecOffDoc.DropWordFront | utils/transformToDecOffDoc.ts:80-86 | removing a word from the front of `w - rest` leaves ` - rest` trimmed |
| DecOffDoc.DropKeywordFront | utils/transformToDecOffDoc.ts:80-86 | removing the keyword from the front of `kw - rest` leaves ` - rest` trimmed |
| DecOffDoc.DropKeywordMiss | utils/transformToDecOffDoc.ts:80-86 | a word that does not start the text is not removed |
| DecOffDoc.KeywordPartShape | utils/transformToDecOffDoc.ts:62-86 | `kw - rest` is trimmed, begins with `kw` and has at least eleven characters |
| DecOffDoc.TitleHeadOfName | utils/transformToDecOffDoc.ts:74-79 | the title before its keyword checks is `u` for the name `gp - u` |
| DecOffDoc.TitleOfPart | utils/transformToDecOffDoc.ts:80-90 | the keyword checks and the second dash step turn `offence - rest` or `decision - rest` into `rest` |
| DecOffDoc.IncidentTitleOfName | utils/transformToDecOffDoc.ts:74-94 | the older incident title of `gp - kw - rest` is `rest` for the keywords offence and decision |
| DecOffDoc.TypeWindowOfName | utils/transformToDecOffDoc.ts:62-65 | the ten-character window of `gp - u` is the ten characters after the dash |
| DecOffDoc.TenAfterDash | utils/transformToDecOffDoc.ts:64-65 | trimming ` - u` and keeping ten characters gives the ten characters after the leading space |
| DecOffDoc.WindowKeyword | utils/transformToDecOffDoc.ts:66-70 | the window after the dash contains "offence" exactly when the keyword is offence, and contains "decision" when it is decision |
| DecOffDoc.DocTypeOfName | utils/transformToDecOffDoc.ts:61-71 | the older document type of `gp - kw - rest` is `kw` for the keywords offence and decision |
| DecOffDoc.NameParts | utils/transformToDecOffDoc.ts:57-94 | for `gp - kw - rest` with kw offence or decision, the grand prix name is `gp`, the document type `kw` and the incident title `rest` |
| DecOffDoc.TypeWindowWithin | utils/transformToDecOffDoc.ts:63-66 | a word in the ten-character window is in the name without the grand prix |
| DecOffDoc.WindowWordSeenByNewer | utils/transformToDecOffDoc.ts:63-67 | a lower-case word in the window is found by the newer transform's search |
| DecOffDoc.KeywordsLowered | utils/transformToDecOffDoc.ts:67-69 | the two keywords are lower case |
| DecOffDoc.OlderKeywordSeenByNewer | utils/transformToDecOffDoc.ts:62-72 | when the older type is found, the newer search sees "offence" or "decision" |
| DecOffDoc.DocTypeAgreesWithNewer | utils/transformToDecOffDoc.ts:62-72 | a name the older version types as offence or decision is never "wrong doc type" for the newer one |
| DecOffDoc.OlderFormatPassesNewer | utils/transformToDecOffDoc.ts:34-49 | fragments that pass the seven-word check also pass the newer required-field check |
| DecOffDoc.JoinCommaLines | utils/transformToDecOffDoc.ts:104-119 | the `map` with its skip set yields the comma join |
| DecOffDoc.CommaJoinedNoComma | utils/transformToDecOffDoc.ts:112-117 | without a trailing comma every header fragment is kept as it is |
| DecOffDoc.JoinCons | utils/transformToDecOffDoc.ts:114 | joining one more fragment in front adds it and a separator |
| DecOffDoc.CommaJoinedAbsorbs | utils/transformToDecOffDoc.ts:112-114 | a fragment ending in ',' absorbs its successor with a space, and the successor is skipped |
| DecOffDoc.AbsorbLastText | utils/transformToDecOffDoc.ts:112-114 | absorbing the last fragment leaves the space-joined text unchanged |
| DecOffDoc.AbsorbText | utils/transformToDecOffDoc.ts:112-114 | absorbing a successor leaves the space-joined text unchanged |
| DecOffDoc.PlainText | utils/transformToDecOffDoc.ts:115-116 | keeping a fragment leaves the space-joined text unchanged |
| DecOffDoc.CommaJoinedText | utils/transformToDecOffDoc.ts:104-119 | when the last header fragment does not end in ',', the join changes the fragments but not their space-joined text |
| DecOffDoc.FilterFrom | utils/transformToDecOffDoc.ts:138-161 | the span filter throws only the not-a-driver-penalty error and never lengthens |
| DecOffDoc.TeamIsLong | utils/transformToDecOffDoc.ts:144-150 | a "team" fragment is longer than two characters and no driver line |
| DecOffDoc.ThrowsAtIff | utils/transformToDecOffDoc.ts:144-153 | past the first fragment, the callback throws exactly when "team" is directly followed by "manager" |
| DecOffDoc.FilterErrStep | utils/transformToDecOffDoc.ts:143-161 | the filter from `i` throws exactly when fragment `i` throws or the rest does |
| DecOffDoc.FilterErrWitness | utils/transformToDecOffDoc.ts:147-153 | a throwing filter has a team/manager pair past the first fragment |
| DecOffDoc.TeamManagerMakesErr | utils/transformToDecOffDoc.ts:147-153 | a team/manager pair past the first fragment makes the filter throw |
| DecOffDoc.FilterErrIff | utils/transformToDecOffDoc.ts:138-161 | the filter throws exactly when a "team" fragment other than the first is directly followed by "manager" |
| DecOffDoc.KeptAtIsLabelled | utils/transformToDecOffDoc.ts:144-158 | past the first fragment, fragments of length ≤ 2 and "The Stewards" are dropped, driver lines become "Driver" and the rest are kept |
| DecOffDoc.FilterOkStep | utils/transformToDecOffDoc.ts:143-161 | a successful filter is the kept part of fragment `i` followed by the rest |
| DecOffDoc.FilterOkFrom | utils/transformToDecOffDoc.ts:143-161 | from `i` on, a successful filter is the selected fragments in order, each relabelled |
| DecOffDoc.FilterOkValue | utils/transformToDecOffDoc.ts:138-161 | a successful filter drops the first fragment and keeps the others longer than two characters that are not "The Stewards", in order, driver lines relabelled |
| DecOffDoc.WeekendSplit | utils/transformToDecOffDoc.ts:164-179 | the weekend split fails, as undefined access, exactly when the span is empty |
| DecOffDoc.WeekendSplitRest | utils/transformToDecOffDoc.ts:164-179 | what follows the weekend is the span without its first one or two fragments |
| DecOffDoc.HeadlineBodySplit | utils/transformToDecOffDoc.ts:182-188 | the headline and the body partition the rest; with a "Driver" the body starts with it and the headline holds none |
| DecOffDoc.IncidentPartsOf | utils/transformToDecOffDoc.ts:138-188 | the incident parts fail only as a non-driver penalty or an undefined weekend fragment |
| DecOffDoc.StewardsShape | utils/transformToDecOffDoc.ts:292-296 | the stewards are the last `min(N, length)` fragments of the document without "The Stewards" |
| DecOffDoc.DocDateAgreesWithNewer | utils/transformToDecOffDoc.ts:349-360 | when the locale renders the date parts consistently, the two versions give the same document date |
| DecOffDoc.TimeHasNoComma | utils/transformToDecOffDoc.ts:360 | an hour and a minute without commas make a time without a comma |
| DecOffDoc.DateRegroup | utils/transformToDecOffDoc.ts:360 | the older date string regroups as the newer one |
| DecOffDoc.BuildRecord | utils/transformToDecOffDoc.ts:200-376 | building the record fails only with undefined access: an unterminated Fact list or a missing Decision[0] |
| DecOffDoc.RecordOf | utils/transformToDecOffDoc.ts:239-376 | once the incident fragments are grouped, building the record fails only with undefined access (a missing Decision[0]) |
| DecOffDoc.TransformToDecOffDoc | utils/transformToDecOffDoc.ts:9-377 | the method returns the record, or throws the error, that its specification function gives |
| DecOffDoc.DecOffChecksFirst | utils/transformToDecOffDoc.ts:34-49 | the transform throws "Incorrect document format." exactly when one of the seven words is in no fragment |
| DecOffDoc.DecOffDocumentIsBuilt | utils/transformToDecOffDoc.ts:9-377 | a returned record passed the word check and the span filter, and is the record built from the incident parts |
| DecOffDoc.BuildRecordNames | utils/transformToDecOffDoc.ts:363-369 | a record keeps the series, has one of the three types, a penalty among the twelve categories and a trimmed, lower-case name without '_' |
| DecOffDoc.BuildRecordReason | utils/transformToDecOffDoc.ts:300-304 | a record's Reason is the space-join of the tail after the last "Reason", without "The Stewards" and without its last N fragments; those fragments followed by the stewards of that tail make the whole tail, "The Stewards" is not among them, and once the tail holds N fragments the record's own stewards end it |
| DecOffDoc.StewardsOfTail | utils/transformToDecOffDoc.ts:292-303 | once the tail after the last "Reason" holds N fragments, the stewards of the whole document are the last N of that tail |
| DecOffDoc.DecOffDocumentThrowsOnOpenList | utils/transformToDecOffDoc.ts:222-235 | fragments that pass the word check and the filter but leave a Fact list unterminated make the transform throw undefined access |
| DecOffDoc.BuildRecordStewards | utils/transformToDecOffDoc.ts:292-296 | a record's stewards end the filtered document and never include "The Stewards" |
| Worker.Filter | worker.ts:46-61 | filtering never lengthens |
| Worker.CollectHrefs | worker.ts:44-61 | the `forEach` pushes exactly the accepted hrefs, in order |
| Worker.FilterMembers | worker.ts:46-61 | an element is kept exactly when it is in the input and passes the test |
| Worker.AcceptedMembers | worker.ts:46-61 | an href is accepted exactly when it is an anchor whose file name has no disallowed word and contains "car" together with "decision" or "offence" |
| Worker.FilterIsSubsequence | worker.ts:46-61 | filtering yields a subsequence |
| Worker.AcceptedIsSubsequence | worker.ts:46-61 | the accepted hrefs keep their page order, as a subsequence of the anchors |
| Worker.FilterAppend | worker.ts:46-61 | filtering distributes over concatenation |
| Worker.AcceptedAppend | worker.ts:46-61 | the accepted hrefs of two anchor lists are those of each, in order |
| Worker.DisallowedRejects | myData/myData.ts:14-27 | an href whose file name contains any disallowed word is rejected |
| Worker.LowerOfLowered | worker.ts:50-52 | lower-casing twice is lower-casing once |
| Worker.FirstMatch | worker.ts:84-92 | `findOne` finds a record exactly when one answers the query, and what it finds answers it |
| Worker.Store.constructor | worker.ts:66 | the collection starts with the given records |
| Worker.Store.FindOne | worker.ts:84-92 | `findOne` finds a stored record exactly when one answers the query, and what it finds answers it |
| Worker.Store.Create | worker.ts:98-101 | `create` appends the transformed record with manual_upload false and changes nothing else |
| Worker.InsertOnlyAppends | worker.ts:84-101 | offering a record appends it, flagged as no manual upload, exactly when no stored record answers its query; stored records are kept |
| Worker.InsertTwice | worker.ts:84-101 | a record offered twice is stored once |
| Worker.TitleIsNotKey | worker.ts:84-92 | a record differing from a stored one only in its incident title is not stored |
| Worker.InsertKeepsUnique | worker.ts:84-101 | offering records keeps the store free of duplicate keys |
| Worker.UnitRecordSeries | worker.ts:79-83 | every reconstructed record carries the job's series |
| Worker.UnitOfSeries | worker.ts:79-83 | every record the job's units reconstruct carries the job's series |
| Worker.OpenListRejected | worker.ts:79-105 | a document whose Fact list is left unterminated settles as rejected with undefined access |
| Worker.ProcessUnit | worker.ts:71-107 | a unit fulfils or rejects as its reconstruction does, and stores the record exactly when no stored record answers its query |
| Worker.FirstThree | worker.ts:68 | the processed hrefs are the first `min(3, accepted)` accepted hrefs |
| Worker.Settlements | worker.ts:67-110 | there is one settlement per processed href |
| Worker.UnitsStep | worker.ts:67-110 | one more unit appends its settlement and offers its record to the store |
| Worker.CountsPartition | worker.ts:116-117 | every settlement is counted once, as a success or as a failure |
| Worker.RunUnits | worker.ts:67-110 | running the units one after another gives their settlements and the store its specification function gives |
| Worker.RunJob | worker.ts:28-123 | the job handler returns the outcome and leaves the store as their specification functions give |
| Worker.JobErrors | worker.ts:34-43 | the job fails, with the store untouched, exactly when the page is unreadable or lacks `list-view` or `.decision-document-list`, and the error says which |
| Worker.NothingAcceptedLeavesStore | worker.ts:62-64 | the job returns "Updating all files finished." exactly when the page is read and no anchor is accepted, and then leaves the store as it was |
| Worker.SummaryTally | worker.ts:111-118 | new_documents_count is the accepted count, successes plus failures is `min(3, accepted)`, and the series is upper-cased |
| Worker.StoreAfterGrows | worker.ts:84-101 | the units only append to the store, at most one record each, and keep it free of duplicate keys |
| Worker.StoreAfterAdds | worker.ts:98-101 | every record the units add is the reconstruction of a processed href, stored as no manual upload |
| Worker.StoreAfterTwice | worker.ts:84-101 | running the units a second time on the same documents adds nothing |
| Worker.MatchSurvivesInsert | worker.ts:84-101 | a query the store answers is still answered after any record is offered |
| Worker.InsertedIsFound | worker.ts:84-101 | once a record of the job's series is offered, the store answers its query |
| Worker.AllFound | worker.ts:84-101 | after the units, every successful reconstruction is answered by the store |
| Worker.JobTwice | worker.ts:84-101 | for the job's own units, a second run on the same page and documents leaves the store as the first run left it |
| Worker.StoredStays | worker.ts:84-101 | after one run, every prefix of a second run leaves the store unchanged |

## Left out

- Date and time formatting (`new Date(...)`, `toLocaleString`) depends on the locale and the
  time zone. It is a function parameter: `toLocale` for the newer version and `part` for
  the older one. Only the rearrangement that follows it is modelled.
- PDF text extraction (`utils/pdfReader.ts`) and stream buffering
  (`utils/streamToBuffer.ts`) are not part of this model. A unit's download and reading is
  the input `fetch`, which gives the fragments or an error; it depends on the href alone.
- The HTTP requests (axios), DOM parsing (JSDOM), the `throng`/`bull` queue, the
  `setTimeout` pacing and `Promise.allSettled` concurrency are not modelled. The listing
  page is the input `MainPage`. The at most three units run one after another, in page
  order. This matches the source only as long as the units do not interleave.
- The database connection (`connectMongo`), persistence errors and schema validation are
  not modelled. The store is a sequence of records.
- `console.log` is left out. So is the error path of the connection at `worker.ts:66`.
- Strings are sequences of characters, not UTF-16 code units. Case mapping is ASCII only.
  An object key such as `__proto__` is an ordinary key.
- Two grouping `while` loops never end when their label is missing: the prose Fact run
  without its terminating label, and the run after that label without a "Decision" label.
  Past the end of the array they read `undefined`, which never equals the label. These
  inputs are excluded by the preconditions `Fields.Finishes`, `PenaltyDoc.Halts`,
  `DecOffDoc.Halts` and `Worker.AllHalt`. The ':'-list Fact run without its terminating
  label is not excluded. It reads `.length` of `undefined` and throws, and the model gives
  undefined access there (`Fields.UnterminatedListThrows`,
  `PenaltyDoc.PenaltyDocumentThrowsOnOpenList`, `Worker.OpenListRejected`).
- Worker.AllHalt: the assumption is made of every href `fetch` can read, not only of the
  at most three the job processes. It depends on `fetch` alone, so one unit's lemmas can
  use it without the listing page.
- Regular expressions are modelled only for the six patterns the core uses. There is no
  general regex engine.
- `PenaltyDoc.HrefPartsExample` proves the example file name
  `australian_gp_-_offence_-_turn_4_incident_0.pdf` with the name written as a
  concatenation of its words. `PenaltyDoc.ExampleSpelled` shows that those words spell the
  file name. The two are not combined into one statement about the literal.
- There is no such example for the older transform. Its suffix pattern runs after '_' has
  become a space, so it keeps a trailing " 0", and the title would end in "0".
- A unit that finds its record already stored settles as fulfilled, as the source's
  `resolve()` does. The summary therefore counts skips among the successes.
- The model follows the code in these places:
  - The worker's filter accepts only "decision" or "offence" together with "car"
    (`worker.ts:54-58`). The misspelled "infringment" and "infringement" are not accepted.
  - The newer file-name cleaning removes only a trailing `_0`/`-0`
    (`utils/transformToPenaltyDoc.ts:29`), not any digit run.
  - Its `(n)` pattern needs a '_' or '-' right before the parentheses
    (`utils/transformToPenaltyDoc.ts:30`).
  - The older `/(_|-){1}?\d{1,}$/` needs exactly one '_' or '-' (`{1}?` is a lazy
    exactly-once), and by then every '_' has already become a space
    (`utils/transformToDecOffDoc.ts:22-28`, 54). So "…_car_5.pdf" keeps "car 5", and only a
    trailing "-<digits>" is removed.
  - The reason slice `slice(0, N - N * 2)` is `slice(0, -N)`.
