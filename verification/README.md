# oxen, modelled in Dafny

oxen builds a static site from a tree of org-mode files. It lists the
`.org` files, reads each file's title, tags, preview and `:ID:` UUIDs, and
registers every UUID in a map from UUID to file path. It then renders each
file to HTML, rewriting `id:` links into relative `file:….html` links.
Finally it writes an index page, one page per tag, and copies the static
assets. The repository holds two generations of this pipeline:

- the `generator` package, with phases over a `Pipeline` of
  `GenerationResult` counters;
- the older single-file `main.go`, with its own readers, statistics and
  tag deduplication.

This project models the sequential core of both generations as pure
functions over immutable data, and proves properties of that model.

| file | module | what it models |
|---|---|---|
| `wrappers.dfy` | `Wrappers` | `Option` and `Result` (Go's `nil` and `error` returns) |
| `gostrings.dfy` | `GoStrings` | the byte-level `strings` functions the core uses: `HasPrefix`, `TrimPrefix`, `TrimSuffix`, `Index`, `IndexByte`, `TrimSpace`, `Split`, `Join`, ASCII `ToLower` |
| `uuid.dfy` | `Uuid` | `isHexChar`, `isValidUUID`, and both `extractUUIDs` scanners: `:ID:`/`:id:` in `generator/utils.go`, `:ID:` only in `generator/generator.go` and `main.go` |
| `orgdoc.dfy` | `OrgDoc` | the go-org document as a datatype; `extractTitleFromAST`, `extractTagsFromAST`, `extractUUIDsFromAST` |
| `preview.dfy` | `Preview` | the whitespace collapse and byte truncation that end both preview extractors |
| `orglines.dfy` | `OrgLines` | the line-based `extractTitle`, `extractTags`, `extractPreview` of `main.go` |
| `paths.dfy` | `Paths` | slash paths as component lists: `filepath.Clean`, `Dir`, `Join`, `Rel` |
| `links.dfy` | `Links` | `replaceUUIDLinks`: the match scan, the splice loop, the relative link text |
| `results.dfy` | `Results` | `GenerationResult.Add`, `SetStartTime`, and the `Pipeline` fold |
| `discovery.dfy` | `Discovery` | `collectOrgFiles`, both `processFile` readers, UUID-map registration, both tag-map disciplines, the phase-one fold and `main.go`'s `phase2Worker` fold |
| `render.dfy` | `Render` | `generateHTML` (output path, sentinel, freshness, failure points), `GenerateHtmlPages`, and `main.go`'s statistics |
| `aggregate.dfy` | `Aggregate` | `GenerateIndexPage` (recent five, sorted tag list), `GenerateTagPages`, `CopyStaticFiles` |
| `site.dfy` | `Site` | this model's own composition of the phases into one `Pipeline` (the repository defines the registration API but never registers these phases): discovery first, then every output phase reading the finished maps |

Conventions:

- A Go string or byte slice is a Dafny `string`. Each `char` stands for
  one byte.
- A `time.Time` is an `int`, and `After` is `>`.
- Effects are parameters:
  - `Discovery.Source` is what `ReadFile` and `Stat` answer;
  - `Discovery.Parser` is the go-org parser and the preview text walk;
  - `Render.Env`, `Aggregate.IndexEnv` and `Aggregate.TagEnv` are the answers of `Stat`, the HTML writer, the templates, `MkdirAll` and `WriteFile`;
  - `Aggregate.StaticDir` is what `ReadDir` answers.
- The goroutines run one after another, in list order.
- Every `sync.Map.Range` visits its keys in an order given as a parameter.
  `Render.Enumerates` requires that order to list each key exactly once.
  The results that matter are proved not to depend on it (`Aggregate.TagListOrderFree`).
- The UUID-map key prefix is a parameter:
  - `generator/phase1.go:138` stores bare UUIDs (`Discovery.BareKeyPrefix`);
  - `main.go:243` stores `"id:"+uuid` (`Discovery.IdKeyPrefix`).
  The model's own composition `Site.Build` uses the `"id:"` form; see Findings.
- `main.go:290-348` (`replaceUUIDLinks`) is the same code as `generator/phase2.go:225-283`.
  `main.go:165-207` (`extractUUIDs`, `isValidUUID`, `isHexChar`) is the same code as `generator/generator.go:26-68`.
  One model serves each pair.

## Model

| member | source | states |
|---|---|---|
| Uuid.HexCharIsDigitSet | generator/utils.go:64-66 | isHexChar holds exactly for the 22 characters 0-9, a-f, A-F |
| Uuid.Rejections | generator/utils.go:49-62 | a string is rejected when its length is not 36, when offset 8, 13, 18 or 23 is not '-', or when any character is neither '-' nor a hex digit |
| Uuid.RejectionExamples | generator/utils.go:49-62 | the UUID with a 'g', the 32-digit form without hyphens and the empty string are rejected |
| Uuid.CanonicalFormValid | generator/utils.go:49-62 | every 8-4-4-4-12 arrangement of hex groups joined by hyphens is accepted |
| Uuid.ValidSplitsAtHyphens | generator/utils.go:49-62 | every accepted string is five groups of 8, 4, 4, 4 and 12 bytes joined by hyphens, each group made only of hex digits and hyphens (the converse of CanonicalFormValid, with hyphens allowed inside groups) |
| Uuid.AllHyphensValid | generator/utils.go:56-61 | a string of 36 hyphens is accepted, since '-' passes the per-character test |
| Uuid.NextMarker | generator/utils.go:21-32 | the marker the scan jumps to is the first one at or after the cursor; -1 means that no marker remains |
| Uuid.SkipSpacesSpaces | generator/utils.go:35-37 | after a marker only ' ' bytes are skipped, and the scan stops at the first other byte |
| Uuid.Step | generator/utils.go:34-44 | one turn of the loop moves the cursor strictly forward; after an accepted UUID it lands past the marker and the 36 bytes, within the text |
| Uuid.StepSound | generator/utils.go:39-41 | a UUID is appended only when the 36 bytes after the marker and spaces pass isValidUUID |
| Uuid.RejectAtMarker | generator/utils.go:42-44 | when the bytes after a marker are not a UUID, scanning resumes one byte past the skipped spaces, so later markers are still found |
| Uuid.ScanValid | generator/utils.go:39-41 | every element returned has 36 bytes and passes isValidUUID |
| Uuid.ExtractUuids | generator/utils.go:16-47 | the loop returns exactly the list of the step-by-step reference scan, and every element is a 36-byte valid UUID |
| Uuid.NoMarkerNoUuids | generator/utils.go:20-32 | text without a marker yields no UUIDs |
| Uuid.MarkedUuidFirst | generator/utils.go:34-41 | a marker, any run of spaces and a valid UUID yield that UUID first, then whatever the rest of the text yields, in textual order |
| Uuid.LowerMarkerOnlyInUtils | generator/generator.go:31-34 | ":id:" followed by a UUID yields it under the utils.go markers and nothing under the generator.go marker |
| Uuid.VariantsAgreeWithoutLowerMarker | generator/generator.go:26-49 | on text without ":id:" both scanners return the same list |
| OrgDoc.TitleFromAst | generator/phase1.go:144-152 | a non-empty TITLE keyword wins, then a non-empty title keyword |
| OrgDoc.TitleFromHeadline | generator/phase1.go:154-162 | with both keywords empty, the title is that of the first top-level headline whose title is non-empty |
| OrgDoc.TitleEmpty | generator/phase1.go:144-166 | the title is empty exactly when both keywords and every headline title are empty |
| OrgDoc.TagsFromAst | generator/phase1.go:168-178 | the result is empty exactly when no top-level headline has tags |
| OrgDoc.TagsFromFirstTagged | generator/phase1.go:169-175 | the result is the tag list of the first top-level headline with a non-empty one |
| OrgDoc.UuidsFromAst | generator/phase1.go:180-205 | the IDs have no duplicates, all pass isValidUUID, and are exactly the valid values of "ID" properties of top-level headlines |
| OrgDoc.UuidsComeFromIdProperties | generator/phase1.go:184-191 | every returned ID is the value of a property keyed exactly "ID" in a top-level headline's drawer |
| OrgDoc.DedupOrder | generator/phase1.go:191-194 | the IDs keep the order of their first occurrence (headline order, then property order) |
| OrgDoc.AddDrawerIds | generator/phase1.go:188-196 | the property loop keeps `uuids` equal to the de-duplicated candidates so far and `seen` equal to its set |
| OrgDoc.ExtractUuidsFromAst | generator/phase1.go:180-205 | the loop with its `seen` map computes the de-duplicated ID list |
| Preview.CutPoint | generator/phase1.go:261-264 | the cut walks back only over bytes above 127 and stops after a byte of at most 127, or at 0 |
| Preview.CutPointGreatest | generator/phase1.go:261-264 | every cut at or before the limit that follows a byte of at most 127 (or is 0) is at or before the cut chosen, so the walk stops at the first such point |
| Preview.Truncate | generator/phase1.go:260-268 | text within maxLen is kept; longer text becomes a prefix of at most maxLen bytes plus "...", and every dropped byte below maxLen is above 127 |
| Preview.TruncateAscii | generator/phase1.go:260-265 | on ASCII text the cut falls exactly at maxLen |
| Preview.TruncateBound | generator/phase1.go:260-268 | the result never exceeds maxLen + 3 bytes |
| Preview.CollapseCanonical | generator/phase1.go:257 | the Fields-join has no leading, trailing or doubled spaces |
| Preview.CollapseIdempotent | generator/phase1.go:257 | collapsing twice equals collapsing once |
| Preview.CollapseKeepsInk | generator/phase1.go:257 | the non-space bytes survive, in order |
| Preview.FieldsOfJoin | generator/phase1.go:257 | strings.Fields recovers the words joined by single spaces |
| Preview.PreviewTail | generator/phase1.go:257-268 | the collapsed text is returned when it fits, and the result is at most maxLen + 3 bytes |
| Preview.RegexCollapseIsFieldsCollapse | main.go:452-454 | `\n+` to space, `\s+` to space, then TrimSpace equals the Fields-join collapse on text without a vertical tab |
| OrgLines.LineTitle | main.go:371-385 | a line offers a title only when it is non-empty and trimmed |
| OrgLines.FirstOfferAt | main.go:370-386 | the first line that offers a title decides the result |
| OrgLines.FirstOfferNone | main.go:386-388 | when no line offers a title the result is "" |
| OrgLines.ExtractTitle | main.go:366-389 | the title is "" or trimmed |
| OrgLines.KeywordLineTitle | main.go:372-376 | a "#+title:" line, in any case, with a non-empty remainder gives the trimmed remainder |
| OrgLines.BareKeywordLineTitle | main.go:372-376 | a "#+title:" line with nothing after it offers nothing, so later lines are tried |
| OrgLines.HeadlineLineTitle | main.go:377-384 | "* " followed by a trimmed title gives that title |
| OrgLines.TitleBeforeTags | main.go:378-381 | a headline title is cut before the first " :" |
| OrgLines.TaggedHeadlineLineTitle | main.go:377-384 | "* T :a:b:" gives the title T without its tags |
| OrgLines.LineTagsNoColon | main.go:404-415 | no tag contains ':' |
| OrgLines.TaggedHeadlineLineTags | main.go:396-417 | the first tagged headline "* T :a:b:" gives exactly the tags a and b |
| OrgLines.TagTokenParts | main.go:410-415 | splitting ":a:b:" at ':' and dropping empty parts gives the tags back |
| OrgLines.NonEmptyMembers | main.go:411-414 | the kept parts are exactly the non-empty parts |
| OrgLines.ExtractTags | main.go:391-421 | every returned tag is non-empty |
| OrgLines.ExtractTagsFirst | main.go:396-417 | the result is the tag list offered by the first headline line holding " :", whatever later lines hold |
| OrgLines.ExtractTagsNone | main.go:396-420 | when no headline line holds " :" the result is nil |
| OrgLines.TaggedFirstLineWins | main.go:396-417 | a first line "* T :a:b:" gives exactly a and b, whatever the following lines hold |
| OrgLines.EmptyTagsStopScan | main.go:416-417 | "* T ::" gives nil and ends the scan, so a tagged headline on a later line is never read |
| OrgLines.SpaceAfterTagsLineTags | main.go:404-407 | the tag token ends at the first ' ' after it: "* T :a:b: more" gives exactly a and b |
| OrgLines.ExtractPreview | main.go:423-432 | text without a newline gives "", and the preview is at most maxLen + 3 bytes |
| OrgLines.ExtractPreviewSkipsFirstLine | main.go:434 | the first line never reaches the preview |
| OrgLines.ExtractPreviewIsPreviewTail | main.go:434-463 | after the first line, the preview is the phase-one tail applied to the cleaned text |
| Paths.Clean | generator/phase2.go:255 | a cleaned path has no "", "." or inner ".." components, and is rooted exactly when the input starts with '/' |
| Paths.CleanRender | generator/phase2.go:255 | rendering a clean path and cleaning it gives the path back |
| Paths.CleanIdempotent | generator/phase2.go:255 | cleaning is idempotent |
| Paths.RenderInjective | generator/phase2.go:255 | distinct clean paths render to distinct strings |
| Paths.Dir | generator/phase2.go:255 | Dir is in cleaned form, and names the same path as the prefix through the last '/' |
| Paths.DirOfChild | generator/phase2.go:255 | the directory of d/n is d |
| Paths.JoinPath | generator/phase2.go:154-157 | Join is in cleaned form and names the same path as a + "/" + b; an empty element is ignored; the result is "" exactly when both elements are |
| Paths.RelFails | generator/phase2.go:264-267 | Rel fails exactly when one path is rooted and the other is not, or when climbing out of the base would need an unknown name |
| Paths.RelResolves | generator/phase2.go:264 | joining the base with a successful Rel result leads to the target |
| Paths.RelSameDir | generator/phase2.go:264 | a target in the base directory is its bare name |
| Paths.RelSubDir | generator/phase2.go:264 | a target one directory down is sub/name |
| Paths.RelParentDir | generator/phase2.go:264 | a target in the parent's sibling position is ../name |
| Links.ScanOrdered | generator/phase2.go:243-244 | the matches found occur in the text, are sorted, and do not overlap |
| Links.ScanEmpty | generator/phase2.go:245-248 | no match is found exactly when no key occurs in the text |
| Links.SpliceOne | generator/phase2.go:271-280 | one match: text before, replacement, text after |
| Links.SpliceKeepsText | generator/phase2.go:271-280 | with every replacement equal to its key the text comes back unchanged, so the splice keeps every unmatched byte in order |
| Links.SpliceOverlapPanics | generator/phase2.go:274 | overlapping matches would slice backwards, the case where Go panics |
| Links.SpliceLoop | generator/phase2.go:257-282 | the loop with `lastPos` computes the recursive splice |
| Links.LinkPath | generator/phase2.go:264-267 | when Rel fails the raw target path is used |
| Links.Replacement | generator/phase2.go:269 | every replacement is "file:" + … + ".html" |
| Links.ReplaceUuidLinks | generator/phase2.go:226-228 | no keys, or key and path lists of different lengths, return the content unchanged |
| Links.ReplaceNothingFound | generator/phase2.go:243-248 | content in which no key occurs comes back unchanged |
| Links.ReplaceIsSplice | generator/phase2.go:225-283 | the result is the splice of the matches with each key's relative link |
| Links.ReplaceSingle | generator/phase2.go:255-282 | one occurrence of one key becomes that key's link, with the text around it kept |
| Links.LinkSameDir | generator/phase2.go:255-269 | a target in the same directory links as "file:name.html" |
| Links.LinkSubDir | generator/phase2.go:255-269 | a target in a subdirectory links as "file:sub/name.html" |
| Links.LinkParentDir | generator/phase2.go:255-269 | a target in the parent directory links as "file:../name.html" |
| Links.BareKeyKeepsIdPrefix | generator/phase1.go:137-139 | with bare UUID keys, `[[id:U][d]]` becomes `[[id:file:….html][d]]` |
| Links.PrefixedKeyRewritesLink | main.go:242-244 | with "id:"-prefixed keys, `[[id:U][d]]` becomes `[[file:….html][d]]` |
| Discovery.RelativeTo | generator/phase1.go:83-86 | root + "/" is stripped when present, else root alone, else nothing |
| Discovery.RelativeToJoined | generator/phase1.go:83 | a path below root + "/" comes back as the part below |
| Discovery.RelativeToSlashRoot | generator/phase1.go:84-86 | for a root ending in '/', the fallback strips root alone |
| Discovery.CollectOrgFilesExactly | generator/phase1.go:70-96 | the listing holds exactly the readable non-directory ".org" entries, each stored with its root-relative path and time |
| Discovery.CollectOrgFilesAppend | generator/phase1.go:73-94 | the listing of a concatenated walk is the concatenation of the listings |
| Discovery.RegisterFacts | generator/phase1.go:137-139 | after registration every UUID (with the key prefix) maps to the file's path, and no other key changes |
| Discovery.ProcessFile | generator/phase1.go:98-142 | a read failure is an error; an empty file gives nil; a non-empty file is an error exactly when its Stat fails and otherwise gives a FileInfo carrying the path, the Stat time and valid UUIDs |
| Discovery.ProcessFileLines | main.go:209-247 | a failed open or Stat is an error; an empty file gives nil; otherwise the FileInfo carries the path and the Stat time |
| Discovery.EmptyUnstattableFile | main.go:217-225 | an empty file whose Stat fails is skipped by phase one but is an error in main.go |
| Discovery.Outcome | generator/phase1.go:39-47 | a processed file keeps its listed path |
| Discovery.AppendTagsCounts | generator/phase1.go:52-57 | a tag named k times adds the file k times to that tag's list; the other lists are unchanged |
| Discovery.AppendTagsKeys | generator/phase1.go:52-57 | after appending, the tags are the old tags plus the file's tags |
| Discovery.AddTagUniqueFacts | main.go:273-285 | the duplicate check keeps a tag's paths distinct and puts the file under the tag; other tags are unchanged |
| Discovery.UniqueTagsFacts | main.go:272-286 | after a file's tags are added, each tag lists the file, paths stay distinct, and nothing is lost |
| Discovery.RepeatedTag | main.go:272-286 | a file tagged twice with t is listed twice in phase one and once in main.go |
| Discovery.Phase1FoldShape | generator/phase1.go:35-60 | the fold keeps the listing's length and paths, and counts exactly the files with UUIDs |
| Discovery.Phase1FoldMaps | generator/phase1.go:35-60 | the fold keeps every UUID registered and every map value pointing into the file list |
| Discovery.FindAndProcessOrgFiles | generator/phase1.go:22-68 | TotalFilesScanned is the listing's length; FilesWithUUIDs counts files with a UUID and never exceeds it; every UUID is registered to a listed path |
| Discovery.MainVisitKeeps | main.go:249-288 | a worker step keeps the counters equal to the file list, tag paths distinct, and every file under each of its tags |
| Discovery.MainDiscover | main.go:249-288 | after all workers the invariant holds and filesWithUUIDs never exceeds totalFiles |
| Render.HtmlRelPath | generator/phase2.go:156 | one trailing ".org" is replaced by ".html"; any other name gains ".html" |
| Render.HtmlRelPathInverse | generator/phase2.go:156 | from a page name, the ".org" source name is recovered |
| Render.HtmlRelPathInjective | generator/phase2.go:156 | distinct ".org" sources get distinct pages |
| Render.HtmlRelPathTrimsOnce | generator/phase2.go:156 | "x.org.org" becomes "x.org.html" |
| Render.OutputPath | generator/phase2.go:154-157 | the output path is non-empty, in cleaned form, and names DestDir joined with the page name (the page name alone when DestDir is empty) |
| Render.StaleWhenNewer | generator/phase2.go:159-165 | forcing, a missing page, or a newer source or template makes the page stale; otherwise it is kept |
| Render.ConvertInput | generator/phase2.go:209-214 | text whose first line does not start with "* " is passed on unchanged |
| Render.ConvertInputDropsHeadline | generator/phase2.go:210-214 | a first headline line is dropped with its newline |
| Render.ConvertInputSingleHeadline | generator/phase2.go:210-214 | a one-line headline document converts from "" |
| Render.GenerateHtml | generator/phase2.go:149-207 | the sentinel alone is skipped unread; a fresh page is left alone exactly when the freshness test holds; a written page went to the output path with the template's output for the rewritten, converted source |
| Render.GenerateHtmlSucceeds | generator/phase2.go:167-206 | a stale page is written exactly when reading, converting, templating, MkdirAll and writing all succeed; otherwise it is an error |
| Render.RangeListsCover | generator/phase2.go:106-118 | every map key appears in the keyword list, paired with its path |
| Render.GenerateHtmlPages | generator/phase2.go:102-147 | generated + errors equals the number of files; errors counts the failing pages; FilesSkipped stays 0 |
| Render.CountFailedZero | generator/phase2.go:127-132 | no error is reported exactly when no page fails |
| Render.NothingFailsAllGenerated | generator/phase2.go:150-152 | sentinel files are counted as generated |
| Render.StatsDelta | main.go:466-531 | each non-sentinel call moves exactly one of generated, skipped, or errors (by two); the sentinel moves nothing |
| Render.Phase3StatsAccount | main.go:533-564 | errors are twice the failing pages, and generated + skipped + errors/2 + sentinels equals the number of files |
| Render.OneFailureCountsTwice | main.go:551-553 | one failing page adds 2 errors in main.go and 1 in phase two |
| Render.MainOutcomes | main.go:466-474 | main.go skips exactly the sentinel file unread |
| Results.CountersDetermine | generator/types.go:78-87 | the seven counters and the start time determine a result |
| Results.Add | generator/types.go:89-99 | Add sums the seven counters field by field and drops the start time |
| Results.AddCommutes | generator/types.go:89-99 | Add is commutative |
| Results.AddAssociates | generator/types.go:89-99 | Add is associative |
| Results.AddZero | generator/types.go:89-99 | the zero result is Add's identity on the counters |
| Results.SetStartTime | generator/types.go:169-171 | SetStartTime changes only the start time |
| Results.NewPipeline | generator/types.go:180-186 | a new pipeline has no phases, nil files and zero counters |
| Results.WithPhase | generator/types.go:189-202 | registering appends the phase last and changes nothing else |
| Results.RunPhase | generator/types.go:197-201 | an output-only phase hands on the files it was given |
| Results.OutputOnlyKeepsFiles | generator/types.go:197-201 | a run of output-only phases leaves the files as they were |
| Results.RunFromSums | generator/types.go:207-211 | the fold's counters are the start counters plus the sum of every phase's counters |
| Results.ExecuteSums | generator/types.go:204-215 | Execute's counters are the pipeline's own plus the field-wise sum of the phase results |
| Results.ExecuteNoPhases | generator/types.go:204-215 | a pipeline with no phases returns nil files and zero counters |
| Results.RunFromSnoc | generator/types.go:207-211 | a phase registered last runs on the files the earlier phases left, and its counters are added last |
| Results.ExecuteWithPhase | generator/types.go:204-215 | executing a pipeline with one more phase adds that phase's result to the earlier run |
| Results.Execute | generator/types.go:204-215 | Execute stamps the given start time |
| Results.ExecuteLoop | generator/types.go:204-215 | the loop over phases computes the fold |
| Aggregate.SortByTimeOrdered | generator/phase3.go:97-101 | the sorted copy is newest first |
| Aggregate.SortByTime | generator/phase3.go:97-101 | the sorted copy is a permutation of the files |
| Aggregate.RecentPrefix | generator/phase3.go:102-106 | a prefix of a newest-first list is newest first, and no file after it is newer than any file in it |
| Aggregate.Recent | generator/phase3.go:95-107 | min(5, n) files, newest first, drawn from the list (all of them when n ≤ 5), none of the others newer than any chosen |
| Aggregate.BelowTotal | generator/phase3.go:127-129 | Go's string `<` orders any two distinct strings |
| Aggregate.BelowTransitive | generator/phase3.go:127-129 | Go's string `<` is transitive |
| Aggregate.SortByNameAscending | generator/phase3.go:127-129 | entries with distinct names sort into strictly ascending name order |
| Aggregate.TagList | generator/phase3.go:109-129 | one entry per tag, in ascending name order, each counting the tag's files |
| Aggregate.AscendingUnique | generator/phase3.go:127-129 | two ascending lists with the same entries are equal |
| Aggregate.TagListOrderFree | generator/phase3.go:109-129 | the tag list does not depend on the order Range visits the tags |
| Aggregate.PreambleContent | generator/phase3.go:131-137 | the preamble is "" when it cannot be read, else its HTML when conversion succeeds |
| Aggregate.GenerateIndexPage | generator/phase3.go:82-161 | exactly one of skipped, generated, error is 1; skipped exactly on the template-only freshness test; generated exactly when the template and the write succeed |
| Aggregate.IndexSkipIgnoresFiles | generator/phase3.go:86-93 | once the index is fresh the files and tags do not change the result |
| Aggregate.TagFileName | generator/phase3.go:39 | the tag is the name between "tag-" and ".html" |
| Aggregate.TagFileNameInjective | generator/phase3.go:39 | distinct tags get distinct page names |
| Aggregate.TagPage | generator/phase3.go:36-68 | a tag page is kept exactly on the template-only freshness test, never on its files' times, and written exactly when the template and the write succeed |
| Aggregate.TagTally | generator/phase3.go:56-67 | each tag adds at most one to one of the two counters |
| Aggregate.GenerateTagPages | generator/phase3.go:16-78 | TagPagesGenerated + Errors never exceeds the number of tags; each counts its own outcomes; kept pages count nowhere |
| Aggregate.FreshTagPagesReportNothing | generator/phase3.go:41-47 | with every tag page fresh the result is zero |
| Aggregate.StaticCopyResult | generator/phase3.go:169-200 | copied + errors equals the number of plain files listed |
| Aggregate.CopyStaticFiles | generator/phase3.go:165-201 | a missing directory gives zero; an unreadable one or a failed MkdirAll gives Errors = 1; otherwise the loop counts every plain file as copied or error |
| Aggregate.DirectoriesCountNothing | generator/phase3.go:185-188 | directories in the listing are passed over |
| Site.BuildPipeline | generator/types.go:180-202 | the model's own wiring of the registration API: a new pipeline with discovery as the full phase, then pages, index, tags and static files as output-only phases |
| Site.BuildRuns | generator/types.go:204-215 | for the model's own build, running the phases ends with the discovered index and sums the five phase results, each computed from that index |
| Site.Build | generator/types.go:204-215 | for the model's own build, TotalFilesScanned is the number of listed files; only the index can count as skipped; every file and the index count once among generated, skipped or errors |

## Left out

- Concurrency is left out: goroutines, `WaitGroup`, channels, atomics and `sync.Map`. The phases are folds in list order. The `LoadOrStore`-then-`Store` tag appends (generator/phase1.go:53-55, main.go:273-284) are not atomic; the no-loss and dedup properties hold for the sequential model only.
- The file system and libraries are parameters: reading, `Stat`, `mmap`, `ReadDir`, `MkdirAll`, `WriteFile`, `copyFile`, html/template, and the go-org parser and HTML writer. Their answers come in as values. Their own behaviour is not modelled.
- `filepath.WalkDir` is a parameter. Its order and its error entries are given.
- Aho-Corasick is left out. The matches come from a leftmost, first-key-wins, non-overlapping scan (`Links.Scan`), which needs non-empty keys. The automaton's own match list, and `mach.Build` failing, are not modelled.
- The preview's text walk (`collectText`, generator/phase1.go:207-251) and the sentence-spacing regex (generator/phase1.go:254) are not modelled. Together they are the parser parameter `collect`.
- The regex cleanup chain in main.go:436-451 is not modelled. It is the parameter `strip`.
- The whitespace handling is ASCII only: RE2's `\s` is modelled without the vertical tab, and `TrimSpace`/`Fields` with it.
- Uuid.IsValidUuid works on bytes. The source ranges over runes and truncates each with `byte(c)`, so the two agree on ASCII input only.
- GoStrings.Lower lower-cases ASCII only.
- `replaceUUIDLinks` runs on runes. The model uses the same byte string, which agrees with it for ASCII text.
- `sort.Slice` is not stable. Aggregate.SortByTime orders files with equal times by list order, which is one of the orders Go may produce. Aggregate.Recent states only what holds for every such order, apart from the choice among equal times.
- Counters are unbounded integers. Go's `int` and `int64` overflow is not modelled.
- `PrintSummary` and `printStats` are left out (console output).
- `SetupTemplates`, `convertOrgToHTML`'s go-org call, and the unused `title` that `generateHTML` computes (generator/phase2.go:181-182, main.go:499-500) are left out.
- `main.go`'s `walkDirectory`, `walkDirectoryConcurrent`, `generateTagPages`, `generateIndexPage`, `copyStaticFiles` and `main` are left out. They are earlier copies of the generator phases, or I/O wiring.
- `GenerateHtmlPages` reads `ctx.Workers`, which `BuildContext` lacks (generator/types.go:15-21). The model has no worker count.
- Site.BuildPipeline / Site.Build: the repository never wires its phases into a `Pipeline`; the callers run `FindAndProcessOrgFiles` and `GenerateHtmlPages` directly. This composition is the model's own. `GenerateHtmlPages`, `GenerateIndexPage` and `GenerateTagPages` take a template argument that `WithOutputOnlyPhase`'s function type cannot pass, so the model closes over their template answers. `CopyStaticFiles` takes only the context. Discovery here uses the corrected `"id:"` keys, not the bare keys generator/phase1.go:138 stores.
- Site.Build: an output phase given nil processed files reports zero counters, where Go would dereference nil. A build never reaches that case, because discovery always hands on an index.
- The tests expect `#headline-N` anchors, `HeaderLocation` values and an Atom feed. None of these exist in the code, and the model follows the code.

## Findings

| source | as written | input that shows it | evidently intended | confidence | as-written member | corrected member |
|---|---|---|---|---|---|---|
| generator/phase1.go:138 | the UUID map is keyed by the bare UUID, so link rewriting replaces only the UUID inside `id:…` | `[[id:U][d]]` with U registered becomes `[[id:file:x.html][d]]` | keys `"id:"+uuid`, as in main.go:243 and the phase-one tests, giving `[[file:x.html][d]]` | not executed; high | Links.BareKeyKeepsIdPrefix | Links.PrefixedKeyRewritesLink |
| main.go:551-553 | a failing `generateHTML` already counted its error, and the worker counts it again | one file whose read fails: `stats.errors` becomes 2 | one error per failing page, as `GenerateHtmlPages` counts in generator/phase2.go:128-132 | not executed; medium | Render.OneFailureCountsTwice | Render.GenerateHtmlPages |
