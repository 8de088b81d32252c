# Admission enquiry portal: record handling, in Dafny

This project models the record-handling logic of the admission-enquiry
portal and proves its properties. The portal has three React components
and a small importer script:

- **Dashboard** (`dashboard.dfy`). The staff dashboard has three parts:
  - A case-insensitive search over nine fields of the stored
    applications.
  - The Processed and Pending counters.
  - The Approve button, which marks every record with the open record's
    id as Approved and writes the list back to storage.
- **Counselor chat** (`counselor_chat.dfy`). The counselor assistant
  first looks up an application:
  - by an exact match on application number, id or name;
  - failing that, by a token extracted from the query (an `APP-dddd-dddd`
    number, else the first digit run, else the whole query).

  It keeps an append-only comment log per application under
  `comments_<appNumber || id>`. The session is a class whose step method
  is proved against a pure step function, `Respond`.
- **Admission form** (`admission_form.dfy`). The student's form covers:
  - the form state and its two change handlers;
  - the 12th-standard cutoff effect, `m + p/2 + c/2` written with two
    decimals;
  - the application number and Pending status given on submission;
  - the ranked school suggestions: filter, three-key sort, first 15,
    display text;
  - the keyboard handling of the suggestion list.

  The component state is a class whose handlers are methods.
- **School-directory importer** (`seed_blocks.dfy`). This is the loop of
  `server/seed_blocks.js` that chooses the spreadsheet rows to insert
  and counts the inserts that succeed. Whether the database accepts each
  insert is an input.

Two support modules complete the project:
- `text.dfy` gives the JavaScript string behaviour the components rely
  on: `trim` with JavaScript's whitespace set, an ASCII `toLowerCase`,
  `includes`, `startsWith`, integer `toString`, and a code-point order.
- `records.dfy` gives the stored record and `Array.prototype.filter`.

Three facts about the code shape the model:
- The dashboard search does not test the district.
- With all three marks zero the cutoff effect writes nothing.
- The code has no district grouping and no cutoff average.

## Model

| member | source | states |
|---|---|---|
| Text.TrimEmptyIffBlank | src/components/CounselorChat.jsx:29 | an input trims to the empty string exactly when every character is JavaScript whitespace |
| Text.TrimShape | src/components/CounselorChat.jsx:44 | the trimmed text is a slice of the input with no whitespace at either end, and everything cut off is whitespace |
| Dashboard.MatchesIffSomeField | src/components/Dashboard.jsx:19-31 | a record matches exactly when the lowered term occurs in the lowered text of at least one of the nine searched fields |
| Dashboard.SearchMembership | src/components/Dashboard.jsx:19-32 | a record of the list is in the search result exactly when it matches the term |
| Dashboard.SearchIsOrderedSubset | src/components/Dashboard.jsx:19 | the result is a subsequence of the list, in the same relative order, and holds each matching record as often as the list does and no other |
| Dashboard.EmptyTermKeepsAll | src/components/Dashboard.jsx:19-32 | an empty search term returns the whole list unchanged, in order |
| Dashboard.MissingFieldMatchesOnlyEmpty | src/components/Dashboard.jsx:22-30 | a missing field reads as `''` and matches only the empty term |
| Dashboard.AllFieldsMissing | src/components/Dashboard.jsx:22-30 | a record with none of the nine fields is shown only for the empty term |
| Dashboard.DistrictNotSearched | src/components/Dashboard.jsx:21-31 | changing a record's district never changes whether it matches |
| Dashboard.CountsWithinTotal | src/components/Dashboard.jsx:91-100 | the Processed count plus the Pending count is at most the number of applications |
| Dashboard.ApproveById | src/components/Dashboard.jsx:417-419 | same length; every record with the id gets status Approved and keeps all else; every other record is unchanged |
| Dashboard.ApproveChangesOnlyStatus | src/components/Dashboard.jsx:417-419 | approve changes no field but the status, and the status only on records with that id |
| Dashboard.ApproveIdempotent | src/components/Dashboard.jsx:417-419 | approving the same id twice gives the same list as approving it once |
| Dashboard.ApproveMonotoneCounts | src/components/Dashboard.jsx:417-419 | approving never lowers the Processed count and never raises the Pending count |
| Dashboard.DashboardView.constructor | src/components/Dashboard.jsx:14-17 | the shown list is the stored list, the search box is empty and no record is open |
| Dashboard.DashboardView.SetSearchTerm | src/components/Dashboard.jsx:116 | only the search term changes |
| Dashboard.DashboardView.Select | src/components/Dashboard.jsx:138 | the clicked row of the filtered table becomes the open record; nothing else changes |
| Dashboard.DashboardView.Close | src/components/Dashboard.jsx:402 | the modal closes; nothing else changes |
| Dashboard.DashboardView.Approve | src/components/Dashboard.jsx:416-424 | an already Approved record changes nothing; otherwise the shown list becomes the approved list, storage holds the same list, and the open copy is Approved |
| CounselorChat.FirstAppPattern | src/components/CounselorChat.jsx:56 | the index found is the leftmost match of `/APP-\d{4}-\d{4}/i`, and none means no match anywhere |
| CounselorChat.FirstDigit | src/components/CounselorChat.jsx:56 | the index found is the leftmost digit, and none means the query has no digit |
| CounselorChat.SearchTokenCases | src/components/CounselorChat.jsx:56-57 | the token is the lowered leftmost `APP-dddd-dddd` match; else the leftmost maximal digit run; else the whole lowered query |
| CounselorChat.FirstExact | src/components/CounselorChat.jsx:48-52 | the index found is the first record that app number, name (both lowered) or id text matches exactly, and none means no record does |
| CounselorChat.FirstFallback | src/components/CounselorChat.jsx:59-62 | the index found is the first record whose lowered app number or name contains the token, and none means no record does |
| CounselorChat.LookupExactFirst | src/components/CounselorChat.jsx:48-52 | the first exact match in list order is selected, even when some record would match the fallback token |
| CounselorChat.LookupFallbackFirst | src/components/CounselorChat.jsx:54-62 | with no exact match anywhere, the first record the token matches is selected |
| CounselorChat.LookupNone | src/components/CounselorChat.jsx:48-63 | nothing is found exactly when no record matches exactly and none matches the token |
| CounselorChat.LookupFromList | src/components/CounselorChat.jsx:48-63 | a found record is one of the stored applications |
| CounselorChat.CommentTextIgnoresLeadingWhitespace | src/components/CounselorChat.jsx:103 | with the prefix cut from the trimmed input, whitespace typed before `comment:` does not change the stored text |
| CounselorChat.CommentTextAsWrittenKeepsColon | src/components/CounselorChat.jsx:103 | as written, one leading space makes the stored text start with the prefix's colon, while the trimmed cut stores the same text as without the space |
| CounselorChat.CommentTextAgreesWithoutLeadingSpace | src/components/CounselorChat.jsx:103 | on every input whose first character is not whitespace, the cut as written and the cut from the trimmed input store the same text |
| CounselorChat.LookupTakesPriority | src/components/CounselorChat.jsx:65-89 | when a record is found it is selected and shown with its stored comments, and nothing is stored, even for a `comment:` input |
| CounselorChat.CommentNeedsSelection | src/components/CounselorChat.jsx:90-101 | a `comment:` input with nothing found and nothing selected stores nothing, keeps the selection empty and asks for a lookup first |
| CounselorChat.CommentAppended | src/components/CounselorChat.jsx:103-112 | for a comment turn with a record selected, the selected record's comment list grows by exactly one entry at the end, every other list is unchanged, and the selection stays |
| CounselorChat.NotFoundLeavesState | src/components/CounselorChat.jsx:122-130 | no match, no prefix, and no selection or an explicit `lookup`: the reply names the input and nothing changes |
| CounselorChat.CommentsAppendOnly | src/components/CounselorChat.jsx:110-112 | after any turn, every key's earlier comment list is a prefix of its new list |
| CounselorChat.SelectionFromList | src/components/CounselorChat.jsx:65-66 | the selection either stays as it was or moves to a record of the stored list |
| CounselorChat.CounselorSession.constructor | src/components/CounselorChat.jsx:5-17 | the session starts with the stored list, nothing selected, and the greeting as its only message |
| CounselorChat.CounselorSession.HandleSend | src/components/CounselorChat.jsx:27-41 | whitespace-only input changes nothing; otherwise the input is echoed and the turn applied, the reply following it |
| CounselorChat.CounselorSession.ProcessCommand | src/components/CounselorChat.jsx:43-132 | the new selection, comment store and appended reply are exactly those of `Respond` on the old state; the record list is unchanged; the comment text is the trimmed-input cut (see "Left out") |
| AdmissionForm.InitialForm | src/components/AdmissionForm.jsx:7-41 | the form starts with today's date and an empty district |
| AdmissionForm.SetField | src/components/AdmissionForm.jsx:120-123 | the named entry becomes the given text; every other entry, nested values included, is unchanged |
| AdmissionForm.SetNested | src/components/AdmissionForm.jsx:125-130 | exactly `formData[category][field]` changes: every other nested value and every other top-level entry is unchanged |
| AdmissionForm.ParseMarkRoundTrip | src/components/AdmissionForm.jsx:105-107 | the decimal text of an integer mark reads back as that integer |
| AdmissionForm.ParseMarkBlank | src/components/AdmissionForm.jsx:105-107 | a blank or missing mark counts as 0 |
| AdmissionForm.FormatFixed2RoundTrip | src/components/AdmissionForm.jsx:110 | the two-decimal rendering reads back as the same number of hundredths |
| AdmissionForm.CutoffValue | src/components/AdmissionForm.jsx:109-110 | a cutoff is produced exactly when some mark is non-zero, and it reads back as exactly `100m + 50p + 50c` hundredths |
| AdmissionForm.CutoffExample | src/components/AdmissionForm.jsx:110 | marks 90, 80 and 85 give `"172.50"` |
| AdmissionForm.CutoffUpdateOnlyCutoff | src/components/AdmissionForm.jsx:112-115 | the effect changes no top-level text entry and no nested value other than `marks12th.cutoff` |
| AdmissionForm.CutoffUpdateAllZero | src/components/AdmissionForm.jsx:109 | with all three marks 0 the form is left unchanged |
| AdmissionForm.CutoffUpdateWrites | src/components/AdmissionForm.jsx:109-116 | with some mark non-zero, the stored cutoff afterwards is the formatted `m + p/2 + c/2` |
| AdmissionForm.CutoffUpdateIdempotent | src/components/AdmissionForm.jsx:111 | running the effect again after it has run changes nothing |
| AdmissionForm.InitialFormHasNoCutoff | src/components/AdmissionForm.jsx:104-118 | the fresh form has blank marks, so the effect leaves it alone |
| AdmissionForm.AppNumberShape | src/components/AdmissionForm.jsx:134-136 | for a random part in [1000, 9999] the number starts with `APP-` and ends in a dash and four digits that read back as the random part |
| AdmissionForm.AppNumberMatchesPattern | src/components/AdmissionForm.jsx:136 | with a four-digit year the number has 13 characters of the form `APP-dddd-dddd` |
| AdmissionForm.AppNumberFoundByChat | src/components/AdmissionForm.jsx:136 | with a four-digit year the counselor chat extracts the whole number as its search token |
| AdmissionForm.Submission | src/components/AdmissionForm.jsx:138-143 | the stored record carries the new number, status Pending, the timestamp id and the form's name, school and district |
| AdmissionForm.SubmissionCountsPending | src/components/AdmissionForm.jsx:138-143 | a new submission raises the dashboard's Pending count by one and leaves the Processed count unchanged |
| AdmissionForm.PrecedesIrreflexive | src/components/AdmissionForm.jsx:72-90 | no school sorts before itself |
| AdmissionForm.PrecedesAsymmetric | src/components/AdmissionForm.jsx:72-90 | two schools never both sort before each other |
| AdmissionForm.PrecedesNegTransitive | src/components/AdmissionForm.jsx:72-90 | "does not sort before" is transitive, so the comparator is a strict weak order |
| AdmissionForm.Insert | src/components/AdmissionForm.jsx:72 | inserting adds exactly the one school to the multiset of schools |
| AdmissionForm.SortSchools | src/components/AdmissionForm.jsx:72-90 | the sort returns a permutation of the matching schools |
| AdmissionForm.InsertSorted | src/components/AdmissionForm.jsx:72-90 | inserting into a sorted list keeps it sorted for the comparator |
| AdmissionForm.SortSchoolsSorted | src/components/AdmissionForm.jsx:72-90 | the sort's result is sorted for the comparator |
| AdmissionForm.SuggestionsContents | src/components/AdmissionForm.jsx:66-92 | no suggestions for a query that trims to `''`; otherwise at most 15, each a directory school whose name contains the query, each shown as its display text in rank order |
| AdmissionForm.RankedOrder | src/components/AdmissionForm.jsx:72-90 | when a district is typed its schools come first; after that, names starting with the query come first; after that, names in order |
| AdmissionForm.FewMatchesAllShown | src/components/AdmissionForm.jsx:68-91 | with at most 15 matches every matching school is suggested, as often as the directory lists it |
| AdmissionForm.TopOfRanking | src/components/AdmissionForm.jsx:72-91 | for a query that is not blank, exactly the first 15 matches are shown (all when fewer), drawn from the matches without extra copies; no matching school the cut drops precedes any shown school |
| AdmissionForm.SuggestionCountIgnoresDistrict | src/components/AdmissionForm.jsx:66-92 | the typed district changes the order of the suggestions, never how many there are |
| AdmissionForm.SingleMatchRanked | src/components/AdmissionForm.jsx:66-91 | a one-school directory whose school matches suggests exactly that school |
| AdmissionForm.PickNotFound | src/components/AdmissionForm.jsx:66-91 | a school's display text never matches its own name, so it ranks nothing from a one-school directory |
| AdmissionForm.ArrowDown | src/components/AdmissionForm.jsx:370 | the highlight moves down by one exactly when it is above the last suggestion, and from [-1, len-1] it stays there |
| AdmissionForm.ArrowUp | src/components/AdmissionForm.jsx:373 | the highlight moves up by one exactly when it is above the first suggestion, and from 0 or above it never goes below 0 |
| AdmissionForm.EnterAsWritten | src/components/AdmissionForm.jsx:374-379 | as written: a negative index is ignored, an index in range picks that suggestion, and an index past the end picks `undefined` |
| AdmissionForm.EnterKey | src/components/AdmissionForm.jsx:374-379 | with the bound checked: never `undefined`, and a pick happens exactly for an index in range and is that listed suggestion |
| AdmissionForm.EnterAgreesInRange | src/components/AdmissionForm.jsx:374-376 | below the end of the list the bound-checked and as-written Enter agree |
| AdmissionForm.SecondEnterTakesUndefined | src/components/AdmissionForm.jsx:374-379 | with one matching school, a first Enter picks its display text; that query then has no suggestions, so a second Enter takes `undefined` |
| AdmissionForm.AdmissionFormState.constructor | src/components/AdmissionForm.jsx:7-47 | the state starts with the initial form, an empty school box, a closed dropdown, no highlight and nothing submitted |
| AdmissionForm.AdmissionFormState.HandleChange | src/components/AdmissionForm.jsx:120-123 | the form becomes `SetField` of the old form; nothing else changes |
| AdmissionForm.AdmissionFormState.HandleNestedChange | src/components/AdmissionForm.jsx:125-130 | the form becomes `SetNested` of the old form; nothing else changes |
| AdmissionForm.AdmissionFormState.ApplyCutoff | src/components/AdmissionForm.jsx:104-118 | the form becomes `CutoffUpdate` of the old form; nothing else changes |
| AdmissionForm.AdmissionFormState.TypeSchoolQuery | src/components/AdmissionForm.jsx:360-365 | the query and `schoolName` become the typed text, the dropdown opens and the highlight is cleared |
| AdmissionForm.AdmissionFormState.Focus | src/components/AdmissionForm.jsx:366 | the dropdown opens; nothing else changes |
| AdmissionForm.AdmissionFormState.ArrowDownKey | src/components/AdmissionForm.jsx:368-370 | the highlight becomes `ArrowDown` of the old one over the current suggestions and stays within the list |
| AdmissionForm.AdmissionFormState.ArrowUpKey | src/components/AdmissionForm.jsx:371-373 | the highlight becomes `ArrowUp` of the old one and stays within the list |
| AdmissionForm.AdmissionFormState.EnterSchool | src/components/AdmissionForm.jsx:374-379 | with no highlight the unprevented Enter submits the form (the effects of `Submit`, lines 132-161, via the form of line 238); a highlighted listed suggestion becomes the query and `schoolName` and the dropdown closes; a highlight past the end changes nothing; the highlight is kept as the source keeps it |
| AdmissionForm.AdmissionFormState.EscapeKey | src/components/AdmissionForm.jsx:380-381 | the dropdown closes; nothing else changes |
| AdmissionForm.AdmissionFormState.Submit | src/components/AdmissionForm.jsx:132-161 | on acceptance the number is shown and the Pending record is appended to storage; on failure nothing changes |
| SeedBlocks.TruthyCellHasText | server/seed_blocks.js:70-75 | a truthy cell, text or number, has non-empty text |
| SeedBlocks.RowBlock | server/seed_blocks.js:64-78 | columns 1 to 5 map to district, block, school, address and pincode; district and school are non-empty, and a falsy optional column is `''` |
| SeedBlocks.SeedBlocks | server/seed_blocks.js:26-85 | an empty sheet writes nothing; otherwise the table is exactly the accepted qualifying rows in order, and the count is its length |
| SeedBlocks.InsertedFromQualifying | server/seed_blocks.js:63-79 | every inserted row comes from a row that qualifies and that the database accepted |
| SeedBlocks.InsertedRowsHaveNames | server/seed_blocks.js:63-70 | every stored row has a non-empty district and school name |
| SeedBlocks.InsertedCount | server/seed_blocks.js:58-85 | the count is at most the number of qualifying rows, which is at most the number of rows; with every insert accepted it equals the qualifying rows |
| SeedBlocks.InsertedAppend | server/seed_blocks.js:60-85 | two stretches of rows insert what each stretch inserts, in order |
| SeedBlocks.InsertedSplit | server/seed_blocks.js:60-85 | splitting the rows at any point splits the inserted rows there |
| SeedBlocks.InsertedFirst | server/seed_blocks.js:60-85 | the rows insert the first row's values, then the rest's |
| SeedBlocks.FailedInsertSkipped | server/seed_blocks.js:71-82 | a failed insert is skipped: the rows before and after it insert as if it were not there |
| SeedBlocks.HeaderRowSkipped | server/seed_blocks.js:63 | the `'S NO'` header row is never inserted, whatever the database would say |

## Left out

- CounselorChat.Respond: stores the comment text with the `comment:` prefix cut from the trimmed input (`CommentText`), the corrected reading of line 103. Line 103 as written cuts the raw input (`CommentTextAsWritten`). The two agree on every input whose first character is not whitespace (CommentTextAgreesWithoutLeadingSpace). For input that does start with whitespace, the session stores the corrected text rather than the text shown under Findings.
- CounselorChat.CommentAppended: the appended entry's text is the corrected cut, as for `Respond` above.
- CounselorChat.CounselorSession.ProcessCommand: stores the corrected cut, as for `Respond` above.
- `fetch` calls and the Express/SQLite server are left out: they are HTTP and database I/O. The post in `handleSubmit` is an `accepted` flag. The fetched school directory is a constructor parameter.
- localStorage and JSON (de)serialisation are left out. Storage is the stored-record list and a map from key to comment list.
- The 500 ms `setTimeout` delays are left out; bot replies are appended at once.
- `Date.now()`, `new Date()`, `Math.random()` and `toLocaleDateString` are parameters: the year, the random part, the id and the comment date.
- The wording of the bot's replies is left out. A reply is a tag with the data it shows: the record and its comments, the saved text, or the query.
- Rendering, styling, modals, routing, login and the landing page are left out. So are the click-outside handler, the clear (X) button, the mouse pick of a suggestion and the `onMouseEnter` handler that moves the highlight Enter later reads (AdmissionForm.jsx:391-395, 440 and 445); they are presentation outside the named handlers.
- Reading the spreadsheet, dropping and recreating the table, and the transaction in `server/seed_blocks.js` are left out: they are foreign calls. Only the row loop and the empty-sheet check are modelled.
- The Python scripts are left out: they are wrappers over PDF and spreadsheet libraries.
- ToLower: only ASCII letters are lowered. JavaScript's full Unicode case mapping is not modelled.
- ParseMark: reads an optional sign and the integer digit run. The fraction and exponent that `parseFloat` also accepts are not read, so a mark like `"72.5"` counts as 72. IEEE rounding of `toFixed`, which this makes unnecessary, is not modelled either: the cutoff is exact in hundredths.
- Precedes: `localeCompare` is replaced by code-point lexicographic order on the lowered names. That order is total and strict; it is not JavaScript's UTF-16 code-unit order either, which differs for characters outside the Basic Multilingual Plane.
- SortSchools: modelled as a stable insertion sort. Any stable sort with the same strict weak order gives the same list; the engine's own sort algorithm is not modelled.
- RankedSchools: tests `Blank(query)` rather than `Trim(query) == ""`; TrimEmptyIffBlank proves the two the same.
- SetNested: a category that is not a mark group starts from an empty group. JavaScript would spread a string's characters into it, but no handler does that.
- Cell: spreadsheet cells are missing, text or whole numbers. Fractional numbers and dates are not modelled.
- Submission: only the fields the dashboard and chat read are kept. The other form entries and `studentUsername` are not carried into the stored record.

## Findings

| source | as written | input that shows it | evidently intended | confidence | as-written member | corrected member |
|---|---|---|---|---|---|---|
| src/components/CounselorChat.jsx:103 | the `comment:` test is made on the trimmed input, but the first eight characters are cut from the raw input | `" comment: good"` with a record selected stores `": good"` | cut the prefix from the trimmed input, storing `"good"` | high, not executed | CounselorChat.CommentTextAsWrittenKeepsColon | CounselorChat.CommentTextIgnoresLeadingWhitespace |
| src/components/AdmissionForm.jsx:374-379 | Enter takes `filteredSchools[selectedIndex]` without a bound check and leaves `selectedIndex` as it was | one matching school: Enter picks `"Name - Address"`, that query has no suggestions, a second Enter takes `undefined` | pick only an index inside the list | high, not executed | AdmissionForm.SecondEnterTakesUndefined | AdmissionForm.AdmissionFormState.EnterSchool |
