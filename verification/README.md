# studysharebot file catalog, in Dafny

studysharebot is a Telegram bot for sharing study material. Authorised users
upload files into named categories. Anyone authorised can browse a category
page by page, search all file and category names, and download a file from a
button. Administrators add categories, delete files and read upload
statistics. This project models the catalog logic inside the bot's handlers
in `main.py` and proves what that logic guarantees.

Modules, one per concern of the handlers:

- `Common`: `Option`, `Result` and `Min`.
- `Text`: the Python string operations the handlers use. These are
  `str.strip()`, `str.lower()`, the substring test, `str(n)`, `int(s)`,
  `str.split` with and without a limit, and `str.join`.
- `FileNames`: the naming of an upload. It covers the sanitising substitution,
  `os.path.splitext`, the size and extension admission rule, and the loop
  that picks a free name (`ResolveCollision`, a `while` loop with
  invariants).
- `Callbacks`: the four inline-button formats (`category_idx_{i}`,
  `list_idx_{i}`, `page_list_{idx}_{page}`, `download_{idx}_{name}`), how the
  handlers parse each one, and the round trip between the two.
- `Paging`: sorting a directory listing, the page count and page slices, the
  first listing screen, `show_page_files`, and the pagination keyboard.
- `Search`: `perform_search_cmd`. The `results.append` loop nest is the
  method `CollectHits`, specified by the function `CategoryHits`.
- `Stats`: `update_user_stats`, the personal statistics, and the
  administrators' top-ten summary. The statistics dictionary is a sequence
  of entries in insertion order, so ties in the sort keep the dictionary's
  order.
- `Registry`: the comma-separated `CATEGORIES` value and its parsing, the
  checks and roll-back of `/addcategory`, and the two parsed forms of
  `/delete` with the removal of a file from a listing.
- `Repository`: the class `Catalog` holds the state the handlers change in
  place. That state is the category list, the files directory (each
  category's regular files in enumeration order) and the statistics. The
  class's methods are the state-changing handlers: upload, add a category,
  delete a file, record an upload. Its functions and lemmas tie the buttons
  each screen shows to what those buttons open.

Inputs from the outside world are parameters:

- the time of an upload (`now`);
- whether a download, `mkdir`, the config write, the confirmation message or
  an `unlink` raises (`saveFails`, `mkdirFails`, `writeFails`, `replyFails`,
  `unlinkFails`);
- the extent of the regular-expression class `\w` (`word`, a
  `FileNames.WordClass`).

## Model

| member | source | states |
|---|---|---|
| Text.Strip | main.py:570 | the result has no whitespace (Python's `isspace` set) at either end and is no longer than the input |
| Text.StripMeaning | main.py:570 | the result is a slice `s[a..b]` of the input with only whitespace before `a` and from `b` on: nothing inside is dropped or changed |
| Text.StripIdempotent | main.py:122-123 | stripping a stripped name changes nothing |
| Text.StripKeepsChars | main.py:122-123 | every character of a stripped name occurs in the unstripped piece |
| Text.ContainsAt | main.py:584 | `q in text` holds exactly when `q` occurs at some position of `text` |
| Text.NatToString | main.py:260 | the numeral of `n` is a non-empty string of digits whose value is `n`, with no leading zero except for 0 itself |
| Text.ParseIntToString | main.py:335 | `int(str(i)) == i` for every integer, negative ones included |
| Text.ParseNatToString | main.py:450 | `int` reads back the numeral of any natural number |
| Text.SplitHead | main.py:527 | splitting at a separator that follows a separator-free head yields that head, then the split of the rest with the limit lowered by one |
| Text.SplitPartsClean | main.py:122 | no part of an unlimited split contains the separator |
| Text.SplitJoin | main.py:760 | splitting the join of separator-free parts gives the parts back |
| FileNames.Sanitize | main.py:369 | the sanitised name holds only word characters and `.-[]()`, and is no longer than the original |
| FileNames.SanitizeIdempotent | main.py:369 | sanitising twice equals sanitising once; a name is left unchanged exactly when all its characters are allowed |
| FileNames.SanitizeKeepsClean | main.py:369 | a name made only of allowed characters is not changed |
| FileNames.SanitizeRun | main.py:369 | a maximal run of disallowed characters, of any length, becomes a single `_` |
| FileNames.SanitizeKeptPrefix | main.py:369 | a prefix of allowed characters passes through unchanged in front of the sanitised rest |
| FileNames.SanitizeRunAfter | main.py:369 | anywhere in a name, after allowed characters, a maximal run of disallowed characters becomes a single `_` |
| FileNames.LastIndexOf | main.py:394 | the position returned holds the character and no later position does, or -1 when it is absent |
| FileNames.SplitExt | main.py:377 | stem and extension concatenate to the name; an extension exists exactly when the last dot comes after the last `/` and some non-dot precedes it in that segment, and it is then everything from that dot on |
| FileNames.SplitExtOf | main.py:394 | a stem whose last segment has a non-dot character, joined by a dot to a dot-free extension, splits back into exactly that stem and extension |
| FileNames.LeadingDotsNoExtension | main.py:377 | a name whose only dots are leading ones (".bashrc") has no extension |
| FileNames.Extension | main.py:377 | the compared extension is non-empty exactly when `splitext` finds one, and is then the lower-cased tail from the last dot |
| FileNames.Admission | main.py:371-383 | an upload is refused as too large exactly when size > maximum (equal is admitted); nothing is admitted with an empty allow-list |
| FileNames.AdmissionMeaning | main.py:377-379 | within the size limit, a leading `*` admits every name; otherwise exactly the listed extensions are admitted, and a `*` further down admits nothing |
| FileNames.AdmissionIgnoresCase | main.py:377-379 | a name `stem.e` within the size limit is admitted when the lower-case form of `.e` is listed, whatever the case of `e` |
| FileNames.CandidateInjective | main.py:392-396 | different counters give different names: the loop never tries a name twice |
| FileNames.TryOneMore | main.py:392-396 | each round of the loop tries a fresh name from a finite set, so the loop ends |
| FileNames.ResolveCollision | main.py:390-397 | the chosen name does not exist in the directory, is the counter-th candidate (the name itself for 0, `stem_k+ext` otherwise), and every earlier candidate exists, so k is the smallest free suffix |
| FileNames.CollisionScenario | main.py:392-396 | "notes.pdf" is free in an empty directory; with it present the next candidate is "notes_1.pdf" |
| Callbacks.CheckIndex | main.py:489 | an index is accepted exactly when `0 <= idx < len(CATEGORIES)`, and is then returned unchanged |
| Callbacks.ChoiceRoundTrip | main.py:335 | `int(data.split("_", 2)[2])` reads back the index of `{head}_{middle}_{i}`; an out-of-range index is refused |
| Callbacks.CategoryDataRoundTrip | main.py:326-337 | a `category_idx_{i}` button parses back to `i`, and is refused when `i` is out of range |
| Callbacks.ListDataRoundTrip | main.py:448-452 | a `list_idx_{i}` button parses back to `i`, and is refused when `i` is out of range |
| Callbacks.PageRoundTrip | main.py:486-491 | `split("_")` and the two `int`s read back the index and the page of `{head}_{middle}_{idx}_{page}` |
| Callbacks.PageDataRoundTrip | main.py:266-272 | a `page_list_{idx}_{page}` button parses back to (idx, page), and is refused when idx is out of range |
| Callbacks.DownloadDataRoundTrip | main.py:527-533 | a `download_{idx}_{name}` button parses back to idx and the whole name, even when the name contains `_` |
| Paging.Insert | main.py:465 | inserting into a sorted listing keeps it sorted and adds exactly that one name |
| Paging.SortNames | main.py:465 | `sorted(...)` is ascending in code-point order and a rearrangement of the listing |
| Paging.SortedUnique | main.py:502 | two sorted rearrangements of the same names are equal |
| Paging.SortIgnoresEnumerationOrder | main.py:502 | the sorted listing does not depend on the order in which `iterdir` enumerates the files |
| Paging.TotalPagesIsCeiling | main.py:504 | the page count is the ceiling of n / 5, and zero exactly for an empty listing |
| Paging.PageOf | main.py:506-512 | a page exists exactly when 1 <= page <= total pages; the view carries that page number and the total page count; it holds 1 to 5 names, the slice starting at (page - 1) * 5, numbered from that position plus one; only the last page can be short |
| Paging.PagesUpToPrefix | main.py:510-512 | pages 1..k together are the first min(5k, n) names |
| Paging.PagesCoverListing | main.py:510-512 | all pages, first to last, concatenate to the whole sorted listing |
| Paging.ListCategory | main.py:459-473 | a missing or empty category shows the empty message, and any other category shows its first page |
| Paging.ListingIsPageOne | main.py:471-478 | the first listing screen is exactly page 1 of the paged view |
| Paging.ShowPage | main.py:497-512 | a missing directory is refused as such; otherwise a page is shown exactly when it is in range, so an empty category refuses every page |
| Paging.DisplayName | main.py:257 | a button caption keeps names of up to 30 characters; a longer name becomes its first 30 characters followed by `...`, 33 in all |
| Paging.CaptionsOfShortNames | main.py:257 | captions of names up to 30 characters are equal exactly when the names are |
| Paging.CaptionsCollide | main.py:257 | two longer names that agree on their first 30 characters get the same caption |
| Paging.NavigationRow | main.py:265-272 | a back arrow exists exactly when page > 1 and a forward arrow exactly when page < total; each arrow parses to the neighbouring page of the same category |
| Paging.FileButtonsParse | main.py:254-260 | every file button of a page parses back to its category index and its whole file name |
| Search.CollectHits | main.py:577-585 | the loop nest appends exactly the hits of `CategoryHits`, category by category, each directory in enumeration order |
| Search.FileHitsExactly | main.py:581-585 | the hits of one directory are exactly its files that match, tagged with that category |
| Search.HitsExactly | main.py:577-585 | a triple is a result exactly when its category is registered at that index, the file is in that category's directory, and the query occurs in the lowered file or category name |
| Search.FileHitsIndex | main.py:585 | every hit collected from one directory carries that directory's category index |
| Search.HitsCategoryMajor | main.py:578-585 | results are category-major: their category indices never decrease |
| Search.Position | main.py:581 | the index of the first occurrence of a name in a listing |
| Search.FileHitsListingOrder | main.py:581-585 | the hits of one directory carry its index and category, and follow the order in which `iterdir` yields the files |
| Search.HitsListingOrder | main.py:578-585 | when directory listings hold no name twice, two results of the same category appear in the order of their files in that category's listing |
| Search.Utf8Length | main.py:601 | the UTF-8 length of a string is at least its number of characters |
| Search.Buttons | main.py:597-602 | every shown result whose callback is under 64 UTF-8 bytes gets its download button, and there are no more buttons than shown results |
| Search.ButtonsInOrder | main.py:597-602 | the buttons of a list of results are those of its front part followed by those of its back part, so they keep the results' order |
| Search.ButtonOfOne | main.py:597-602 | one result gives exactly its own button when the callback fits, and none otherwise |
| Search.ButtonsResolve | main.py:599-602 | every button shown is under 64 UTF-8 bytes and parses back to the category index and file of one shown result |
| Search.PerformSearch | main.py:570-592 | a query shorter than 3 characters after lowering and stripping is refused; otherwise no hits gives the no-results answer, and hits give their total and the first min(10, total) of them with their buttons |
| Search.FoundShowsFirstHits | main.py:592-602 | at most ten results are shown, all of them when there are at most ten, each a genuine match, and every button fetches one of them |
| Stats.DisplayName | main.py:229 | the stored username is the user's own when present and non-empty, and `User_{id}` otherwise |
| Stats.UpsertEffect | main.py:228-232 | assigning a key sets that key's record, leaves every other key's record alone, and keeps keys unique; a new key goes at the end, an existing key keeps its position |
| Stats.UpsertAppends | main.py:228-232 | assigning a new key appends its entry after all others |
| Stats.UpsertReplaces | main.py:228-232 | assigning an existing key replaces its entry in place, leaving every position unchanged |
| Stats.RecordEffect | main.py:224-233 | an upload raises the sender's count by exactly one (from 0 when absent), sets the username and time, and changes no other user |
| Stats.RecordManyTimes | main.py:224-233 | k uploads by one user raise that user's count by exactly k and leave every other user unchanged |
| Stats.PersonalStats | main.py:619-629 | a user's own record is shown exactly when it exists with a positive count |
| Stats.UploadMakesStatsVisible | main.py:619 | after an upload, the uploader's statistics are shown with the new count |
| Stats.Uploaders | main.py:640 | the kept users are exactly those with a positive count, in dictionary order: for every positive count, the same users in the same order |
| Stats.CountFront | main.py:645 | an entry with a count at least the head's may go in front of a list in descending count order |
| Stats.CountBehind | main.py:645 | inserting behind a larger head keeps the list descending and adds just that entry |
| Stats.InsertByCount | main.py:645 | insertion keeps the descending count order and adds exactly one entry |
| Stats.SortByCount | main.py:645 | `sorted(..., reverse=True)` by count is descending and a rearrangement of the kept users |
| Stats.InsertByCountStable | main.py:645 | an inserted entry goes in front of the entries with the same count, whose order is kept |
| Stats.TiesFollowDictionaryOrder | main.py:640-647 | in the administrators' ranking, users with the same count appear in the order of the statistics dictionary |
| Stats.SortByCountStable | main.py:645 | the sort is stable: for every count, the users with that count appear in the order of the statistics dictionary |
| Stats.Summarize | main.py:635-639 | the no-statistics answer is given exactly when the statistics are empty |
| Stats.NoUploadersMeaning | main.py:640-643 | the no-uploaders answer is given exactly when there are statistics but no positive count |
| Stats.TotalOfPositives | main.py:654 | the sum of positive counts is at least the number of users counted |
| Stats.PrefixHoldsLargest | main.py:645 | nobody after the cut of a descending list has a larger count than anyone before it |
| Stats.PrefixByCount | main.py:645 | a prefix of a descending list is descending |
| Stats.TopOfSorted | main.py:645 | the top n are descending, drawn from the uploaders, and nobody left out outranks anyone kept |
| Stats.ReportMeaning | main.py:640-657 | the report lists min(uploaders, 10) users, all with positive counts, from the largest count down; nobody left out has more uploads than anyone listed; it counts every uploader and totals their uploads |
| Registry.CleanNames | main.py:122-123 | no more names are kept than there were pieces |
| Registry.CleanNamesStripped | main.py:122-123 | every kept name is non-empty, already stripped, and the strip of some piece |
| Registry.ParseCategories | main.py:122-123 | every parsed category is non-empty, stripped and free of commas |
| Registry.CleanNamesKeepsEvery | main.py:122-123 | the strip of every piece that is not blank is kept |
| Registry.CleanNamesConcat | main.py:122-123 | cleaning works piece by piece: the names of a list of pieces are those of its front part followed by those of its back part |
| Registry.CleanNamesOne | main.py:122-123 | one piece gives its strip when that is non-empty, and nothing otherwise |
| Registry.ParseKeepsEvery | main.py:122-123 | every comma-separated piece of the configured value that is not blank becomes a category |
| Registry.CleanStorable | main.py:122-123 | pieces that are already storable names are kept as they are |
| Registry.ParseJoinRoundTrip | main.py:760 | parsing the comma-join of storable names gives back the same list |
| Registry.ReloadIsStable | main.py:122-123 | saving a freshly loaded list and loading it again gives the same list |
| Registry.AddNameAsWritten | main.py:746-753 | as written, a name is accepted exactly when it is non-empty and not yet listed, and is then appended |
| Registry.CommaNameSplitsOnReload | main.py:744-760 | a name `left,right` passes the checks as written, but the saved list reloads as two names and no longer contains it |
| Registry.AddName | main.py:746-753 | a name is accepted exactly when it is non-empty, not yet listed and free of commas, and is then appended at the end; otherwise the list is unchanged and the reason is given |
| Registry.AddKeepsReloadable | main.py:753-760 | after an accepted add, the saved list reloads as the list with the new name at the end |
| Registry.RemoveFirst | main.py:768 | `list.remove` drops exactly one occurrence |
| Registry.FirstIndex | main.py:768 | the position found holds the value and no earlier position does |
| Registry.RemoveFirstMeaning | main.py:768 | `list.remove` cuts out the first occurrence and keeps everything before and after it in order |
| Registry.RollbackRestores | main.py:766-768 | the roll-back after a failed add restores the list as it was before |
| Registry.ReplyFailureDesyncs | main.py:752-768 | when the confirmation raises after the write, the running list no longer holds the name while the saved value still loads it |
| Registry.StorableAppend | main.py:753 | appending a storable name keeps the list storable |
| Registry.TargetCategory | main.py:683-699 | an index form resolves exactly when the index is in range, a name form exactly when the name is registered, and the result is that category |
| Registry.RemoveFile | main.py:715 | after unlinking, the listing holds exactly the other files, without duplicates, and is unchanged when the file was absent |
| Registry.RemoveFileCount | main.py:710-715 | deleting a present file removes exactly one entry |
| Repository.Catalog.constructor | main.py:122-134 | start-up parses the category list from the configured value and keeps the directory and statistics as given |
| Repository.Catalog.RecordUpload | main.py:224-233 | the statistics become the recorded upload, with the sender's count one higher, and nothing else changes |
| Repository.Catalog.Place | main.py:386-412 | the file is saved under the first free candidate, which is new to the directory; the directory is created if missing and gains exactly that one name; the upload is counted only when the save succeeds; a failing `mkdir` changes nothing |
| Repository.Catalog.Upload | main.py:356-412 | no chosen category, a size over the limit, a refused extension or a failing `mkdir` stops the upload with the directory and statistics unchanged; otherwise the sanitised name is placed, and the upload is saved exactly when neither `mkdir` nor the download fails |
| Repository.Catalog.Append | main.py:752-769 | the name is appended, the list saved and the add confirmed; on any failure the name is removed again and the list is as before, while a directory already created stays; a failing confirmation comes after the save, whose value holds the name |
| Repository.Catalog.AddCategory | main.py:744-769 | non-administrators are ignored; a refused name leaves everything unchanged; an accepted one is appended at the end, its directory created, and the saved list is the comma-join; a failing confirmation leaves the list as before but the saved value with the name; a name with a comma is refused (the corrected rule of Findings) |
| Repository.Catalog.SavedListReloads | main.py:760 | the saved comma-join of the category list loads back as the same list |
| Repository.Catalog.DeleteFile | main.py:664-720 | non-administrators are ignored; an unresolvable category or an absent file is reported and changes nothing; otherwise exactly that file leaves its category's listing |
| Repository.Catalog.ChooseCategory | main.py:333-341 | a chosen category is a registered one |
| Repository.Catalog.ResolveDownload | main.py:524-544 | a resolved download names a registered category and a file present in it |
| Repository.Catalog.CategoryButtonsSelect | main.py:325-341 | each upload-menu button selects its own category |
| Repository.Catalog.ListButtonsOpen | main.py:427-473 | each listing-menu button opens page 1 of its own category |
| Repository.Catalog.PageButtonsOpen | main.py:484-512 | a page button opens that page of its own category, and is refused exactly when the page is out of range or the directory missing |
| Repository.Catalog.DownloadButtonsFetch | main.py:524-544 | a download button for a present file fetches exactly that file |
| Repository.Catalog.SearchButtonsFetch | main.py:597-602 | every download button of a search fetches one of the shown results |
| Repository.Catalog.MyStats | main.py:615-629 | a sender who is neither listed nor an administrator gets no answer; an authorized sender gets their own record exactly when it shows a positive count, and the no-uploads answer otherwise |
| Repository.Catalog.AdminsSeeOwnStats | main.py:162-163 | an administrator who is not listed as authorized still gets their own statistics (at start-up the authorized users are the administrators, main.py:139; the lists can differ only once they are managed separately) |
| Repository.Catalog.AllStats | main.py:632-647 | the summary is given exactly to administrators, and it is `Summarize` of the current statistics |

## Left out

- Transport and user interface: aiogram handlers, the FSM states, message texts, HTML formatting, reply keyboards and `answer_document`. Where a handler's outcome matters, the model returns it as a datatype.
- Google Drive upload (`get_drive_service`, `upload_to_drive`, drive_uploader.py). These are calls into Google API clients; drive_uploader.py is not part of this model. The model assumes the Drive upload does not raise between the save and the statistics update.
- Reading and writing config.ini and user_stats.json. The parsed values are in-memory state. `/addcategory` returns the written `CATEGORIES` value as `Added.saved`; `writeFails` stands for the config write raising.
- configparser's `%` interpolation and value syntax. A category value is taken to be the raw comma-separated string.
- The other settings parsed by `load_config` (token, admin ids, size limit, extension list, webhook). They are constructor parameters.
- Logging, start-up, the webhook and polling set-up, and creating each category directory at start-up.
- `datetime.now()` is the parameter `now`.
- Concurrency between overlapping handlers. The code takes no locks.
- The exact Unicode extent of `\w`. It is an abstract predicate that contains `_` and excludes `/` and NUL.
- Text.Lower: folds only the capitals of ASCII and Latin-1 (U+0041 to U+005A, U+00C0 to U+00DE except U+00D7) and of the Cyrillic and Cyrillic Supplement blocks (U+0400 to U+042F, the even code points of U+0460 to U+0480, U+048A to U+04BE and U+04D0 to U+052E, the odd ones of U+04C1 to U+04CD, and U+04C0), each one character for one; on U+0000 to U+00FF and U+0400 to U+052F this agrees with Python's `str.lower`. Capitals of other blocks (Latin Extended, Greek, Armenian and the rest) are left unchanged, and Python's multi-character lowerings are not modelled.
- Text.ParseInt: accepts ASCII digits only, not other Unicode decimal digits.
- The `/delete` argument regular expression and the splitting of the `/addcategory` command line. The model starts from the two already-parsed forms of `/delete` and the already-stripped category name.
- File and category names containing `/`, or equal to `.` or `..`, which would leave the category directory. `PathExists` does count `""`, `.` and `..` as always present.
- Telegram's 64-byte limit on button data for the file buttons of a page. `get_pagination_keyboard` (main.py:254-261) builds `download_{idx}_{name}` without the check that search applies (main.py:601), so a page with a long name (about 26 Cyrillic characters or more) is refused by Telegram. The model builds the keyboard as written and does not model that refusal.
- Repository.Catalog.constructor: takes the authorized users as a parameter separate from the administrators. main.py:139 starts them as a copy of the administrators, a configuration the parameters include.
- POSIX paths only. Paging.SortNames orders names by code point and FileNames.SplitExt splits only at `/`, as `PurePosixPath` and `posixpath` do; on Windows `PurePath` compares case-folded names and `\` is also a separator.
- Subdirectories inside a category, and an `iterdir` that yields only subdirectories. A category's listing holds its regular files only.
- Repository.Catalog.Place: a new file is appended at the end of the directory's enumeration order; real file systems may enumerate it elsewhere. Search results and pages do not depend on that position except for search order.
- A document without a file name and a missing `file_size`. Sizes are integers.
- Partial files left behind when a download fails part-way. A failed save leaves no file.
- Repository.Catalog.AddCategory: applies the corrected rule of Findings, so a name containing `,` is refused with `ContainsSeparator`, where main.py:746-753 accepts it. Registry.AddNameAsWritten models the check as written.
- The `is_authorized` checks of `start`, `upload_start_cmd`, `show_categories_for_listing`, `search_start_cmd` and `handle_unknown_cmd` (main.py:284, 323, 422, 563, 812). These screens only open a menu or wait for input and are not modelled. The handlers that follow them (`handle_file`, `perform_search_cmd`, the button handlers) have no check of their own, so their models have none either.
- Repository.Catalog.DeleteFile: the Drive deletion marked as a to-do in the source is not modelled.

## Findings

| source | as written | input that shows it | evidently intended | confidence | as-written member | corrected member |
|---|---|---|---|---|---|---|
| main.py:744-760 | `process_add_category` accepts any non-empty, new name and saves `','.join(CATEGORIES)`; a name containing a comma is accepted | adding "b,c" to ["A"] saves "A,b,c", which loads at the next start as ["A", "b", "c"]: the added category disappears and two others appear | a saved category list loads back as the same list, so a name with the separator must be refused | not executed | Registry.CommaNameSplitsOnReload | Registry.AddKeepsReloadable |
