# Certification hub: a verified model of its data logic

The certification hub is a web application where employees browse a catalog of professional
certifications and filter and sort it. They mark favorites, record the certifications they
completed and apply for funding. An administrator imports the catalog from a Google
spreadsheet. Two maintenance scripts keep the hosted database awake and watch that it stays
awake.

This project models the data logic of the application in Dafny and proves what that logic
promises. Backend calls are replaced by in-memory tables and explicit inputs. Each
source file has its own module:

| module | models |
|---|---|
| `CertificationData` | the catalog record and the facet-option extractors (`getUnique…`), including the level-rank comparator |
| `CertificationsQuery` | the database-row normaliser of the catalog query |
| `CertificationsFilter` | the search and filter predicate and the hook's three state cells (class `FilterState`) |
| `FilterBar` | `hasActiveFilters`, the Clear button and the key each selector reports under |
| `CertificationsTable` | the three-state sort cycle (class `SortState`), the comparator, the sorted copy and the badge colours |
| `UserCertifications` | favorites, completed list, application status and the mutations over three row tables (class `UserCertificationStore`) |
| `AdminSync` | the spreadsheet import `handleSync`: range resolution, error classification, header matching, cell extraction, price parsing, row filtering and the name-keyed upsert loop (class `AdminDashboard`) |
| `AddCertificationDialog`, `SuggestCertificationDialog`, `ApplyFundingDialog`, `AcceptSuggestionDialog` | the dialogs' submit guards, their calls and their state resets (one class per dialog) |
| `NotFound` | OAuth callback detection and the redirect and render decision |
| `QualitySeal` | the quality badge classifier, numeric `parseInt` checks before the legacy names |
| `LevelMeter` | the level index and the lit segments of the level meter |
| `Utils` | `parseNameFromEmail` |
| `SupabaseEndpoint`, `KeepAlive`, `Monitor` | the two scripts: hostname derivation, the request, the reachable range, the body accumulation and the overdue rule |

Shared helpers:

- `Wrappers` holds `Option` and `Result`.
- `Text` holds the JavaScript string operations the code uses: `trim` with JavaScript whitespace,
  ASCII `toLowerCase`/`toUpperCase`, `includes`, `split`/`join`, code-point order, `parseInt` and
  the decimal prefix `parseFloat` reads.
- `Sorting` holds a stable insertion sort. It stands for `Array.prototype.sort` with a
  consistent comparator. It also holds `Dedup`, which stands for `new Set` and keeps the first
  occurrence of each value, and `Filter`, which stands for `Array.prototype.filter`: the
  passing elements as a subsequence.

The four React state hooks are classes whose fields are the state cells:

- the filter hook;
- the table's sort state;
- the user store;
- the admin page.

Each dialog is a class too. `onOpenChange(false)` is modelled as clearing an `open` field. Pure
expressions are functions.

Inputs the code gets from its environment are parameters:

- database answers;
- generated ids;
- the current time;
- `new Date(...)` parsing;
- `JSON.parse` of a body;
- the HTTP replies.

## Model

| member | source | states |
|---|---|---|
| CertificationData.DistinctSortedBy | src/data/certifications.ts:31 | for a consistent comparator, `[...new Set(xs.filter(Boolean))].sort(cmp)` holds each non-empty value exactly once and is sorted by the comparator |
| CertificationData.DistinctSorted | src/data/certifications.ts:21 | the same with the default sort: members are exactly the non-empty values; strictly ascending in code-point order |
| CertificationData.AllLanguages | src/data/certifications.ts:24 | the flattened list holds exactly the tags of some certification |
| CertificationData.AllProviders | src/data/certifications.ts:27 | the flattened list holds exactly the providers of some certification |
| CertificationData.GetUniqueDomains | src/data/certifications.ts:20-21 | a value is listed iff it is non-empty and the domain of some certification; no duplicates; ascending |
| CertificationData.GetUniqueLanguages | src/data/certifications.ts:23-24 | every non-empty tag of any certification appears exactly once, ascending, and nothing else |
| CertificationData.GetUniqueProviders | src/data/certifications.ts:26-27 | every non-empty provider of any certification appears exactly once, ascending, and nothing else |
| CertificationData.GetUniqueQualities | src/data/certifications.ts:42-43 | distinct, non-empty, ascending, and exactly the qualities that occur |
| CertificationData.IndexOf | src/data/certifications.ts:32-33 | `indexOf`: the first position of the value, or -1 exactly when it is absent |
| CertificationData.LevelRank | src/data/certifications.ts:30-33 | 0 to 3 exactly for the four known levels in any case, -1 otherwise; the rank names the lower-cased level |
| CertificationData.LevelCompare | src/data/certifications.ts:31-39 | two known levels compare by rank (negative, zero, positive as the ranks); a known level precedes an unknown one; two unknown levels compare as strings, zero iff equal |
| CertificationData.LevelLeIsTotalPreorder | src/data/certifications.ts:31-39 | the level comparator is total and transitive, so the sort is well defined |
| CertificationData.GetUniqueExperienceLevels | src/data/certifications.ts:29-40 | each non-empty level exactly once; known levels in rank order entry-level < intermediate < advanced < expert; unknown levels after every known one and ordered by string compare among themselves |
| CertificationData.LevelOrderOfSorted | src/data/certifications.ts:35-38 | what sorted by the level comparator means: ranks ascend, and unknowns follow in lexicographic order |
| CertificationData.CaseVariantsKept | src/data/certifications.ts:31 | de-duplication is case-sensitive: "Expert" and "expert" are both kept |
| CertificationsQuery.SplitList | src/hooks/useCertifications.ts:19-21 | a null or empty field gives []; otherwise one entry per piece of the split on ",", each trimmed |
| CertificationsQuery.SplitListCount | src/hooks/useCertifications.ts:19 | a non-empty list field has one entry per comma, plus one |
| CertificationsQuery.EmptyPiecesKept | src/hooks/useCertifications.ts:19 | "a,,b" gives three entries, the middle one empty |
| CertificationsQuery.PiecesTrimmed | src/hooks/useCertifications.ts:19 | "a, b" gives the two trimmed pieces |
| CertificationsQuery.NumberOrZero | src/hooks/useCertifications.ts:22-28 | `Number(x) \|\| 0`: a missing number gives 0, a present one itself |
| CertificationsQuery.FromRow | src/hooks/useCertifications.ts:15-29 | the id is passed through; missing text columns default to "", currency to "USD" (never empty), prices to 0, last checked to the current time; the list columns are split and trimmed |
| CertificationsQuery.FetchCertifications | src/hooks/useCertifications.ts:9-29 | a database error is an error; otherwise one record per row in row order, and none for a null result |
| CertificationsFilter.FilterCatalog | src/hooks/useCertificationsFilter.ts:34-61 | the result is a subsequence of the catalog, and a row is in it iff it passes the filter predicate |
| CertificationsFilter.NoRowAdded | src/hooks/useCertificationsFilter.ts:35-60 | no row is added or duplicated (multiset inclusion); a passing row appears as often as in the catalog, any other never |
| CertificationsFilter.Keep | src/hooks/useCertificationsFilter.ts:35-59 | a kept row is a favorite when favorites-only is on, holds the lower-cased query in its lower-cased text when the query is non-empty, and the filter object has all five keys |
| CertificationsFilter.NoCriteriaKeepsAll | src/hooks/useCertificationsFilter.ts:13-59 | empty search, favorites-only off and every filter "all" give the catalog unchanged |
| CertificationsFilter.FavoritesOnlyShowsFavorites | src/hooks/useCertificationsFilter.ts:36 | with favorites-only on, every row shown is a favorite |
| CertificationsFilter.KeepIsConjunction | src/hooks/useCertificationsFilter.ts:36-59 | a row passes iff: it is a favorite or the flag is off; the lower-cased query is in the lower-cased joined text of six fields, or the query is empty; domain, level and quality are equal (or "all"); the language and provider are in the row's lists (or "all") |
| CertificationsFilter.MatchSpansFields | src/hooks/useCertificationsFilter.ts:40-50 | a query may match across the space between two fields ("aws cloud") |
| CertificationsFilter.FilterState.SetSearchQuery | src/hooks/useCertificationsFilter.ts:13 | sets the search text and changes nothing else |
| CertificationsFilter.FilterState.SetShowFavoritesOnly | src/hooks/useCertificationsFilter.ts:14 | sets the flag and changes nothing else |
| CertificationsFilter.FilterState.HandleFilterChange | src/hooks/useCertificationsFilter.ts:63-65 | key k reads the new value; every other key, the search text and the flag are unchanged |
| CertificationsFilter.FilterState.HandleClearFilters | src/hooks/useCertificationsFilter.ts:67-76 | all five filters "all", favorites-only off, search text unchanged |
| CertificationsFilter.ClearIsIdempotent | src/hooks/useCertificationsFilter.ts:67-76 | clearing twice equals clearing once, and afterwards only the search text narrows the catalog |
| FilterBar.SelectorKey | src/components/certifications/FilterBar.tsx:40-64 | each selector reports under one of "area", "languageFramework", "provider", "level", "quality" |
| FilterBar.SelectorKeysDistinct | src/components/certifications/FilterBar.tsx:40-64 | two selectors share a key iff they are the same selector |
| FilterBar.HasActiveFilters | src/components/certifications/FilterBar.tsx:32 | true when some present value differs from "all"; false when every present value is "all" |
| FilterBar.Render | src/components/certifications/FilterBar.tsx:32-76 | the Clear button is shown iff some filter value differs from "all"; each selector shows the value under its own key |
| FilterBar.ClearedHasNoActiveFilter | src/components/certifications/FilterBar.tsx:32-76 | the all-"all" filters show no Clear button |
| FilterBar.ChoosingShowsClear | src/components/certifications/FilterBar.tsx:32-76 | choosing any value other than "all" brings the Clear button up |
| FilterBar.ChoiceRoundTrip | src/components/certifications/FilterBar.tsx:36-65 | a choice shows on its own selector and leaves every other selector's value unchanged |
| FilterBar.AreaAndLevelDoNotNarrow | src/components/certifications/FilterBar.tsx:40-58 | a choice on Area or Level leaves the filter result unchanged, because the hook reads "domain" and "experienceLevel" |
| FilterBar.OtherSelectorsNarrow | src/components/certifications/FilterBar.tsx:46-64 | Language, Provider and Quality report under the keys the hook reads |
| CertificationsTable.DescendingIsSwappedAscending | src/components/certifications/CertificationsTable.tsx:76-84 | the descending comparator is the ascending one with its arguments swapped |
| CertificationsTable.Compare | src/components/certifications/CertificationsTable.tsx:71-87 | 0 when unsorted or on an untyped column; otherwise 0 iff the two cells are equal, and at most 0 iff they are in order for the direction |
| CertificationsTable.SortLeMeansOrdered | src/components/certifications/CertificationsTable.tsx:73-86 | `cmp(a, b) <= 0` iff the two cells are in order for the direction: code-point order for text, numeric order for price, always for untyped columns |
| CertificationsTable.ComparatorConsistent | src/components/certifications/CertificationsTable.tsx:70-87 | in every state the comparator is a total preorder |
| CertificationsTable.SortedRows | src/components/certifications/CertificationsTable.tsx:70-87 | the rows shown are a permutation of the rows given |
| CertificationsTable.SortedRowsArePermutation | src/components/certifications/CertificationsTable.tsx:70 | whatever the state, the rows shown are a permutation of the rows given |
| CertificationsTable.UnorderedKeepsInputOrder | src/components/certifications/CertificationsTable.tsx:71-86 | unsorted, or on an array-valued or absent column, the output is the input order |
| CertificationsTable.SortedRowsOrdered | src/components/certifications/CertificationsTable.tsx:76-84 | on a typed column every pair of rows is in column order for the direction |
| CertificationsTable.DescendingReversesAscending | src/components/certifications/CertificationsTable.tsx:76-84 | with distinct column values, descending is ascending reversed |
| CertificationsTable.NextSort | src/components/certifications/CertificationsTable.tsx:56-68 | a new key starts ascending; the key is null iff the direction is; a set key is the clicked one |
| CertificationsTable.ThreeClicksCycle | src/components/certifications/CertificationsTable.tsx:56-68 | three clicks on a key go ascending, descending, then unsorted |
| CertificationsTable.SortState.HandleSort | src/components/certifications/CertificationsTable.tsx:53-68 | the new state is the next state of the cycle and keeps "key null iff direction null" |
| CertificationsTable.LevelColor | src/components/certifications/CertificationsTable.tsx:22-37 | the neutral badge exactly for "foundation" and unknown levels, case-insensitively; "expert" is the destructive badge |
| CertificationsTable.QualityColor | src/components/certifications/CertificationsTable.tsx:39-50 | the neutral badge exactly for a quality other than high, medium and low; "high" is the success badge |
| CertificationsTable.ColoursIgnoreCase | src/components/certifications/CertificationsTable.tsx:22-50 | values equal up to case get the same colours |
| UserCertifications.VisibleCerts | src/hooks/useUserCertifications.ts:22-27 | exactly the signed-in user's rows, as a subsequence of the table (table order, nothing repeated); nothing without a user |
| UserCertifications.VisibleExternal | src/hooks/useUserCertifications.ts:44 | exactly the signed-in user's external rows, as a subsequence of the table (table order, nothing repeated); nothing without a user |
| UserCertifications.VisibleApplications | src/hooks/useUserCertifications.ts:64 | exactly the signed-in user's applications, as a subsequence of the table (table order, nothing repeated); nothing without a user |
| UserCertifications.ViewsKeepEveryCopy | src/hooks/useUserCertifications.ts:22-27 | each of the three views keeps every copy of each of the user's rows (also lines 44 and 64); with the subsequence clauses this fixes the views completely |
| UserCertifications.SavedIds | src/hooks/useUserCertifications.ts:80-82 | `favorites` holds exactly the certification ids of the 'saved' rows, one per 'saved' row, in row order |
| UserCertifications.InternalCompletion | src/hooks/useUserCertifications.ts:87-98 | an internal entry keeps its ids, is not external, and its date is `completed_at` or else `updated_at` |
| UserCertifications.ExternalCompletion | src/hooks/useUserCertifications.ts:100-109 | an external entry's certification id is its own id |
| UserCertifications.InternalCompleted | src/hooks/useUserCertifications.ts:85-98 | one entry per 'completed' row, in row order, the row mapped; none of them external; each 'completed' row's mapping occurs |
| UserCertifications.ExternalCompleted | src/hooks/useUserCertifications.ts:100-109 | one entry per external row, in order |
| UserCertifications.ToApplication | src/hooks/useUserCertifications.ts:66-74 | ids and status passed through; reason defaults to "Funding Requested", cost to 0, name to "Unknown" |
| UserCertifications.ToApplications | src/hooks/useUserCertifications.ts:66-74 | one application per row, in order |
| UserCertifications.ApplicationsFor | src/hooks/useUserCertifications.ts:247 | exactly the applications for the certification, as a subsequence of `apps` (its order, nothing repeated) |
| UserCertifications.ApplicationsForKeepsEveryCopy | src/hooks/useUserCertifications.ts:247 | every copy of an application for the certification is kept, and only those |
| UserCertifications.MostRecentFirstConsistent | src/hooks/useUserCertifications.ts:250-252 | the date comparator is a total preorder |
| UserCertifications.ApplicationStatus | src/hooks/useUserCertifications.ts:245-254 | null iff no application targets the certification; otherwise the status of the application in `apps` with the greatest date, the earliest listed in `apps` among ties |
| UserCertifications.MostRecentHead | src/hooks/useUserCertifications.ts:250-253 | the head of the sorted copy is the first of the most recent applications |
| UserCertifications.LatestApplicationWins | src/hooks/useUserCertifications.ts:245-254 | a later application decides the status, whatever the earlier one says |
| UserCertifications.DeleteSaved | src/hooks/useUserCertifications.ts:123-128 | deletes exactly the user's 'saved' rows of the certification; every other row stays, in its order (a subsequence of the table) |
| UserCertifications.ToggleFlips | src/hooks/useUserCertifications.ts:117-140 | toggling flips whether that certification is a favorite and no other |
| UserCertifications.ToggleTwice | src/hooks/useUserCertifications.ts:117-140 | toggling twice restores whether it is a favorite |
| UserCertifications.OrNull | src/hooks/useUserCertifications.ts:184-211 | `x \|\| null`: an empty or missing text is stored as null |
| UserCertifications.UserCertificationStore.Favorites | src/hooks/useUserCertifications.ts:80-82 | an id is a favorite iff the signed-in user has a 'saved' row for it; none without a user |
| UserCertifications.UserCertificationStore.Applications | src/hooks/useUserCertifications.ts:49-74 | exactly the mappings of the signed-in user's application rows; none without a user |
| UserCertifications.UserCertificationStore.CompletedCertifications | src/hooks/useUserCertifications.ts:85-114 | every internal entry maps one of the user's 'completed' rows and every external entry one of the user's external rows, and each such row occurs; none without a user |
| UserCertifications.UserCertificationStore.IsFavorite | src/hooks/useUserCertifications.ts:241 | iff the signed-in user has a 'saved' row for the certification |
| UserCertifications.UserCertificationStore.IsCompleted | src/hooks/useUserCertifications.ts:283 | iff the signed-in user has a 'completed' row for the certification, or an external entry whose own id it is |
| UserCertifications.UserCertificationStore.GetApplicationStatus | src/hooks/useUserCertifications.ts:245-254 | null iff the user has not applied; otherwise the status of a latest application for the certification |
| UserCertifications.UserCertificationStore.ToggleFavorite | src/hooks/useUserCertifications.ts:117-140 | "Must be logged in" without a user; otherwise deletes the 'saved' rows of a favorite or inserts one 'saved' row, and the favorite status flips |
| UserCertifications.UserCertificationStore.ApplyForFunding | src/hooks/useUserCertifications.ts:149-162 | "Must be logged in" without a user; otherwise appends one 'pending' application |
| UserCertifications.UserCertificationStore.AddCompletedCertification | src/hooks/useUserCertifications.ts:168-188 | "Must be logged in" without a user; otherwise appends one 'completed' row |
| UserCertifications.UserCertificationStore.AddExternalCertification | src/hooks/useUserCertifications.ts:194-214 | "Must be logged in" without a user; otherwise appends one external row |
| UserCertifications.UserCertificationStore.RemoveCompletedCertification | src/hooks/useUserCertifications.ts:220-229 | deletes by id from the external table iff `isExternal`, otherwise from `user_certifications`; no login check |
| UserCertifications.RemoveCertById | src/hooks/useUserCertifications.ts:226 | exactly the rows with another id remain, in their order (a subsequence of the table) |
| UserCertifications.RemoveExternalById | src/hooks/useUserCertifications.ts:223 | exactly the rows with another id remain, in their order (a subsequence of the table) |
| UserCertifications.DeletesKeepEveryOtherCopy | src/hooks/useUserCertifications.ts:220-229 | the deletes of lines 123-128, 223 and 226 drop every copy of a matching row and keep every copy of the others |
| UserCertifications.ExternalEntriesAreCompleted | src/hooks/useUserCertifications.ts:283 | every external entry of the user (built at lines 111-114) counts as completed under its own id |
| UserCertifications.UserCertificationStore.HasApplied | src/hooks/useUserCertifications.ts:244 | `hasApplied(id)` iff some application row of the signed-in user targets the id, whatever its status; false without a user |
| UserCertifications.AppliedIffRow | src/hooks/useUserCertifications.ts:66-74 | the mapping keeps the certification id of every application |
| AdminSync.FirstIndexOf | src/pages/AdminDashboard.tsx:143 | the first position holding the tab, none iff the tab does not occur |
| AdminSync.FindSheet | src/pages/AdminDashboard.tsx:143 | the first sheet whose id, printed, equals the tab; none iff no sheet matches |
| AdminSync.TabRange | src/pages/AdminDashboard.tsx:143-151 | the A:Z range of the title of the first sheet whose id reads as the tab, or of the tab itself when no sheet matches |
| AdminSync.LeadingZeroTabIsName | src/pages/AdminDashboard.tsx:143-151 | a tab with a leading zero never matches an id and is used as a sheet name |
| AdminSync.MetaError | src/pages/AdminDashboard.tsx:131-139 | 401 and 403 give AUTH_REQUIRED, 404 "Spreadsheet not found", any other status the metadata error with status and text |
| AdminSync.ValuesError | src/pages/AdminDashboard.tsx:164-174 | only 401 and 403 are singled out; otherwise the API message or the raw text, and a body that is not JSON raises the parse error |
| AdminSync.ValuesNotFoundIsApiError | src/pages/AdminDashboard.tsx:137-174 | a 404 of the values request is not reported as a missing spreadsheet |
| AdminSync.FailureToast | src/pages/AdminDashboard.tsx:266-272 | AUTH_REQUIRED, or any message containing "No provider token", shows the authorise hint; any other message is shown itself, or the generic text when it is empty |
| AdminSync.MissingTokenShowsItsOwnMessage | src/pages/AdminDashboard.tsx:268 | the missing-token message thrown at line 117 does not contain "No provider token", so this check in the catch block lets it through and it is shown as it is |
| AdminSync.NormalizeHeaders | src/pages/AdminDashboard.tsx:186 | every header lower-cased and trimmed, same count |
| AdminSync.FindIndex | src/pages/AdminDashboard.tsx:189-200 | `findIndex`: the first matching position, or -1 iff none matches |
| AdminSync.GetIndex | src/pages/AdminDashboard.tsx:189 | `getIndex(keys)`: the first header containing some keyword, or -1 iff no header does |
| AdminSync.EurIndex | src/pages/AdminDashboard.tsx:200 | the first header containing both "price" and "eur", or -1 iff none does |
| AdminSync.ColumnsOf | src/pages/AdminDashboard.tsx:192-202 | the name, level and last-checked columns are the first headers mentioning "name", "level" and "checked"; the price column is at or before the EUR column when there is one |
| AdminSync.KeywordOrderIrrelevant | src/pages/AdminDashboard.tsx:189 | the header position decides, not the order of the keywords |
| AdminSync.PriceIndexAndEurIndex | src/pages/AdminDashboard.tsx:199-225 | with an EUR column, the price column is at or before it, and the same column when no earlier header mentions "price" |
| AdminSync.GetVal | src/pages/AdminDashboard.tsx:210 | "" for a missing column or cell, the trimmed cell otherwise |
| AdminSync.OrDefault | src/pages/AdminDashboard.tsx:228-234 | `v \|\| fallback`: the value when non-empty, the fallback when empty; empty iff both are |
| AdminSync.StripPrice | src/pages/AdminDashboard.tsx:215 | only digits, '.' and '-' remain, in their order |
| AdminSync.StripPriceKeepsPriceChars | src/pages/AdminDashboard.tsx:215 | every price character is kept, and a string of only price characters is unchanged |
| AdminSync.ParsePrice | src/pages/AdminDashboard.tsx:213-216 | 0 for an empty cell or an unparsable stripped text, otherwise the decimal prefix of the stripped text |
| AdminSync.PriceIgnoresSymbols | src/pages/AdminDashboard.tsx:213-216 | currency symbols and letters in front of digits are ignored, with or without a minus sign |
| AdminSync.BuildRow | src/pages/AdminDashboard.tsx:209-240 | one record per row; it fails with "Invalid time value" iff the last-checked cell is not a date |
| AdminSync.BuildRowFields | src/pages/AdminDashboard.tsx:227-240 | defaults name "Unknown", domain "Other", currency "USD"; the other cells trimmed; prices parsed |
| AdminSync.MapAll | src/pages/AdminDashboard.tsx:209 | a `map` whose callback may throw fails iff some element fails, and then with the error of the first failing element; otherwise each element maps to the entry at its position |
| AdminSync.BuildRows | src/pages/AdminDashboard.tsx:209-240 | the whole map fails iff some row's date is unreadable, otherwise one record per row in order |
| AdminSync.KeepNamed | src/pages/AdminDashboard.tsx:241 | a subsequence of the records (sheet order), holding a record iff it is in the input and its name is neither empty nor "Unknown" |
| AdminSync.KeepNamedKeepsEveryCopy | src/pages/AdminDashboard.tsx:241 | a named record is kept as often as it occurs, an unnamed one never |
| AdminSync.PrepareRows | src/pages/AdminDashboard.tsx:179-241 | fewer than two rows gives the no-data error, no name column the missing-name error; otherwise "Invalid time value" when the map of the data rows fails, else the named records of the map, every named one kept |
| AdminSync.BlankNameDropped | src/pages/AdminDashboard.tsx:228-241 | a row whose name cell is blank is not written |
| AdminSync.PlanSync | src/pages/AdminDashboard.tsx:114-241 | a missing or empty token fetches nothing and gives the no-token error, a present one fetches something; an empty tab fetches only the A:Z values; a tab fetches the metadata first and stops at its error, else the values of the resolved range; past that, a failed values request gives its classified error, missing values the no-data error, otherwise the outcome of PrepareRows; written records are named |
| AdminSync.ShortSheetIsNoData | src/pages/AdminDashboard.tsx:176-181 | a sheet with fewer than two rows fails with the no-data error before anything is written |
| AdminSync.NamedIndices | src/pages/AdminDashboard.tsx:247-251 | exactly the positions of the rows with the name, ascending |
| AdminSync.UpsertOne | src/pages/AdminDashboard.tsx:247-257 | a failed write changes nothing; a row that is the only one with the name is updated in place; with no such row the record is inserted under a fresh id; ids are kept and at most one row is added |
| AdminSync.UpsertAll | src/pages/AdminDashboard.tsx:245-261 | the loop never deletes a row, adds at most one row per record, and every row keeps its id |
| AdminSync.UpsertOneKeepsNamesUnique | src/pages/AdminDashboard.tsx:247-257 | on a table with one row per name, a write keeps one row per name and stores the record |
| AdminSync.LastWriteWins | src/pages/AdminDashboard.tsx:245-261 | without failed writes, the table ends with one row per name, holding the last record of each name, and other rows untouched |
| AdminSync.DuplicatesGrow | src/pages/AdminDashboard.tsx:247-256 | when several rows already share the name, `maybeSingle` finds none and the record is inserted |
| AdminSync.FailuresAreSkipped | src/pages/AdminDashboard.tsx:258-260 | failed writes are skipped and leave the table as it was |
| AdminSync.AdminDashboard.HandleSync | src/pages/AdminDashboard.tsx:99-276 | a blank id toasts and changes nothing; otherwise the settings are saved, the planned URLs fetched, an error toasted with nothing written, or every record written and the count reported; the busy flag ends cleared |
| AdminSync.AdminDashboard.SyncTrimmed | src/pages/AdminDashboard.tsx:107-276 | for a trimmed, non-blank id: both settings saved, the planned URLs logged, then the error toasted with nothing written or every record written and the count reported; the busy flag ends cleared |
| AdminSync.AdminDashboard.RunPlan | src/pages/AdminDashboard.tsx:114-272 | logs the fetched URLs, then either toasts the error or writes the records and reports their count |
| AdminSync.AdminDashboard.WriteAll | src/pages/AdminDashboard.tsx:245-261 | the loop leaves the table the upsert sequence gives |
| AddCertificationDialog.FilteredCerts | src/components/certifications/AddCertificationDialog.tsx:36-40 | a subsequence of the catalog; a certification is listed iff it is not completed and its lower-cased name contains the lower-cased search |
| AddCertificationDialog.CompletedNeverListed | src/components/certifications/AddCertificationDialog.tsx:38 | no listed certification is completed |
| AddCertificationDialog.EmptySearchListsAll | src/components/certifications/AddCertificationDialog.tsx:39 | an empty search with nothing completed lists the whole catalog in order |
| AddCertificationDialog.ExpiresArgument | src/components/certifications/AddCertificationDialog.tsx:44 | an empty expiry is passed as undefined, any other as itself |
| AddCertificationDialog.AddDialog.HandleAdd | src/components/certifications/AddCertificationDialog.tsx:42-49 | nothing without a selection; otherwise `onAdd` gets the id, the name and the expiry, and every field is reset and the dialog closed |
| AddCertificationDialog.AddThenList | src/components/certifications/AddCertificationDialog.tsx:135 | the disabled button matches an add that does nothing; after an add, the list offers every certification not completed |
| SuggestCertificationDialog.FormValid | src/components/certifications/SuggestCertificationDialog.tsx:50 | valid iff name, reason and url each hold a non-space character; the provider is optional |
| SuggestCertificationDialog.SuggestDialog.HandleSubmit | src/components/certifications/SuggestCertificationDialog.tsx:32-40 | an invalid form is left as it is; a valid one passes the untrimmed fields, then all four are cleared and the dialog closes |
| SuggestCertificationDialog.SuggestDialog.HandleClose | src/components/certifications/SuggestCertificationDialog.tsx:42-48 | all four fields cleared and the dialog closed |
| SuggestCertificationDialog.SubmitMatchesButton | src/components/certifications/SuggestCertificationDialog.tsx:115 | the button is disabled iff a submit does nothing; after a submit the form is empty and disabled again |
| ApplyFundingDialog.SubmitRequest | src/components/certifications/ApplyFundingDialog.tsx:33-35 | a request iff there is a certification and the reason has a non-space character; it carries the id, the name, the raw reason and the EUR price |
| ApplyFundingDialog.ButtonAgreesWithGuard | src/components/certifications/ApplyFundingDialog.tsx:96 | an enabled button always submits; a disabled button that would submit means the user has already applied |
| ApplyFundingDialog.FundingDialog.HandleSubmit | src/components/certifications/ApplyFundingDialog.tsx:33-38 | the call is the guarded request; after it the reason is empty and the dialog closed; otherwise nothing changes |
| AcceptSuggestionDialog.ConfirmCall | src/components/certifications/AcceptSuggestionDialog.tsx:32-33 | `onConfirm` is called iff the box is ticked, with the admin notes |
| AcceptSuggestionDialog.AcceptDialog.HandleConfirm | src/components/certifications/AcceptSuggestionDialog.tsx:31-37 | unticked does nothing; ticked passes the notes, resets notes and box, closes |
| AcceptSuggestionDialog.AcceptDialog.HandleCancel | src/components/certifications/AcceptSuggestionDialog.tsx:39-43 | the same reset and close, without `onConfirm` |
| AcceptSuggestionDialog.ConfirmLeavesCancelState | src/components/certifications/AcceptSuggestionDialog.tsx:87 | the button is disabled iff a confirm does nothing; a confirm leaves the cancel state, disabled again |
| NotFound.IsOAuthCallback | src/pages/NotFound.tsx:12-13 | a callback iff "access_token" occurs at some position of the hash or "code=" at some position of the query string |
| NotFound.RunEffect | src/pages/NotFound.tsx:15-32 | to "/home" (replace) iff loaded with a user; to "/" (replace) iff loaded with no user and no callback; no navigation iff loading or during a callback |
| NotFound.NeverLogs | src/pages/NotFound.tsx:29-31 | the 404 log is never reached |
| NotFound.Render | src/pages/NotFound.tsx:35-53 | the spinner iff loading or during a callback, the 404 page otherwise |
| NotFound.PageOnlyWhileLeaving | src/pages/NotFound.tsx:15-53 | the 404 page is drawn only while a redirect is under way |
| QualitySeal.StarRating | src/components/ui/quality-seal.tsx:10-27 | a rating iff `parseInt` reads 1 to 5, and it is that value |
| QualitySeal.ParseIntOfDigit | src/components/ui/quality-seal.tsx:13-27 | the exact-string checks "1" to "5" agree with `parseInt` |
| QualitySeal.GetConfig | src/components/ui/quality-seal.tsx:9-40 | k stars for a rating, checked first; "High", "Avg", "Low" for high, medium, low in any case; a dash otherwise |
| QualitySeal.NumericQualityStars | src/components/ui/quality-seal.tsx:10-27 | the number k from 1 to 5 gets k stars |
| QualitySeal.TrailingTextIgnored | src/components/ui/quality-seal.tsx:10 | text after the leading digit is ignored ("4 stars" gives four stars) |
| LevelMeter.LevelIndexIgnoresCase | src/components/ui/level-meter.tsx:3-6 | the index ignores case |
| LevelMeter.ActiveColor | src/components/ui/level-meter.tsx:18-25 | "bg-primary" for -1, `levelColors[index]` for a known level; never the unlit colour |
| LevelMeter.LitSegments | src/components/ui/level-meter.tsx:15-36 | four segments; segment i is lit iff i <= index |
| LevelMeter.SegmentClasses | src/components/ui/level-meter.tsx:30-36 | a segment has the active colour iff lit and the border colour iff unlit |
| LevelMeter.LitCount | src/components/ui/level-meter.tsx:15-36 | index + 1 segments are lit: none for an unknown level, four for "expert" |
| Utils.UserPart | src/lib/utils.ts:10 | the text before the first '@', or the whole address without one |
| Utils.Capitalize | src/lib/utils.ts:14 | same length and letters up to case; first character not lower-case, the rest not upper-case |
| Utils.ParseNameFromEmail | src/lib/utils.ts:8-16 | "Unknown" for a missing or empty address, otherwise the capitalised '.'-pieces joined by spaces |
| Utils.NameHasOneWordPerPiece | src/lib/utils.ts:11-15 | without spaces, the name splits back into the words, one per '.' plus one |
| SupabaseEndpoint.StripScheme | scripts/monitor.js:16 | a suffix of the URL: "https://" + result is the URL when it starts with "https://", else "http://" + result when it starts with "http://", else the URL unchanged (the same expression as scripts/keep-alive.js:13) |
| SupabaseEndpoint.StripTrailingSlash | scripts/keep-alive.js:13 | a trailing '/' is removed iff there is one, and nothing else changes |
| SupabaseEndpoint.Hostname | scripts/keep-alive.js:13 | the URL is the result framed by at most one scheme in front ("https://", "http://" or none) and at most one '/' behind (the same in scripts/monitor.js:16) |
| SupabaseEndpoint.HostnameOfUrl | scripts/keep-alive.js:13 | scheme + host + "/" gives the host back, and so does scheme + host |
| SupabaseEndpoint.HostnameOfBareHost | scripts/monitor.js:16 | a string without scheme and trailing '/' is unchanged |
| SupabaseEndpoint.HostnameOfBareHostSlash | scripts/keep-alive.js:13 | without a scheme, "host/" gives "host": only one trailing '/' goes |
| SupabaseEndpoint.GetRequest | scripts/keep-alive.js:15-24 | the hostname, the path, the key as `apikey` and as the Bearer token |
| KeepAlive.KeepAlive | scripts/keep-alive.js:6-44 | no request iff the URL or key is missing; the request is to "/rest/v1/"; exit 0 iff configured and the status is in [200, 500) |
| KeepAlive.ClientErrorsAreReachable | scripts/keep-alive.js:31-38 | a 4xx exits 0 and a 5xx exits 1 |
| Monitor.Concat | scripts/monitor.js:27-28 | "" for no chunks; otherwise the text starts with the first chunk's text and ends with the last chunk's |
| Monitor.ChunkBoundariesIrrelevant | scripts/monitor.js:27-28 | splitting a chunk of bytes in two does not change the text when the two halves decode to the two halves of the whole chunk's text; each chunk is decoded on its own |
| Monitor.AccumulateBody | scripts/monitor.js:27-28 | the loop yields the decoded chunks concatenated in arrival order |
| Monitor.MinutesAgo | scripts/monitor.js:42-44 | the floor of the elapsed minutes |
| Monitor.PingTime | scripts/monitor.js:42-43 | a missing `last_ping` is an invalid date, JSON null is the epoch (time 0), a text is parsed |
| Monitor.Decide | scripts/monitor.js:29-51 | exit 0 or 1; a non-200 status or an empty or unparsable row list exits 1 without a status; exit 0 iff "OK"; exit 1 with a status iff OVERDUE |
| Monitor.Monitor | scripts/monitor.js:11-62 | no request iff unconfigured; a missing configuration or a request error exits 1 with no status; otherwise the end handler decides |
| Monitor.OverdueIffOlderThanThreshold | scripts/monitor.js:44-51 | with a readable date, exit 1 and OVERDUE iff more than 2880 whole minutes have passed |
| Monitor.UnreadablePingIsOk | scripts/monitor.js:42-51 | a `last_ping` key that is missing, or a text that is not a date, passes as OK |
| Monitor.NullPingIsOverdue | scripts/monitor.js:42-51 | a JSON-null `last_ping` counts from the epoch: 2881 minutes after it or later the run exits 1 with OVERDUE |
| Monitor.RunMonitor | scripts/monitor.js:11-62 | the script with the body read chunk by chunk gives the same report |
| Text.Trim | src/hooks/useCertifications.ts:19 | JavaScript `trim`: the result occurs in the input with only whitespace before and after it, neither starts nor ends with whitespace, and is empty iff the input is all whitespace |
| Text.SplitPiecesHaveNoSeparator | src/hooks/useCertifications.ts:19 | no piece of a `split` holds the separator |
| Text.JoinSplit | src/hooks/useCertifications.ts:19 | joining the pieces of a `split` with the separator gives the input back |
| Text.SplitJoin | src/lib/utils.ts:11-15 | splitting a join of separator-free pieces gives the pieces back |
| Text.ParseInt | src/components/ui/quality-seal.tsx:10 | `parseInt`: NaN for a text without digits; a negative result only for a text with a '-' |
| Text.ParseIntToString | src/components/ui/quality-seal.tsx:10 | `parseInt` reads back any integer as its decimal text writes it |
| Text.ParseDecimalPrefix | src/pages/AdminDashboard.tsx:215 | `parseFloat` on digits, '.' and '-' reads a number only when a digit is present |
| Text.DecimalOfParts | src/pages/AdminDashboard.tsx:215 | `parseFloat` of integer digits, a '.', fraction digits and a non-digit tail is the integer value plus the fraction read digit by digit (at least one digit on either side) |
| Text.DigitsFractionValue | src/pages/AdminDashboard.tsx:215 | that fraction is the value of the fraction digits over ten to the number of digits |
| AdminSync.UnsignedDigits | src/pages/AdminDashboard.tsx:215 | `parseFloat` of a run of digits is its value |
| AdminSync.NegatedDigits | src/pages/AdminDashboard.tsx:215 | `parseFloat` reads a leading minus sign as the negation of the number after it |

## Left out

- Network and storage: Supabase queries and mutations, the Google Sheets `fetch`es and
  `https.request` are not modelled. Tables are sequences, and the HTTP status, the body and the
  parsed JSON are inputs.
- Query caching, invalidation and the react-query lifecycles are not modelled. The mutations
  run sequentially. The stale `favorites` read inside `toggleFavorite` and double submission
  are out of scope.
- `Number(x)` on a database column: the value either arrives as a number or is missing, and
  `NumberOrZero` gives 0 for a missing one. A non-numeric string is not modelled.
- Prices are exact reals, so double rounding is not modelled.
- `parseFloat` in `ParsePrice` is exact on the stripped text. Its exponent syntax cannot occur,
  because letters are stripped.
- `new Date(...)` parsing and `toISOString` formatting are a function parameter, and the
  current time is an argument. An unreadable date makes the import fail with
  "Invalid time value".
- `localeCompare` is plain code-point order. `toLowerCase`/`toUpperCase` fold ASCII only.
  Characters such as 'ß' are not modelled.
- Text order: a Dafny `char` is a Unicode scalar value, so `Text.LexLe` compares code points,
  while the default `sort()` of `src/data/certifications.ts` compares UTF-16 code units. The two
  differ only when a character outside the Basic Multilingual Plane meets one from U+E000 to
  U+FFFF: JavaScript puts "\u{1F600}" before "\uFF5E", the model after it.
- `JSON.parse` of an error body is a parameter. A body that is not JSON gives its syntax error
  as the message, and that message is itself an input.
- `saveSettings` in the admin import is modelled as a synchronous write of the two settings.
  Its own error handling is not modelled.
- The admin import's `update(...).eq('id', ...)` is modelled as replacing the matched row.
  Fresh row ids and per-row write failures are parameters.
- The admin import's console output and the `fetchStats` refresh are not modelled.
- The `finally` clause of the admin import is modelled: the busy flag ends cleared on every path
  after the id check.
- Monitor: the body is parsed by a parameter. It either gives a list of rows, whose first
  `last_ping` is read, or nothing. JSON that is not a list is outside the model.
- Monitor: `new Date(last_ping)` is modelled on three JSON values. A missing key gives an
  invalid date, so `minutesAgo` is NaN and the script reports OK. JSON `null` gives the epoch,
  so the run reports OVERDUE. A text is read by the date-parsing parameter. Numbers and other
  JSON values in that field are not modelled.
- Monitor: each chunk is a `Buffer`, and `data += chunk` decodes each one on its own. Decoding
  is a parameter, so a multi-byte UTF-8 character split across two chunks is decoded however
  that parameter says (Node gives U+FFFD). `ChunkBoundariesIrrelevant` holds only for splits
  that the decoding does not see.
- Both scripts: `process.exit` and `console` output are the returned exit code and status line.
- LevelMeter: the level text is rendered unchanged. This is JSX and is not a computation.
- QualitySeal and LevelMeter: the badge markup and the `cn` class merger are not modelled.
- The OAuth session, routing and page composition are not modelled. This covers `App.tsx`,
  `AuthProvider.tsx`, `Login.tsx`, `Index.tsx` and the presentational components.
- The suggestions hook is not modelled. It only renames fields.
- The filter bar's keys ("area", "level") differ from the hook's ("domain",
  "experienceLevel"). Each file is modelled as written, and `FilterBar.AreaAndLevelDoNotNarrow`
  states the consequence.
- The table's "area" and "level" sort keys are absent from the record. They compare as equal.
