# SRMAP Lost & Found — a Dafny model of the matcher and the feed logic

This project models the behavioural core of a campus lost-and-found web app.
Students post lost or found items. A server function (`match-items`) compares a
newly posted item with the active items of the opposite type in the same
category. It asks a language model for a confidence per pair, stores the
confident pairings as pending matches, flips both items to `matched` and
notifies both owners. The client side is modelled too:

- the avatar initials and colour;
- the sign-in form's e-mail and name validation and its submit dispatch;
- the feed page: the item-to-card transform, the tab filter and counts, the
  navigation handlers and posting;
- the items hook: the type filter, the user-id dedupe, the profile join, item
  creation and the upload file name;
- the side navigation: the admin filter, the active entry, the notification
  dot and clicks.

Everything is immutable datatypes and pure functions. The three database tables
are one `Records.Store` value that each operation takes and returns. The
language model is an `Oracle`, a function from the prompt's content (the new
item's side and the prompt-relevant fields of both items) to an optional parsed
outcome. `None` stands for every way a call can fail: a non-OK response, a
reply without a JSON object, or a thrown error. Other outside inputs are
parameters:

- the clock (`now` in `ItemsHooks.UploadPath`);
- the id the database gives a new row (`newId`);
- the signed-in user (`user`);
- whether the image upload succeeded (`upload` in `Feed.HandlePostItem`).

Modules follow the program:

| module | file | models |
|---|---|---|
| `TextUtil` | text_util.dfy | the ECMAScript `trim`, `split` on one character, ASCII `toUpperCase`, `endsWith`, `includes`, number printing |
| `Records` | records.dfy | the rows of `items`, `matches`, `notifications`, `profiles`, and the store |
| `MatchSort` | match_sort.dfy | the stable descending sort by confidence |
| `MatchItems` | match_items.dfy | the `match-items` handler, stage by stage |
| `MatchProperties` | match_properties.dfy | whole-run properties: thresholds, records, statuses, notifications, type correctness, re-runs |
| `MatchScenarios` | match_scenarios.dfy | concrete runs: a lost phone, an oracle failure, the 60/70 boundaries, no candidates |
| `Findings` | findings.dfy | the request check as deployed, and the self-pair it lets through |
| `AvatarInitials` | avatar_initials.dfy | `getInitials`, `getColorFromName` |
| `AuthForm` | auth_form.dfy | `validateEmail`, `handleSubmit`, the e-mail `onChange`, the password toggle, the shown error |
| `ItemsHooks` | items_hooks.dfy | `useItems`, `useCreateItem`, `useUploadImage` |
| `SidebarNav` | sidebar_nav.dfy | `navItems`, `filteredItems`, `isActive`, `showDot`, the click handler |
| `Feed` | feed.dfy | `transformItem`, `filterType`, `displayItems`, `counts`, the two navigation handlers, `handlePostItem` |

## Model

| member | source | states |
|---|---|---|
| MatchItems.Validate | supabase/functions/match-items/index.ts:30-37 | a request passes exactly when `itemId` is a non-empty string and `itemType` is "lost" or "found"; the pair it returns is the id and the type read back from its spelling (this is the corrected check, see Findings) |
| MatchItems.FindSingle | supabase/functions/match-items/index.ts:40-44 | `.single()`: a found row is in the table and has the requested id |
| MatchItems.FindSingleUnique | supabase/functions/match-items/index.ts:40-51 | with unique ids, the lookup succeeds exactly when some row has the id |
| MatchItems.FindSingleFlipped | supabase/functions/match-items/index.ts:40-44 | setting statuses to matched does not change whether, or which, item a lookup finds |
| MatchItems.EligibleItems | supabase/functions/match-items/index.ts:55-60 | an item is eligible exactly when it has the opposite type, status active and the new item's category |
| MatchItems.SelectCandidates | supabase/functions/match-items/index.ts:55-61 | at most twenty candidates, a prefix of the eligible items in store order, each eligible; when at most twenty are eligible, all of them |
| MatchItems.Consult | supabase/functions/match-items/index.ts:71-145 | one outcome per candidate, in candidate order, each the oracle's answer for that candidate's prompt |
| MatchItems.ResultFor | supabase/functions/match-items/index.ts:131-136 | the new item fills the side the request names and the candidate the other; confidence and reasoning come from the outcome |
| MatchItems.AcceptMembers | supabase/functions/match-items/index.ts:146-147 | a candidate's result is kept exactly when its outcome parsed with confidence 60 or more; failed outcomes are dropped one by one |
| MatchItems.Evaluate | supabase/functions/match-items/index.ts:146-148 | the kept results, non-increasing in confidence, a permutation of the accepted ones, and for every confidence in candidate order |
| MatchItems.EvaluateMembers | supabase/functions/match-items/index.ts:119-147 | after sorting, a result is returned exactly when its candidate's outcome parsed with confidence 60 or more |
| MatchSort.SortByConfidence | supabase/functions/match-items/index.ts:148 | the result is non-increasing, a permutation of the input, and keeps the input order among equal confidences |
| MatchSort.StableSortIsUnique | supabase/functions/match-items/index.ts:148 | any stable non-increasing ordering of the results is exactly the one the model computes |
| MatchSort.InsertGroups | supabase/functions/match-items/index.ts:148 | inserting a result puts it ahead of every result with its confidence and moves nothing else |
| MatchItems.NextMatchId | supabase/functions/match-items/index.ts:162-167 | a new match record gets an id no stored record has |
| MatchItems.NotificationMessage | supabase/functions/match-items/index.ts:186 | the message contains the item's title and the printed confidence |
| MatchItems.MarkMatched | supabase/functions/match-items/index.ts:170-173 | exactly the rows with one of the two ids become matched; every other row is unchanged |
| MatchItems.NotifyFor | supabase/functions/match-items/index.ts:176-189 | every note is titled "Potential Match Found!" and unread; each row with one of the two ids gets a note, and every note belongs to such a row |
| MatchItems.NotifyForConcat | supabase/functions/match-items/index.ts:176-189 | the notes for a concatenation of rows are the notes for the parts, in row order |
| MatchItems.NotifyForOne | supabase/functions/match-items/index.ts:182-188 | one row gets exactly one note when it has one of the two ids and none otherwise, so with the concatenation lemma every involved row gets exactly one note |
| MatchItems.RecordsWithPair | supabase/functions/match-items/index.ts:154-160 | the existing-match query returns exactly the stored records with that lost and found id |
| MatchItems.RecordsWithPairEmpty | supabase/functions/match-items/index.ts:154-160 | the query returns nothing exactly when no record has the pair |
| MatchItems.NoDuplicatesSingleRecord | supabase/functions/match-items/index.ts:154-163 | when no pair is stored twice, `.single()` finds a record exactly when the pair is stored |
| MatchItems.PersistOne | supabase/functions/match-items/index.ts:152-190 | one loop step only flips statuses and appends, and adds at most one record; after it the pair is stored iff it was before or the confidence is 70 or more; on a store without duplicate pairs it inserts exactly when the pair is new and the confidence is 70 or more, and it keeps the store free of duplicates |
| MatchItems.PersistAll | supabase/functions/match-items/index.ts:151-192 | the loop only flips statuses to matched, only appends records and notifications, and keeps every pair stored at most once |
| MatchItems.MatchNewItem | supabase/functions/match-items/index.ts:54-200 | no candidates gives an empty list with "No items to compare" and no writes; otherwise the sorted results at or above 60 with the summary message, and only appends and status flips to the store |
| MatchItems.HandleMatchRequest | supabase/functions/match-items/index.ts:30-200 | a 400 "Missing itemId or itemType" exactly when the corrected validation fails; a 404 "Item not found" exactly when the item is missing; neither error touches the store; otherwise sorted results at or above 60, and the store only grows and flips statuses |
| MatchProperties.PersistOneMatches | supabase/functions/match-items/index.ts:161-167 | one step appends the pending copy of the result exactly when it inserts, and no other record |
| MatchProperties.PersistAllRecords | supabase/functions/match-items/index.ts:151-168 | every result at 70 or more ends up stored; every new record is pending and a copy of a result at 70 or more |
| MatchProperties.PersistAllFresh | supabase/functions/match-items/index.ts:152-168 | on a store without duplicate pairs, every new record is for a pair that was not stored before |
| MatchProperties.PersistAllStatuses | supabase/functions/match-items/index.ts:161-173 | an item changes only if a newly inserted record names it, and every item a new record names is matched afterwards |
| MatchProperties.PersistAllNotifications | supabase/functions/match-items/index.ts:175-189 | the notifications added are exactly those of the new records, in record order; skipped pairs notify nobody |
| MatchProperties.PersistAllSkips | supabase/functions/match-items/index.ts:152-163 | on a store without duplicate pairs, when every confident pair is already stored, the loop changes nothing |
| MatchProperties.HandleNormalForm | supabase/functions/match-items/index.ts:145-196 | every run's store is the persist loop applied to the matches it returns |
| MatchProperties.RunResultsMembers | supabase/functions/match-items/index.ts:119-147 | a run returns the result for a candidate exactly when that candidate's answer parsed with confidence 60 or more |
| MatchProperties.HandleRecordsIff | supabase/functions/match-items/index.ts:151-168 | after a run a pair is stored exactly when it was stored before or the run returned it with confidence 70 or more |
| MatchProperties.RunResultsWellTyped | supabase/functions/match-items/index.ts:131-136 | when the request's type is the item's stored type, every result names a lost item as lost and a found item as found |
| MatchProperties.HandleKeepsWellTyped | supabase/functions/match-items/index.ts:131-167 | a run keeps every stored match naming a lost item as lost and a found item as found |
| MatchProperties.RerunCandidates | supabase/functions/match-items/index.ts:40-61 | on the store a run produced, the same request finds the same item and, when the pool fits under the cap, no new candidate |
| MatchProperties.RerunChangesNothing | supabase/functions/match-items/index.ts:151-168 | re-running the same request with the same oracle on the store a run produced writes nothing, when the eligible pool fits under the cap and no pair was stored twice |
| MatchScenarios.LostPhoneIsMatched | supabase/functions/match-items/index.ts:30-200 | a lost phone against one found phone at 85: one pending record with id 0, both phones matched, both owners notified with "85" in the message, "Found 1 potential matches" |
| MatchScenarios.FailureIsIsolated | supabase/functions/match-items/index.ts:119-148 | a failed oracle call drops only its candidate; the others come back sorted |
| MatchScenarios.ThresholdBoundaries | supabase/functions/match-items/index.ts:146-152 | 70 is returned and stored, 69 is returned but not stored, 59 is dropped |
| MatchScenarios.NoCandidatesWritesNothing | supabase/functions/match-items/index.ts:63-68 | with no eligible candidate the store is unchanged and the reply is "No items to compare" |
| MatchScenarios.DoubledPairIsInsertedAgain | supabase/functions/match-items/index.ts:152-190 | with the pair (A, B) stored twice, `.single()` finds nothing, so a result of 80 inserts a third record with the next id and notifies both owners again |
| Findings.ValidateAsWritten | supabase/functions/match-items/index.ts:32-37 | the deployed check passes exactly when both fields are non-empty strings |
| Findings.OppositeAsWritten | supabase/functions/match-items/index.ts:54 | the opposite type is "found" exactly for "lost", and "lost" for any other string |
| Findings.ResultIdsAsWritten | supabase/functions/match-items/index.ts:132-133 | the new item's id is on the lost side only for "lost" and on the found side only for "found"; otherwise both sides are the candidate |
| Findings.AsWrittenAgreesOnTypeNames | supabase/functions/match-items/index.ts:32-133 | for "lost" and "found" the deployed check, opposite and id placement agree with the model |
| Findings.UnknownTypeMakesSelfPair | supabase/functions/match-items/index.ts:132-133 | any other non-empty type passes the deployed check and pairs every candidate with itself, while the corrected check rejects it |
| Findings.CapitalisedLostPairsCandidateWithItself | supabase/functions/match-items/index.ts:32-54 | the type "Lost" passes, searches lost items and gives the pair (C, C) |
| Findings.CorrectedResultPairsTwoItems | supabase/functions/match-items/index.ts:132-133 | with the corrected id placement, a candidate other than the new item is put on the other side from it |
| Findings.CorrectedHandlerPairsTwoItems | supabase/functions/match-items/index.ts:30-148 | with the corrected check and a request whose type is the item's stored type, as the app sends it, every returned result pairs two different items |
| Findings.MislabelledRequestPairsItemWithItself | supabase/functions/match-items/index.ts:39-61 | the premise is needed: a found item requested as "lost" is its own candidate and is paired with itself, (A, A) at 80 |
| AvatarInitials.Initials | src/components/ui/avatar-initials.tsx:16-22 | at most two characters, all upper case; a name that trims to nothing gives no initials |
| AvatarInitials.InitialsOfOneWord | src/components/ui/avatar-initials.tsx:17-20 | a single word gives its first two characters, upper-cased |
| AvatarInitials.InitialsOfSeveralWords | src/components/ui/avatar-initials.tsx:17-21 | with a space in the trimmed name, the first character of the name and the one after its last space, upper-cased; middle words do not matter |
| AvatarInitials.InitialsIgnorePadding | src/components/ui/avatar-initials.tsx:17 | whitespace around a name does not change its initials |
| AvatarInitials.Utf16 | src/components/ui/avatar-initials.tsx:32 | a character below U+10000 is one code unit, its code point; any other is a high and a low surrogate that decode back to it |
| AvatarInitials.ColorFromName | src/components/ui/avatar-initials.tsx:24-34 | always a palette entry; the empty name gets "bg-accent" |
| AvatarInitials.ColorOfAstralCharacter | src/components/ui/avatar-initials.tsx:24-34 | U+1F600 adds its two surrogates D83D and DE00, which gives "bg-primary" |
| AvatarInitials.ColorIgnoresOrder | src/components/ui/avatar-initials.tsx:32-33 | names made of the same characters in any order get the same colour |
| AvatarInitials.CodeSumPermutation | src/components/ui/avatar-initials.tsx:32 | the sum of the names' UTF-16 code units does not depend on the order of the characters |
| AvatarInitials.UnknownUserInitials | src/components/ui/avatar-initials.tsx:16-22 | the fallback name "Unknown User" shows "UU" |
| TextUtil.TrimIgnoresPadding | src/components/ui/avatar-initials.tsx:17 | `trim` of a string padded with whitespace is `trim` of the string |
| TextUtil.TrimStart | src/components/ui/avatar-initials.tsx:17 | removes exactly a whitespace prefix and leaves a string that does not start with whitespace |
| TextUtil.TrimEnd | src/components/ui/avatar-initials.tsx:17 | removes exactly a whitespace suffix and leaves a string that does not end with whitespace |
| TextUtil.JoinSplit | src/components/ui/avatar-initials.tsx:17 | joining the pieces of a split with the separator gives back the string |
| TextUtil.SplitLast | src/components/ui/avatar-initials.tsx:21 | the last piece of a split is what follows the last separator |
| TextUtil.ToUpperAscii | src/components/ui/avatar-initials.tsx:19 | same length; each character upper-cased on its own |
| AuthForm.ValidateEmail | src/components/AuthPage.tsx:24-31 | passes exactly when the e-mail ends with "@srmap.edu.in"; sets the fixed message on failure and clears it on success; no other field changes |
| AuthForm.CampusAddressesPass | src/components/AuthPage.tsx:25 | every address ending in "@srmap.edu.in" passes |
| AuthForm.PassingAddressesAreCampus | src/components/AuthPage.tsx:25 | every passing address is some text followed by "@srmap.edu.in" |
| AuthForm.OtherSpellingsFail | src/components/AuthPage.tsx:25 | the suffix check is case-sensitive and exact: upper case, a longer domain and another domain all fail |
| AuthForm.HandleSubmit | src/components/AuthPage.tsx:33-46 | a bad e-mail calls nobody; login calls `onLogin(email, password)` without a name check; signup with a blank trimmed name sets "Please enter your name" and calls nobody; otherwise `onSignup` gets the untrimmed name |
| AuthForm.SubmitIsIdempotent | src/components/AuthPage.tsx:33-46 | submitting the resulting form again gives the same form and the same call |
| AuthForm.PaddedNameStillSignsUp | src/components/AuthPage.tsx:40-44 | whitespace around the name does not change whether signup is called |
| AuthForm.OnEmailChange | src/components/AuthPage.tsx:145-148 | editing the e-mail sets it and clears the form's error, and changes nothing else |
| AuthForm.EmailChangeHidesFormError | src/components/AuthPage.tsx:145-148 | after an e-mail edit, only the external error can be shown |
| AuthForm.SetMode | src/components/AuthPage.tsx:80-92 | the mode buttons change only the mode |
| AuthForm.TogglePassword | src/components/AuthPage.tsx:177 | the eye button flips only the password visibility |
| AuthForm.ToggleTwiceRestores | src/components/AuthPage.tsx:177 | two clicks restore the form |
| AuthForm.PasswordInputType | src/components/AuthPage.tsx:167 | the input is "text" exactly when the password is shown, "password" otherwise |
| AuthForm.DisplayedError | src/components/AuthPage.tsx:105-112 | the external error wins when non-empty, then the form's; nothing is shown when neither is non-empty |
| AuthForm.CallMeansNoFormError | src/components/AuthPage.tsx:29-44 | when the submit calls login or signup, only the external error can be shown |
| AuthForm.RejectionIsShown | src/components/AuthPage.tsx:105-112 | when the submit calls nobody, an error is shown |
| Feed.Transform | src/pages/Index.tsx:20-36 | `isMatched` iff the status is matched; id, type, title, category, description, location, date and image copied; the name is the profile's full name, or "Unknown User" without a profile or with an empty one; the e-mail is the profile's, or "" without one; the name is never empty |
| Feed.OwnerlessCardAvatar | src/pages/Index.tsx:33 | a card without a profile shows the initials "UU" |
| Feed.TransformAll | src/pages/Index.tsx:54-55 | one card per item, in order |
| Feed.QueryFor | src/pages/Index.tsx:47 | the lost and found tabs query their type; the all and matched tabs query everything |
| Feed.MatchedTabLoadsEverything | src/pages/Index.tsx:47-48 | the matched tab loads the same rows as the all tab: every row |
| Feed.MatchedOnly | src/pages/Index.tsx:56-61 | a card is kept iff it is in the input and matched |
| Feed.MatchedOnlyConcat | src/pages/Index.tsx:56-61 | filtering a concatenation concatenates the filtered parts, so the kept cards stay in input order |
| Feed.MatchedOnlyOne | src/pages/Index.tsx:56-61 | a single card is kept exactly when it is matched |
| Feed.MatchedOnlyMultiset | src/pages/Index.tsx:56-61 | every matched card is kept as often as it occurs, any other card never |
| Feed.DisplayItems | src/pages/Index.tsx:54-61 | under the matched tab the matched cards, each as often as it occurs; under the others every card in order |
| Feed.MatchedTabKeepsOrder | src/pages/Index.tsx:54-61 | under the matched tab the cards of a concatenation are the parts' cards in order, and one item shows its card exactly when it is matched |
| Feed.CountsOf | src/pages/Index.tsx:63-68 | `all` is the item count; `lost`, `found` and `matched` are how often the type lost, the type found and the status matched occur among the items; `lost + found == all` |
| Feed.MatchedOnlyCounts | src/pages/Index.tsx:54-67 | the matched cards are as many as the items with status matched |
| Feed.MatchedTabShowsMatchedCount | src/pages/Index.tsx:54-68 | under the matched tab the number of cards is `counts.matched` |
| Feed.TypedTabCounts | src/pages/Index.tsx:47-68 | under the lost tab every counted item is lost, and under the found tab every one is found |
| Feed.HandleNavigation | src/pages/Index.tsx:70-76 | "add" opens the post form and keeps the active entry; any other entry becomes active |
| Feed.HandleSidebarNavigation | src/pages/Index.tsx:78-84 | "admin" changes nothing; no click changes the tab or the sidebar |
| Feed.HandlersAgree | src/pages/Index.tsx:70-84 | on the bottom bar's entries the two handlers do the same |
| Feed.SidebarNavigationIdempotent | src/pages/Index.tsx:78-84 | a second click on the same entry changes nothing more |
| Feed.NavInvariantKept | src/pages/Index.tsx:70-84 | neither handler ever makes "add" or "admin" the active entry |
| Feed.NeverHighlightsActions | src/pages/Index.tsx:78-84 | so "Post Item" and "Admin Panel" are never highlighted |
| Feed.MobileAdminClickOnlyCloses | src/pages/Index.tsx:122-133 | on the mobile sidebar, clicking "Admin Panel" only closes the sidebar |
| Feed.MobileAddClickOpensForm | src/pages/Index.tsx:122-133 | on the mobile sidebar, clicking "Post Item" opens the form and closes the sidebar |
| Feed.HandlePostItem | src/pages/Index.tsx:86-107 | the image is "/placeholder.svg" unless there is an image and its upload succeeded, then the upload's URL; an empty time is sent as absent; type, title, category, description, location and date are copied |
| Feed.PostedTimeStored | src/pages/Index.tsx:104 | the stored row has no time exactly when the form's time was empty |
| Feed.NoImageIgnoresUpload | src/pages/Index.tsx:87-95 | without an image the upload's outcome does not matter |
| ItemsHooks.SelectRows | src/hooks/useItems.ts:53-60 | the type filter applies exactly for "lost" and "found" and keeps the rows of that type; otherwise every row |
| ItemsHooks.OfKindConcat | src/hooks/useItems.ts:58-60 | filtering a concatenation by type concatenates the filtered parts, so the kept rows stay in query order |
| ItemsHooks.OfKindOne | src/hooks/useItems.ts:58-60 | one row is kept exactly when it has the type |
| ItemsHooks.SelectRowsKeepsOrder | src/hooks/useItems.ts:53-60 | under any filter, the rows of a concatenation are the parts' rows in order, and one row is returned exactly when the filter is off or the row has its type |
| ItemsHooks.OfKindSplits | src/pages/Index.tsx:63-66 | every item is lost or found, so the two typed lists add up to all items |
| ItemsHooks.Dedupe | src/hooks/useItems.ts:68 | no duplicates, exactly the values of the input, and ordered by where each first occurs in the input |
| ItemsHooks.UniqueUserIds | src/hooks/useItems.ts:68 | the user ids without duplicates, containing every fetched item's user id and nothing else |
| ItemsHooks.ProfilesMap | src/hooks/useItems.ts:76-78 | a user id is a key exactly when some profile row has it |
| ItemsHooks.ProfilesMapLastWins | src/hooks/useItems.ts:76-78 | for a repeated user id the last row's profile wins |
| ItemsHooks.ProfilesQuery | src/hooks/useItems.ts:71-74 | exactly the profile rows whose user id is listed |
| ItemsHooks.ProfilesQueryKeepsListed | src/hooks/useItems.ts:71-78 | for a listed user id, querying first does not change the map's entry |
| ItemsHooks.JoinProfiles | src/hooks/useItems.ts:81-86 | same length and order; each item's profile is the map's entry for its user id, or none |
| ItemsHooks.LoadItems | src/hooks/useItems.ts:48-87 | an error exactly when the items query fails; otherwise the filtered rows in order, without profiles when the profile query gave nothing |
| ItemsHooks.LoadItemsProfiles | src/hooks/useItems.ts:67-86 | each loaded item carries the profile of its owner from the whole table, or none |
| ItemsHooks.NormaliseTime | src/hooks/useItems.ts:177 | an empty or absent time is stored as null; a non-empty one as given |
| ItemsHooks.CreateItem | src/hooks/useItems.ts:165-196 | without a user, "Not authenticated" and no write; otherwise the inserted row, active, owned by the user, with the given id, the input's type, title, category, description, location, date and image, and the normalised time; matching only flips statuses |
| ItemsHooks.CreateIgnoresMatching | src/hooks/useItems.ts:187-196 | the returned row does not depend on whether matching ran or failed |
| ItemsHooks.TriggerIsAccepted | src/hooks/useItems.ts:188-190 | the request sent for a freshly inserted row passes validation and finds the row |
| ItemsHooks.FileExtension | src/hooks/useItems.ts:218 | the last '.'-separated piece: it has no '.', it is the text after the last '.' when there is one, and a name without '.' is its own extension |
| ItemsHooks.UploadPath | src/hooks/useItems.ts:215-219 | fails with "Not authenticated" exactly when there is no user |
| ItemsHooks.UploadKeepsExtension | src/hooks/useItems.ts:218-219 | the path's extension is the file's extension |
| ItemsHooks.UploadPathHead | src/hooks/useItems.ts:219 | the path starts with the user id, "/" and the timestamp |
| ItemsHooks.UploadPathsDiffer | src/hooks/useItems.ts:219 | two uploads by one user at different times get different paths |
| SidebarNav.NavItemsDistinct | src/components/Sidebar.tsx:15-22 | the table's ids are distinct |
| SidebarNav.Visible | src/components/Sidebar.tsx:32 | keeps exactly the entries that are not admin-only, or all of them for an administrator |
| SidebarNav.FilteredItemsAre | src/components/Sidebar.tsx:15-32 | administrators see the whole table; everyone else sees its first five entries |
| SidebarNav.FilteredItemsShape | src/components/Sidebar.tsx:15-32 | six entries for administrators and five otherwise, the five common ones first in table order, ids distinct |
| SidebarNav.AdminEntryIffAdmin | src/components/Sidebar.tsx:21-32 | the admin entry is listed exactly for administrators |
| SidebarNav.AtMostOneActive | src/components/Sidebar.tsx:75 | at most one visible entry is highlighted |
| SidebarNav.DotIffNotifications | src/components/Sidebar.tsx:77 | some entry shows the dot exactly when there are notifications, and only "Matches" does |
| SidebarNav.Click | src/components/Sidebar.tsx:82-85 | a click reports its id first, and then a close exactly when there is a close handler |

## Left out

- HTTP and platform plumbing are not modelled: `serve`, CORS and the OPTIONS preflight, environment variables, the Supabase client, React Query caching and invalidation, toasts and all rendering, animation and styling.
- The 500 path of `match-items` is left out. Failures of the candidate query, of inserts, of updates and of the notification reads are not modelled: every store operation succeeds.
- The language-model call is left out: the prompt text, `fetch`, `response.ok`, and extracting and parsing the JSON. The `Oracle` returns a parsed integer confidence or nothing. Fractional or string confidences and JavaScript's coercions are not modelled.
- MatchItems.Oracle: a function of the prompt's content, so the same prompt always gets the same answer. A sampled language model does not promise that. Within one run each prompt is asked once, so this only matters across runs, in `MatchProperties.RerunChangesNothing`, whose claim assumes the same answers.
- `Promise.all` is modelled as an order-preserving map. The race between two concurrent runs on the check-then-insert of a match is left out: only sequential runs are modelled.
- MatchItems.NextMatchId: the database's generated match id is modelled as one more than the largest stored id. This is only a fresh id, not the database's value.
- MatchItems.FindSingle: the item lookup fails unless exactly one row has the id, as `.single()` does. The `items` table's own key is not modelled; `FindSingleUnique` assumes it.
- ItemsHooks.CreateItem: a failed insert, which the hook throws (line 184), is not modelled; the insert always succeeds. An inserted row's status is active by the database default, which is not part of the code shown. The row's id is a parameter. The time stamps `created_at` and `updated_at` are not modelled, and neither is the `order("created_at")` of the feed query: rows are given in the order the query returns them.
- MatchProperties.RerunChangesNothing: holds only when the eligible pool fits under the cap of twenty and no pair is stored twice. With more than twenty eligible items, the first run's status flips can let previously unseen candidates into the second run. A pair stored twice, which the left-out race can produce, is inserted again on every run, because `.single()` finds no record of it (`MatchScenarios.DoubledPairIsInsertedAgain`).
- MatchItems.HandleMatchRequest: the 400 reply for a non-empty `itemType` other than "lost" and "found" is the corrected check. The deployed handler lets such a request through (line 32) and pairs candidates with themselves (see Findings). Neither the deployed code nor the model checks that the request's type is the stored type of the item. A request that misstates it makes the item its own candidate (`Findings.MislabelledRequestPairsItemWithItself`). The app's own trigger always sends the stored type (`ItemsHooks.TriggerIsAccepted`).
- AvatarInitials.Initials: a `char` is a Unicode scalar value, while `words[0][0]` and `substring(0, 2)` take UTF-16 code units. For a name whose first characters lie above U+FFFF, the source returns lone surrogates and the model returns whole characters, so such names are not modelled faithfully. Names in the Basic Multilingual Plane agree.
- Feed.Transform: the date is kept as stored. `toLocaleDateString` formatting is left out.
- TextUtil.ToUpperAscii: only ASCII letters are upper-cased. `toUpperCase` on other text (for example "ß" to "SS", which also changes the length) is not modelled.
- ItemsHooks.UploadPath: `Date.now()` is the parameter `now`. The storage upload and `getPublicUrl` are left out; `Feed.HandlePostItem` takes the upload's outcome as a parameter.
- AuthForm.HandleSubmit: the browser's `required` and `minLength` checks run before submit, and they are left out. The `isLoading` button state is left out as well.
- `useMyItems`, `useMatches` and `useNotifications` are plain queries and are left out. Only `matches.length > 0` matters to the page, and it is the `hasNotifications` parameter of `SidebarNav`.

## Findings

| source | as written | input that shows it | evidently intended | confidence | as-written member | corrected member |
|---|---|---|---|---|---|---|
| supabase/functions/match-items/index.ts:32-37 | The request check only tests that `itemType` is non-empty. For any type other than "lost" and "found", the opposite type is "lost", and both ids of every result are the candidate's (lines 54, 132-133). | `{ itemId: "A", itemType: "Lost" }` with a lost candidate "C" in A's category: the result is (C, C), and at 70 or more it is stored as a match of C with itself, flipping C to matched | reject any type other than "lost" and "found" with the 400 reply, so that, for a request whose type is the item's stored type, every result pairs two different items | not executed; high that the self-pair follows from the code, low that callers other than the app send such types | Findings.UnknownTypeMakesSelfPair | Findings.CorrectedHandlerPairsTwoItems |
