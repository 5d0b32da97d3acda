# Journal app client rules, modelled in Dafny

A journaling app for phones keeps a shared list of the user's journal entries. It mirrors the list in a
local cache and refreshes it from a remote backend. It also has a sign-in form, a registration form, a
screen helper that shows one day's entries, and a custom bottom tab bar. This project models the
sequential rules of those five parts:

- `journal_context.dfy`: the journal provider (`JournalProvider`). This is a class with the fields
  `journals`, `loading` and `refreshing`, plus the storage it shares with the rest of the app. Its
  methods `FetchJournals`, `RefreshJournals` and `Mount` are proved against the specification function
  `Settle` and the view function `ViewAtTokenRead`. Lemmas about those functions state the cache rules:
  - a successful fetch replaces the list and persists it;
  - every other outcome sets the list to the cache, or to the empty list;
  - storage is written only on success;
  - no token means no request.
- `register.dfy`: the ordered registration checks (`Validate`) and the submit handler (`HandleRegister`).
- `auth.dfy`: the sign-in guard over trimmed fields, using JavaScript's `trim` whitespace set. Also the
  three-way failure classification (`FailureToast`) and the submit handler (`HandleSignIn`).
- `journal_fetcher.dfy`: parse-or-empty of the stored entries, then an order-preserving filter by
  calendar day.
- `tab_bar.dfy`: which routes get a tab, the icon mapping, the highlight, and the press guard.
- Shared modules:
  - `json.dfy`: a JSON codec for arrays of flat objects. Its round trip is proved.
  - `storage.dfy`: the key-value store.
  - `seqs.dfy`: an order-preserving filter.
  - `toasts.dfy`: the text of a notification.
  - `wrappers.dfy`: `Option`.

The backend is a parameter of each handler. `ListResponse`, `RegisterResponse` and `LoginResponse`
stand for what the server would answer if it is asked. Each handler returns whether it asked: a
`requested` flag, or the request it sent. Persistent storage is a `KeyValueStore` object holding a
`map<string, string>`.

A failed fetch does not keep the in-memory list: the code (context/JournalContext.tsx:80-82) sets it
to the cache it reads again, which may be the empty list. `Settle` and `OnlySuccessWrites` model that
behaviour.

## Model

| member | source | states |
|---|---|---|
| `Storage.KeyValueStore.GetItem` | context/JournalContext.tsx:39 | `getItem` returns the stored value, or nothing for a missing key |
| `Storage.KeyValueStore.SetItem` | context/JournalContext.tsx:31 | `setItem` replaces the value under one key and leaves every other key alone |
| `Json.EscapeChar` | context/JournalContext.tsx:31 | `JSON.stringify` escapes exactly `"`, `\` and the control characters below U+0020; every other character is written as itself |
| `Json.ReadEscapeOfEscape` | context/JournalContext.tsx:31-41 | every escape the encoder writes, `\u00XX` included, is read back as its character |
| `Json.DecodeStringBody` | context/JournalContext.tsx:41 | every character consumed up to the closing quote is at or above U+0020, so a raw control character anywhere in a string literal is an error, as in `JSON.parse` |
| `Json.ReadEscape` | context/JournalContext.tsx:41 | an escape takes at least one character, none of them a control character |
| `Json.DecodeNat` | context/JournalContext.tsx:41 | the text is the numeral of the value read followed by the rest, which starts after the run of digits; it fails iff there is no digit or `0` is followed by a digit, as in `JSON.parse` |
| `Json.NatDigitsOfDigitsValue` | context/JournalContext.tsx:41 | a run of digits without a leading zero is the numeral of the number it denotes |
| `Json.DecodeArrayOfLeadingZero` | context/JournalContext.tsx:41 | an array whose first object starts with a numeral with a leading zero does not parse |
| `Json.DecodeStringOfEncoded` | context/JournalContext.tsx:31 | a string literal written with JSON escapes is read back unchanged, and the text after it is untouched |
| `Json.DecodeIntOfEncoded` | context/JournalContext.tsx:31 | a decimal integer (negative ones included) is read back unchanged when a non-digit follows it |
| `Json.DecodeObjectOfEncoded` | context/JournalContext.tsx:31 | an object's members are read back in order, with the same keys and values |
| `Json.DecodeArrayOfEncoded` | context/JournalContext.tsx:31 | parsing the text written for an array of objects gives that array back |
| `Json.DecodeRecordsOfEncoded` | context/JournalContext.tsx:41 | records written through a conversion that the reverse conversion undoes parse back to the same list |
| `JournalContext.ToObject` | context/JournalContext.tsx:5-10 | a journal's JSON object (id, title, content, created_at) converts back to the same journal |
| `JournalContext.ParseOfSerialize` | context/JournalContext.tsx:29-47 | `JSON.parse(JSON.stringify(list))` is the list |
| `JournalContext.CachedJournals` | context/JournalContext.tsx:37-47 | loading the cache gives the parsed list; a missing or unparsable slot gives `[]`, never an error |
| `JournalContext.WithCache` | context/JournalContext.tsx:29-35 | after saving a list, loading the cache gives that list; no other key changes |
| `JournalContext.LeadingZeroCacheIsEmpty` | context/JournalContext.tsx:39-46 | a cached list whose first `id` has a leading zero is not JSON, so loading it gives `[]` |
| `JournalContext.AuthToken` | context/JournalContext.tsx:63-66 | a token counts only if it is stored and not empty |
| `JournalContext.JournalProvider.constructor` | context/JournalContext.tsx:25-27 | initial state: no journals, `loading` true, `refreshing` false |
| `JournalContext.JournalProvider.LoadJournalsFromStorage` | context/JournalContext.tsx:37-47 | the method reads the cache slot and returns the decode-or-empty list |
| `JournalContext.JournalProvider.SaveJournalsToStorage` | context/JournalContext.tsx:29-35 | the method writes the serialized list to the cache slot |
| `JournalContext.JournalProvider.FetchJournals` | context/JournalContext.tsx:49-87 | the end state is `Settle` of the old storage and the answer. Both flags end false. A render at the token read sees the entry flags, and sees the cache when one was published |
| `JournalContext.JournalProvider.RefreshJournals` | context/JournalContext.tsx:89-91 | the same end state and views as a forced `FetchJournals` |
| `JournalContext.JournalProvider.Mount` | context/JournalContext.tsx:94-103 | mounting publishes a non-empty cache, which a render sees with the flags as they were. It then records the views of an unforced fetch and ends in its state |
| `JournalContext.RequestIffToken` | context/JournalContext.tsx:63-73 | the list request is issued exactly when a non-empty token is stored |
| `JournalContext.SuccessReplacesAndPersists` | context/JournalContext.tsx:75-77 | after success the list is exactly the fetched list, not a merge. Reloading the cache gives that list, and the token is kept |
| `JournalContext.NoTokenTakesFailurePath` | context/JournalContext.tsx:63-82 | with no token: no request, no write, and the list becomes the cache |
| `JournalContext.OnlySuccessWrites` | context/JournalContext.tsx:75-82 | storage changes only on a successful fetch. Every other fetch sets the list to the decoded cache |
| `JournalContext.FailureServesPersistedList` | context/JournalContext.tsx:78-82 | a failed fetch over a cache holding a list shows exactly that list and writes nothing |
| `JournalContext.FailureAfterSuccessServesLastFetched` | context/JournalContext.tsx:75-82 | a failed request after a success falls back to the list of that success |
| `JournalContext.SignedOutAfterSuccessServesLastFetched` | context/JournalContext.tsx:63-82 | once the token is removed after a success, a fetch makes no request, writes nothing and shows the list of that success |
| `JournalContext.LastSuccessWins` | context/JournalContext.tsx:75-77 | of two successful fetches, the second alone decides both the list and the cache |
| `JournalContext.EntryFlags` | context/JournalContext.tsx:51-61 | on entry `refreshing` equals `forceRefresh` and `loading` is its negation. Unforced with a non-empty cache, the cache is shown with `loading` cleared before the token read |
| `JournalContext.NoCacheNoTokenIsEmpty` | context/JournalContext.tsx:55-82 | with no cache and no token the list stays empty and no request is made |
| `Register.Utf16Length` | components/Register.tsx:79 | `length` counts UTF-16 units: one per character inside the Basic Multilingual Plane, two per character outside it, so between the number of characters and twice it |
| `Register.Utf16LengthOfConcat` | components/Register.tsx:79 | the length of a concatenation is the sum of the lengths |
| `Register.Utf16LengthOfChar` | components/Register.tsx:79 | a single character counts two units at or above U+10000, one below |
| `Register.Validate` | components/Register.tsx:51-89 | the form is valid iff all four checks pass. Otherwise the result is the first failing check, in the order missing field, no `@`, mismatch, fewer than 6 units |
| `Register.PhoneNotRequired` | components/Register.tsx:52 | the phone number never changes the validation result |
| `Register.AstralPasswordOfThreeCharactersPasses` | components/Register.tsx:79-86 | three emoji make a password of length 6 that passes |
| `Register.ValidationToast` | components/Register.tsx:52-86 | each failed check shows its own title ("Missing Fields", "Invalid Email", "Password Mismatch", "Weak Password"), never a registration result |
| `Register.FailureDescription` | components/Register.tsx:113-117 | the failure text is the server's non-empty `error` field, otherwise the default text |
| `Register.RegisterForm.constructor` | components/Register.tsx:16-23 | all fields start empty and `loading` false |
| `Register.RegisterForm.HandleRegister` | components/Register.tsx:91-121 | an invalid form sends nothing, stores nothing and leaves `loading` alone. A valid one sends the four fields and ends with `loading` false. Success stores the token; failure stores nothing |
| `Auth.VisibleIsNotWhitespace` | components/Auth.tsx:70 | printable ASCII other than the space is never removed by `trim` |
| `Auth.AllWhitespaceIffEvery` | components/Auth.tsx:70 | a string is blank iff every one of its characters is JavaScript whitespace |
| `Auth.LeadingWhitespace` | components/Auth.tsx:70 | counts a prefix that is all whitespace and is followed by a non-whitespace character or the end |
| `Auth.TrailingWhitespace` | components/Auth.tsx:70 | finds a suffix that is all whitespace and is preceded by a non-whitespace character or the start |
| `Auth.TrimStart` | components/Auth.tsx:70 | returns a suffix that does not start with whitespace, after removing a prefix that is all whitespace; empty iff the input is blank. This fixes the result |
| `Auth.TrimEnd` | components/Auth.tsx:70 | returns a prefix that does not end with whitespace, after removing a suffix that is all whitespace; empty iff the input is blank. This fixes the result |
| `Auth.Trim` | components/Auth.tsx:70 | `trim()` has no whitespace at either end, and it is empty iff the input is all whitespace |
| `Auth.TrimRemovesOnlyWhitespace` | components/Auth.tsx:70 | `trim()` is a slice of the input with only whitespace before and after it |
| `Auth.EmptyFieldsIffBlank` | components/Auth.tsx:70-77 | the guard fires iff the email or the password is blank |
| `Auth.PaddedFieldsPassGuard` | components/Auth.tsx:70 | fields with surrounding spaces pass the guard |
| `Auth.FailureToast` | components/Auth.tsx:106-128 | a server response gives "Login Failed" with its `error` or "Invalid credentials". A request without a response gives "Connection Error". Anything else gives "Error". Exactly one applies |
| `Auth.FailureToastIsAnError` | components/Auth.tsx:102-128 | a failure never shows the success or empty-fields message |
| `Auth.SignInForm.constructor` | components/Auth.tsx:30-33 | fields start empty, `loading` false |
| `Auth.SignInForm.HandleSignIn` | components/Auth.tsx:69-132 | blank fields mean no request and the "Empty Fields" toast. Otherwise the untrimmed credentials are sent and `loading` ends false. Success stores the token before the success callback is scheduled; failure stores nothing and shows `FailureToast` |
| `Seqs.Filter` | components/JournalFetcher.tsx:26-28 | the result is no longer than the input, holds only input elements that satisfy the predicate, and holds all of them |
| `Seqs.FilterAppend` | components/CustomTabBar.tsx:11-12 | filtering distributes over concatenation, so it keeps the input order |
| `JournalFetcher.ToObject` | components/JournalFetcher.tsx:4-8 | an entry's JSON object (title, text, date) converts back to the same entry |
| `JournalFetcher.ParseOfSerialize` | components/JournalFetcher.tsx:22 | stored entries parse back to themselves, and their text is never empty |
| `JournalFetcher.Delivered` | components/JournalFetcher.tsx:19-37 | a missing or unparsable value delivers `[]`. With a date, every delivered entry is of that day |
| `JournalFetcher.DeliversAllInOrder` | components/JournalFetcher.tsx:22-31 | with no date every stored entry is delivered, in stored order |
| `JournalFetcher.DeliversTheDay` | components/JournalFetcher.tsx:24-29 | with a date the result is exactly the stored entries of that day, in order, and never longer than the stored list |
| `JournalFetcher.DeliversFrontBeforeBack` | components/JournalFetcher.tsx:22-31 | a stored list `front + back` delivers the day's entries of `front`, then those of `back` |
| `CustomTabBar.VisibleRoutes` | components/CustomTabBar.tsx:11-12 | no tab for `auth` or `about-me`; every other route keeps its tab |
| `CustomTabBar.VisibleRoutesKeepOrder` | components/CustomTabBar.tsx:11-13 | the tabs keep the navigator's route order |
| `CustomTabBar.IconName` | components/CustomTabBar.tsx:29-35 | index→home, create→plus, explore→search, profile→user, every other name→circle |
| `CustomTabBar.TabsAsWritten` | components/CustomTabBar.tsx:11-15 | one tab per visible route, in order, with its icon. A tab is highlighted iff `state.index` equals its position in the filtered list |
| `CustomTabBar.OnPress` | components/CustomTabBar.tsx:17-27 | pressing navigates to the tab's route iff the tab is not highlighted and the default was not prevented |
| `CustomTabBar.WrongTabHighlightedAfterHiddenRoute` | components/CustomTabBar.tsx:13-15 | a hidden route before the active one makes the wrong tab highlighted |
| `CustomTabBar.Tabs` | components/CustomTabBar.tsx:13-15 | corrected bar: a tab is highlighted iff its route key is the active route's key |
| `CustomTabBar.TabsHighlightActiveRoute` | components/CustomTabBar.tsx:13-15 | with unique keys the corrected bar highlights at most one tab. That tab is the active route's, and it exists iff the active route is visible |

## Left out

- The codec stands in for `JSON.stringify` and `JSON.parse` and handles only this app's data. It reads
  arrays of flat objects with string or integer members, written without whitespace and with the keys
  in the order the app writes them. Any other JSON text counts as unparsable, so the loaders take their
  empty-list path. The source casts whatever `JSON.parse` returns (`as Journal[]`), so there an array
  of other objects reaches the list unchanged, and a stored `null` makes `.length` throw.
- The decoder reads `\uXXXX` escapes outside the surrogate range only. A surrogate pair written as
  two escapes, which `JSON.parse` joins into one character, counts as unparsable. The encoder never
  writes one. Numbers are integers only.
- Storage reads and writes always succeed. A failing storage call is not modelled. In the source its
  effect depends on the caller. The cache helpers (context/JournalContext.tsx:29-46) log the error and
  carry on: a failed save leaves the old cache, and a failed read gives `[]`. A failed token read
  (context/JournalContext.tsx:63) throws into the fetch's failure path. A failed token write
  (components/Auth.tsx:90, components/Register.tsx:104) throws into the handler's failure toast. A
  failed read in `JournalFetcher` (components/JournalFetcher.tsx:21) delivers `[]`.
- `Listed` carries only lists of journals. The source accepts any 2xx answer: a body that is not a
  list of journals is set as the list and persisted as is (context/JournalContext.tsx:75-77).
- Overlapping `fetchJournals` calls and their last-write-wins race are out of scope. Every call is one
  sequential step, and so is `Mount`, whose fetch is not awaited in the source.
- `JournalProvider.views` records two states per fetch: the state when the token is read, and the
  final state. `Mount` also records the render after its own publish of the cache. Renders between
  the entry flags and the cache read, and the one before the save completes, are not listed.
- Toasts, haptics, render trees and styles are out of scope. Only the title and description of the
  chosen toast are modelled. Console logging is left out.
- The one-second `setTimeout` before `onAuthSuccess` is left out. `HandleSignIn` reports only that the
  callback was scheduled.
- `HandleRegister` and `HandleSignIn` take the token from the response. A response without a token
  field, which makes the source's `setItem` throw into its failure branch, is not modelled.
- `Date` and `toDateString` depend on the time zone and locale. They are the parameter `dayOf` and the
  target-day string.
- `JournalFetcher`'s `loading` flag is left out. So is an `onData` callback that throws, which in the
  source would call `onData([])` a second time.
- `useJournals` throwing outside its provider is React context plumbing and is left out.
- components/Notification.tsx (swipe gestures and animation), components/TopBar.tsx and
  components/TopBar.jsx (date formatting and a logging menu), and components/LoadingScreen.tsx are not
  part of this model.

## Findings

| source | as written | input that shows it | evidently intended | confidence | as-written member | corrected member |
|---|---|---|---|---|---|---|
| components/CustomTabBar.tsx:13-15 | `isFocused` compares `state.index`, an index into all routes, with the tab's index after `auth` and `about-me` are filtered out | routes `index`, `about-me`, `create`, `profile` with `state.index` 2 (`create` active): `profile` is highlighted, `create` is not, and pressing `create` navigates to the current route again | highlight the tab whose route is `state.routes[state.index]` | not executed; low for this app: app/(tabs)/_layout.tsx:59-68 declares `index`, `explore`, `create` and `profile` first, so the hidden `auth` and `about-me` come after them. Only the undeclared visible screens (`aboutme`, `calender`) can be listed after a hidden route and be affected. The example navigator order is not this app's | `CustomTabBar.WrongTabHighlightedAfterHiddenRoute` | `CustomTabBar.TabsHighlightActiveRoute` |
