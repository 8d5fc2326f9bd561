# Bookmark dashboard — a Dafny model

A model of the two pieces of logic in a small Next.js bookmark app:

- **The dashboard state machine** (`app/dashboard/page.tsx`). The `Dashboard`
  component holds:
  - the signed-in user and the bookmark list;
  - the form fields `title` and `url`;
  - three error texts;
  - the `submitting` flag and the pending delete target.

  Its handlers are `fetchBookmarks`, `addBookmark`, `openDeleteDialog`,
  `closeDeleteDialog`, `confirmDeleteBookmark` and the two field-change
  handlers. They become methods of the class `DashboardPage.Dashboard`, and
  each method states the whole new state it leaves. The remote `bookmarks`
  table is a `BookmarkStore.Store` object holding a sequence of rows. Its
  select, insert and delete follow the page's three queries, and each call
  takes the outcome the transport reports (`Ok`/`Err`, or `Inserted`/`Rejected`).
- **The `created_at` normalisation** of the bookmark card
  (`app/components/BookmarkCard.tsx`, line 19). It removes one trailing
  numeric offset (`±HH` or `±HH:MM`, the time-numoffset of section 5.6 of
  RFC 3339), then one trailing `Z`, then appends `Z`. Each `replace` is
  modelled as JavaScript runs a regular expression without the `g` flag: a
  leftmost-match search, position by position. That search is proved equal
  to a suffix-based reference definition.

JavaScript's `String.prototype.trim`, which the validation and the insert
use, is modelled in `JsText`. It strips the WhiteSpace and LineTerminator
characters of section 12.2 and 12.3 of ECMA-262.

The central results are:

- **Delete convergence** (`BookmarkStore.DeleteConverges`). Removing the id
  from the fetched list locally gives exactly what a fresh select returns
  after the owner-scoped remote delete. Consequently `ConfirmDeleteBookmark`
  keeps the list in sync with the table whenever it was in sync before.
- **Insert order** (`BookmarkStore.SelectAfterInsert`). A row newer than all
  others heads the next select, ahead of the earlier list unchanged.
- **Validation** (`Dashboard.ValidateFields`, `TitleError`, `UrlError`). The
  imperative `hasError` flag is set exactly when one of the two independent
  checks fails.
- **Timestamp normalisation** (`ToUtc…` lemmas):
  - the result ends in `Z` and is a prefix of the input plus `Z`;
  - a trailing offset is replaced, and a trailing `Z` is kept;
  - normalising is idempotent.

Files:

| file | contents |
|---|---|
| `wrappers.dfy` | `Option` |
| `js_text.dfy` | `trim` and its properties |
| `bookmark_card.dfy` | the `BookmarkItem` row, regex `replace`, the normalisation and its lemmas |
| `bookmark_store.dfy` | ordering by `created_at`, the owner filter, the newest-first sort, the delete filters, the `Store` class |
| `dashboard.dfy` | error texts, field validation, the `Dashboard` class |

## Model

| member | source | states |
|---|---|---|
| JsText.IsWhitespace | app/dashboard/page.tsx:78 | the characters `trim` removes: WhiteSpace and LineTerminator of ECMA-262, a definition whose consequences are stated by the `Trim…` lemmas below |
| JsText.TrimStart | app/dashboard/page.tsx:78 | the leading half of `trim`: never longer than its input, and the result does not start with whitespace; the rest is in `TrimStartShape` |
| JsText.TrimEnd | app/dashboard/page.tsx:78 | the trailing half of `trim`: never longer than its input, and the result does not end with whitespace; the rest is in `TrimEndShape` |
| JsText.Trim | app/dashboard/page.tsx:78-97 | `s.trim()`: never longer than its input; what it keeps and removes is stated by `TrimIsPiece`, `TrimRemovesOnlyWhitespace`, `TrimEndsAreNotWhitespace` and `TrimEmptyIff` |
| JsText.TrimStartShape | app/dashboard/page.tsx:78 | `trim` removes a leading run of whitespace only; what it keeps is a suffix of the input that does not start with whitespace |
| JsText.TrimEndShape | app/dashboard/page.tsx:78 | `trim` removes a trailing run of whitespace only; what it keeps is a prefix that does not end with whitespace |
| JsText.TrimEmptyIff | app/dashboard/page.tsx:78 | `!s.trim()` holds exactly when every character of `s` is whitespace (both directions) |
| JsText.AllWhitespaceTrimsAway | app/dashboard/page.tsx:78 | a string of whitespace only trims to the empty string |
| JsText.TrimEndKeepsNonWhitespaceStart | app/dashboard/page.tsx:78 | a string starting with a non-whitespace character never trims to empty |
| JsText.TrimIsPiece | app/dashboard/page.tsx:96-97 | the trimmed title/url sent to the insert is a contiguous piece of the input |
| JsText.TrimRemovesOnlyWhitespace | app/dashboard/page.tsx:96-97 | what `trim` removes on either side of that piece is whitespace only |
| JsText.TrimEndsAreNotWhitespace | app/dashboard/page.tsx:96-97 | the trimmed text neither starts nor ends with whitespace |
| BookmarkCard.MatchEnd | app/components/BookmarkCard.tsx:19 | a match of the offset or `Z` pattern at position `i` is non-empty and ends within the input |
| BookmarkCard.Search | app/components/BookmarkCard.tsx:19 | the search returns a position at or after its start where the pattern does match, with that match's end |
| BookmarkCard.SearchLeftmost | app/components/BookmarkCard.tsx:19 | the match found is the leftmost: no earlier position matches, and when nothing is found no position matches |
| BookmarkCard.ReplaceFirst | app/components/BookmarkCard.tsx:19 | non-global `replace`: without a match the string is unchanged; with one, the text before the match is kept and the length changes by the replacement's length minus the match's; exact results are in `StripOffset` and `StripZ` |
| BookmarkCard.ToUtc | app/components/BookmarkCard.tsx:19 | the normalised timestamp is non-empty and ends in `Z`; `ToUtcByReference` and the lemmas after it state the rest |
| BookmarkCard.SearchSkips | app/components/BookmarkCard.tsx:19 | positions without a match do not change what the leftmost-match search finds |
| BookmarkCard.OffsetLength | app/components/BookmarkCard.tsx:19 | the trailing offset is never longer than the string |
| BookmarkCard.StripOffset | app/components/BookmarkCard.tsx:19 | the first `replace` removes exactly the trailing `±HH` or `±HH:MM`, and nothing when there is none |
| BookmarkCard.StripZ | app/components/BookmarkCard.tsx:19 | the second `replace` removes exactly one trailing `Z`, and nothing when there is none |
| BookmarkCard.ToUtcByReference | app/components/BookmarkCard.tsx:19 | the whole expression equals the reference: drop the offset, drop a `Z`, append `Z` |
| BookmarkCard.ToUtcIsPrefixAndZ | app/components/BookmarkCard.tsx:19 | the result ends in `Z`; what precedes it is a prefix of the input at most seven characters shorter (one offset, one `Z`) |
| BookmarkCard.ToUtcKeepsZ | app/components/BookmarkCard.tsx:19 | a timestamp already ending in `Z` is returned unchanged |
| BookmarkCard.ToUtcReplacesOffset | app/components/BookmarkCard.tsx:19 | a timestamp ending in `±HH` or `±HH:MM` has exactly that suffix replaced by `Z`, without doubling a `Z` that precedes it |
| BookmarkCard.ToUtcAppendsZ | app/components/BookmarkCard.tsx:19 | a timestamp with neither a trailing offset nor a trailing `Z` gets `Z` appended and is otherwise unchanged |
| BookmarkCard.ToUtcIdempotent | app/components/BookmarkCard.tsx:19 | normalising twice equals normalising once |
| BookmarkStore.LexReflexive | app/dashboard/page.tsx:67 | the `created_at` order is reflexive |
| BookmarkStore.LexTotal | app/dashboard/page.tsx:67 | the `created_at` order is total |
| BookmarkStore.LexTransitive | app/dashboard/page.tsx:67 | the `created_at` order is transitive |
| BookmarkStore.NewestFirstCons | app/dashboard/page.tsx:67 | a row no older than every row of a newest-first list can head it |
| BookmarkStore.HeadBoundsAll | app/dashboard/page.tsx:67 | in a newest-first list, a bound on the head bounds every row |
| BookmarkStore.OwnedBy | app/dashboard/page.tsx:66 | the owner filter keeps exactly the rows whose `user_id` is the user's (both directions) and is never longer than the table; `OwnedByAppend` states that it keeps table order |
| BookmarkStore.InsertByAge | app/dashboard/page.tsx:67 | inserting one row into a list adds exactly that row (multiset) |
| BookmarkStore.InsertByAgeNewestFirst | app/dashboard/page.tsx:67 | inserting into a newest-first list keeps it newest first |
| BookmarkStore.SortByAge | app/dashboard/page.tsx:67 | the descending sort is newest first and a permutation of its input |
| BookmarkStore.SelectOwned | app/dashboard/page.tsx:63-67 | the select returns the owner's rows and only them, as a permutation of the owner's rows, newest first |
| BookmarkStore.WithoutId | app/dashboard/page.tsx:121 | the local filter keeps exactly the entries whose id differs (both directions) and is never longer than the list; `WithoutIdAppend` states that it keeps order |
| BookmarkStore.DeleteWhere | app/dashboard/page.tsx:117 | the remote delete keeps exactly the rows not matching both id and owner (both directions) and never adds rows; `DeleteWhereAppend` states that it keeps order |
| BookmarkStore.DeleteWhereAppend | app/dashboard/page.tsx:117 | the remote delete works piecewise, so the remaining rows keep their order |
| BookmarkStore.WithoutIdAppend | app/dashboard/page.tsx:121 | the local filter works piecewise, so the rest keep their order |
| BookmarkStore.WithoutIdIdempotent | app/dashboard/page.tsx:121 | removing the same id from the list again changes nothing |
| BookmarkStore.DeleteWhereIdempotent | app/dashboard/page.tsx:117 | repeating the remote delete changes nothing |
| BookmarkStore.DeleteLeavesOtherOwners | app/dashboard/page.tsx:117 | the delete leaves every other user's rows untouched |
| BookmarkStore.WithoutIdNewestFirst | app/dashboard/page.tsx:121 | the local filter keeps a newest-first list newest first |
| BookmarkStore.WithoutIdInsertKept | app/dashboard/page.tsx:121 | filtering after inserting a row with another id is inserting into the filtered list |
| BookmarkStore.InsertAtFront | app/dashboard/page.tsx:67 | a row at least as new as every row goes to the front |
| BookmarkStore.WithoutIdInsertDropped | app/dashboard/page.tsx:121 | filtering after inserting a row with that id is filtering the list alone |
| BookmarkStore.WithoutIdSort | app/dashboard/page.tsx:121 | the local filter commutes with the newest-first sort |
| BookmarkStore.OwnedByDeleteWhere | app/dashboard/page.tsx:117 | the owner's rows after the scoped delete are the owner's rows without the id |
| BookmarkStore.DeleteConverges | app/dashboard/page.tsx:113-123 | the local removal of line 121 yields exactly what a select returns after the delete of line 117 |
| BookmarkStore.SortNewestAppended | app/dashboard/page.tsx:67 | a row strictly newer than all others sorts to the front, the rest keeping their order |
| BookmarkStore.InsertBehindNewer | app/dashboard/page.tsx:67 | inserting behind a strictly newer head leaves that head in front |
| BookmarkStore.OwnedByAppend | app/dashboard/page.tsx:66 | the owner filter of an appended row adds it exactly when it is the owner's |
| BookmarkStore.SelectAfterInsert | app/dashboard/page.tsx:95-107 | after inserting the newest row, the owner's next select is that row followed by the earlier list; another user's insert does not show (so A, B, C yields [C, B, A]) |
| BookmarkStore.UniqueIdsCons | app/dashboard/page.tsx:95-99 | a row with a fresh id can be prepended without repeating an id |
| BookmarkStore.DeleteWhereUniqueIds | app/dashboard/page.tsx:117 | the delete keeps identifiers unique |
| BookmarkStore.UniqueIdsAppend | app/dashboard/page.tsx:95-99 | inserting a row with a fresh id keeps identifiers unique |
| BookmarkStore.Store.constructor | app/dashboard/page.tsx:63-67 | the table starts empty, with unique identifiers |
| BookmarkStore.Store.Select | app/dashboard/page.tsx:63-68 | on error no data; on success exactly the owner's rows, newest first |
| BookmarkStore.Store.Insert | app/dashboard/page.tsx:95-99 | on success exactly one row is appended with the given title, url, owner and the server-assigned id and `created_at`; on error, or for an id already taken, nothing changes |
| BookmarkStore.Store.Delete | app/dashboard/page.tsx:117 | on success the rows matching both id and owner are removed; on error nothing changes |
| DashboardPage.ErrorText.Text | app/dashboard/page.tsx:21-23 | the shown text is empty exactly for `Blank`, the "no error" state |
| DashboardPage.TitleError | app/dashboard/page.tsx:78-81 | the title error is "Title is required" exactly when the title is whitespace only, and empty otherwise |
| DashboardPage.UrlError | app/dashboard/page.tsx:82-92 | the url error is "required" exactly when the url is whitespace only, "invalid" exactly when it is not blank and the URL parser rejects the untrimmed text, and empty otherwise |
| DashboardPage.Dashboard.constructor | app/dashboard/page.tsx:15-24 | the initial state: no user, empty list and fields, no errors, not submitting, no delete target |
| DashboardPage.Dashboard.SignIn | app/dashboard/page.tsx:27-45 | the found user is stored and the list becomes that user's select; without a user nothing else changes |
| DashboardPage.Dashboard.FetchBookmarks | app/dashboard/page.tsx:61-69 | the list becomes exactly the user's rows newest first (in sync with the table); without a user or on error it is unchanged |
| DashboardPage.Dashboard.AddBookmark | app/dashboard/page.tsx:71-108 | no user: nothing changes. Both errors are computed independently. A validation error changes nothing else. Otherwise a successful insert appends the trimmed row, empties the fields and refetches; a failed insert sets the submit error and keeps fields and list |
| DashboardPage.Dashboard.ValidateFields | app/dashboard/page.tsx:74-92 | all three errors are cleared, then each field's error is set by its own check; `hasError` holds exactly when one of the checks fails |
| DashboardPage.Dashboard.SubmitValidated | app/dashboard/page.tsx:94-107 | the insert of the trimmed fields, then either the submit error or the cleared form and refetch; `submitting` is false again afterwards |
| DashboardPage.Dashboard.InsertForm | app/dashboard/page.tsx:94-100 | the trimmed title and url are inserted for the user, with `submitting` set around the call and false again afterwards; the table gains exactly that row or is unchanged |
| DashboardPage.Dashboard.ClearFormAndRefetch | app/dashboard/page.tsx:105-107 | the fields become empty and the list is refetched |
| DashboardPage.Dashboard.OpenDeleteDialog | app/dashboard/page.tsx:110 | the pending target becomes the requested one, replacing any earlier one |
| DashboardPage.Dashboard.CloseDeleteDialog | app/dashboard/page.tsx:111 | the pending target is cleared |
| DashboardPage.Dashboard.ConfirmDeleteBookmark | app/dashboard/page.tsx:113-123 | no target, an empty id or no user: nothing changes. Otherwise the target is cleared, the store loses the rows matching id and owner on success, and the list loses exactly the entries with that id; an in-sync list stays in sync |
| DashboardPage.Dashboard.DeleteRemotely | app/dashboard/page.tsx:117-122 | the owner-scoped remote delete, then on success the local filter; on error neither changes; sync with the table is kept |
| DashboardPage.Dashboard.OnTitleChange | app/dashboard/page.tsx:156-159 | the title takes the new text and only the title error is cleared |
| DashboardPage.Dashboard.OnUrlChange | app/dashboard/page.tsx:160-163 | the url takes the new text and only the url error is cleared |
| DashboardPage.LastRequestWins | app/dashboard/page.tsx:110-121 | after two delete requests and a confirmation, only the second request's rows are deleted from the table and the list, and the dialog is closed |

Every `Dashboard` method also keeps the class invariant `Valid()`. It says:

- the table's identifiers are unique;
- `submitting` is false between handlers;
- the list is newest first;
- the list holds only the signed-in user's rows, and is empty without a user.

## Left out

- The Supabase client itself: the authentication call, sign-out and the realtime channel (page.tsx:48-59). The user `getUser` returns is a parameter of `SignIn`, and a realtime notification is a call of `FetchBookmarks`.
- Asynchronous interleaving. Each handler runs to completion as one step, so overlapping fetches and re-entrant submits are not modelled. `submitting` is true only inside `SubmitValidated`, and its being false between handlers is part of the class invariant.
- `new URL(url)`, the WHATWG URL parser, is the function `urlParses` given to the constructor and is not interpreted. As in the source, it is applied to the untrimmed url.
- `new Date(...).toLocaleString('en-IN', …)` (BookmarkCard.tsx:20-28): time zones and locale formatting are not modelled. An offset is relabelled as `Z`, not converted, as the source does; this gives the right instant only for a zero offset.
- `router.push`, `window.history.replaceState`, `alert` and the `loading` flag are browser side effects or rendering state, and are not modelled.
- The presentation components are not part of this model: AddBookmarkForm, ConfirmDialog, Header and the landing page.
- The server's generation of `id` and `created_at`. Both arrive in the insert outcome; the model only refuses an id already in the table, as the primary key would.
- BookmarkStore.SortByAge: `created_at` values are compared as strings, character by character. This agrees with the server's timestamp order for the fixed-format timestamps it returns, but not for arbitrary strings. The server leaves the order of equal timestamps open; the model keeps table order for them.
- BookmarkStore.Store.Select: the `data || []` fallback is not modelled separately, since a successful select always yields a list here.
