# DiscoverTech core, modelled in Dafny

DiscoverTech is a small listing site for tech opportunities (hackathons, jobs,
webinars) built on a hosted auth and database service. Its pages mostly render
markup and call that service directly. Four pieces of decision logic sit among
those calls, and this project models and proves them:

- **Feed query** (`app/page.tsx`). `getOpportunities` applies no filter for an
  empty term. Otherwise it keeps the rows whose title or description contains
  the term, ignoring case. Rows are ordered newest first by `created_at`, and
  any store error gives `[]`. `Home` reads the `q` search parameter and decides
  when to show the empty state and the "Clear Search" link.
- **Profile save** (`profile/page.tsx`). The page's guard and its prefilled
  form; the comma-list normaliser (split on `,`, trim, drop empty parts); and
  the `updateProfile` action. The action re-checks the user, upserts one
  profile keyed by the user id, and then redirects to `/profile` whether or
  not the upsert failed.
- **Opportunity creation** (`app/post/page.tsx`). The page's guard and the
  `createPost` action. The action re-checks the user and appends exactly one
  row built from the six form fields. It redirects to `/` only when the insert
  reports no error.
- **Search parameters** (`app/components/search-input.tsx`). `handleSearch`
  copies the current `URLSearchParams`. It then sets `query` on the copy for
  a non-empty term, or deletes it for an empty one, and navigates to `/?`
  followed by the serialised copy. `set` and `delete` follow section 6.2 of
  the WHATWG URL Standard.

The hosted service and the browser are not modelled; they are inputs:

- the current user (`auth.getUser()`) is an `Option<User>`;
- store replies are explicit values: `StoreAnswer` for the feed read, an
  optional error message for inserts and upserts, a flag for the profile read;
- the ids and `created_at` values the store assigns, and the save timestamp,
  are ordinary parameters;
- the two tables are a class with a `seq<Opportunity>` field and a class with
  a `map<UserId, Profile>` field;
- a Next.js `redirect` is a terminal `Outcome` value.

Files: `web.dfy` (shared request types), `text.dfy` (the JavaScript string
operations used), `feed_page.dfy`, `post_page.dfy`, `profile_page.dfy`,
`search_input.dfy`.

Three facts about the code that the model keeps as written:

- `updateProfile` redirects to `/profile` even when the upsert fails
  (profile/page.tsx:47-52), and so does
  `ProfilePage.ProfileTable.UpdateProfile`.
- `createPost` stores whatever `type` string the form sends
  (app/post/page.tsx:23). Only the page's `<select>` limits it to three values.
- The feed reads the parameter `q` (app/page.tsx:39, 93), but `handleSearch`
  writes `query` (app/components/search-input.tsx:13). Each module keeps its
  own file's name.

## Model

| member | source | states |
|---|---|---|
| `Web.FormGet` | profile/page.tsx:30-33 | `formData.get(name)` is present exactly when the field was submitted, and then it is the submitted value |
| `Text.TrimStart` | profile/page.tsx:32 | the result is a suffix of the input; every character removed is ECMAScript whitespace or a line terminator; the result does not start with one |
| `Text.TrimEnd` | profile/page.tsx:32 | the result is a prefix of the input; every character removed is whitespace; the result does not end with whitespace |
| `Text.Trim` | profile/page.tsx:32 | `String.prototype.trim`: the result has no whitespace at either end, and it equals the input exactly when the input already had none |
| `Text.TrimSlice` | profile/page.tsx:32 | `trim` returns a contiguous slice of its input, the one that starts right after the leading whitespace, and every character outside that slice is whitespace |
| `Text.Split` | profile/page.tsx:32 | `split(',')` always gives at least one part, and no part contains the separator |
| `Text.Join` | profile/page.tsx:96-112 | `join` of no parts is '', and of one part is that part; `SplitJoin` and `JoinSplit` prove it is the inverse of `split` |
| `Text.SplitJoin` | profile/page.tsx:96-112 | splitting the `join(sep)` of separator-free parts gives those parts back |
| `Text.JoinSplit` | profile/page.tsx:32 | joining the parts of `split(sep)` with `sep` gives the original string back |
| `Text.Lower` | app/page.tsx:18 | ASCII lower-casing keeps the length and folds each character on its own |
| `Text.ContainsAt` | app/page.tsx:18 | substring containment holds exactly when the needle occurs at some offset of the haystack |
| `Text.ContainsChars` | app/page.tsx:18 | every character of a contained needle occurs in the haystack |
| `FeedPage.MatchingRows` | app/page.tsx:17-19 | the `.or(title.ilike…, description.ilike…)` filter keeps every copy of each matching row and drops every other row |
| `FeedPage.InsertByCreated` | app/page.tsx:14 | inserting a row into a newest-first list keeps it newest-first, and the result holds the old rows plus the new one |
| `FeedPage.SortByCreated` | app/page.tsx:14 | `.order('created_at', { ascending: false })` gives a newest-first permutation of its input |
| `FeedPage.QueryRows` | app/page.tsx:11-19 | the selected rows are newest first; each row occurs as often as in the table when the term is empty or the row matches, and not at all otherwise |
| `FeedPage.GetOpportunities` | app/page.tsx:7-28 | a store error or a reply without data gives `[]`; otherwise the result is the query's rows: sorted newest first, and a permutation of the matching rows (all rows for an empty term) |
| `FeedPage.QueryParam` | app/page.tsx:37-39 | a missing `q` (or missing search params) gives the empty term; a present one gives its value |
| `FeedPage.RenderFeed` | app/page.tsx:109-162 | the cards are the fetched rows in order; "Showing results for" appears iff the term is non-empty; the empty state appears iff there are no rows; "Clear Search" appears iff there are no rows and the term is non-empty |
| `FeedPage.Home` | app/page.tsx:37-162 | the page echoes the `q` term; its cards are newest first and are exactly the feed for that term (each matching row as often as in the table, or none when the store fails); the empty state shows iff there are no cards, and "Clear Search" iff there are none and the term is non-empty |
| `FeedPage.EmptyTermShowsAll` | app/page.tsx:17-19 | with an empty term the feed is the whole table, newest first |
| `FeedPage.FeedMembership` | app/page.tsx:18 | with a non-empty term a row is in the feed iff it is in the table and its title or description contains the term ignoring case |
| `FeedPage.EmptyTableEmptyFeed` | app/page.tsx:11-27 | an empty table gives an empty feed for every term and every store answer |
| `FeedPage.ClearSearchShown` | app/page.tsx:151-162 | "Clear Search" shows iff the term is non-empty and either the store gave no rows or no row matches |
| `FeedPage.ScenarioJava` | app/page.tsx:17-18 | over a Java hackathon and a Go meetup, "java" returns only the hackathon |
| `FeedPage.ScenarioGo` | app/page.tsx:17-18 | over the same rows, "GO" returns only the meetup (case is ignored) |
| `FeedPage.ScenarioPython` | app/page.tsx:17-18 | over the same rows, "python" returns nothing |
| `PostPage.PostPageView` | app/post/page.tsx:6-11 | a guest is redirected to `/login`, and a signed-in user gets the form |
| `PostPage.NewRow` | app/post/page.tsx:22-39 | the inserted row carries the six form values verbatim, including an arbitrary `type` string, plus the id and creation time the store assigns |
| `PostPage.OpportunityTable.CreatePost` | app/post/page.tsx:14-47 | with no user: `Abort` and no insert; on success: exactly one new row appended, existing rows untouched, redirect to `/`; on an insert error: `Stay` and the table unchanged |
| `PostPage.NewPostLeadsFeed` | app/post/page.tsx:30-45 | a new row newer than every existing row, and matched by the term (if any), comes first in the next feed |
| `PostPage.PostThenBrowse` | app/post/page.tsx:44-45 | a successful post redirects to `/`, and the unfiltered feed read afterwards starts with the new row |
| `ProfilePage.TrimAll` | profile/page.tsx:32 | `.map(s => s.trim())` keeps the length and trims each part in place |
| `ProfilePage.DropEmpty` | profile/page.tsx:32 | `.filter(s => s.length > 0)` keeps exactly the non-empty parts |
| `ProfilePage.DropEmptyMultiset` | profile/page.tsx:32 | the filter keeps each non-empty part as many times as it occurs, and no empty part |
| `ProfilePage.DropEmptyAppend` | profile/page.tsx:32 | filtering a concatenation is the concatenation of the filtered halves, so the kept parts stay in order |
| `ProfilePage.Normalise` | profile/page.tsx:32-33 | every element of a normalised list is non-empty, equals its own trim, and contains no comma |
| `ProfilePage.NormaliseAround` | profile/page.tsx:32-33 | the text on either side of a comma is normalised independently, and the results appear in their original order |
| `ProfilePage.NormaliseSegment` | profile/page.tsx:32-33 | a comma-free text gives its trim as the only element, or nothing when the trim is empty |
| `ProfilePage.NormaliseJoin` | profile/page.tsx:32-33 | for a list of non-empty, trimmed, comma-free elements, normalising its `join(', ')` gives the list back |
| `ProfilePage.NormaliseReactNode` | profile/page.tsx:31-32 | "React, Node" gives ["React", "Node"] |
| `ProfilePage.NormaliseDropsBlank` | profile/page.tsx:32-33 | "React, Node,  , Go " gives ["React", "Node", "Go"]: the blank part is dropped and the order kept |
| `ProfilePage.NormaliseField` | profile/page.tsx:32-33 | a missing form field gives an absent list (the optional chain), not `[]`; a present one gives exactly `Some` of its normal form, a list of clean elements |
| `ProfilePage.BuildProfile` | profile/page.tsx:30-45 | the upserted record has `id` and `email` from the user, `updated_at` the save time, the full name as submitted, and the normalised lists |
| `ProfilePage.Upsert` | profile/page.tsx:36-45 | the upsert adds or overwrites only the entry keyed by the profile's id, and every other entry keeps its value |
| `ProfilePage.SaveTwice` | profile/page.tsx:36-45 | saving the same form twice leaves the same table as saving it once at the later time; the two records differ only in `updated_at` |
| `ProfilePage.Prefill` | profile/page.tsx:79-112 | the form's defaults are `full_name` or '', and each list joined with ", " or '' when the profile or the list is absent |
| `ProfilePage.RenderProfilePage` | profile/page.tsx:9-21 | a guest is redirected to `/login`; a user sees their e-mail and the form prefilled from their row, or a blank form when the read fails or no row exists |
| `ProfilePage.FieldRoundTrip` | profile/page.tsx:96-112 | a field holding a ", "-joined clean list normalises back to that list |
| `ProfilePage.ResaveKeepsLists` | profile/page.tsx:96-112 | re-submitting the prefilled form unchanged stores the same skills and interests (a null list comes back as `[]`) |
| `ProfilePage.ProfileTable.UpdateProfile` | profile/page.tsx:24-53 | with no user: `Abort` and the map unchanged; otherwise a redirect to `/profile` whether or not the upsert failed; on success the map is the keyed upsert, and on failure it is unchanged; entries of other users never change |
| `SearchInput.Count` | app/components/search-input.tsx:12-15 | the number of pairs with a given name is at most the list's length |
| `SearchInput.CountZero` | app/components/search-input.tsx:12-15 | the count is zero exactly when no pair has the name |
| `SearchInput.GetParam` | app/components/search-input.tsx:28 | `get(name)` is absent exactly when no pair has that name |
| `SearchInput.GetParamFirst` | app/components/search-input.tsx:28 | a present `get(name)` is the value of the first pair with that name |
| `SearchInput.SetParam` | app/components/search-input.tsx:13 | `set` leaves the pairs without the name plus exactly one pair with it; where that pair goes is stated by `SetParamAppends` and `SetParamReplacesFirst` |
| `SearchInput.DeleteParam` | app/components/search-input.tsx:14-15 | after `delete(name)` no pair has that name, and exactly that many pairs are gone |
| `SearchInput.DeleteParamMultiset` | app/components/search-input.tsx:14-15 | `delete` keeps each pair with another name as often as it occurred, and none with the name |
| `SearchInput.DeleteParamAppend` | app/components/search-input.tsx:14-15 | deleting from a concatenation deletes from each half, so the kept pairs stay in order |
| `SearchInput.DeleteParamMembers` | app/components/search-input.tsx:14-15 | `delete` removes exactly the pairs with that name |
| `SearchInput.ParamsCons` | app/components/search-input.tsx:12-15 | one step of `set` and `delete` on a list whose first pair is known |
| `SearchInput.SetParamSingle` | app/components/search-input.tsx:12-13 | after `set(name, value)` exactly one pair has that name, and `get` returns the new value |
| `SearchInput.SetParamKeepsOthers` | app/components/search-input.tsx:10-13 | `set` keeps every pair with another name, in its original order |
| `SearchInput.SetParamAppends` | app/components/search-input.tsx:13 | when no pair has the name, `set` appends the new pair at the end |
| `SearchInput.SetParamReplacesFirst` | app/components/search-input.tsx:13 | when pairs with the name exist, the first one takes the new value in place, earlier pairs are kept, and later pairs with the name are removed |
| `SearchInput.DeleteParamIdempotent` | app/components/search-input.tsx:14-15 | deleting twice equals deleting once |
| `SearchInput.SetParamIdempotent` | app/components/search-input.tsx:12-13 | setting the same pair twice equals setting it once |
| `SearchInput.UpdatedParams` | app/components/search-input.tsx:12-16 | with an empty term, no `query` pair remains |
| `SearchInput.UpdatedParamsQuery` | app/components/search-input.tsx:12-16 | a non-empty term leaves exactly one `query` pair holding the term; an empty term leaves none; pairs with other names keep their order |
| `SearchInput.UpdatedParamsIdempotent` | app/components/search-input.tsx:12-16 | searching twice for the same term gives the same parameters as searching once |
| `SearchInput.Serialize` | app/components/search-input.tsx:19 | an empty list serialises to the empty string, and a single pair to `name=value` |
| `SearchInput.SerializeSplit` | app/components/search-input.tsx:19 | when no name or value contains `&`, splitting the serialisation on `&` gives back one `name=value` text per pair, in order |
| `SearchInput.SearchParams.constructor` | app/components/search-input.tsx:10 | `new URLSearchParams(searchParams)` starts as a copy of the current list |
| `SearchInput.SearchParams.Set` | app/components/search-input.tsx:13 | the in-place `set` leaves the list that `SetParam` specifies |
| `SearchInput.SearchParams.Delete` | app/components/search-input.tsx:15 | the in-place `delete` leaves the list that `DeleteParam` specifies |
| `SearchInput.HandleSearch` | app/components/search-input.tsx:9-20 | the URL passed to `replace` is `/?` followed by the serialised updated copy; no `modifies` clause, so the current parameters are not mutated |

## Left out

- Rendering, CSS classes, icons, and the badge colour chosen from `type` (app/page.tsx:121-123) are presentation only.
- The navbar's login/logout links and the `signOut` action in `Home` (app/page.tsx:45-50) are not modelled. `signOut` is a single identity-provider call followed by a redirect to `/login`.
- app/login/page.tsx is not part of this model: it only calls the identity provider and picks one of two redirect URLs.
- Logging with `console.error`, the hosted client, network calls and `process.env` are foreign I/O. The store and the identity service are inputs of the model.
- Timestamps are opaque parameters: the save time (profile/page.tsx:44) and the store-assigned `created_at` and `id`.
- `async`/`await` ordering and concurrent saves are not modelled. Each action is one sequential step.
- FeedPage.QueryRows: requires a term without `%`, `_`, `\`, `,`, `(`, `)`, `*` or `"`. The term is pasted raw into the store's filter string (app/page.tsx:18). These characters act there as LIKE wildcards or escapes, or as filter syntax, and that interpretation is not modelled.
- FeedPage.GetOpportunities: the same restriction on the term.
- FeedPage.Home: the same restriction on the `q` term.
- FeedPage.MatchingRows: case is folded for ASCII letters only. The store's locale-dependent case folding of other characters is not modelled.
- FeedPage.SortByCreated: rows with equal `created_at` come out in one fixed order. The store promises no order for ties, so only newest-first order and the permutation are claimed.
- SearchInput.Serialize: pairs print as `name=value` joined by `&`, without the percent-encoding of the form-urlencoded serializer.
- ProfilePage.BuildProfile: an `undefined` field is left out of the JSON payload, which can make the store keep the column's old value. This applies to a missing list field or a user without an e-mail. The model stores such a field as absent instead.
- PostPage.NewRow: the form's six fields are taken as strings, which is what the `as string` casts assume. A missing field (`null`) is not modelled, since the page's inputs are all `required` or a `<select>`.
- ProfilePage.RenderProfilePage: the read's error reply is a single flag. Any error reads as "no profile", as the `data` of a failed `.single()` is null.
