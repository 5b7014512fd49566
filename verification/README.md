# Invite-link aggregation and reconciliation, modelled in Dafny

This project models the core of a small serverless job that publishes
WhatsApp invite links. The job is invoked with a list of accounts, each
naming the campaigns to process. For every account it does the following:

- reads the account's campaigns, groups and group categories;
- keeps the publishable groups of the requested campaigns whose category the
  account knows;
- buckets the surviving groups by normalised campaign and lower-cased
  category;
- ranks each bucket by member count and keeps the first ten;
- writes one `WHATSAPP#INVITELINKS` record per bucket into the main table
  through a partial `SET` update;
- clears every listed invite-links record whose sort key was not produced in
  this run.

A request gate in front of the job checks an API key and the presence of
`accounts`. It maps the job's boolean result to a fixed response.

The modules follow the structure of the program:

- `Base`: `Option`, `Result`, and the kinds of thrown error.
- `Text`: whitespace stripping, ASCII case mapping, and splitting on a separator.
- `ArrayOps`: `filter`, the stable sort, `slice` and `find`, as functions on sequences.
- `Js`: own-key enumeration order, plain objects used as dictionaries, and the dynamic values of a request event (truthiness, property reads, optional chaining).
- `Entities`: groups, campaigns and categories, plus the keys derived from them.
- `Buckets`: the nested `groupsByCampaign` object and the order in which the `for...in` loops visit it.
- `Aggregation`: filtering, ranking and the record of one bucket.
- `Store`: the main table as a map from key to attributes, the partial update, and sequences of awaited writes.
- `Reconcile`: one account's writes as a plan of upserts followed by clearing writes.
- `Runner`: `updateInviteLinks` end to end, with the per-account tables, the invite-links query, the service's replies and the clock as inputs.
- `Handler`: the request gate.

Three behaviours of the code shape the model:

- A storage error, a missing account table or a malformed account entry
  throws. The `catch` at src/database.mjs:149-152 turns it into `false` for
  the whole run, and the writes already made stay applied.
- An account entry whose campaign list is not an array of strings throws
  (the `map` and `replace` calls at src/database.mjs:42).
- The reconciliation listing is read from the main table after the
  account's upserts (src/database.mjs:120). It asks for the partition
  `WHATSAPP#INVITELINKS` and SKs starting with `ACCOUNT#`
  (src/database.mjs:198-206). The records the run writes are keyed by campaign
  and category alone (src/database.mjs:110-112). The model takes the query as
  a function of the table at the moment it is sent. `Runner.QuerySound` and
  `Runner.QueryComplete` say that it returns only, and all, the items its key
  condition matches. Under them, `Runner.OutsidePrefixKept` shows that a
  record outside the account's prefix is never cleared by that account.
  `Runner.StaleRecordUnderPrefixCleared` shows that every unproduced record
  under the prefix is cleared, whichever account or run wrote it.

## Model

| member | source | states |
|---|---|---|
| Text.StripSpace | src/database.mjs:42 | The result contains no whitespace. Its characters are exactly the non-whitespace characters of the input, and it is no longer than the input. |
| Text.StripSpaceIsFilter | src/database.mjs:42 | Stripping is the filter of the input by "not whitespace": the other characters are kept in order and with their multiplicity. |
| Text.Lower | src/database.mjs:42 | The result has the input's length and no upper-case letter. Each position agrees with the input up to case. |
| Text.LowerEqualIff | src/database.mjs:74 | Two strings lower-case to the same string exactly when they have the same length and agree position by position up to ASCII case. |
| Text.Upper | src/database.mjs:110-112 | The result has the input's length and no lower-case letter. Each position agrees with the input up to case. |
| Text.UpperInjectiveOnLowerCase | src/database.mjs:110-112 | Two lower-case keys with the same upper-cased form are the same key. |
| Text.JoinInjective | src/database.mjs:112 | Two joins `a#b` are equal only when their parts are equal, provided the first parts contain no separator. |
| ArrayOps.Filter | src/database.mjs:54-65 | Every kept element is in the input and passes. Every passing input element is kept. Elements are only dropped, never added or duplicated. |
| ArrayOps.FilterFilter | src/database.mjs:54-65 | Filtering by one predicate and then another is the same as filtering once by their conjunction. |
| ArrayOps.SortBy | src/database.mjs:91 | The result is ascending by key and is a permutation of the input. |
| ArrayOps.SortByIsStable | src/database.mjs:91 | Within each key class, the sort keeps the elements in input order. |
| ArrayOps.StableSortIsUnique | src/database.mjs:91 | Any ascending arrangement that keeps every key class in input order equals this sort's result. So the model agrees with every stable sort. |
| ArrayOps.Take | src/database.mjs:94 | The result has length min(|s|, n) and is a prefix of the input. |
| ArrayOps.SortByHead | src/database.mjs:102 | The head of the sorted sequence is the earliest input element carrying the smallest key. |
| ArrayOps.FindIndex | src/database.mjs:97 | The result is the first index whose element satisfies the predicate, or none when no element does. |
| Js.EnumerationOrder | src/database.mjs:84-87 | Enumeration is a permutation of the keys. Array-index keys come first, in ascending numeric order. The other keys follow in creation order. |
| Js.EnumerationOrderOfNamedKeys | src/database.mjs:84-87 | An object without array-index keys is enumerated in creation order. |
| Js.Prop | src/database.mjs:42 | Reading a property throws exactly on null or undefined. An own entry of an object is returned, and a missing one reads as undefined. An array element at an own index is returned. |
| Js.OptionalProp | src/index.mjs:11 | Optional chaining yields undefined on a nullish base. Otherwise it is the ordinary property read. |
| Js.FirstOwnKey | src/database.mjs:41 | `Object.keys(v)[0]` throws exactly when `v` is null or undefined. A non-empty array or string yields "0", a boolean or number yields nothing, and an object yields nothing exactly when it has no keys, otherwise one of its own keys. |
| Js.FirstOwnKeyCreatedFirst | src/database.mjs:41 | For an object whose keys are all non-index names, the first own key is the key created first. |
| Js.FirstOwnKeySmallestIndex | src/database.mjs:41 | For an object with an array-index key, the first own key is an array index no larger than any index key it has. |
| Entities.NormalizeCampaign | src/database.mjs:42 | A normalised name is lower-case and free of whitespace. It keeps every character that is neither whitespace nor an upper-case letter. |
| Entities.NormalizeCampaignIsFilter | src/database.mjs:42 | A normalised name is the lower-cased input with its whitespace filtered out, so lower-casing and stripping may be done in either order. |
| Entities.NormalizeCampaignIdempotent | src/database.mjs:59 | Normalising twice is the same as normalising once, so requested names and group campaigns compare on equal terms. |
| Entities.CategoryKey | src/database.mjs:74 | The category key is lower-case. It is the sentinel `no_category` when the group has no category. Otherwise it has the category's length and agrees with it position by position up to case: lower-cased but not stripped. |
| Entities.CategoryBucketsIgnoreCase | src/database.mjs:74 | Two groups with categories fall into the same category bucket exactly when their categories are equal ignoring ASCII case; whitespace still distinguishes them. |
| Entities.InviteTarget | src/database.mjs:95 | A non-empty `InviteCode` is used. Otherwise the `InviteLink` is used. |
| Entities.InviteEntryRoundTrip | src/database.mjs:95 | Splitting an `SK|Name|code` entry on `|` gives back the three parts, provided none of them contains `|`. |
| Buckets.AddGroup | src/database.mjs:70-78 | Adding a group appends it to its own bucket, leaves every other bucket unchanged, and keeps the object well formed. |
| Buckets.Bucketize | src/database.mjs:68-79 | The result is well formed, and every bucket holds exactly the groups belonging to it, in input order. |
| Buckets.BucketizeOrder | src/database.mjs:68-79 | Campaign keys are created in order of first occurrence among the groups, and within each campaign its category keys in order of first occurrence among that campaign's groups. |
| Buckets.BucketExists | src/database.mjs:71-78 | A bucket exists exactly when some group belongs to it. |
| Buckets.PairsAreTheBuckets | src/database.mjs:84-88 | The nested loops visit every non-empty bucket exactly once and nothing else. |
| Store.SetClause | src/database.mjs:218-238 | The SET clause assigns only the six updatable attributes. |
| Store.UpdateItem | src/database.mjs:214-266 | The update touches only the item's key and always sets `Campaign` and `Category`, defaulting to "". It sets `AccountSK` only when truthy, `Domain` whenever defined, `InviteCodes` whenever present (an empty list counts), and `Updated` only when truthy. Every other attribute and key is unchanged. |
| Store.UpdateInviteLinksItem | src/database.mjs:264-270 | A rejected update throws. An acknowledged update is applied, and the function returns true exactly when the status is 200. |
| Store.ClearingWriteEffect | src/database.mjs:135-140 | A clearing write empties `InviteCodes`, sets `Updated`, blanks `Campaign` and `Category`, and leaves `Domain` and `AccountSK` as they were. |
| Store.AcceptedPrefix | src/database.mjs:116 | Counts the writes acknowledged before the first rejected one. |
| Store.Commit | src/database.mjs:116 | Awaited writes stop at the first rejection, keeping exactly the writes before it. The run aborts exactly when some write is rejected. |
| Store.CommitOutcome | src/database.mjs:116 | A run of writes does not abort exactly when every write is acknowledged. In that case it applies all of them. |
| Store.ApplyLastWriterWins | src/database.mjs:116 | After a sequence of updates, each attribute of each key holds the value from the last write naming it, or else its earlier value. |
| Store.ApplyIdempotent | src/database.mjs:214-266 | Replaying the same sequence of updates leaves the table as applying it once. |
| Store.ApplyUntouched | src/database.mjs:246-249 | Updates to other keys leave a key's record unchanged. |
| Aggregation.SelectGroups | src/database.mjs:54-65 | A group survives exactly when it is publishable, has a code or link, and has a campaign whose normalised name is requested, and its category is absent or known in lower case. |
| Aggregation.SelectGroupsIsOneFilter | src/database.mjs:54-65 | The two filters together form one order-preserving filter by both conditions. |
| Aggregation.Ranked | src/database.mjs:91-94 | A bucket publishes min(size, 10) groups. |
| Aggregation.RankedSpec | src/database.mjs:91-94 | The published groups ascend by members, with missing counted as 0. Ties stay in bucket order. They are drawn from the bucket, and no dropped group has fewer members than a kept one. |
| Aggregation.InviteCodes | src/database.mjs:93-95 | The list has min(size, 10) entries. Entry i renders the i-th ranked group, whose order `Aggregation.RankedSpec` states, and `Entities.InviteEntryRoundTrip` splits it back into its fields. |
| Aggregation.LeaderIsFirstMinimal | src/database.mjs:91-102 | `groups[0]` after sorting is the earliest group with the fewest members. |
| Aggregation.DomainFor | src/database.mjs:97-104 | The domain comes from the first campaign whose lower-cased SK equals the bucket's campaign key, or "" when none matches or that campaign's domain is empty. |
| Aggregation.SortKey | src/database.mjs:109-113 | The body is the definition. The contract states that the SK starts with the upper-cased campaign key, and that the SK is longer than the campaign key exactly when the bucket has a category. `Aggregation.SortKeyInjective` and `Aggregation.SortKeyCollision` state when two buckets share an SK. |
| Aggregation.SortKeyInjective | src/database.mjs:109-113 | Distinct buckets get distinct sort keys when no campaign key contains `#`. |
| Aggregation.SortKeyCollision | src/database.mjs:110-112 | The campaign `a#b` without a category and the campaign `a` with category `b` share the sort key `A#B`. |
| Aggregation.SentinelCategoryCollision | src/database.mjs:74 | A real category `No_Category` falls into the category-less bucket. |
| Aggregation.BuildItem | src/database.mjs:99-114 | The record has PK `WHATSAPP#INVITELINKS` and the bucket's sort key. Its `Category` is "" for the category-less bucket and the category key otherwise. |
| Aggregation.BuildItemShape | src/database.mjs:93-107 | `AccountSK` is the upper-cased account ID, and `Campaign` comes from the earliest fewest-members group. `Domain` is the first matching campaign's domain, or "". `InviteCodes` has one entry per ranked group, and `Updated` is the run time. |
| Reconcile.VisitsAreTheBuckets | src/database.mjs:84-88 | The buckets visited are exactly those some surviving group falls into, each visited once. |
| Reconcile.Upserts | src/database.mjs:84-118 | The account writes one record per visited bucket, in visiting order, each carrying that bucket's key. |
| Reconcile.UpsertIsBucketRecord | src/database.mjs:84-116 | The i-th upsert is the record built from the surviving groups of the i-th bucket, in input order. |
| Reconcile.ValidSortKeys | src/database.mjs:122-131 | The SK of every visited bucket is kept. The converse, and the equality with the upserted SKs, is `Reconcile.ValidSortKeysAreUpserted`. |
| Reconcile.ValidSortKeysAreUpserted | src/database.mjs:122-131 | The set of SKs kept by reconciliation is exactly the set of SKs upserted in the same iteration. |
| Reconcile.ValidSortKeysOfSurvivors | src/database.mjs:122-131 | The kept SKs are exactly the sort keys of the buckets of surviving groups. |
| Reconcile.ClearingWrites | src/database.mjs:133-142 | Every clearing write carries only its key, an empty code list and the run time, and targets an SK outside the kept set. |
| Reconcile.ClearingWritesCount | src/database.mjs:133-142 | A listed item outside the kept set is cleared once per listing, and no other key is cleared. |
| Reconcile.ClearsMissUpserts | src/database.mjs:122-142 | No clearing write hits an SK upserted in the same iteration. |
| Reconcile.StaleItemsCleared | src/database.mjs:133-142 | After the iteration, each listed item outside the kept set has an empty code list, the run time, and blank `Campaign` and `Category`, and keeps its `Domain` and `AccountSK`. |
| Reconcile.UpsertLands | src/database.mjs:116 | An upserted record whose key no other write shares ends with every attribute the upsert assigns. |
| Reconcile.UpsertKeysDistinct | src/database.mjs:109-113 | The upserts of one iteration have pairwise distinct keys when no surviving campaign key contains `#`. |
| Runner.ListingPrefix | src/database.mjs:204 | The prefix is the account ID with every lower-case ASCII letter raised and nothing else changed, followed by `#`. |
| Runner.Listing | src/database.mjs:120 | The body is the definition: the query sent with the account's prefix against the table as it stands. `Runner.WritePassesAllAcked` fixes that table as the one the upserts left. |
| Runner.UnderPrefix | src/database.mjs:198-206 | The body is the definition: the key condition, that is, an item of the table in the partition `WHATSAPP#INVITELINKS` whose SK starts with the prefix. |
| Runner.QuerySound | src/database.mjs:198-209 | The body is the definition: every returned key meets the key condition. It is assumed by `Runner.OutsidePrefixKept`. |
| Runner.QueryComplete | src/database.mjs:198-209 | The body is the definition: every key meeting the key condition is returned. It is assumed by `Runner.StaleRecordUnderPrefixCleared`. |
| Runner.Skipped | src/database.mjs:44-46 | The body is the definition: an empty account ID or no campaigns. `Runner.SkippedEntryIsInert` states its effect. |
| Runner.ParseEntry | src/database.mjs:41-42 | An entry parses exactly when it is not nullish and its first key names an array of strings. The account is that key, or "undefined" when there is none. The campaigns are the normalised strings. |
| Runner.ProcessAccount | src/database.mjs:48-142 | A missing account table throws before any write. The only errors are a missing table and a rejected write. |
| Runner.ProcessEntry | src/database.mjs:40-46 | A malformed entry throws without touching storage. A skipped entry leaves storage as it was. |
| Runner.UpdateInviteLinks | src/database.mjs:31-153 | An unset table name, or `accounts` that is not a non-empty array, returns false without touching storage. Otherwise the result is true exactly when the account loop finishes without throwing. |
| Runner.Loop | src/database.mjs:40-146 | A loop whose steps never throw finishes without an error. The loop ends at the first error: `Runner.LoopConcat` and `Runner.LoopStops` state this. |
| Runner.ProcessEntries | src/database.mjs:40-146 | An empty entry list changes nothing. Its behaviour on longer lists is stated by `Runner.ProcessEntriesConcat`, `Runner.ProcessEntriesSucceeds` and `Runner.BadEntryStopsRun`. |
| Runner.WritePassesAllAcked | src/database.mjs:116-142 | When every update is acknowledged, both write passes apply in full, and the clearing pass works from the listing of the table the upserts left. |
| Runner.WritePassesRejected | src/database.mjs:116-149 | A rejected update anywhere in the account's writes makes the account throw. |
| Runner.ProcessEntriesConcat | src/database.mjs:40-146 | The loop over two runs of entries is the first run followed by the second from the resulting table, unless the first threw. |
| Runner.ProcessAccountAllAcked | src/database.mjs:84-142 | With every update acknowledged, an account applies its upserts and then its clearing writes. |
| Runner.ProcessEntriesSucceeds | src/database.mjs:40-148 | With every update acknowledged, the loop finishes without an error exactly when every entry is runnable. |
| Runner.BadEntryStopsRun | src/database.mjs:42-149 | A malformed entry ends the run with an error. The writes of earlier entries stay, and no later entry runs. |
| Runner.SkippedEntryIsInert | src/database.mjs:44-46 | An entry with an empty account ID or no campaigns neither reads nor writes. |
| Runner.KeylessEntryThrows | src/database.mjs:41-42 | An entry without own keys always throws. |
| Runner.ListedStaleItemCleared | src/database.mjs:120-142 | After an account's iteration, each item listed after the upserts whose SK was not produced is cleared, keeping its `Domain` and `AccountSK`. |
| Runner.StaleRecordUnderPrefixCleared | src/database.mjs:120-142 | With a complete query, every invite-links record under the account's prefix whose SK the account does not produce is cleared. |
| Runner.UnlistedItemKept | src/database.mjs:120-142 | A record that is neither listed nor produced comes out of the iteration unchanged. |
| Runner.OutsidePrefixKept | src/database.mjs:120-142 | With a sound query, a record outside the invite-links partition or the account's prefix that the account does not produce comes out of the iteration unchanged. |
| Runner.ListingPrefixMissesRecords | src/database.mjs:197-206 | The listing prefix `ACME#` does not cover the record `PROMO` written for that account's campaign `promo`. |
| Handler.ProvidedKey | src/index.mjs:8-12 | The presented key is `event.apiKey` when truthy, otherwise header `x-api-key` when truthy, otherwise header `X-Api-Key`. |
| Handler.Handle | src/index.mjs:3-72 | A nullish event gives 500. A key that is missing or wrong gives 401. Missing `accounts` then gives 400. Otherwise the response is 200 with the success or failure message, and only that path runs the job. |
| Handler.ResponsesAreFixed | src/index.mjs:18-70 | Every response is one of five fixed status and message pairs, and storage changes only behind a 200. |
| Handler.Authorized | src/index.mjs:18 | The body is the definition: the negation of the 401 condition, that is, a truthy presented key strictly equal to the expected one. `Handler.AuthorizedIff` characterises it. |
| Handler.AuthorizedIff | src/index.mjs:14-28 | A request passes the key check exactly when it presents a non-empty string equal to the configured key. |
| Handler.UnsetKeyRefusesAll | src/index.mjs:14-28 | With the configured key unset or empty, every request is refused and storage is untouched. |
| Handler.SuccessIffRunOk | src/index.mjs:44-59 | The success message is sent exactly when the job returned true. |
| Handler.MalformedAccountsReportFailure | src/index.mjs:30-59 | A truthy `accounts` that is not a non-empty array passes the 400 check but ends as 200 with the failure message, and storage is untouched. |
| Handler.ApiKeyTakesPrecedence | src/index.mjs:8-12 | A wrong `event.apiKey` is refused even when the header carries the right key. |

## Left out

- The AWS SDK client, credentials and region (src/database.mjs:1-29) are not modelled. The table name and the API key are parameters.
- The query transport (src/database.mjs:156-210) is not modelled. Each account's tables are one input, fixed for the run. The invite-links query is an input function of the main table and the SK prefix. The source reads only the first page of a query, so `Runner.QueryComplete` holds only when the result fits in one page. The order of the results (ascending SK in the service) is left to the input.
- A failing read of the main table's listing is not modelled. The listing always answers.
- The storage service's reply is a function of the item key, fixed for the whole run (`Backend.replies`). A key written twice in one run (by two accounts, by two buckets with colliding sort keys, or by an upsert and a clearing write) cannot be rejected once and acknowledged the other time. The lemmas about rejected and acknowledged writes hold under this per-key reply model.
- `new Date().toISOString()` is a `clock` input indexed by the account entry. The one-second pause between accounts and all logging are left out.
- Case mapping covers ASCII letters only. `\s` is the ECMAScript whitespace set listed in `Text.IsSpace`. Full Unicode `toLowerCase`/`toUpperCase` is not modelled.
- Numbers are integers. `Members` that is NaN or fractional is not modelled, and neither is a `Publishable` that is not a boolean.
- Item attributes are typed. Non-string `Campaign`, `Category` or `SK` values in stored items, which would throw in the source, are not modelled.
- The keys `__proto__` and `constructor` in `groupsByCampaign`, which read inherited members of `Object.prototype`, are not modelled.
- Property values of a request event cannot be functions. A campaign list that is an object with its own `map` method is not modelled.
- The handler's `error.statusCode`: the only exception reaching that `catch` is the `TypeError` of a nullish event, which has no status code, so the model always answers 500.
- Text.StripSpace: its own contract states the surviving characters as a set; order and multiplicity are stated by `Text.StripSpaceIsFilter`.
- Entities.NormalizeCampaign: its own contract does not pin the result; `Entities.NormalizeCampaignIsFilter` states it exactly.
- Js.Prop: on an array or a string, `length` and the inherited members read as undefined. No path of the program reads them: `Js.FirstOwnKey` yields only index keys there.
- Aggregation.Ranked: its contract states only the length. Order, stability and the bound on dropped groups are stated by `Aggregation.RankedSpec`.
