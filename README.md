# Invite-link refresh

This project models the aggregation step of a WhatsApp group directory. One
run of `updateInviteLinks` does the following:

1. It sends one query for the group records and one for the category
   records of a DynamoDB table, and takes the items each query returns.
2. It keeps the groups that are publishable and have an invite code.
3. It puts them into buckets by sanitised, upper-cased domain and category.
   The bucket key is `DOMAIN#CATEGORY`, or just `DOMAIN`.
4. When the payload has a `domain`, it skips every bucket whose domain part
   differs from that domain upper-cased. A bucket whose domain part is empty
   is skipped too.
5. It ranks each remaining bucket by member count, smallest first, and keeps
   at most ten groups.
6. It writes one summary record per remaining bucket under the partition key
   `WHATSAPP#INVITELINKS`. Each record holds the `SK|Name|InviteCode` entries
   of the ranked groups, a display domain, the run's timestamp and, when the
   category lookup has one, the category name.

The run returns `true` only when the configuration is present, both reads
succeed and every write succeeds. Any error makes it return `false`.

Modules:

- `Wrappers`: `Option`.
- `Seqs`: order-preserving filtering, the subsequence relation, and a generic
  group-by with its partition lemmas.
- `Text`: ASCII case mapping, the key sanitiser, `formatName`, and splitting
  on `#`.
- `Records`: the group, category and summary records, and the entry string.
- `Ranking`: the stable ascending sort by member count and the top-ten cut.
- `Aggregator`: the filter, the bucket keys and the group-by pass as a
  method. Also the category lookup (function and `reduce` loop), the loop
  that shapes the summary records, and the whole aggregation `Refresh` with
  its properties.
- `Sync`: the configuration check and the run itself, over an abstract
  store. A `Database` object holds the module-level client and table name
  and the stored invite-link records.

How the functions and methods relate:

- Each loop of the source is a method, proved equal to a specification
  function:
  - `GroupByDomainAndCategory` equals `Grouped`;
  - `BuildCategoryMap` equals `CategoryMap`;
  - `BuildSummaries` equals `Summaries`.
- The properties are proved about those functions.
- Several specification functions model source expressions but have no
  contract of their own, so they have no row below. Lemmas with rows
  specify them:
  - `Ranking.SortByMembers` (src/database.mjs:63-64) is specified by
    `SortByMembersCorrect` and `StableSortIsUnique`;
  - `Ranking.Rank` (src/database.mjs:63-65) by `RankCorrect` and
    `RankKeepsFewest`;
  - `Aggregator.BucketKey` (src/database.mjs:140-147) by `BucketKeySplits`;
  - `Aggregator.Emitted` (src/database.mjs:59) by `RefreshKeys`;
  - `Aggregator.Shape` (src/database.mjs:63-82) by `ShapeOfBucket`;
  - `Aggregator.Refresh` (src/database.mjs:39-85, without the store calls)
    by `RefreshKeys`, `RefreshRecord` and `RefreshCategoryName`.
- `Database.UpdateInviteLinks` is specified by `Refresh`.

A category stored with `SK` `"tech"` gives bucket `DEV#TECH` no
`CategoryName`. The lookup at src/database.mjs:80 uses the sanitised
upper-case key `"TECH"`, and object keys match exactly.
`Aggregator.LowercaseCategoryKeyIsNotFound` proves this for two such groups:
one record, entries in ascending member order, and no `CategoryName`.

## Model

| member | source | states |
|---|---|---|
| Text.Sanitize | src/database.mjs:131-133 | the result is no longer than the input and holds only ASCII letters and digits taken from the input |
| Text.SanitizeIsSubsequence | src/database.mjs:131-133 | the result is a subsequence of the input: it keeps the original order |
| Text.SanitizeKeepsAlnum | src/database.mjs:131-133 | every alphanumeric character is kept as often as it occurs; every other character is removed |
| Text.SanitizeFixesAlnum | src/database.mjs:131-133 | an all-alphanumeric string is returned unchanged |
| Text.SanitizeIdempotent | src/database.mjs:131-133 | sanitising twice equals sanitising once |
| Text.SanitizeConcat | src/database.mjs:131-133 | sanitising a concatenation sanitises each part |
| Text.SanitizedUpperIsKeyShaped | src/database.mjs:137-138 | a domain or category key holds only upper-case ASCII letters and digits |
| Text.FormatName | src/database.mjs:158-161 | the empty string stays empty; otherwise the length is kept, the first character is not lower-case, the rest are not upper-case, and the letters are the input's up to case |
| Text.FormatNameIdempotent | src/database.mjs:158-161 | formatting a formatted name changes nothing |
| Text.Split | src/database.mjs:57 | splitting on `#` yields at least one part |
| Text.SplitWithoutHash | src/database.mjs:57 | a string without `#` splits into itself alone |
| Text.SplitJoin | src/database.mjs:57 | splitting `d#c` gives `d` followed by the parts of `c`, when `d` has no `#` |
| Records.Entries | src/database.mjs:67 | one entry per ranked group, in order, each the group's `SK`, `Name` and `InviteCode` joined by vertical bars |
| Ranking.SortByMembersCorrect | src/database.mjs:63-64 | the sort is ascending by member count (missing counts as 0), a permutation, and keeps groups with equal counts in input order |
| Ranking.StableSortIsUnique | src/database.mjs:63-64 | any sorted arrangement that keeps equal counts in input order is exactly the modelled sort, so the model agrees with every stable sort |
| Ranking.RankCorrect | src/database.mjs:63-65 | the ranked list has `min(10, n)` groups, is ascending, is drawn from the bucket, and keeps equal counts in input order |
| Ranking.RankKeepsFewest | src/database.mjs:63-65 | a group cut from the ranking has no fewer members than any ranked group |
| Aggregator.Publishable | src/database.mjs:43 | a group is kept exactly when `Publishable` is the boolean true and the invite code is non-empty; every occurrence of a kept group is kept, none of the others, and the kept groups stay in input order |
| Aggregator.BucketKeySplits | src/database.mjs:135-147 | a group has a bucket exactly when its domain key is non-empty; splitting its key on `#` gives the domain key, then the category key when that is non-empty |
| Aggregator.GroupByDomainAndCategory | src/database.mjs:135-156 | the single pass that creates and pushes onto buckets computes `Grouped` |
| Aggregator.GroupedBuckets | src/database.mjs:135-156 | every bucket is non-empty, holds exactly the groups with its key, and keeps their input order |
| Aggregator.GroupedCounts | src/database.mjs:135-156 | a bucket holds each group with its key as often as the input does, and no other group |
| Aggregator.GroupedPlacesGroup | src/database.mjs:135-156 | a group with a non-empty domain key lies in its own bucket and in no other; a group with an empty domain key lies in none |
| Aggregator.CategoryMap | src/database.mjs:47-50 | the lookup's keys are exactly the categories' `SK`s |
| Aggregator.CategoryMapLastWins | src/database.mjs:47-50 | when several categories share an `SK`, the name of the last one is kept |
| Aggregator.BuildCategoryMap | src/database.mjs:47-50 | the `reduce` loop computes `CategoryMap` |
| Aggregator.BuildSummaries | src/database.mjs:56-85 | the loop over bucket keys computes `Summaries`: one shaped record per bucket that passes the domain filter |
| Aggregator.ShapeOfBucket | src/database.mjs:63-82 | for a non-empty bucket, the record is shaped as follows: the partition key is fixed and `SK` equals the bucket key; the entries are those of the ranked groups; the display domain is the first ranked group's raw, present `Domain`, so the title-case fallback is never taken; the category name is present exactly when the key has a category part whose exact key has a truthy name |
| Aggregator.RefreshKeys | src/database.mjs:39-61 | a record is emitted for key `k` exactly when some kept group has bucket key `k` and, with a non-empty filter, its domain key equals the upper-cased filter |
| Aggregator.RefreshRecord | src/database.mjs:63-78 | each emitted record has a non-empty bucket holding exactly the kept groups with its key; it lists at most ten entries of the ranked groups in rank order; `SK` equals its key; `PK` and `Updated` are set; the display domain is the first ranked group's `Domain` |
| Aggregator.RefreshCategoryName | src/database.mjs:80-82 | `CategoryName` is present exactly when the key has a category part whose exact key holds a truthy name in the lookup; its value then comes from the last category with that `SK` |
| Aggregator.BucketOfMembers | src/database.mjs:43 | a bucket holds exactly the kept groups with its key |
| Aggregator.UnpublishableExcluded | src/database.mjs:43 | a group that is not publishable, or has no invite code, is in no bucket and no ranked list |
| Aggregator.UnsanitisedFilterMatchesNothing | src/database.mjs:59 | under ASCII case mapping, a filter holding any non-alphanumeric character emits no record, because the filter is upper-cased but not sanitised |
| Aggregator.FilterIsCaseInsensitive | src/database.mjs:59 | filters that agree after upper-casing emit the same records |
| Aggregator.RefreshIgnoresTimestamp | src/database.mjs:77 | runs over the same data differ only in `Updated` |
| Aggregator.NoExactCategory | src/database.mjs:80-82 | without a category whose `SK` is exactly the key's category part, `CategoryName` is absent |
| Aggregator.PairBucket | src/database.mjs:56-82 | two kept groups sharing a key, the first with more members, and no category whose `SK` is exactly the key's category part: one record, smaller group first, no `CategoryName` |
| Aggregator.LowercaseCategoryKeyIsNotFound | src/database.mjs:80-82 | two "dev"/"tech" groups with 5 and 2 members, plus a category with `SK` "tech", give one record `DEV#TECH`; it lists the smaller group first and has no `CategoryName` |
| Sync.ConfigError | src/database.mjs:8-14 | the check fails exactly when the region or the table is missing or empty; the region is checked first, and each failure has its own message |
| Sync.ItemsOf | src/database.mjs:105-106 | a read that answered with no `Items` yields the empty list |
| Sync.Database.InitializeClient | src/database.mjs:7-32 | on success it sets the client region and the table name; on failure it returns the error and changes nothing |
| Sync.Database.PutAll | src/database.mjs:84-87 | every write that is not rejected lands, whatever the others do; the result is true exactly when none is rejected |
| Sync.Database.UpdateInviteLinks | src/database.mjs:34-94 | the result is true exactly when the configuration is present, both reads answer and no record's write is rejected. When the writes are reached, the store gains exactly the accepted records of `Refresh`; otherwise it is unchanged. Records the run does not write keep their old values. A passing configuration check sets the client region and table name; a failing one leaves both as they were |

## Left out

- AWS SDK client construction, credentials from the event, and the
  `QueryCommand`/`PutCommand` calls are foreign library code. The client is
  represented by the region it was built for. Each read is an input that
  either throws or answers. Each write is an outcome named by the set of
  rejected record keys.
- The concurrent fan-out of writes and `Promise.all` are modelled as a loop
  over the records in an unspecified order, with success meaning that all
  writes succeeded. The writes go to distinct keys, so their order does not
  matter.
- The clock and the console logging are left out. The timestamp is a
  parameter, and a single value is used for the whole run. The source reads
  the clock once per record, so its records may carry slightly different
  times.
- Upper- and lower-casing map ASCII letters only. JavaScript's Unicode case
  mapping is not modelled.
- Aggregator.UnsanitisedFilterMatchesNothing: holds under the ASCII case
  mapping only. In JavaScript `"ß".toUpperCase()` is `"SS"`, so the filter
  `"straße"` does match a group whose `Domain` is `"Straße"`.
- `TotalMembers` is an integer or absent. Non-integer and non-numeric values
  in the sort comparator are not modelled.
- Group `SK` and `Name` are present strings, and the payload domain is a
  string or absent. Template rendering of other values is not modelled. A
  missing invite code renders as `undefined`, but a kept group always has
  one.
- The sort works in place on the bucket array in the source. The model
  returns a new sequence, because nothing reads the unsorted bucket
  afterwards.
- Each read is a single query and yields the `Items` of that one response.
  The source does not follow `LastEvaluatedKey`, so a partition larger
  than one query page is read only in part. The model takes whatever items
  the read answered and does not model paging.
- src/index.mjs (request handling) and tests/index.test.mjs are not part of
  this model.
