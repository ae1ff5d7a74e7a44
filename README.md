# Amazon food review helpers, modelled in Dafny

The repository's logic lives in `support.py` and has two parts, one module each:

- `query_data(min_count, db)` (module `ReviewQuery`, `query.dfy`). It counts the reviews of every user in the `Reviews` table and keeps the users whose count is strictly greater than `min_count`. It inner-joins every `(UserId, Text)` row with those counts. It returns the joined rows, their number and the number of qualifying users. The table is a `seq<Review<U>>` and the user identifier type `U` is generic. The counts query is a `map` from user to count. The merge is a filter over the text rows that attaches each row's count.
- `unique_values(reviews)` (module `ColorLabels`, `labels.dfy`). It relabels the `UserId` column to dense colour indices `0..k-1` in order of first appearance. The method `UniqueValues` builds the dictionary `remap` in a loop over the first appearances, as the source does. It then replaces every row by its label. It is proved equal to the specification function `Labels`, and the lemmas state what `Labels` promises.

The docstring of `unique_values` says it returns "a list the size of the number of users". The code returns one label per input row (`replace` on the whole column), and the model follows the code.

## Model

| member | source | states |
|---|---|---|
| `ColorLabels.Uniques` | support.py:24 | the first appearances hold no value twice, and every value of the column and only those |
| `ColorLabels.Labels` | support.py:29 | the labelling has one entry per row of the column |
| `ColorLabels.UniqueValues` | support.py:17-29 | the dictionary loop and the replace compute exactly `Labels(column)`: one label per row, and two rows share a label exactly when they hold the same identifier |
| `ColorLabels.LabelsAgreeIffEqual` | support.py:26-29 | two rows get the same label if and only if their identifiers are equal |
| `ColorLabels.LabelsAreDenseRange` | support.py:26-28 | the labels used are exactly `0..k-1`, where `k` is the number of distinct identifiers in the column |
| `ColorLabels.NewIdentifierGetsNextLabel` | support.py:27-28 | a row whose identifier has not occurred above it gets the next unused label: the number of distinct identifiers above it |
| `ColorLabels.LabelIsFirstAppearanceRank` | support.py:24-28 | every row's label is the number of distinct identifiers seen before its identifier first appeared |
| `ColorLabels.UniquesOfPrefix` | support.py:24 | the first appearances of a prefix of the column are a prefix of the first appearances of the whole column |
| `ColorLabels.LabelsOfPrefix` | support.py:24-29 | labels given to the first `n` rows do not change when more rows follow |
| `ColorLabels.ExampleLabels` | support.py:24-29 | the column `[U2, U1, U2, U3]` is labelled `[0, 1, 0, 2]` |
| `ReviewQuery.Count` | support.py:4-6 | a user's review count is at most the table size, and it is positive exactly when the user has a row |
| `ReviewQuery.CountsQuery` | support.py:4-7 | the counts query has an entry exactly for each user who has a row and more than `min_count` rows (strict `>`), and that entry is the user's full review count |
| `ReviewQuery.Merge` | support.py:12 | every merged row belongs to a user with a count, carries that count, and comes from a text row; there are no more merged rows than text rows |
| `ReviewQuery.QueryData` | support.py:3-14 | the second value returned is the number of joined rows, and every joined row carries its user's full review count, which is strictly greater than `min_count` |
| `ReviewQuery.MergeMultiplicity` | support.py:12 | the inner merge keeps each text row whose user has a count exactly as often as it occurs, and drops every other row |
| `ReviewQuery.QueryKeepsExactlyQualifyingReviews` | support.py:4-12 | the joined rows are, as a multiset, exactly the table's reviews by qualifying users, each with its user's count: none dropped, none added |
| `ReviewQuery.MergeUsers` | support.py:12 | the users of the merged rows are the users of the text rows that have a count |
| `ReviewQuery.QualifyingUsersAreJoinedUsers` | support.py:12-14 | the third value returned equals the number of distinct users among the joined rows, and those users are exactly the qualifying ones |
| `ReviewQuery.ThresholdMonotone` | support.py:7 | raising `min_count` never adds a qualifying user, never raises the number of qualifying users and never raises the number of joined rows |
| `ReviewQuery.MergeShrinks` | support.py:12 | merging against fewer users yields no more rows |
| `ReviewQuery.LowThresholdKeepsAll` | support.py:4-12 | with `min_count` below one every user qualifies and every row of the table is joined |
| `ReviewQuery.MergeKeepsAll` | support.py:12 | merging against a count for every user keeps every text row |
| `ReviewQuery.ThresholdIsStrict` | support.py:7 | a user with exactly `min_count` reviews does not qualify, and qualifies at `min_count - 1` |
| `ReviewQuery.ExampleQuery` | support.py:3-14 | reviews `(U1, a), (U1, b), (U2, c)` with `min_count = 1` give U1's two reviews with count 2, two rows and one qualifying user |

## Left out

- Database access: `pd.read_sql_query` and the `db` connection are replaced by an in-memory sequence of rows that stands for the `Reviews` table. Data-access errors, such as an unreachable store or a missing table or column, are not modelled.
- The SQL text built by concatenating `str(min_count)`. The threshold is an integer here. A fractional threshold and the error raised for a non-numeric one are not modelled.
- pandas internals. `Merge` keeps the text rows in table order, which pandas may not do for an inner merge. Every lemma except `ExampleQuery` states its result as a multiset or a set. `ExampleQuery` compares the joined rows as a sequence in table order, and for that example the pandas order is the same. The `group by` result has no order in the model, because the counts query is a map.
- `UserId` is assumed never NULL. SQL `count(UserId)` gives a NULL group the count 0, and pandas merges null keys with each other. Neither behaviour is modelled: `Count` counts every row whose identifier equals the user.
- `Series.unique` is the specification function `Uniques` rather than a loop, since its implementation is library code. The model of `Series.replace` maps every row through `remap`. Every identifier of the column is a key of `remap`, so the case where `replace` leaves a value unchanged cannot arise.
- The missing-`UserId`-column error of `unique_values`. The column is passed in directly.
- The plotting use of the labels. Only the docstring mentions it, and no code does.
