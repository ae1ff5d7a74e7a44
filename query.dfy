/**
 This module models `query_data`: the two SQL queries against the `Reviews`
 table and the inner merge of their results, stated as relational algebra
 over an in-memory sequence of rows standing in for the table.
 */
module ReviewQuery {

  /** A row of `Reviews`: `select UserId, Text from Reviews`. */
  datatype Review<U> = Review(userId: U, text: string)

  /** A row of the merged frame: the review's columns and its user's `Count`. */
  datatype Joined<U> = Joined(userId: U, text: string, count: nat)

  /** The triple `query_data` returns: the merged rows, their number and the
      number of rows of the counts query. */
  datatype QueryResult<U> = QueryResult(reviews: seq<Joined<U>>, totalRows: nat, qualifyingUsers: nat)

  /** The users with at least one review. */
  function Users<U>(table: seq<Review<U>>): set<U>
  {
    set r | r in table :: r.userId
  }

  /** `count(UserId)` over the group of user `u`. */
  function Count<U(==)>(table: seq<Review<U>>, u: U): (n: nat)
    ensures n <= |table|
    ensures n > 0 <==> u in Users(table)
  {
    if table == [] then 0
    else
      assert Users(table) == {table[0].userId} + Users(table[1..]);
      (if table[0].userId == u then 1 else 0) + Count(table[1..], u)
  }

  /** The counts query: `group by UserId having Count > min_count`, one entry
      per user whose number of reviews is strictly above the threshold. */
  function CountsQuery<U(==)>(table: seq<Review<U>>, minCount: int): (counts: map<U, nat>)
    ensures forall u :: u in counts ==>
              u in Users(table) && Count(table, u) > minCount && counts[u] == Count(table, u)
    ensures forall i :: 0 <= i < |table| && Count(table, table[i].userId) > minCount ==>
              table[i].userId in counts
  {
    map u | u in Users(table) && Count(table, u) > minCount :: Count(table, u)
  }

  /** `pd.merge(text, counts, on="UserId", how="inner")`: the text rows whose
      user has an entry in `counts`, each carrying that entry's count. */
  function Merge<U(==)>(text: seq<Review<U>>, counts: map<U, nat>): (joined: seq<Joined<U>>)
    ensures |joined| <= |text|
    ensures forall row :: row in joined ==>
              row.userId in counts && row.count == counts[row.userId]
              && Review(row.userId, row.text) in text
  {
    if text == [] then []
    else
      var rest := Merge(text[1..], counts);
      var r := text[0];
      if r.userId in counts then [Joined(r.userId, r.text, counts[r.userId])] + rest else rest
  }

  /** `query_data`: merge every review with the counts query, and return the
      merged rows with `len` of both frames. */
  function QueryData<U(==)>(minCount: int, table: seq<Review<U>>): (result: QueryResult<U>)
    ensures result.totalRows == |result.reviews|
    ensures forall row :: row in result.reviews ==>
              row.count == Count(table, row.userId) && row.count > minCount
  {
    var counts := CountsQuery(table, minCount);
    var text := table;
    var reviews := Merge(text, counts);
    QueryResult(reviews, |reviews|, |counts|)
  }

  /** The users whose rows appear in a merged frame. */
  function JoinedUsers<U>(joined: seq<Joined<U>>): set<U>
  {
    set row | row in joined :: row.userId
  }

  /** Merging keeps every text row whose user has a count, as often as it
      occurs, and no other row. */
  lemma {:induction false} MergeMultiplicity<U>(text: seq<Review<U>>, counts: map<U, nat>, row: Joined<U>)
    ensures multiset(Merge(text, counts))[row] ==
            if row.userId in counts && row.count == counts[row.userId]
            then multiset(text)[Review(row.userId, row.text)] else 0
  {
    if text != [] {
      MergeMultiplicity(text[1..], counts, row);
      assert text == [text[0]] + text[1..];
    }
  }

  /** The users of a merged frame are the users of the text rows that have a count. */
  lemma {:induction false} MergeUsers<U>(text: seq<Review<U>>, counts: map<U, nat>)
    ensures JoinedUsers(Merge(text, counts)) == Users(text) * counts.Keys
  {
    if text != [] {
      var rest := Merge(text[1..], counts);
      MergeUsers(text[1..], counts);
      assert Users(text) == {text[0].userId} + Users(text[1..]);
      var r := text[0];
      if r.userId in counts {
        var row := Joined(r.userId, r.text, counts[r.userId]);
        assert JoinedUsers([row] + rest) == {r.userId} + JoinedUsers(rest);
      }
    }
  }

  /** The joined rows are exactly the reviews of qualifying users, each as
      many times as it occurs in the table, and each with its user's full count. */
  lemma QueryKeepsExactlyQualifyingReviews<U>(minCount: int, table: seq<Review<U>>, row: Joined<U>)
    ensures multiset(QueryData(minCount, table).reviews)[row] ==
      if Count(table, row.userId) > minCount && row.count == Count(table, row.userId)
      then multiset(table)[Review(row.userId, row.text)] else 0
  {
    var counts := CountsQuery(table, minCount);
    MergeMultiplicity(table, counts, row);
    if row.userId !in Users(table) {
      assert Review(row.userId, row.text) !in table;
    }
  }

  /** The third value returned, the number of qualifying users, is the number
      of distinct users among the joined rows. */
  lemma QualifyingUsersAreJoinedUsers<U>(minCount: int, table: seq<Review<U>>)
    ensures var result := QueryData(minCount, table);
      result.qualifyingUsers == |JoinedUsers(result.reviews)|
      && JoinedUsers(result.reviews) == CountsQuery(table, minCount).Keys
  {
    var counts := CountsQuery(table, minCount);
    MergeUsers(table, counts);
    assert Users(table) * counts.Keys == counts.Keys;
  }

  /** Raising the threshold never adds a qualifying user, and never adds rows. */
  lemma ThresholdMonotone<U>(table: seq<Review<U>>, low: int, high: int)
    requires low <= high
    ensures CountsQuery(table, high).Keys <= CountsQuery(table, low).Keys
    ensures QueryData(high, table).qualifyingUsers <= QueryData(low, table).qualifyingUsers
    ensures QueryData(high, table).totalRows <= QueryData(low, table).totalRows
  {
    var h, l := CountsQuery(table, high), CountsQuery(table, low);
    assert l.Keys == h.Keys + (l.Keys - h.Keys);
    MergeShrinks(table, h, l);
  }

  /** Merging with fewer counts yields no more rows. */
  lemma {:induction false} MergeShrinks<U>(text: seq<Review<U>>, small: map<U, nat>, large: map<U, nat>)
    requires small.Keys <= large.Keys
    ensures |Merge(text, small)| <= |Merge(text, large)|
  {
    if text != [] {
      MergeShrinks(text[1..], small, large);
    }
  }

  /** With a threshold below one every user qualifies, since every user in
      the table has at least one review: no row is dropped. */
  lemma LowThresholdKeepsAll<U>(minCount: int, table: seq<Review<U>>)
    requires minCount < 1
    ensures QueryData(minCount, table).totalRows == |table|
    ensures QueryData(minCount, table).qualifyingUsers == |Users(table)|
  {
    var counts := CountsQuery(table, minCount);
    assert counts.Keys == Users(table);
    MergeKeepsAll(table, counts);
  }

  /** Merging with a count for every user keeps every row. */
  lemma {:induction false} MergeKeepsAll<U>(text: seq<Review<U>>, counts: map<U, nat>)
    requires Users(text) <= counts.Keys
    ensures |Merge(text, counts)| == |text|
  {
    if text != [] {
      assert Users(text[1..]) <= Users(text);
      MergeKeepsAll(text[1..], counts);
    }
  }

  /** The comparison is strict: a user with exactly `minCount` reviews does
      not qualify, one with more does. */
  lemma ThresholdIsStrict<U>(table: seq<Review<U>>, u: U, minCount: int)
    requires u in Users(table) && Count(table, u) == minCount
    ensures u !in CountsQuery(table, minCount).Keys
    ensures u in CountsQuery(table, minCount - 1).Keys
  {
  }

  /** Reviews (U1, "a"), (U1, "b"), (U2, "c") with threshold 1: only U1
      qualifies, with its two reviews. */
  lemma ExampleQuery()
    ensures QueryData(1, [Review("U1", "a"), Review("U1", "b"), Review("U2", "c")])
         == QueryResult([Joined("U1", "a", 2), Joined("U1", "b", 2)], 2, 1)
  {
    var table := [Review("U1", "a"), Review("U1", "b"), Review("U2", "c")];
    assert Count(table, "U1") == 2;
    assert Count(table, "U2") == 1;
    assert Users(table) == {"U1", "U2"};
    assert CountsQuery(table, 1) == map["U1" := 2];
  }
}
