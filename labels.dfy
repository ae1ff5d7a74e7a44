/**
 This module models `unique_values`: every row's user identifier is replaced
 by a small colour index, the position of that identifier among the distinct
 identifiers of the column in order of first appearance.
 */
module ColorLabels {

  /** The values occurring in `s`. */
  function Elements<T>(s: seq<T>): set<T>
  {
    set x | x in s
  }

  /** No value occurs twice in `s`. */
  predicate Distinct<T(==)>(s: seq<T>)
  {
    forall i, j :: 0 <= i < j < |s| ==> s[i] != s[j]
  }

  /** The position of the first occurrence of `x` in `s`. */
  function FirstIndex<T(==)>(s: seq<T>, x: T): (i: nat)
    requires x in s
    ensures i < |s| && s[i] == x
    ensures x !in s[..i]
  {
    if s[0] == x then 0 else 1 + FirstIndex(s[1..], x)
  }

  /** The distinct values of `column` in order of first appearance
      (the `Series.unique()` the source calls). */
  function Uniques<T(==)>(column: seq<T>): (u: seq<T>)
    ensures Distinct(u)
    ensures forall i :: 0 <= i < |column| ==> column[i] in u
    ensures forall k :: 0 <= k < |u| ==> u[k] in column
    decreases |column|
  {
    if column == [] then []
    else
      var init, last := column[..|column| - 1], column[|column| - 1];
      var u := Uniques(init);
      assert forall i :: 0 <= i < |init| ==> column[i] == init[i];
      if last in u then u else u + [last]
  }

  /** The specification of `unique_values`: row `i` gets the index, among the
      first appearances, of the identifier it holds. */
  function Labels<T(==)>(column: seq<T>): (labels: seq<nat>)
    ensures |labels| == |column|
  {
    var u := Uniques(column);
    seq(|column|, i requires 0 <= i < |column| => FirstIndex(u, column[i]))
  }

  /** The labels that some row of `column` receives. */
  function UsedLabels<T(==)>(column: seq<T>): set<nat>
  {
    set i | 0 <= i < |column| :: Labels(column)[i]
  }

  /** `unique_values`: collect the first appearances, number them in a
      dictionary `remap` one by one, then replace every row by its number. */
  method UniqueValues<T(==)>(column: seq<T>) returns (labels: seq<nat>)
    ensures labels == Labels(column)
    ensures |labels| == |column|
    ensures forall i, j :: 0 <= i < |column| && 0 <= j < |column| ==>
              (labels[i] == labels[j] <==> column[i] == column[j])
  {
    var uniqs := Uniques(column);
    var remap: map<T, nat> := map[];
    var idx := 0;
    while idx < |uniqs|
      invariant idx <= |uniqs|
      invariant remap.Keys == Elements(uniqs[..idx])
      invariant forall j :: 0 <= j < idx ==> uniqs[j] in remap && remap[uniqs[j]] == j
    {
      remap := remap[uniqs[idx] := idx];
      idx := idx + 1;
    }
    assert uniqs[..idx] == uniqs;
    labels := seq(|column|, i requires 0 <= i < |column| => remap[column[i]]);
    forall i | 0 <= i < |column|
      ensures labels[i] == Labels(column)[i]
    {
      var k := FirstIndex(uniqs, column[i]);
      assert remap[uniqs[k]] == k;
    }
  }

  /** Two rows get the same label exactly when they hold the same identifier. */
  lemma LabelsAgreeIffEqual<T>(column: seq<T>, i: nat, j: nat)
    requires i < |column| && j < |column|
    ensures Labels(column)[i] == Labels(column)[j] <==> column[i] == column[j]
  {
  }

  /** A sequence without repetitions has as many elements as values. */
  lemma {:induction false} DistinctCardinality<T>(s: seq<T>)
    requires Distinct(s)
    ensures |Elements(s)| == |s|
  {
    if s != [] {
      var t := s[1..];
      assert Distinct(t);
      DistinctCardinality(t);
      assert Elements(s) == {s[0]} + Elements(t);
      assert s[0] !in Elements(t);
    }
  }

  /** The labels used are exactly 0, 1, ..., k - 1, where k is the number of
      distinct identifiers in the column. */
  lemma LabelsAreDenseRange<T>(column: seq<T>)
    ensures |Uniques(column)| == |Elements(column)|
    ensures forall k :: k in UsedLabels(column) <==> 0 <= k < |Uniques(column)|
  {
    var u := Uniques(column);
    DistinctCardinality(u);
    assert Elements(u) == Elements(column);
    forall k | 0 <= k < |u|
      ensures k in UsedLabels(column)
    {
      assert u[k] in column;
      var i := FirstIndex(column, u[k]);
      assert Labels(column)[i] == k;
    }
  }

  /** The first appearances of a prefix of the column are a prefix of the
      first appearances of the whole column. */
  lemma {:induction false} UniquesOfPrefix<T>(column: seq<T>, n: nat)
    requires n <= |column|
    ensures Uniques(column[..n]) <= Uniques(column)
    decreases |column|
  {
    if n < |column| {
      var init := column[..|column| - 1];
      UniquesOfPrefix(init, n);
      assert init[..n] == column[..n];
    } else {
      assert column[..n] == column;
    }
  }

  /** A row whose identifier has not occurred before gets the next unused
      label: the number of distinct identifiers above it. */
  lemma NewIdentifierGetsNextLabel<T>(column: seq<T>, i: nat)
    requires i < |column| && column[i] !in column[..i]
    ensures Labels(column)[i] == |Elements(column[..i])|
  {
    var before := Uniques(column[..i]);
    var through := Uniques(column[..i + 1]);
    assert column[..i + 1][..i] == column[..i];
    assert column[i] !in before;
    assert through == before + [column[i]];
    UniquesOfPrefix(column, i + 1);
    var u := Uniques(column);
    assert u[|before|] == column[i];
    assert FirstIndex(u, column[i]) == |before| by {
      var k := FirstIndex(u, column[i]);
    }
    LabelsAreDenseRange(column[..i]);
  }

  /** Labels follow first-appearance order: a row's label is the number of
      distinct identifiers seen before its identifier first appeared. */
  lemma LabelIsFirstAppearanceRank<T>(column: seq<T>, i: nat)
    requires i < |column|
    ensures Labels(column)[i] == |Elements(column[..FirstIndex(column, column[i])])|
  {
    var f := FirstIndex(column, column[i]);
    NewIdentifierGetsNextLabel(column, f);
    LabelsAgreeIffEqual(column, i, f);
  }

  /** Labels already given to a prefix of the column never change when more
      rows follow. */
  lemma LabelsOfPrefix<T>(column: seq<T>, n: nat)
    requires n <= |column|
    ensures Labels(column[..n]) == Labels(column)[..n]
  {
    var p := column[..n];
    forall i | 0 <= i < n
      ensures Labels(p)[i] == Labels(column)[i]
    {
      var f := FirstIndex(column, column[i]);
      assert FirstIndex(p, p[i]) == f by {
        var g := FirstIndex(p, p[i]);
        assert p[..g] == column[..g];
      }
      assert p[..f] == column[..f];
      LabelIsFirstAppearanceRank(p, i);
      LabelIsFirstAppearanceRank(column, i);
    }
  }

  /** The column [U2, U1, U2, U3] is labelled [0, 1, 0, 2]. */
  lemma ExampleLabels()
    ensures Labels(["U2", "U1", "U2", "U3"]) == [0, 1, 0, 2]
  {
    var column := ["U2", "U1", "U2", "U3"];
    assert column[..3] == ["U2", "U1", "U2"];
    assert column[..3][..2] == ["U2", "U1"];
    assert ["U2", "U1"][..1] == ["U2"];
    assert Uniques(["U2"]) == ["U2"];
    assert Uniques(["U2", "U1"]) == ["U2", "U1"];
    assert Uniques(["U2", "U1", "U2"]) == ["U2", "U1"];
    assert Uniques(column) == ["U2", "U1", "U3"];
  }
}
