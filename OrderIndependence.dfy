/**
 * The stage table does not depend on the order of the task rows: grouping,
 * the skipna minimum and maximum, and the mean only see each stage's rows
 * with their multiplicities.
 */
module OrderIndependence {
  import opened Wrappers
  import opened EventLog
  import opened Aggregation

  /** Rearranging the rows of a column changes neither its sum nor its count. */
  lemma {:induction false} ColumnPermutation<T(!new)>(xs: seq<T>, ys: seq<T>, f: T -> Option<int>)
    requires multiset(xs) == multiset(ys)
    ensures SumOf(xs, f) == SumOf(ys, f) && CountOf(xs, f) == CountOf(ys, f)
  {
    if |xs| == 0 {
      assert |ys| == |multiset(ys)| == 0;
    } else {
      var x := xs[0];
      assert x in multiset(ys);
      var k :| 0 <= k < |ys| && ys[k] == x;
      var front, back := ys[..k], ys[k + 1..];
      assert ys == front + ([x] + back);
      RemoveOne(xs, ys, k);
      ColumnPermutation(xs[1..], front + back, f);
      ColumnAppend(front, [x] + back, f);
      ColumnAppend(front, back, f);
      assert ([x] + back)[1..] == back;
    }
  }

  /** Taking the head off one of two rearrangements leaves a rearrangement of the other without it. */
  lemma RemoveOne<T>(xs: seq<T>, ys: seq<T>, k: nat)
    requires multiset(xs) == multiset(ys) && |xs| > 0
    requires k < |ys| && ys[k] == xs[0]
    ensures multiset(xs[1..]) == multiset(ys[..k] + ys[k + 1..])
  {
    var front, back := ys[..k], ys[k + 1..];
    assert ys == front + [ys[k]] + back;
    assert xs == [xs[0]] + xs[1..];
    assert multiset(ys) == multiset(front) + multiset{xs[0]} + multiset(back);
    assert multiset(xs) == multiset{xs[0]} + multiset(xs[1..]);
    forall y ensures multiset(xs[1..])[y] == multiset(front + back)[y] {
      assert multiset(xs)[y] == multiset(ys)[y];
    }
  }

  /** A column over more rows has a minimum no larger. */
  lemma MinOfWider<T(!new)>(xs: seq<T>, ys: seq<T>, f: T -> Option<int>)
    requires forall x :: x in xs ==> x in ys
    ensures MinOf(xs, f).Some? ==> MinOf(ys, f).Some? && MinOf(ys, f).value <= MinOf(xs, f).value
  {
    if MinOf(xs, f).Some? {
      var x :| x in xs && f(x) == MinOf(xs, f);
      assert x in ys;
    }
  }

  /** A column over more rows has a maximum no smaller. */
  lemma MaxOfWider<T(!new)>(xs: seq<T>, ys: seq<T>, f: T -> Option<int>)
    requires forall x :: x in xs ==> x in ys
    ensures MaxOf(xs, f).Some? ==> MaxOf(ys, f).Some? && MaxOf(xs, f).value <= MaxOf(ys, f).value
  {
    if MaxOf(xs, f).Some? {
      var x :| x in xs && f(x) == MaxOf(xs, f);
      assert x in ys;
    }
  }

  /** Two columns over the same rows have the same skipna minimum. */
  lemma MinOfSameRows<T(!new)>(xs: seq<T>, ys: seq<T>, f: T -> Option<int>)
    requires forall x :: x in xs <==> x in ys
    ensures MinOf(xs, f) == MinOf(ys, f)
  {
    MinOfWider(xs, ys, f);
    MinOfWider(ys, xs, f);
  }

  /** Two columns over the same rows have the same skipna maximum. */
  lemma MaxOfSameRows<T(!new)>(xs: seq<T>, ys: seq<T>, f: T -> Option<int>)
    requires forall x :: x in xs <==> x in ys
    ensures MaxOf(xs, f) == MaxOf(ys, f)
  {
    MaxOfWider(xs, ys, f);
    MaxOfWider(ys, xs, f);
  }

  /** Rearranging the task rows rearranges each stage's group the same way. */
  lemma GroupPermutation(rows: seq<Row>, others: seq<Row>, s: int)
    requires multiset(rows) == multiset(others)
    ensures multiset(Group(rows, s)) == multiset(Group(others, s))
  {
    GroupMultiset(rows, s);
    GroupMultiset(others, s);
    assert forall row :: multiset(Group(rows, s))[row] == multiset(Group(others, s))[row];
  }

  /** A stage's metrics do not depend on the order of the task rows. */
  lemma MetricsPermutation(rows: seq<Row>, others: seq<Row>, s: int)
    requires multiset(rows) == multiset(others)
    ensures MetricsOf(rows, s) == MetricsOf(others, s)
  {
    var g, h := Group(rows, s), Group(others, s);
    GroupPermutation(rows, others, s);
    assert forall row :: row in g <==> row in h by {
      forall row ensures row in g <==> row in h {
        assert row in g <==> row in multiset(g);
        assert row in h <==> row in multiset(h);
      }
    }
    MinOfSameRows(g, h, LaunchTime);
    MaxOfSameRows(g, h, FinishTime);
    MaxOfSameRows(g, h, ExecTime);
    ColumnPermutation(g, h, ExecTime);
  }

  /** The tail of an ascending sequence holds the elements above its head. */
  lemma AscendingRest(a: seq<int>, x: int)
    requires |a| > 0 && Ascending(a)
    ensures x in a[1..] <==> x in a && a[0] < x
  {
    if x in a[1..] {
      var j :| 0 <= j < |a[1..]| && a[1..][j] == x;
      assert a[j + 1] == x;
    }
    if x in a && a[0] < x {
      var j :| 0 <= j < |a| && a[j] == x;
      assert a[1..][j - 1] == x;
    }
  }

  /** Two sequences each of whose elements lies in the other are both empty or both not. */
  lemma SameEmptiness(a: seq<int>, b: seq<int>)
    requires forall i :: 0 <= i < |a| ==> a[i] in b
    requires forall j :: 0 <= j < |b| ==> b[j] in a
    ensures |a| == 0 <==> |b| == 0
  {
    if |a| > 0 {
      assert a[0] in b;
    }
    if |b| > 0 {
      assert b[0] in a;
    }
  }

  /** Two non-empty ascending sequences with the same elements have the same head. */
  lemma SameHead(a: seq<int>, b: seq<int>)
    requires Ascending(a) && Ascending(b) && |a| > 0 && |b| > 0
    requires a[0] in b && b[0] in a
    ensures a[0] == b[0]
  {
    var i :| 0 <= i < |b| && b[i] == a[0];
    var j :| 0 <= j < |a| && a[j] == b[0];
    assert b[0] <= b[i] && a[0] <= a[j];
  }

  /** Two ascending sequences with the same elements and head have tails with the same elements. */
  lemma SameTails(a: seq<int>, b: seq<int>)
    requires Ascending(a) && Ascending(b) && |a| > 0 && |b| > 0 && a[0] == b[0]
    requires forall i :: 0 <= i < |a| ==> a[i] in b
    requires forall j :: 0 <= j < |b| ==> b[j] in a
    ensures forall i :: 0 <= i < |a[1..]| ==> a[1..][i] in b[1..]
    ensures forall j :: 0 <= j < |b[1..]| ==> b[1..][j] in a[1..]
  {
    forall k | 0 <= k < |a[1..]| ensures a[1..][k] in b[1..] {
      assert a[1..][k] == a[k + 1];
      AscendingRest(a, a[k + 1]);
      AscendingRest(b, a[k + 1]);
    }
    forall k | 0 <= k < |b[1..]| ensures b[1..][k] in a[1..] {
      assert b[1..][k] == b[k + 1];
      AscendingRest(a, b[k + 1]);
      AscendingRest(b, b[k + 1]);
    }
  }

  /** Sequences with the same head and the same tail are equal. */
  lemma SameHeadAndTail(a: seq<int>, b: seq<int>)
    requires |a| > 0 && |b| > 0 && a[0] == b[0] && a[1..] == b[1..]
    ensures a == b
  {
    assert a == [a[0]] + a[1..] && b == [b[0]] + b[1..];
  }

  /** An ascending sequence is determined by its elements. */
  lemma {:induction false} AscendingUnique(a: seq<int>, b: seq<int>)
    requires Ascending(a) && Ascending(b)
    requires forall i :: 0 <= i < |a| ==> a[i] in b
    requires forall j :: 0 <= j < |b| ==> b[j] in a
    ensures a == b
  {
    SameEmptiness(a, b);
    if |a| > 0 {
      SameHead(a, b);
      SameTails(a, b);
      AscendingTail(a);
      AscendingTail(b);
      AscendingUnique(a[1..], b[1..]);
      SameHeadAndTail(a, b);
    }
  }

  /** The group keys do not depend on the order of the task rows. */
  lemma StageIdsPermutation(rows: seq<Row>, others: seq<Row>)
    requires multiset(rows) == multiset(others)
    ensures StageIds(rows) == StageIds(others)
  {
    var ids, others' := StageIds(rows), StageIds(others);
    forall s ensures HasStage(rows, s) <==> HasStage(others, s) {
      if HasStage(rows, s) {
        var row :| row in rows && row.stageId == Some(s);
        assert row in multiset(others);
      }
      if HasStage(others, s) {
        var row :| row in others && row.stageId == Some(s);
        assert row in multiset(rows);
      }
    }
    forall i | 0 <= i < |ids| ensures ids[i] in others' {
      assert ids[i] in ids;
    }
    forall j | 0 <= j < |others'| ensures others'[j] in ids {
      assert others'[j] in others';
    }
    AscendingUnique(ids, others');
  }

  /** The stage table, and so the job total, does not depend on the order of the task rows. */
  lemma AggregateIgnoresOrder(rows: seq<Row>, others: seq<Row>)
    requires multiset(rows) == multiset(others)
    ensures Aggregate(rows) == Aggregate(others)
  {
    assert |rows| == |multiset(rows)| == |others|;
    if |rows| > 0 {
      StageIdsPermutation(rows, others);
      var ids := StageIds(rows);
      var t, u := Table(rows, ids), Table(others, ids);
      forall k | 0 <= k < |ids| ensures t[k] == u[k] {
        MetricsPermutation(rows, others, ids[k]);
      }
      assert t == u;
    }
  }
}
