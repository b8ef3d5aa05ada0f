/**
 * The nearest-facility selector, run once on the Small Area table and once
 * on the Data Zone table: keep the rows whose destination is an eligible
 * zone (a zone holding a maternity unit), sort them by duration, and keep
 * the first row of each origin. The result is, for every origin that can
 * reach an eligible zone at all, one eligible row of least duration.
 *
 * The sort is the table library's default, which is not stable, so which of
 * several equally near rows is kept is not determined. The model runs a
 * stable insertion sort as one admissible choice and proves the result
 * correct for every sorted arrangement of the eligible rows.
 */
module NearestSelect {
  import opened MatrixReshape

  /**
   * The sort order on durations: numbers ascending, NaN after every number.
   * `NoLater(a, b)` holds when `a` may be placed before `b`.
   */
  predicate NoLater(a: Cell<real>, b: Cell<real>): (r: bool)
    ensures b.Missing? ==> r
    ensures a.Missing? && b.Value? ==> !r
    ensures a.Value? && b.Value? ==> (r <==> a.d <= b.d)
  {
    match a
    case Missing => b.Missing?
    case Value(x) => b.Missing? || x <= b.d
  }

  /** `NoLater` is a total preorder, and two durations each no later than the other are equal. */
  lemma NoLaterOrder(a: Cell<real>, b: Cell<real>, c: Cell<real>)
    ensures NoLater(a, a)
    ensures NoLater(a, b) || NoLater(b, a)
    ensures NoLater(a, b) && NoLater(b, c) ==> NoLater(a, c)
    ensures NoLater(a, b) && NoLater(b, a) ==> a == b
  {
  }

  /**
   * `isin`: the rows whose destination is eligible, in their original order
   * and with their multiplicity; every other row is dropped.
   */
  function Eligible(rows: seq<Row<real>>, eligible: set<string>): (r: seq<Row<real>>)
    ensures |r| <= |rows|
    ensures forall k :: 0 <= k < |r| ==> r[k].to in eligible
  {
    if rows == [] then []
    else (if rows[0].to in eligible then [rows[0]] else []) + Eligible(rows[1..], eligible)
  }

  /** The filter keeps every eligible row as often as it occurs, and nothing else. */
  lemma {:induction false} EligibleCounts(rows: seq<Row<real>>, eligible: set<string>)
    ensures forall x :: multiset(Eligible(rows, eligible))[x] == if x.to in eligible then multiset(rows)[x] else 0
  {
    if rows != [] {
      EligibleCounts(rows[1..], eligible);
      assert rows == [rows[0]] + rows[1..];
    }
  }

  /** Every row is no later than every row after it. */
  ghost predicate SortedByDuration(s: seq<Row<real>>) {
    forall a, b :: 0 <= a < b < |s| ==> NoLater(s[a].durations, s[b].durations)
  }

  /** Inserts `x` before the first row it may precede. */
  function Insert(x: Row<real>, s: seq<Row<real>>): (r: seq<Row<real>>)
    requires SortedByDuration(s)
    ensures SortedByDuration(r)
    ensures multiset(r) == multiset(s) + multiset{x}
    ensures forall k :: 0 <= k < |r| ==> r[k] == x || r[k] in s
  {
    if s == [] then [x]
    else if NoLater(x.durations, s[0].durations) then
      SortedLowerBound(x, s);
      PrependSorted(x, s);
      [x] + s
    else
      var t := Insert(x, s[1..]);
      InsertedLowerBound(x, s, t);
      PrependSorted(s[0], t);
      assert s == [s[0]] + s[1..];
      [s[0]] + t
  }

  /** A row no later than the head of a sorted table is no later than any of its rows. */
  lemma SortedLowerBound(x: Row<real>, s: seq<Row<real>>)
    requires SortedByDuration(s) && s != []
    requires NoLater(x.durations, s[0].durations)
    ensures forall k :: 0 <= k < |s| ==> NoLater(x.durations, s[k].durations)
  {
    forall k | 0 <= k < |s| ensures NoLater(x.durations, s[k].durations) {
      NoLaterOrder(x.durations, s[0].durations, s[k].durations);
    }
  }

  /** The head of a sorted table is no later than any row of its tail with a later row inserted. */
  lemma InsertedLowerBound(x: Row<real>, s: seq<Row<real>>, t: seq<Row<real>>)
    requires SortedByDuration(s) && s != []
    requires !NoLater(x.durations, s[0].durations)
    requires forall k :: 0 <= k < |t| ==> t[k] == x || t[k] in s[1..]
    ensures forall k :: 0 <= k < |t| ==> NoLater(s[0].durations, t[k].durations)
  {
    forall k | 0 <= k < |t| ensures NoLater(s[0].durations, t[k].durations) {
      NoLaterOrder(x.durations, s[0].durations, s[0].durations);
      if t[k] != x {
        var j :| 0 <= j < |s[1..]| && s[1..][j] == t[k];
        assert s[j + 1] == t[k];
      }
    }
  }

  /** A row no later than every row of a sorted table may be put in front of it. */
  lemma PrependSorted(h: Row<real>, t: seq<Row<real>>)
    requires SortedByDuration(t)
    requires forall k :: 0 <= k < |t| ==> NoLater(h.durations, t[k].durations)
    ensures SortedByDuration([h] + t)
  {
  }

  /** The table sorted by duration; among equal durations the earlier row stays first. */
  function SortByDuration(s: seq<Row<real>>): (r: seq<Row<real>>)
    ensures SortedByDuration(r)
    ensures multiset(r) == multiset(s)
  {
    if s == [] then []
    else
      assert s == [s[0]] + s[1..];
      Insert(s[0], SortByDuration(s[1..]))
  }

  /** Row `row` is the first row of origin `o` in `s`. */
  ghost predicate HeadOfGroup(s: seq<Row<real>>, o: string, row: Row<real>) {
    exists k :: 0 <= k < |s| && s[k] == row && row.from == o && forall k' :: 0 <= k' < k ==> s[k'].from != o
  }

  /** `groupby('from').apply(head, n=1)`: the first row of every origin, keyed by origin. */
  function FirstPerOrigin(s: seq<Row<real>>): (r: map<string, Row<real>>)
    ensures r.Keys == set k | 0 <= k < |s| :: s[k].from
    ensures forall o :: o in r ==> HeadOfGroup(s, o, r[o])
  {
    if s == [] then map[]
    else
      var rest := FirstPerOrigin(s[1..]);
      var r := rest[s[0].from := s[0]];
      assert r.Keys == set k | 0 <= k < |s| :: s[k].from by {
        assert forall k :: 0 < k < |s| ==> s[k].from == s[1..][k - 1].from;
        assert forall k :: 0 <= k < |s| - 1 ==> s[1..][k].from == s[k + 1].from;
      }
      assert forall o :: o in r ==> HeadOfGroup(s, o, r[o]) by {
        forall o | o in r ensures HeadOfGroup(s, o, r[o]) {
          if o == s[0].from {
            assert s[0] == r[o];
          } else {
            assert HeadOfGroup(s[1..], o, r[o]);
            var k :| 0 <= k < |s[1..]| && s[1..][k] == r[o] && r[o].from == o && forall k' :: 0 <= k' < k ==> s[1..][k'].from != o;
            assert s[k + 1] == r[o];
            forall k' | 0 <= k' < k + 1 ensures s[k'].from != o {
              if k' > 0 {
                assert s[k'] == s[1..][k' - 1];
              }
            }
          }
        }
      }
      r
  }

  /**
   * What the selector promises: exactly the origins that have an eligible
   * row are selected, and each gets one of its own eligible rows whose
   * duration is no later than that of any of its eligible rows.
   */
  ghost predicate IsNearestSelection(rows: seq<Row<real>>, eligible: set<string>, sel: map<string, Row<real>>) {
    && sel.Keys == (set r | r in rows && r.to in eligible :: r.from)
    && forall o :: o in sel ==>
        && sel[o] in rows && sel[o].from == o && sel[o].to in eligible
        && forall r :: r in rows && r.from == o && r.to in eligible ==> NoLater(sel[o].durations, r.durations)
  }

  /** A rearrangement of the eligible rows holds exactly the eligible rows. */
  lemma SortedMembers(rows: seq<Row<real>>, eligible: set<string>, sorted: seq<Row<real>>)
    requires multiset(sorted) == multiset(Eligible(rows, eligible))
    ensures forall r :: r in sorted <==> r in rows && r.to in eligible
  {
    EligibleCounts(rows, eligible);
    forall r ensures r in sorted <==> r in rows && r.to in eligible {
      assert r in sorted <==> r in multiset(sorted);
      assert r in rows <==> r in multiset(rows);
    }
  }

  /** The first row of an origin in a sorted table is no later than any row of that origin. */
  lemma HeadIsLeast(sorted: seq<Row<real>>, o: string, head: Row<real>, r: Row<real>)
    requires SortedByDuration(sorted)
    requires HeadOfGroup(sorted, o, head)
    requires r in sorted && r.from == o
    ensures NoLater(head.durations, r.durations)
  {
    var k :| 0 <= k < |sorted| && sorted[k] == head && head.from == o && forall k' :: 0 <= k' < k ==> sorted[k'].from != o;
    var k'' :| 0 <= k'' < |sorted| && sorted[k''] == r;
    NoLaterOrder(r.durations, r.durations, r.durations);
    if k'' != k {
      assert k < k'';
    }
  }

  /**
   * Whatever order the sort leaves equal durations in, taking the first row
   * of each origin from a sorted arrangement of the eligible rows is a
   * nearest selection.
   */
  lemma AnySortSelects(rows: seq<Row<real>>, eligible: set<string>, sorted: seq<Row<real>>)
    requires SortedByDuration(sorted)
    requires multiset(sorted) == multiset(Eligible(rows, eligible))
    ensures IsNearestSelection(rows, eligible, FirstPerOrigin(sorted))
  {
    var sel := FirstPerOrigin(sorted);
    SortedMembers(rows, eligible, sorted);
    var origins := set r | r in rows && r.to in eligible :: r.from;
    forall o | o in sel.Keys ensures o in origins {
      var k :| 0 <= k < |sorted| && sorted[k].from == o;
      assert sorted[k] in sorted;
    }
    forall o | o in origins ensures o in sel.Keys {
      var r :| r in rows && r.to in eligible && r.from == o;
      assert r in sorted;
      var k :| 0 <= k < |sorted| && sorted[k] == r;
    }
    forall o | o in sel
      ensures sel[o] in rows && sel[o].from == o && sel[o].to in eligible
      ensures forall r :: r in rows && r.from == o && r.to in eligible ==> NoLater(sel[o].durations, r.durations)
    {
      var k :| 0 <= k < |sorted| && sorted[k] == sel[o] && sel[o].from == o;
      assert sorted[k] in sorted;
      forall r | r in rows && r.from == o && r.to in eligible ensures NoLater(sel[o].durations, r.durations) {
        HeadIsLeast(sorted, o, sel[o], r);
      }
    }
  }

  /**
   * The selector: eligible rows, sorted by duration, first row per origin.
   * It is a nearest selection.
   */
  function Nearest(rows: seq<Row<real>>, eligible: set<string>): (sel: map<string, Row<real>>)
    ensures IsNearestSelection(rows, eligible, sel)
  {
    var sorted := SortByDuration(Eligible(rows, eligible));
    AnySortSelects(rows, eligible, sorted);
    FirstPerOrigin(sorted)
  }

  /**
   * Two nearest selections of the same rows pick the same origins and the
   * same durations; they can differ only in which of several equally near
   * destinations they keep.
   */
  lemma SelectionsAgreeUpToTies(rows: seq<Row<real>>, eligible: set<string>, s1: map<string, Row<real>>, s2: map<string, Row<real>>)
    requires IsNearestSelection(rows, eligible, s1)
    requires IsNearestSelection(rows, eligible, s2)
    ensures s1.Keys == s2.Keys
    ensures forall o :: o in s1 ==> s1[o].durations == s2[o].durations
  {
    forall o | o in s1 ensures s1[o].durations == s2[o].durations {
      NoLaterOrder(s1[o].durations, s2[o].durations, s2[o].durations);
    }
  }

  /**
   * Applied to a reshaped matrix, as the script does, every selected origin
   * and every selected destination is a zone of the list.
   */
  lemma NearestOfReshaped(durations: seq<seq<real>>, reference: seq<string>, eligible: set<string>)
    ensures var sel := Nearest(GetMatrix(durations, reference), eligible);
      forall o :: o in sel ==> o in reference && sel[o].to in reference && sel[o].to in eligible
  {
    var rows := GetMatrix(durations, reference);
    var sel := Nearest(rows, eligible);
    forall o | o in sel ensures o in reference && sel[o].to in reference {
      var k :| 0 <= k < |rows| && rows[k] == sel[o];
    }
  }

  /** The worked example: origins X and Y, eligible destinations P and Q. */
  lemma TwoOriginExample()
    ensures Nearest([Row(Value(5.0), "P", "X"), Row(Value(3.0), "Q", "X"), Row(Value(7.0), "P", "Y")], {"P", "Q"})
      == map["X" := Row(Value(3.0), "Q", "X"), "Y" := Row(Value(7.0), "P", "Y")]
  {
    var xp := Row(Value(5.0), "P", "X");
    var xq := Row(Value(3.0), "Q", "X");
    var yp := Row(Value(7.0), "P", "Y");
    ExampleAllEligible(xp, xq, yp);
    ExampleSorted(xp, xq, yp);
    ExampleFirst(xp, xq, yp);
  }

  lemma ExampleAllEligible(xp: Row<real>, xq: Row<real>, yp: Row<real>)
    requires xp == Row(Value(5.0), "P", "X") && xq == Row(Value(3.0), "Q", "X") && yp == Row(Value(7.0), "P", "Y")
    ensures Eligible([xp, xq, yp], {"P", "Q"}) == [xp, xq, yp]
  {
    var eligible := {"P", "Q"};
    assert Eligible([yp], eligible) == [yp];
    assert Eligible([xq, yp], eligible) == [xq, yp];
  }

  lemma ExampleSorted(xp: Row<real>, xq: Row<real>, yp: Row<real>)
    requires xp == Row(Value(5.0), "P", "X") && xq == Row(Value(3.0), "Q", "X") && yp == Row(Value(7.0), "P", "Y")
    ensures SortByDuration([xp, xq, yp]) == [xq, xp, yp]
  {
    ExampleSortedTail(xq, yp);
    assert [xp, xq, yp][1..] == [xq, yp];
    assert Insert(xp, [yp]) == [xp, yp];
    assert Insert(xp, [xq, yp]) == [xq, xp, yp];
  }

  lemma ExampleSortedTail(xq: Row<real>, yp: Row<real>)
    requires xq == Row(Value(3.0), "Q", "X") && yp == Row(Value(7.0), "P", "Y")
    ensures SortByDuration([xq, yp]) == [xq, yp]
  {
    assert Insert(yp, []) == [yp];
    assert SortByDuration([yp]) == [yp];
    assert Insert(xq, [yp]) == [xq, yp];
  }

  lemma ExampleFirst(xp: Row<real>, xq: Row<real>, yp: Row<real>)
    requires xp == Row(Value(5.0), "P", "X") && xq == Row(Value(3.0), "Q", "X") && yp == Row(Value(7.0), "P", "Y")
    ensures FirstPerOrigin([xq, xp, yp]) == map["X" := xq, "Y" := yp]
  {
    assert FirstPerOrigin([yp]) == map["Y" := yp];
    assert FirstPerOrigin([xp, yp]) == map["Y" := yp, "X" := xp];
  }
}
