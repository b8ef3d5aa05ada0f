/**
 * The matrix reshaper: the routing engine answers with a durations matrix,
 * row i holding the travel times from origin i to every destination, in the
 * order of the zone list the request was built from. The reshaper turns it
 * into a flat table of (durations, to, from) rows, resolving both positions
 * back to zone codes through that same list.
 *
 * The steps are the table operations of the source, one function each:
 * explode the per-origin lists (the origin position is the row index),
 * number the cells of each origin with a running count, inner-join the
 * destination position and then the origin position against the zone list,
 * and drop the positional columns.
 */
module MatrixReshape {

  /**
   * One cell of the exploded durations column: a duration, or the NaN that
   * exploding an empty list writes in its place.
   */
  datatype Cell<D> = Value(d: D) | Missing

  /** The cells one origin's list explodes into: its values, or a single NaN when the list is empty. */
  function Padded<D>(row: seq<D>): (r: seq<Cell<D>>)
    ensures |r| == if row == [] then 1 else |row|
    ensures forall j :: 0 <= j < |row| ==> r[j] == Value(row[j])
    ensures row == [] ==> r[0].Missing?
  {
    if row == [] then [Missing] else seq(|row|, j requires 0 <= j < |row| => Value(row[j]))
  }

  /** A row of the exploded column after `reset_index`: the origin position and one cell. */
  datatype Exploded<D> = Exploded(from: nat, durations: Cell<D>)

  /** A row once the destination position has been added. */
  datatype Positioned<D> = Positioned(durations: Cell<D>, from: nat, to: nat)

  /** A row after the join on the destination position. */
  datatype ToJoined<D> = ToJoined(cell: Positioned<D>, toCode: string)

  /** A row after the join on the origin position. */
  datatype BothJoined<D> = BothJoined(cell: Positioned<D>, toCode: string, fromCode: string)

  /** A row of the reshaped table. */
  datatype Row<D> = Row(durations: Cell<D>, to: string, from: string)

  function Min(a: nat, b: nat): nat {
    if a <= b then a else b
  }

  // ---------------------------------------------------------------------
  // The steps of the reshaper

  /** The cells of origin `i`, each tagged with `i`. */
  function ExplodeRow<D>(i: nat, row: seq<D>): seq<Exploded<D>> {
    var cells := Padded(row);
    seq(|cells|, j requires 0 <= j < |cells| => Exploded(i, cells[j]))
  }

  /** `explode` then `reset_index` over the origins from `i` on: one row per cell, in matrix order. */
  function ExplodeFrom<D>(m: seq<seq<D>>, i: nat): (r: seq<Exploded<D>>)
    ensures forall k :: 0 <= k < |r| ==> i <= r[k].from < |m|
    ensures forall o :: i <= o < |m| ==> HasOrigin(r, o)
    decreases |m| - i
  {
    if i >= |m| then []
    else
      var head := ExplodeRow(i, m[i]);
      var rest := ExplodeFrom(m, i + 1);
      assert (head + rest)[0] == head[0];
      assert forall o :: i < o < |m| ==> HasOrigin(head + rest, o) by {
        forall o | i < o < |m| ensures HasOrigin(head + rest, o) {
          assert HasOrigin(rest, o);
          var k :| 0 <= k < |rest| && rest[k].from == o;
          assert (head + rest)[|head| + k] == rest[k];
        }
      }
      head + rest
  }

  /** Some row of `e` has origin `o`. */
  ghost predicate HasOrigin<D>(e: seq<Exploded<D>>, o: nat) {
    exists k :: 0 <= k < |e| && e[k].from == o
  }

  function Explode<D>(m: seq<seq<D>>): seq<Exploded<D>> {
    ExplodeFrom(m, 0)
  }

  /** The origin column of an exploded table. */
  function Froms<D>(e: seq<Exploded<D>>): (r: seq<nat>)
    ensures |r| == |e|
  {
    seq(|e|, k requires 0 <= k < |e| => e[k].from)
  }

  /**
   * `groupby(key).cumcount()`: for each entry, how many earlier entries have
   * the same key.
   */
  function CumCount(keys: seq<nat>): (r: seq<nat>)
    ensures |r| == |keys|
  {
    seq(|keys|, k requires 0 <= k < |keys| => multiset(keys[..k])[keys[k]])
  }

  /** The count of an entry is at most its position, and zero exactly at the first occurrence of its key. */
  lemma CumCountFirst(keys: seq<nat>)
    ensures forall k :: 0 <= k < |keys| ==> CumCount(keys)[k] <= k
    ensures forall k :: 0 <= k < |keys| ==> (CumCount(keys)[k] == 0 <==> keys[k] !in keys[..k])
  {
    forall k | 0 <= k < |keys|
      ensures CumCount(keys)[k] <= k
      ensures CumCount(keys)[k] == 0 <==> keys[k] !in keys[..k]
    {
      assert |multiset(keys[..k])| == k;
      assert keys[k] in multiset(keys[..k]) <==> keys[k] in keys[..k];
    }
  }

  /** Adds the destination position: the running count of the cell within its origin. */
  function AddTo<D>(e: seq<Exploded<D>>): (r: seq<Positioned<D>>)
    ensures |r| == |e|
  {
    var count := CumCount(Froms(e));
    seq(|e|, k requires 0 <= k < |e| => Positioned(e[k].durations, e[k].from, count[k]))
  }

  /**
   * Inner join of the destination position against the zone list's
   * positions: rows whose position has no zone are dropped, the others keep
   * their order and gain the zone code.
   */
  function JoinOnTo<D>(rows: seq<Positioned<D>>, reference: seq<string>): (r: seq<ToJoined<D>>)
    ensures |r| <= |rows|
    ensures forall k :: 0 <= k < |r| ==> r[k].cell.to < |reference| && r[k].toCode == reference[r[k].cell.to]
  {
    if rows == [] then []
    else
      var head := rows[0];
      (if head.to < |reference| then [ToJoined(head, reference[head.to])] else []) + JoinOnTo(rows[1..], reference)
  }

  /** Inner join of the origin position against the zone list's positions, likewise. */
  function JoinOnFrom<D>(rows: seq<ToJoined<D>>, reference: seq<string>): (r: seq<BothJoined<D>>)
    ensures |r| <= |rows|
    ensures forall k :: 0 <= k < |r| ==> r[k].cell.from < |reference| && r[k].fromCode == reference[r[k].cell.from]
    ensures forall k :: 0 <= k < |r| ==> exists k' :: 0 <= k' < |rows| && rows[k'].cell == r[k].cell && rows[k'].toCode == r[k].toCode
  {
    if rows == [] then []
    else
      var head := rows[0];
      var rest := JoinOnFrom(rows[1..], reference);
      assert forall k :: 0 <= k < |rest| ==> exists k' :: 0 <= k' < |rows| && rows[k'].cell == rest[k].cell && rows[k'].toCode == rest[k].toCode by {
        forall k | 0 <= k < |rest| ensures exists k' :: 0 <= k' < |rows| && rows[k'].cell == rest[k].cell && rows[k'].toCode == rest[k].toCode {
          var k' :| 0 <= k' < |rows[1..]| && rows[1..][k'].cell == rest[k].cell && rows[1..][k'].toCode == rest[k].toCode;
          assert rows[k' + 1] == rows[1..][k'];
        }
      }
      (if head.cell.from < |reference| then [BothJoined(head.cell, head.toCode, reference[head.cell.from])] else []) + rest
  }

  /** Drops the positional columns and names the two codes `to` and `from`. */
  function DropPositions<D>(rows: seq<BothJoined<D>>): (r: seq<Row<D>>)
    ensures |r| == |rows|
  {
    seq(|rows|, k requires 0 <= k < |rows| => Row(rows[k].cell.durations, rows[k].toCode, rows[k].fromCode))
  }

  /** The two joins and the final projection. */
  function Resolve<D>(rows: seq<Positioned<D>>, reference: seq<string>): seq<Row<D>> {
    DropPositions(JoinOnFrom(JoinOnTo(rows, reference), reference))
  }

  /**
   * The reshaper. Every output row names two zones of the list; at most one
   * row per (origin, destination) pair of the list survives.
   */
  function GetMatrix<D>(durations: seq<seq<D>>, reference: seq<string>): (r: seq<Row<D>>)
    ensures r == Expected(durations, reference)
    ensures forall k :: 0 <= k < |r| ==> r[k].to in reference && r[k].from in reference
    ensures |r| <= |reference| * |reference|
  {
    var joined := JoinOnFrom(JoinOnTo(AddTo(Explode(durations)), reference), reference);
    ReshapeIsComprehension(durations, reference);
    ExpectedBound(durations, reference);
    assert forall k :: 0 <= k < |joined| ==> joined[k].toCode in reference && joined[k].fromCode in reference by {
      forall k | 0 <= k < |joined| ensures joined[k].toCode in reference && joined[k].fromCode in reference {
        var half := JoinOnTo(AddTo(Explode(durations)), reference);
        var k' :| 0 <= k' < |half| && half[k'].cell == joined[k].cell && half[k'].toCode == joined[k].toCode;
      }
    }
    DropPositions(joined)
  }

  // ---------------------------------------------------------------------
  // The reference definition: one row per cell (i, j) of the exploded
  // matrix with both i and j positions of the zone list, in matrix order.

  /** The rows origin `i` contributes: none when `i` has no zone, else its first `|reference|` cells. */
  function ExpectedRow<D>(cells: seq<Cell<D>>, i: nat, reference: seq<string>): (r: seq<Row<D>>)
    ensures |r| == if i < |reference| then Min(|cells|, |reference|) else 0
  {
    if i < |reference| then
      seq(Min(|cells|, |reference|), j requires 0 <= j < Min(|cells|, |reference|) => Row(cells[j], reference[j], reference[i]))
    else []
  }

  function ExpectedFrom<D>(m: seq<seq<D>>, reference: seq<string>, i: nat): seq<Row<D>>
    decreases |m| - i
  {
    if i >= |m| then [] else ExpectedRow(Padded(m[i]), i, reference) + ExpectedFrom(m, reference, i + 1)
  }

  function Expected<D>(m: seq<seq<D>>, reference: seq<string>): seq<Row<D>> {
    ExpectedFrom(m, reference, 0)
  }

  /** Row `r` is what cell (i, j) of the exploded matrix resolves to. */
  ghost predicate Resolves<D>(m: seq<seq<D>>, reference: seq<string>, i: nat, j: nat, r: Row<D>) {
    && i < |m| && i < |reference|
    && j < |Padded(m[i])| && j < |reference|
    && r == Row(Padded(m[i])[j], reference[j], reference[i])
  }

  // ---------------------------------------------------------------------
  // The running count restarts for each origin

  lemma {:induction false} CountAllEqual(s: seq<nat>, x: nat)
    requires forall k :: 0 <= k < |s| ==> s[k] == x
    ensures multiset(s)[x] == |s|
  {
    if s != [] {
      assert s == s[..|s| - 1] + [s[|s| - 1]];
      CountAllEqual(s[..|s| - 1], x);
    }
  }

  lemma {:induction false} CountNoneEqual(s: seq<nat>, x: nat)
    requires forall k :: 0 <= k < |s| ==> s[k] != x
    ensures multiset(s)[x] == 0
  {
    if s != [] {
      assert s == s[..|s| - 1] + [s[|s| - 1]];
      CountNoneEqual(s[..|s| - 1], x);
    }
  }

  /**
   * On keys that start with a block of `b` equal keys, none of which occurs
   * later, the running count numbers the block 0, 1, ..., b - 1 and then
   * runs on the rest as if the block were not there.
   */
  lemma CumCountBlock(keys: seq<nat>, b: nat, x: nat)
    requires b <= |keys|
    requires forall k :: 0 <= k < b ==> keys[k] == x
    requires forall k :: b <= k < |keys| ==> keys[k] != x
    ensures CumCount(keys) == seq(b, k requires 0 <= k < b => k) + CumCount(keys[b..])
  {
    var lhs := CumCount(keys);
    var rhs := seq(b, k requires 0 <= k < b => k) + CumCount(keys[b..]);
    forall k | 0 <= k < |keys| ensures lhs[k] == rhs[k] {
      if k < b {
        CountAllEqual(keys[..k], x);
      } else {
        var rest := keys[b..];
        assert keys[..k] == keys[..b] + rest[..k - b];
        CountNoneEqual(keys[..b], keys[k]);
        assert keys[k] == rest[k - b];
      }
    }
  }

  /** The exploded cells of origin `i` numbered by position within the origin. */
  function PositionedRow<D>(i: nat, cells: seq<Cell<D>>): seq<Positioned<D>> {
    seq(|cells|, j requires 0 <= j < |cells| => Positioned(cells[j], i, j))
  }

  function PositionedFrom<D>(m: seq<seq<D>>, i: nat): seq<Positioned<D>>
    decreases |m| - i
  {
    if i >= |m| then [] else PositionedRow(i, Padded(m[i])) + PositionedFrom(m, i + 1)
  }

  /** Numbering a block of one origin followed by rows of other origins. */
  lemma AddToBlock<D>(block: seq<Exploded<D>>, rest: seq<Exploded<D>>, i: nat)
    requires forall k :: 0 <= k < |block| ==> block[k].from == i
    requires forall k :: 0 <= k < |rest| ==> rest[k].from != i
    ensures AddTo(block + rest) == seq(|block|, k requires 0 <= k < |block| => Positioned(block[k].durations, i, k)) + AddTo(rest)
  {
    var e := block + rest;
    var keys := Froms(e);
    assert keys[|block|..] == Froms(rest);
    CumCountBlock(keys, |block|, i);
  }

  /** The destination position is the cell's index within its origin's list. */
  lemma {:induction false} AddToExplode<D>(m: seq<seq<D>>, i: nat)
    ensures AddTo(ExplodeFrom(m, i)) == PositionedFrom(m, i)
    decreases |m| - i
  {
    if i < |m| {
      var block := ExplodeRow(i, m[i]);
      var rest := ExplodeFrom(m, i + 1);
      AddToBlock(block, rest, i);
      AddToExplode(m, i + 1);
      assert seq(|block|, k requires 0 <= k < |block| => Positioned(block[k].durations, i, k)) == PositionedRow(i, Padded(m[i]));
    }
  }

  /** The destination positions of the whole matrix, origin by origin. */
  lemma DestinationIsIndexInRow<D>(m: seq<seq<D>>)
    ensures AddTo(Explode(m)) == PositionedFrom(m, 0)
  {
    AddToExplode(m, 0);
  }

  // ---------------------------------------------------------------------
  // The joins act row by row

  lemma {:induction false} JoinOnToAppend<D>(a: seq<Positioned<D>>, b: seq<Positioned<D>>, reference: seq<string>)
    ensures JoinOnTo(a + b, reference) == JoinOnTo(a, reference) + JoinOnTo(b, reference)
  {
    if a == [] {
      assert a + b == b;
    } else {
      assert (a + b)[0] == a[0];
      assert (a + b)[1..] == a[1..] + b;
      JoinOnToAppend(a[1..], b, reference);
    }
  }

  lemma {:induction false} JoinOnFromAppend<D>(a: seq<ToJoined<D>>, b: seq<ToJoined<D>>, reference: seq<string>)
    ensures JoinOnFrom(a + b, reference) == JoinOnFrom(a, reference) + JoinOnFrom(b, reference)
  {
    if a == [] {
      assert a + b == b;
    } else {
      assert (a + b)[0] == a[0];
      assert (a + b)[1..] == a[1..] + b;
      JoinOnFromAppend(a[1..], b, reference);
    }
  }

  lemma ResolveAppend<D>(a: seq<Positioned<D>>, b: seq<Positioned<D>>, reference: seq<string>)
    ensures Resolve(a + b, reference) == Resolve(a, reference) + Resolve(b, reference)
  {
    JoinOnToAppend(a, b, reference);
    JoinOnFromAppend(JoinOnTo(a, reference), JoinOnTo(b, reference), reference);
    DropPositionsAppend(JoinOnFrom(JoinOnTo(a, reference), reference), JoinOnFrom(JoinOnTo(b, reference), reference));
  }

  lemma DropPositionsAppend<D>(a: seq<BothJoined<D>>, b: seq<BothJoined<D>>)
    ensures DropPositions(a + b) == DropPositions(a) + DropPositions(b)
  {
  }

  lemma {:induction false} JoinOnToKeepsAll<D>(rows: seq<Positioned<D>>, reference: seq<string>)
    requires forall k :: 0 <= k < |rows| ==> rows[k].to < |reference|
    ensures JoinOnTo(rows, reference) == seq(|rows|, k requires 0 <= k < |rows| => ToJoined(rows[k], reference[rows[k].to]))
  {
    if rows != [] {
      JoinOnToKeepsAll(rows[1..], reference);
    }
  }

  lemma {:induction false} JoinOnToDropsAll<D>(rows: seq<Positioned<D>>, reference: seq<string>)
    requires forall k :: 0 <= k < |rows| ==> rows[k].to >= |reference|
    ensures JoinOnTo(rows, reference) == []
  {
    if rows != [] {
      JoinOnToDropsAll(rows[1..], reference);
    }
  }

  lemma {:induction false} JoinOnFromKeepsAll<D>(rows: seq<ToJoined<D>>, reference: seq<string>)
    requires forall k :: 0 <= k < |rows| ==> rows[k].cell.from < |reference|
    ensures JoinOnFrom(rows, reference) == seq(|rows|, k requires 0 <= k < |rows| => BothJoined(rows[k].cell, rows[k].toCode, reference[rows[k].cell.from]))
  {
    if rows != [] {
      JoinOnFromKeepsAll(rows[1..], reference);
    }
  }

  lemma {:induction false} JoinOnFromDropsAll<D>(rows: seq<ToJoined<D>>, reference: seq<string>)
    requires forall k :: 0 <= k < |rows| ==> rows[k].cell.from >= |reference|
    ensures JoinOnFrom(rows, reference) == []
  {
    if rows != [] {
      JoinOnFromDropsAll(rows[1..], reference);
    }
  }

  /** One origin's cells resolve to that origin's expected rows. */
  lemma ResolveRow<D>(i: nat, cells: seq<Cell<D>>, reference: seq<string>)
    ensures Resolve(PositionedRow(i, cells), reference) == ExpectedRow(cells, i, reference)
  {
    var rows := PositionedRow(i, cells);
    var n := Min(|cells|, |reference|);
    assert rows == rows[..n] + rows[n..];
    JoinOnToAppend(rows[..n], rows[n..], reference);
    JoinOnToKeepsAll(rows[..n], reference);
    JoinOnToDropsAll(rows[n..], reference);
    var half := JoinOnTo(rows, reference);
    assert half == JoinOnTo(rows[..n], reference);
    if i < |reference| {
      JoinOnFromKeepsAll(half, reference);
    } else {
      JoinOnFromDropsAll(half, reference);
    }
  }

  lemma {:induction false} ResolvePositionedFrom<D>(m: seq<seq<D>>, reference: seq<string>, i: nat)
    ensures Resolve(PositionedFrom(m, i), reference) == ExpectedFrom(m, reference, i)
    decreases |m| - i
  {
    if i < |m| {
      ResolveAppend(PositionedRow(i, Padded(m[i])), PositionedFrom(m, i + 1), reference);
      ResolveRow(i, Padded(m[i]), reference);
      ResolvePositionedFrom(m, reference, i + 1);
    }
  }

  /**
   * The reshaper is the comprehension over cells: for each origin i and
   * destination j of the exploded matrix, in matrix order, the row
   * (m[i][j], reference[j], reference[i]) when both i and j are positions
   * of the zone list, and nothing otherwise.
   */
  lemma ReshapeIsComprehension<D>(durations: seq<seq<D>>, reference: seq<string>)
    ensures DropPositions(JoinOnFrom(JoinOnTo(AddTo(Explode(durations)), reference), reference)) == Expected(durations, reference)
  {
    DestinationIsIndexInRow(durations);
    ResolvePositionedFrom(durations, reference, 0);
  }

  // ---------------------------------------------------------------------
  // Properties of the comprehension

  lemma {:induction false} ExpectedFromPastReference<D>(m: seq<seq<D>>, reference: seq<string>, i: nat)
    requires i >= |reference|
    ensures ExpectedFrom(m, reference, i) == []
    decreases |m| - i
  {
    if i < |m| {
      ExpectedFromPastReference(m, reference, i + 1);
    }
  }

  /** `count` blocks of `n` rows, counted without multiplication so that the inductive proofs stay linear. */
  function Blocks(count: nat, n: nat): nat {
    if count == 0 then 0 else n + Blocks(count - 1, n)
  }

  lemma {:induction false} BlocksIsProduct(count: nat, n: nat)
    ensures Blocks(count, n) == count * n
  {
    if count > 0 {
      BlocksIsProduct(count - 1, n);
    }
  }

  lemma {:induction false} ExpectedFromBound<D>(m: seq<seq<D>>, reference: seq<string>, i: nat)
    requires i <= |reference|
    ensures |ExpectedFrom(m, reference, i)| <= Blocks(|reference| - i, |reference|)
    decreases |m| - i
  {
    if i < |m| {
      if i < |reference| {
        ExpectedFromBound(m, reference, i + 1);
      } else {
        ExpectedFromPastReference(m, reference, i);
      }
    }
  }

  /** No more rows than pairs of zones. */
  lemma ExpectedBound<D>(m: seq<seq<D>>, reference: seq<string>)
    ensures |Expected(m, reference)| <= |reference| * |reference|
  {
    ExpectedFromBound(m, reference, 0);
    BlocksIsProduct(|reference|, |reference|);
  }

  /** Row `r` is what some cell of origin `lo` or later resolves to. */
  ghost predicate FromOriginAtLeast<D>(m: seq<seq<D>>, reference: seq<string>, lo: nat, r: Row<D>) {
    exists i: nat, j: nat :: lo <= i && Resolves(m, reference, i, j, r)
  }

  /** Row `r` is what some cell of the exploded matrix resolves to. */
  ghost predicate FromSomeCell<D>(m: seq<seq<D>>, reference: seq<string>, r: Row<D>) {
    exists i: nat, j: nat :: Resolves(m, reference, i, j, r)
  }

  lemma {:induction false} ExpectedFromSound<D>(m: seq<seq<D>>, reference: seq<string>, i: nat)
    ensures forall k :: 0 <= k < |ExpectedFrom(m, reference, i)| ==> FromOriginAtLeast(m, reference, i, ExpectedFrom(m, reference, i)[k])
    decreases |m| - i
  {
    if i < |m| {
      var head := ExpectedRow(Padded(m[i]), i, reference);
      var rest := ExpectedFrom(m, reference, i + 1);
      ExpectedFromSound(m, reference, i + 1);
      var all := ExpectedFrom(m, reference, i);
      assert all == head + rest;
      forall k | 0 <= k < |all| ensures FromOriginAtLeast(m, reference, i, all[k]) {
        if k < |head| {
          assert all[k] == head[k];
          assert Resolves(m, reference, i, k, all[k]);
        } else {
          assert all[k] == rest[k - |head|];
          assert FromOriginAtLeast(m, reference, i + 1, rest[k - |head|]);
          var i': nat, j: nat :| i + 1 <= i' && Resolves(m, reference, i', j, rest[k - |head|]);
          assert Resolves(m, reference, i', j, all[k]);
        }
      }
    }
  }

  /** Every row comes from one cell whose origin and destination positions both name a zone. */
  lemma ExpectedSound<D>(m: seq<seq<D>>, reference: seq<string>)
    ensures forall k :: 0 <= k < |Expected(m, reference)| ==> FromSomeCell(m, reference, Expected(m, reference)[k])
  {
    var all := Expected(m, reference);
    ExpectedFromSound(m, reference, 0);
    forall k | 0 <= k < |all| ensures FromSomeCell(m, reference, all[k]) {
      assert FromOriginAtLeast(m, reference, 0, all[k]);
      var i: nat, j: nat :| Resolves(m, reference, i, j, all[k]);
    }
  }

  lemma {:induction false} ExpectedFromComplete<D>(m: seq<seq<D>>, reference: seq<string>, i: nat, i': nat, j: nat)
    requires i <= i' < |m| && i' < |reference|
    requires j < |Padded(m[i'])| && j < |reference|
    ensures ResolvedAmong(ExpectedFrom(m, reference, i), m, reference, i', j)
    decreases |m| - i
  {
    var head := ExpectedRow(Padded(m[i]), i, reference);
    var rest := ExpectedFrom(m, reference, i + 1);
    var all := ExpectedFrom(m, reference, i);
    assert all == head + rest;
    if i == i' {
      assert all[j] == head[j];
      assert Resolves(m, reference, i', j, all[j]);
    } else {
      ExpectedFromComplete(m, reference, i + 1, i', j);
      var k :| 0 <= k < |rest| && Resolves(m, reference, i', j, rest[k]);
      assert all[|head| + k] == rest[k];
      assert Resolves(m, reference, i', j, all[|head| + k]);
    }
  }

  /** Some row of `rows` is what cell (i, j) resolves to. */
  ghost predicate ResolvedAmong<D>(rows: seq<Row<D>>, m: seq<seq<D>>, reference: seq<string>, i: nat, j: nat) {
    exists k :: 0 <= k < |rows| && Resolves(m, reference, i, j, rows[k])
  }

  /** Every cell whose origin and destination positions both name a zone gives a row. */
  lemma ExpectedComplete<D>(m: seq<seq<D>>, reference: seq<string>, i: nat, j: nat)
    requires i < |m| && i < |reference|
    requires j < |Padded(m[i])| && j < |reference|
    ensures exists k :: 0 <= k < |Expected(m, reference)| && Resolves(m, reference, i, j, Expected(m, reference)[k])
  {
    ExpectedFromComplete(m, reference, 0, i, j);
    var k :| 0 <= k < |ExpectedFrom(m, reference, 0)| && Resolves(m, reference, i, j, ExpectedFrom(m, reference, 0)[k]);
    assert Resolves(m, reference, i, j, Expected(m, reference)[k]);
  }

  lemma {:induction false} ExpectedFromRectangularLength<D>(m: seq<seq<D>>, reference: seq<string>, i: nat)
    requires |m| <= |reference|
    requires forall r :: 0 <= r < |m| ==> |m[r]| == |reference|
    requires i <= |m|
    ensures |ExpectedFrom(m, reference, i)| == Blocks(|m| - i, |reference|)
    decreases |m| - i
  {
    if i < |m| {
      ExpectedFromRectangularLength(m, reference, i + 1);
    }
  }

  lemma {:induction false} ExpectedFromRectangular<D>(m: seq<seq<D>>, reference: seq<string>, i: nat, r: nat, c: nat)
    requires |m| <= |reference|
    requires forall r :: 0 <= r < |m| ==> |m[r]| == |reference|
    requires i <= r < |m| && c < |reference|
    ensures Blocks(r - i, |reference|) + c < |ExpectedFrom(m, reference, i)|
    ensures ExpectedFrom(m, reference, i)[Blocks(r - i, |reference|) + c] == Row(Value(m[r][c]), reference[c], reference[r])
    decreases |m| - i
  {
    var n := |reference|;
    var head := ExpectedRow(Padded(m[i]), i, reference);
    var rest := ExpectedFrom(m, reference, i + 1);
    var all := ExpectedFrom(m, reference, i);
    assert all == head + rest;
    assert |head| == n;
    if r == i {
      assert all[c] == head[c];
    } else {
      ExpectedFromRectangular(m, reference, i + 1, r, c);
      var inner := Blocks(r - (i + 1), n) + c;
      assert Blocks(r - i, n) + c == n + inner;
      assert all[n + inner] == rest[inner];
    }
  }

  /**
   * A response whose rows all have one duration per zone and that has no
   * more rows than zones keeps every cell: |m| * n rows, n * n for a square
   * matrix.
   */
  lemma ExpectedRectangularLength<D>(m: seq<seq<D>>, reference: seq<string>)
    requires |m| <= |reference|
    requires forall r :: 0 <= r < |m| ==> |m[r]| == |reference|
    ensures |Expected(m, reference)| == |m| * |reference|
  {
    ExpectedFromRectangularLength(m, reference, 0);
    BlocksIsProduct(|m|, |reference|);
  }

  /**
   * In such a response the rows come origin-major: row i * n + j of the
   * output is (m[i][j], reference[j], reference[i]).
   */
  lemma ExpectedRectangularAt<D>(m: seq<seq<D>>, reference: seq<string>, i: nat, j: nat)
    requires |m| <= |reference|
    requires forall r :: 0 <= r < |m| ==> |m[r]| == |reference|
    requires i < |m| && j < |reference|
    ensures i * |reference| + j < |Expected(m, reference)|
    ensures Expected(m, reference)[i * |reference| + j] == Row(Value(m[i][j]), reference[j], reference[i])
  {
    ExpectedFromRectangular(m, reference, 0, i, j);
    BlocksIsProduct(i, |reference|);
  }

  /** The cells (i, j) from origin `lo` on whose two positions both name a zone. */
  ghost function KeptCellsFrom<D>(m: seq<seq<D>>, n: nat, lo: nat): set<(nat, nat)> {
    set i: nat, j: nat | lo <= i < |m| && i < n && j < |Padded(m[i])| && j < n :: (i, j)
  }

  /** The cells of the exploded matrix whose two positions both name a zone. */
  ghost function KeptCells<D>(m: seq<seq<D>>, reference: seq<string>): set<(nat, nat)> {
    KeptCellsFrom(m, |reference|, 0)
  }

  /** The first `c` cells of origin `i`. */
  ghost function RowPrefix(i: nat, c: nat): set<(nat, nat)> {
    set j: nat | j < c :: (i, j)
  }

  lemma {:induction false} RowPrefixSize(i: nat, c: nat)
    ensures |RowPrefix(i, c)| == c
  {
    if c > 0 {
      RowPrefixSize(i, c - 1);
      assert RowPrefix(i, c) == RowPrefix(i, c - 1) + {(i, c - 1)};
    }
  }

  lemma {:induction false} ExpectedFromCountsKeptCells<D>(m: seq<seq<D>>, reference: seq<string>, lo: nat)
    ensures |ExpectedFrom(m, reference, lo)| == |KeptCellsFrom(m, |reference|, lo)|
    decreases |m| - lo
  {
    var n := |reference|;
    if lo >= |m| {
      assert KeptCellsFrom(m, n, lo) == {};
    } else {
      ExpectedFromCountsKeptCells(m, reference, lo + 1);
      var c := if lo < n then Min(|Padded(m[lo])|, n) else 0;
      RowPrefixSize(lo, c);
      KeptCellsSplit(m, n, lo, c);
    }
  }

  /** The kept cells from origin `lo` on are those of origin `lo` and, apart from them, those after it. */
  lemma KeptCellsSplit<D>(m: seq<seq<D>>, n: nat, lo: nat, c: nat)
    requires lo < |m|
    requires c == if lo < n then Min(|Padded(m[lo])|, n) else 0
    ensures KeptCellsFrom(m, n, lo) == RowPrefix(lo, c) + KeptCellsFrom(m, n, lo + 1)
    ensures RowPrefix(lo, c) !! KeptCellsFrom(m, n, lo + 1)
  {
  }

  /** The output has exactly one row per cell whose origin and destination positions both name a zone. */
  lemma ExpectedCountsKeptCells<D>(m: seq<seq<D>>, reference: seq<string>)
    ensures |Expected(m, reference)| == |KeptCells(m, reference)|
  {
    ExpectedFromCountsKeptCells(m, reference, 0);
  }

  /** The worked example: zones A and B and the matrix [[1, 2], [3, 4]]. */
  lemma TwoZoneExample()
    ensures GetMatrix([[1, 2], [3, 4]], ["A", "B"]) == [
      Row(Value(1), "A", "A"), Row(Value(2), "B", "A"),
      Row(Value(3), "A", "B"), Row(Value(4), "B", "B")]
  {
    var m: seq<seq<int>> := [[1, 2], [3, 4]];
    var reference := ["A", "B"];
    ReshapeIsComprehension(m, reference);
    TwoZoneExpected(m, reference);
  }

  lemma TwoZoneExpected(m: seq<seq<int>>, reference: seq<string>)
    requires m == [[1, 2], [3, 4]] && reference == ["A", "B"]
    ensures Expected(m, reference) == [
      Row(Value(1), "A", "A"), Row(Value(2), "B", "A"),
      Row(Value(3), "A", "B"), Row(Value(4), "B", "B")]
  {
    assert Padded(m[0]) == [Value(1), Value(2)];
    assert Padded(m[1]) == [Value(3), Value(4)];
    assert ExpectedFrom(m, reference, 2) == [];
    assert ExpectedFrom(m, reference, 1) == [Row(Value(3), "A", "B"), Row(Value(4), "B", "B")];
    assert ExpectedFrom(m, reference, 0) == [Row(Value(1), "A", "A"), Row(Value(2), "B", "A")] + ExpectedFrom(m, reference, 1);
  }
}
