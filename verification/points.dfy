/**
 * The point formatter: a table of zone centroids, indexed by zone code with
 * two coordinate columns, is written as the one-line point list the routing
 * engine reads: `x,y` per zone, zones separated by `;`, no header, no zone
 * code, no trailing `;`.
 *
 * The table is written with a CSV writer whose row terminator is `;`, so every
 * row, the last included, ends in `;`; the last character of the buffer is
 * then cut off.
 */
module PointFormat {

  /** A character the CSV writer would have to quote, or that the point list uses as a delimiter. */
  predicate Special(c: char) {
    c == ',' || c == ';' || c == '"' || c == '\n' || c == '\r'
  }

  /** A coordinate as the CSV writer renders it: a formatted number, so no delimiter and nothing to quote. */
  predicate Plain(s: string) {
    forall k :: 0 <= k < |s| ==> !Special(s[k])
  }

  type Coord = s: string | Plain(s) witness "0"

  /** One row of a centroid table: the zone code (the table's index) and its two coordinates. */
  datatype Centroid = Centroid(code: string, x: Coord, y: Coord)

  /** The CSV record of one row, written without its index: the only delimiter is the `,` after x. */
  function Record(c: Centroid): (r: string)
    ensures |r| == |c.x| + 1 + |c.y|
    ensures r[|c.x|] == ','
    ensures forall k :: 0 <= k < |r| && k != |c.x| ==> !Special(r[k])
  {
    var r := c.x + "," + c.y;
    assert forall k :: 0 <= k < |c.x| ==> r[k] == c.x[k];
    assert forall k :: |c.x| < k < |r| ==> r[k] == c.y[k - |c.x| - 1];
    r
  }

  /** The records of a table, in table order. */
  function Records(table: seq<Centroid>): (r: seq<string>)
    ensures |r| == |table|
    ensures forall k :: 0 <= k < |table| ==> r[k] == Record(table[k])
  {
    seq(|table|, k requires 0 <= k < |table| => Record(table[k]))
  }

  /** Number of occurrences of `c` in `s`. */
  function Count(s: string, c: char): nat {
    multiset(s)[c]
  }

  /**
   * The buffer the CSV writer produces with no header, no index and `;` as
   * row terminator: every record followed by one `;`.
   */
  function ToCsv(table: seq<Centroid>): (r: string)
    ensures table == [] <==> r == []
    ensures table != [] ==> r[|r| - 1] == ';'
  {
    if table == [] then []
    else Record(table[0]) + ";" + ToCsv(table[1..])
  }

  /** The CSV buffer holds exactly one `;` and one `,` per row. */
  lemma {:induction false} CsvDelimiterCounts(table: seq<Centroid>)
    ensures Count(ToCsv(table), ';') == |table|
    ensures Count(ToCsv(table), ',') == |table|
  {
    if table != [] {
      var c := table[0];
      PlainHasNoDelimiters(c.x);
      PlainHasNoDelimiters(c.y);
      CsvDelimiterCounts(table[1..]);
      assert multiset(ToCsv(table)) == multiset(c.x) + multiset{','} + multiset(c.y) + multiset{';'} + multiset(ToCsv(table[1..]));
    }
  }

  /** Python's `buf[:-1]`: everything but the last character, and the empty string when there is none. */
  function DropLast(s: string): (r: string)
    ensures s == [] ==> r == []
    ensures s != [] ==> |r| == |s| - 1 && s == r + [s[|s| - 1]]
  {
    if s == [] then s else s[..|s| - 1]
  }

  /**
   * The text written to the point file. An empty table gives the empty
   * text; otherwise the text neither starts nor ends with `;` and holds one
   * `;` fewer than the table has rows, and exactly one `,` per row.
   */
  function CreatePoints(table: seq<Centroid>): (r: string)
    ensures table == [] ==> r == []
    ensures table != [] ==> r != [] && r[0] != ';' && r[|r| - 1] != ';'
    ensures table != [] ==> Count(r, ';') == |table| - 1
    ensures Count(r, ',') == |table|
  {
    if table == [] then []
    else
      LastRecordChars(table);
      DroppedTerminatorCounts(table);
      DropLast(ToCsv(table))
  }

  /** Cutting the final terminator removes one `;` and no `,`. */
  lemma DroppedTerminatorCounts(table: seq<Centroid>)
    requires table != []
    ensures var r := DropLast(ToCsv(table)); Count(r, ';') == |table| - 1 && Count(r, ',') == |table|
  {
    var buf := ToCsv(table);
    CsvDelimiterCounts(table);
    assert buf == DropLast(buf) + [';'];
    assert multiset(buf) == multiset(DropLast(buf)) + multiset{';'};
  }

  /** The text starts with the first x or its `,` and ends in the last y or its `,`, never in `;`. */
  lemma {:induction false} LastRecordChars(table: seq<Centroid>)
    requires table != []
    ensures var r := DropLast(ToCsv(table)); r != [] && r[0] != ';' && r[|r| - 1] != ';'
  {
    var rec := Record(table[0]);
    RecordEnds(table[0]);
    var rest := ToCsv(table[1..]);
    var r := DropLast(ToCsv(table));
    if table[1..] == [] {
      assert r == rec;
    } else {
      LastRecordChars(table[1..]);
      var tail := DropLast(rest);
      assert rest == tail + [';'];
      assert r == rec + [';'] + tail;
      assert r[0] == rec[0];
      assert r[|r| - 1] == tail[|tail| - 1];
    }
  }

  /** A record is never empty and has `;` at neither end. */
  lemma RecordEnds(c: Centroid)
    ensures var rec := Record(c); rec != [] && rec[0] != ';' && rec[|rec| - 1] != ';'
  {
    var rec := Record(c);
    assert rec[|c.x|] == ',';
    if |c.x| > 0 {
      assert rec[0] == c.x[0];
      assert !Special(c.x[0]);
    }
    if |c.y| > 0 {
      assert rec[|rec| - 1] == c.y[|c.y| - 1];
      assert !Special(c.y[|c.y| - 1]);
    }
  }

  /** Reference definition of joining fields with a separator: no separator before the first or after the last. */
  function Join(fields: seq<string>, sep: char): string {
    if fields == [] then []
    else if |fields| == 1 then fields[0]
    else fields[0] + [sep] + Join(fields[1..], sep)
  }

  /** Python's `str.split(sep)`: the pieces between occurrences of `sep`; always at least one piece. */
  function Split(s: string, sep: char): (r: seq<string>)
    ensures |r| > 0
  {
    if s == [] then [[]]
    else
      var rest := Split(s[1..], sep);
      assert s == [s[0]] + s[1..];
      if s[0] == sep then [[]] + rest
      else [[s[0]] + rest[0]] + rest[1..]
  }

  /** Splitting at one separator splits both sides independently. */
  lemma {:induction false} SplitAround(a: string, b: string, sep: char)
    ensures Split(a + [sep] + b, sep) == Split(a, sep) + Split(b, sep)
  {
    if a == [] {
      assert (a + [sep] + b)[1..] == b;
    } else {
      assert (a + [sep] + b)[1..] == a[1..] + [sep] + b;
      SplitAround(a[1..], b, sep);
    }
  }

  /** A string without the separator is a single piece. */
  lemma {:induction false} SplitWithout(s: string, sep: char)
    requires Count(s, sep) == 0
    ensures Split(s, sep) == [s]
  {
    if s != [] {
      assert s == [s[0]] + s[1..];
      assert multiset(s) == multiset{s[0]} + multiset(s[1..]);
      SplitWithout(s[1..], sep);
    }
  }

  /** Splitting a join of separator-free fields recovers the fields. */
  lemma {:induction false} SplitJoin(fields: seq<string>, sep: char)
    requires fields != []
    requires forall k :: 0 <= k < |fields| ==> Count(fields[k], sep) == 0
    ensures Split(Join(fields, sep), sep) == fields
  {
    if |fields| == 1 {
      SplitWithout(fields[0], sep);
    } else {
      SplitWithout(fields[0], sep);
      SplitJoin(fields[1..], sep);
      SplitAround(fields[0], Join(fields[1..], sep), sep);
      assert [fields[0]] + fields[1..] == fields;
    }
  }

  /** The CSV buffer of a non-empty table is the joined records plus the final terminator. */
  lemma {:induction false} ToCsvIsJoinPlusTerminator(table: seq<Centroid>)
    requires table != []
    ensures ToCsv(table) == Join(Records(table), ';') + ";"
  {
    var recs := Records(table);
    assert ToCsv(table) == recs[0] + ";" + ToCsv(table[1..]);
    if |table| == 1 {
      assert Join(recs, ';') == recs[0];
    } else {
      ToCsvIsJoinPlusTerminator(table[1..]);
      assert recs[1..] == Records(table[1..]);
      assert Join(recs, ';') == recs[0] + [';'] + Join(recs[1..], ';');
    }
  }

  /** The point text is the records, in table order, joined by `;`. */
  lemma PointsAreJoinedRecords(table: seq<Centroid>)
    ensures CreatePoints(table) == Join(Records(table), ';')
  {
    if table != [] {
      ToCsvIsJoinPlusTerminator(table);
    }
  }

  /** A string none of whose characters is `c` holds no `c`. */
  lemma {:induction false} NoOccurrence(s: string, c: char)
    requires forall k :: 0 <= k < |s| ==> s[k] != c
    ensures Count(s, c) == 0
  {
    if s != [] {
      assert s == [s[0]] + s[1..];
      NoOccurrence(s[1..], c);
    }
  }

  /** A plain coordinate holds neither delimiter. */
  lemma PlainHasNoDelimiters(s: Coord)
    ensures Count(s, ';') == 0 && Count(s, ',') == 0
  {
    NoOccurrence(s, ';');
    NoOccurrence(s, ',');
  }

  /** A record holds no `;` and splits on `,` into exactly its two coordinates. */
  lemma RecordFields(c: Centroid)
    ensures Count(Record(c), ';') == 0
    ensures Split(Record(c), ',') == [c.x, c.y]
  {
    PlainHasNoDelimiters(c.x);
    PlainHasNoDelimiters(c.y);
    assert multiset(Record(c)) == multiset(c.x) + multiset{','} + multiset(c.y);
    SplitAround(c.x, c.y, ',');
    SplitWithout(c.x, ',');
    SplitWithout(c.y, ',');
  }

  /**
   * Reading the point text back: for a non-empty table, splitting on `;`
   * gives one field per row, in table order, and each field splits on `,`
   * into that row's x and y.
   */
  lemma SplitPoints(table: seq<Centroid>)
    requires table != []
    ensures var fields := Split(CreatePoints(table), ';');
      && |fields| == |table|
      && forall k :: 0 <= k < |table| ==> fields[k] == Record(table[k]) && Split(fields[k], ',') == [table[k].x, table[k].y]
  {
    var recs := Records(table);
    forall k | 0 <= k < |recs| ensures Count(recs[k], ';') == 0 && Split(recs[k], ',') == [table[k].x, table[k].y] {
      RecordFields(table[k]);
    }
    PointsAreJoinedRecords(table);
    SplitJoin(recs, ';');
  }

  /** The zone codes are not written: tables with the same coordinates give the same text. */
  lemma {:induction false} CodesNotWritten(a: seq<Centroid>, b: seq<Centroid>)
    requires |a| == |b|
    requires forall k :: 0 <= k < |a| ==> a[k].x == b[k].x && a[k].y == b[k].y
    ensures CreatePoints(a) == CreatePoints(b)
  {
    assert ToCsv(a) == ToCsv(b) by {
      CsvIgnoresCodes(a, b);
    }
  }

  lemma {:induction false} CsvIgnoresCodes(a: seq<Centroid>, b: seq<Centroid>)
    requires |a| == |b|
    requires forall k :: 0 <= k < |a| ==> a[k].x == b[k].x && a[k].y == b[k].y
    ensures ToCsv(a) == ToCsv(b)
  {
    if a != [] {
      CsvIgnoresCodes(a[1..], b[1..]);
    }
  }
}
