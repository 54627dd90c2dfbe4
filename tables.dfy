/**
 * The DataFrames the scraper builds: a table is a sequence of rows, each
 * labelled by its index (the player's name) and holding cells by column name.
 * A column a row does not have reads as a missing value (NaN).
 */
module Tables {
  import opened Wrappers

  /** One cell: text as scraped, a number after normalisation, or missing (NaN). */
  datatype Cell = Text(s: string) | Number(n: int) | Missing

  type Row = map<string, Cell>

  /** A DataFrame row: its index label and its cells. */
  datatype Entry = Entry(name: string, row: Row)

  type Table = seq<Entry>

  /** `df.loc[label, column]` for one row: a column the row lacks is missing. */
  function Lookup(r: Row, c: string): Cell {
    if c in r then r[c] else Missing
  }

  /** The DataFrame's columns: every column some row has. */
  function Columns(t: Table): (cs: set<string>)
    ensures forall i :: 0 <= i < |t| ==> t[i].row.Keys <= cs
  {
    if t == [] then {}
    else
      var rest := Columns(t[1..]);
      assert forall i :: 1 <= i < |t| ==> t[i] == t[1..][i - 1];
      t[0].row.Keys + rest
  }

  /** A column of the frame is a column of one of its rows. */
  lemma {:induction false} ColumnsFromRows(t: Table, c: string)
    requires c in Columns(t)
    ensures exists i :: 0 <= i < |t| && c in t[i].row
    decreases |t|
  {
    if c !in t[0].row {
      ColumnsFromRows(t[1..], c);
      var i :| 0 <= i < |t[1..]| && c in t[1..][i].row;
      assert t[i + 1] == t[1..][i];
    }
  }

  predicate HasName(t: Table, name: string) {
    exists i :: 0 <= i < |t| && t[i].name == name
  }

  /** No index label occurs twice. */
  predicate UniqueNames(t: Table) {
    forall i, j :: 0 <= i < j < |t| ==> t[i].name != t[j].name
  }

  /** `df[c].values`: one cell per row, missing where the row lacks `c`. */
  function Column(t: Table, c: string): seq<Cell>
  {
    seq(|t|, i requires 0 <= i < |t| => Lookup(t[i].row, c))
  }

  /** `df[c] = vals`: every row gets its new cell, nothing else changes. */
  function SetColumn(t: Table, c: string, vals: seq<Cell>): (r: Table)
    requires |vals| == |t|
    ensures |r| == |t|
    ensures forall i :: 0 <= i < |t| ==> r[i].name == t[i].name && Lookup(r[i].row, c) == vals[i]
    ensures forall i, d :: 0 <= i < |t| && d != c ==> Lookup(r[i].row, d) == Lookup(t[i].row, d)
  {
    seq(|t|, i requires 0 <= i < |t| => Entry(t[i].name, t[i].row[c := vals[i]]))
  }

  /** Assigning a column adds it to the frame's columns (when there is a row to hold it) and changes no other. */
  lemma {:induction false} ColumnsOfSetColumn(t: Table, c: string, vals: seq<Cell>)
    requires |vals| == |t|
    ensures Columns(SetColumn(t, c, vals)) == Columns(t) + (if t == [] then {} else {c})
    decreases |t|
  {
    if t != [] {
      var r := SetColumn(t, c, vals);
      assert r[1..] == SetColumn(t[1..], c, vals[1..]);
      ColumnsOfSetColumn(t[1..], c, vals[1..]);
      assert r[0].row.Keys == t[0].row.Keys + {c};
    }
  }

  // ---------------------------------------------------------------- DataFrame.join

  /** The right rows carrying label `name`, in order. */
  function Matches(name: string, right: Table): seq<Row>
  {
    if right == [] then []
    else (if right[0].name == name then [right[0].row] else []) + Matches(name, right[1..])
  }

  /** One right row is a match exactly when it carries the label. */
  lemma MatchesOne(name: string, e: Entry)
    ensures Matches(name, [e]) == if e.name == name then [e.row] else []
  {
    assert [e][1..] == [];
  }

  /** Matches over two stretches of the right frame follow one another: none is dropped or reordered. */
  lemma {:induction false} MatchesAppend(name: string, a: Table, b: Table)
    ensures Matches(name, a + b) == Matches(name, a) + Matches(name, b)
    decreases |a|
  {
    if a == [] {
      assert a + b == b;
    } else {
      var h := if a[0].name == name then [a[0].row] else [];
      assert (a + b)[0] == a[0];
      assert (a + b)[1..] == a[1..] + b;
      MatchesAppend(name, a[1..], b);
      assert Matches(name, a + b) == h + (Matches(name, a[1..]) + Matches(name, b));
      assert Matches(name, a) == h + Matches(name, a[1..]);
    }
  }

  /**
   * Every right row carrying the label is a match, at the position given by
   * the matches before it: the right frame's order is kept.
   */
  lemma MatchesCoverRight(name: string, right: Table, j: int)
    requires 0 <= j < |right| && right[j].name == name
    ensures |Matches(name, right[..j])| < |Matches(name, right)|
    ensures Matches(name, right)[|Matches(name, right[..j])|] == right[j].row
  {
    assert right == right[..j] + ([right[j]] + right[j + 1..]);
    MatchesAppend(name, right[..j], [right[j]] + right[j + 1..]);
    MatchesAppend(name, [right[j]], right[j + 1..]);
    MatchesOne(name, right[j]);
  }

  /** A label has no match exactly when the right frame lacks it. */
  lemma {:induction false} MatchesEmpty(name: string, right: Table)
    ensures |Matches(name, right)| == 0 <==> !HasName(right, name)
    decreases |right|
  {
    if right != [] {
      MatchesEmpty(name, right[1..]);
      if HasName(right[1..], name) {
        var j :| 0 <= j < |right[1..]| && right[1..][j].name == name;
        assert right[j + 1].name == name;
      }
      if HasName(right, name) && right[0].name != name {
        var j :| 0 <= j < |right| && right[j].name == name;
        assert right[1..][j - 1] == right[j];
      }
    }
  }

  /** The matches are exactly the rows of the right entries carrying the label. */
  lemma {:induction false} MatchesFromRight(name: string, right: Table)
    ensures forall r :: r in Matches(name, right) ==>
              exists j :: 0 <= j < |right| && right[j].name == name && right[j].row == r
    ensures forall j :: 0 <= j < |right| && right[j].name == name ==> right[j].row in Matches(name, right)
    decreases |right|
  {
    forall j | 0 <= j < |right| && right[j].name == name
      ensures right[j].row in Matches(name, right)
    {
      MatchesCoverRight(name, right, j);
    }
    if right != [] {
      var rest := Matches(name, right[1..]);
      MatchesFromRight(name, right[1..]);
      forall r | r in Matches(name, right)
        ensures exists j :: 0 <= j < |right| && right[j].name == name && right[j].row == r
      {
        if r !in rest {
          assert right[0].name == name && right[0].row == r;
        } else {
          var j :| 0 <= j < |right[1..]| && right[1..][j].name == name && right[1..][j].row == r;
          assert right[j + 1] == right[1..][j];
        }
      }
    }
  }

  /** One left row joined with its matches: kept alone when there is none, repeated once per match otherwise. */
  function JoinEntry(e: Entry, ms: seq<Row>): Table
  {
    if |ms| == 0 then [e] else seq(|ms|, k requires 0 <= k < |ms| => Entry(e.name, e.row + ms[k]))
  }

  function JoinRows(left: Table, right: Table): Table
  {
    if left == [] then [] else JoinEntry(left[0], Matches(left[0].name, right)) + JoinRows(left[1..], right)
  }

  /**
   * `left.join(right)`: a left join on the index. pandas refuses it when the
   * two frames share a column name (no suffixes are given).
   */
  function LeftJoin(left: Table, right: Table): Result<Table>
  {
    var shared := Columns(left) * Columns(right);
    if shared != {} then Err(ColumnsOverlap(shared)) else Ok(JoinRows(left, right))
  }

  /** The join fails exactly when the two frames share a column. */
  lemma LeftJoinFails(left: Table, right: Table)
    ensures LeftJoin(left, right).Err? <==> exists c :: c in Columns(left) && c in Columns(right)
  {
    if exists c :: c in Columns(left) && c in Columns(right) {
      var c :| c in Columns(left) && c in Columns(right);
      assert c in Columns(left) * Columns(right);
    }
  }

  /** The blocks of a sequence of sequences, one after the other. */
  function Concat<T>(bs: seq<seq<T>>): seq<T>
  {
    if bs == [] then [] else bs[0] + Concat(bs[1..])
  }

  lemma {:induction false} ConcatAppend<T>(a: seq<seq<T>>, b: seq<seq<T>>)
    ensures Concat(a + b) == Concat(a) + Concat(b)
    decreases |a|
  {
    if a != [] {
      assert (a + b)[1..] == a[1..] + b;
      ConcatAppend(a[1..], b);
    } else {
      assert a + b == b;
    }
  }

  /** The `m`-th element of block `i` sits after all earlier blocks. */
  lemma ConcatAt<T>(bs: seq<seq<T>>, i: int, m: int)
    requires 0 <= i < |bs| && 0 <= m < |bs[i]|
    ensures |Concat(bs[..i])| + m < |Concat(bs)|
    ensures Concat(bs)[|Concat(bs[..i])| + m] == bs[i][m]
  {
    var rest := [bs[i]] + bs[i + 1..];
    assert bs == bs[..i] + rest;
    ConcatAppend(bs[..i], rest);
    assert rest[1..] == bs[i + 1..];
  }

  /** Blocks of one element each flatten to as many elements as there are blocks. */
  lemma {:induction false} ConcatSingletons<T>(bs: seq<seq<T>>)
    requires forall k :: 0 <= k < |bs| ==> |bs[k]| == 1
    ensures |Concat(bs)| == |bs|
    decreases |bs|
  {
    if bs != [] {
      ConcatSingletons(bs[1..]);
    }
  }

  /** The rows each left row yields, in left order. */
  function Blocks(left: Table, right: Table): seq<Table>
  {
    seq(|left|, i requires 0 <= i < |left| => JoinEntry(left[i], Matches(left[i].name, right)))
  }

  /** The join is the left rows' blocks, one after the other. */
  lemma {:induction false} JoinRowsBlocks(left: Table, right: Table)
    ensures JoinRows(left, right) == Concat(Blocks(left, right))
    decreases |left|
  {
    if left != [] {
      var bs := Blocks(left, right);
      assert bs[1..] == Blocks(left[1..], right) by {
        forall k | 0 <= k < |left| - 1 ensures bs[1..][k] == Blocks(left[1..], right)[k] {
          assert left[1..][k] == left[k + 1];
        }
      }
      JoinRowsBlocks(left[1..], right);
    }
  }

  lemma JoinRowsBlocksAt(left: Table, right: Table, i: int, m: int)
    requires 0 <= i < |left| && 0 <= m < |Blocks(left, right)[i]|
    ensures |Concat(Blocks(left, right)[..i])| + m < |JoinRows(left, right)|
    ensures JoinRows(left, right)[|Concat(Blocks(left, right)[..i])| + m] == Blocks(left, right)[i][m]
  {
    ConcatAt(Blocks(left, right), i, m);
    JoinRowsBlocks(left, right);
  }

  /** Where the block of joined rows of the `i`-th left row starts in the join's output. */
  function JoinOffset(left: Table, right: Table, i: int): nat
    requires 0 <= i < |left|
  {
    |Concat(Blocks(left, right)[..i])|
  }

  /**
   * `r` is the left row `e` carried into the join: same label, all of its
   * columns, and its own cell in every column outside `others`.
   */
  predicate KeepsRow(r: Entry, e: Entry, others: set<string>) {
    && r.name == e.name
    && e.row.Keys <= r.row.Keys
    && forall c :: c in e.row && c !in others ==> r.row[c] == e.row[c]
  }

  /** Every row the left row `e` yields keeps it, except possibly in the columns of its match. */
  lemma JoinEntryKeeps(e: Entry, ms: seq<Row>, m: int)
    requires 0 <= m < |JoinEntry(e, ms)|
    ensures KeepsRow(JoinEntry(e, ms)[m], e, if ms == [] then {} else ms[m].Keys)
  {
  }

  /** A match's columns are columns of the right frame. */
  lemma MatchColumns(name: string, right: Table, m: int)
    requires 0 <= m < |Matches(name, right)|
    ensures Matches(name, right)[m].Keys <= Columns(right)
  {
    var ms := Matches(name, right);
    MatchesFromRight(name, right);
    assert ms[m] in ms;
    var j :| 0 <= j < |right| && right[j].name == name && right[j].row == ms[m];
  }

  /** The `m`-th row the `i`-th left row yields sits at that row's offset plus `m` in the join. */
  lemma JoinOffsetAt(left: Table, right: Table, i: int, m: int)
    requires 0 <= i < |left|
    requires 0 <= m < |JoinEntry(left[i], Matches(left[i].name, right))|
    ensures JoinOffset(left, right, i) + m < |JoinRows(left, right)|
    ensures JoinRows(left, right)[JoinOffset(left, right, i) + m] == JoinEntry(left[i], Matches(left[i].name, right))[m]
  {
    JoinRowsBlocksAt(left, right, i, m);
  }

  /** A matched left row yields one joined row per match, holding the left row's cells and the match's. */
  lemma JoinMatchedRows(left: Table, right: Table, i: int, k: int)
    requires 0 <= i < |left| && 0 <= k < |Matches(left[i].name, right)|
    ensures JoinOffset(left, right, i) + k < |JoinRows(left, right)|
    ensures JoinRows(left, right)[JoinOffset(left, right, i) + k] ==
              Entry(left[i].name, left[i].row + Matches(left[i].name, right)[k])
  {
    JoinOffsetAt(left, right, i, k);
  }

  /** A left row without a match is kept, unchanged, at its offset. */
  lemma JoinUnmatchedRow(left: Table, right: Table, i: int)
    requires 0 <= i < |left| && !HasName(right, left[i].name)
    ensures JoinOffset(left, right, i) < |JoinRows(left, right)|
    ensures JoinRows(left, right)[JoinOffset(left, right, i)] == left[i]
  {
    MatchesEmpty(left[i].name, right);
    JoinOffsetAt(left, right, i, 0);
  }

  /** Every row the `i`-th left row yields keeps its label, its columns and its cells outside the right frame's columns. */
  lemma JoinKeepsCells(left: Table, right: Table, i: int, m: int)
    requires 0 <= i < |left|
    requires 0 <= m < |JoinEntry(left[i], Matches(left[i].name, right))|
    ensures JoinOffset(left, right, i) + m < |JoinRows(left, right)|
    ensures KeepsRow(JoinRows(left, right)[JoinOffset(left, right, i) + m], left[i], Columns(right))
  {
    var ms := Matches(left[i].name, right);
    JoinOffsetAt(left, right, i, m);
    JoinEntryKeeps(left[i], ms, m);
    if ms != [] {
      MatchColumns(left[i].name, right, m);
    }
  }

  /** After a successful join every row a left row yields holds all of that row's cells unchanged. */
  lemma LeftJoinKeepsCells(left: Table, right: Table, i: int, m: int)
    requires LeftJoin(left, right).Ok?
    requires 0 <= i < |left|
    requires 0 <= m < |JoinEntry(left[i], Matches(left[i].name, right))|
    ensures JoinOffset(left, right, i) + m < |LeftJoin(left, right).value|
    ensures KeepsRow(LeftJoin(left, right).value[JoinOffset(left, right, i) + m], left[i], {})
  {
    JoinKeepsCells(left, right, i, m);
    forall c | c in left[i].row ensures c !in Columns(right) {
      assert c in Columns(left);
      assert c !in Columns(left) * Columns(right);
    }
  }

  lemma {:induction false} JoinRowsLength(left: Table, right: Table)
    ensures |JoinRows(left, right)| >= |left|
    decreases |left|
  {
    if left != [] {
      JoinRowsLength(left[1..], right);
    }
  }

  /** Every left row survives the join with its label, its columns and its cells outside the right frame's columns. */
  lemma JoinRowsKeepsLeft(left: Table, right: Table)
    ensures |JoinRows(left, right)| >= |left|
    ensures forall i :: 0 <= i < |left| ==>
              exists j :: 0 <= j < |JoinRows(left, right)| && KeepsRow(JoinRows(left, right)[j], left[i], Columns(right))
  {
    JoinRowsLength(left, right);
    forall i | 0 <= i < |left|
      ensures exists j :: 0 <= j < |JoinRows(left, right)| && KeepsRow(JoinRows(left, right)[j], left[i], Columns(right))
    {
      JoinKeepsCells(left, right, i, 0);
    }
  }

  /** Every joined row carries the label of some left row: the join adds no names. */
  lemma {:induction false} JoinRowsFromLeft(left: Table, right: Table)
    ensures forall j :: 0 <= j < |JoinRows(left, right)| ==> HasName(left, JoinRows(left, right)[j].name)
    decreases |left|
  {
    if left != [] {
      var e := left[0];
      var head := JoinEntry(e, Matches(e.name, right));
      var tail := JoinRows(left[1..], right);
      var r := JoinRows(left, right);
      assert r == head + tail;
      JoinRowsFromLeft(left[1..], right);
      forall j | 0 <= j < |r| ensures HasName(left, r[j].name) {
        if j < |head| {
          assert r[j] == head[j] && head[j].name == e.name;
        } else {
          assert r[j] == tail[j - |head|];
          var i :| 0 <= i < |left[1..]| && left[1..][i].name == tail[j - |head|].name;
          assert left[i + 1] == left[1..][i];
        }
      }
    }
  }

  /** A left row joined with its (at most one) match. */
  function JoinedOne(e: Entry, right: Table): Entry
  {
    var ms := Matches(e.name, right);
    if |ms| == 0 then e else Entry(e.name, e.row + ms[0])
  }

  /** Each left row replaced by its joined row, in order. */
  function JoinedAll(left: Table, right: Table): Table
  {
    if left == [] then [] else [JoinedOne(left[0], right)] + JoinedAll(left[1..], right)
  }

  lemma {:induction false} JoinedAllSpec(left: Table, right: Table)
    ensures |JoinedAll(left, right)| == |left|
    ensures forall i :: 0 <= i < |left| ==> JoinedAll(left, right)[i] == JoinedOne(left[i], right)
    decreases |left|
  {
    if left != [] {
      JoinedAllSpec(left[1..], right);
      forall i | 1 <= i < |left| ensures JoinedAll(left, right)[i] == JoinedOne(left[i], right) {
        assert left[1..][i - 1] == left[i];
      }
    }
  }

  /** Under unique right labels a left row yields exactly its joined row. */
  lemma JoinEntryUnique(e: Entry, right: Table)
    requires UniqueNames(right)
    ensures JoinEntry(e, Matches(e.name, right)) == [JoinedOne(e, right)]
  {
    MatchesUnique(e.name, right);
  }

  lemma {:induction false} JoinRowsOneForOne(left: Table, right: Table)
    requires UniqueNames(right)
    ensures JoinRows(left, right) == JoinedAll(left, right)
    decreases |left|
  {
    if left != [] {
      JoinEntryUnique(left[0], right);
      JoinRowsOneForOne(left[1..], right);
    }
  }

  /**
   * With unique labels on the right, the join keeps the left table's rows one
   * for one and in order: a matched row gains the right row's cells, an
   * unmatched row is unchanged.
   */
  lemma JoinRowsUniqueRight(left: Table, right: Table)
    requires UniqueNames(right)
    ensures |JoinRows(left, right)| == |left|
    ensures forall i :: 0 <= i < |left| ==> JoinRows(left, right)[i].name == left[i].name
    ensures forall i, j :: 0 <= i < |left| && 0 <= j < |right| && right[j].name == left[i].name ==>
              JoinRows(left, right)[i].row == left[i].row + right[j].row
    ensures forall i :: 0 <= i < |left| && !HasName(right, left[i].name) ==> JoinRows(left, right)[i] == left[i]
  {
    JoinRowsOneForOne(left, right);
    JoinedAllSpec(left, right);
    forall i | 0 <= i < |left|
      ensures |Matches(left[i].name, right)| <= 1
      ensures forall j :: 0 <= j < |right| && right[j].name == left[i].name ==> Matches(left[i].name, right) == [right[j].row]
      ensures |Matches(left[i].name, right)| == 0 <==> !HasName(right, left[i].name)
    {
      MatchesUnique(left[i].name, right);
      MatchesEmpty(left[i].name, right);
    }
  }

  /** Under unique right labels a name has at most one match, namely the row carrying it. */
  lemma MatchesUnique(name: string, right: Table)
    requires UniqueNames(right)
    ensures |Matches(name, right)| <= 1
    ensures forall j :: 0 <= j < |right| && right[j].name == name ==> Matches(name, right) == [right[j].row]
  {
    var ms := Matches(name, right);
    MatchesEmpty(name, right);
    MatchesFromRight(name, right);
    if |ms| >= 2 {
      assert ms[0] in ms && ms[1] in ms;
      MatchesOrder(name, right);
      assert false;
    }
    forall j | 0 <= j < |right| && right[j].name == name ensures ms == [right[j].row] {
      assert HasName(right, name);
      var j' :| 0 <= j' < |right| && right[j'].name == name && right[j'].row == ms[0] by { assert ms[0] in ms; }
      assert j' == j;
    }
  }

  /** Two matches come from two different right rows. */
  lemma {:induction false} MatchesOrder(name: string, right: Table)
    requires |Matches(name, right)| >= 2
    ensures exists a, b :: 0 <= a < b < |right| && right[a].name == name && right[b].name == name
    decreases |right|
  {
    var rest := Matches(name, right[1..]);
    if right[0].name == name {
      assert |rest| >= 1;
      assert rest[0] in rest;
      MatchesFromRight(name, right[1..]);
      var j :| 0 <= j < |right[1..]| && right[1..][j].name == name && right[1..][j].row == rest[0];
      assert right[j + 1] == right[1..][j];
      assert 0 < j + 1 && right[0].name == name && right[j + 1].name == name;
    } else {
      MatchesOrder(name, right[1..]);
      var a, b :| 0 <= a < b < |right[1..]| && right[1..][a].name == name && right[1..][b].name == name;
      assert right[a + 1] == right[1..][a] && right[b + 1] == right[1..][b];
    }
  }

  /** Under unique right labels every left row yields one joined row, so the `i`-th sits at `i`. */
  lemma JoinOffsetUnique(left: Table, right: Table, i: int)
    requires UniqueNames(right) && 0 <= i < |left|
    ensures JoinOffset(left, right, i) == i
  {
    var bs := Blocks(left, right)[..i];
    forall k | 0 <= k < |bs| ensures |bs[k]| == 1 {
      JoinEntryUnique(left[k], right);
    }
    ConcatSingletons(bs);
  }

  /**
   * After a successful join an unmatched left row is kept unchanged and reads
   * every right column as missing; with unique right labels it keeps its
   * position and no row is dropped or repeated.
   */
  lemma JoinUnmatchedMissing(left: Table, right: Table, i: int, c: string)
    requires LeftJoin(left, right).Ok?
    requires 0 <= i < |left| && !HasName(right, left[i].name) && c in Columns(right)
    ensures JoinOffset(left, right, i) < |LeftJoin(left, right).value|
    ensures LeftJoin(left, right).value[JoinOffset(left, right, i)] == left[i]
    ensures Lookup(LeftJoin(left, right).value[JoinOffset(left, right, i)].row, c) == Missing
    ensures UniqueNames(right) ==> |LeftJoin(left, right).value| == |left| && JoinOffset(left, right, i) == i
  {
    JoinUnmatchedRow(left, right, i);
    assert c !in Columns(left) by {
      assert c !in Columns(left) * Columns(right);
    }
    assert c !in left[i].row;
    if UniqueNames(right) {
      JoinRowsUniqueRight(left, right);
      JoinOffsetUnique(left, right, i);
    }
  }
}
