/** Row shaping and the comprehensions over rows: fetchall's nested loop
    (180-193), the filters of storage and storage_col (103-112), the linkid
    dict of get_exist_linkid (302) and str.format of a column value. */
module Rows {
  import opened Base
  import opened Text

  // ---------------------------------------------------------------------
  // fetchall

  /** The dict fetchall builds for one tuple: each described column set in
      turn, so a later column of the same name overwrites an earlier one. */
  function RowOf(columns: seq<string>, values: seq<Value>): Row
    requires |columns| == |values|
    decreases |columns|
  {
    if |columns| == 0 then map[]
    else RowOf(columns[..|columns| - 1], values[..|values| - 1])[columns[|columns| - 1] := values[|values| - 1]]
  }

  predicate Shaped(description: seq<string>, tuples: seq<seq<Value>>) {
    forall k :: 0 <= k < |tuples| ==> |tuples[k]| == |description|
  }

  /** One dict per tuple, in cursor order.  A cursor never yields a tuple
      whose width differs from its description (see Cursor); such a tuple
      would give an empty row. */
  function RowsOf(description: seq<string>, tuples: seq<seq<Value>>): seq<Row>
    decreases |tuples|
  {
    if |tuples| == 0 then []
    else
      var last := tuples[|tuples| - 1];
      RowsOf(description, tuples[..|tuples| - 1]) + [if |last| == |description| then RowOf(description, last) else map[]]
  }

  function CursorRows(c: Cursor): seq<Row> {
    RowsOf(c.description, c.tuples)
  }

  /** The inner loop of fetchall: the dict of one tuple, column by column. */
  method RowDict(description: seq<string>, row: seq<Value>) returns (rowDict: Row)
    requires |row| == |description|
    ensures rowDict == RowOf(description, row)
  {
    rowDict := map[];
    for i := 0 to |description|
      invariant rowDict == RowOf(description[..i], row[..i])
    {
      assert description[..i + 1][..i] == description[..i];
      assert row[..i + 1][..i] == row[..i];
      rowDict := rowDict[description[i] := row[i]];
    }
    assert description[..|description|] == description;
    assert row[..|row|] == row;
  }

  /** fetchall after the statement ran: no rows give [], otherwise one dict
      per tuple, in cursor order. */
  method FetchRows(c: Cursor) returns (result: seq<Row>)
    ensures result == CursorRows(c)
  {
    var rows := c.tuples;
    var description := c.description;
    if |rows| == 0 {
      return [];
    }
    result := [];
    for k := 0 to |rows|
      invariant result == RowsOf(description, rows[..k])
    {
      var row := rows[k];
      assert row in c.tuples;
      var rowDict := RowDict(description, row);
      assert rows[..k + 1][..k] == rows[..k];
      result := result + [rowDict];
    }
    assert rows[..|rows|] == rows;
  }

  /** The keys of a row are exactly the described column names. */
  lemma {:induction false} RowOfKeys(columns: seq<string>, values: seq<Value>)
    requires |columns| == |values|
    ensures RowOf(columns, values).Keys == set i | 0 <= i < |columns| :: columns[i]
    decreases |columns|
  {
    if |columns| > 0 {
      var n := |columns| - 1;
      RowOfKeys(columns[..n], values[..n]);
      assert (set i | 0 <= i < |columns| :: columns[i]) == (set i | 0 <= i < n :: columns[..n][i]) + {columns[n]};
    }
  }

  /** A column holds the value of its last occurrence in the description,
      and so, for distinct names, the value at its own position. */
  lemma {:induction false} RowOfLastWins(columns: seq<string>, values: seq<Value>, i: nat)
    requires |columns| == |values| && i < |columns|
    requires forall j :: i < j < |columns| ==> columns[j] != columns[i]
    ensures columns[i] in RowOf(columns, values) && RowOf(columns, values)[columns[i]] == values[i]
    decreases |columns|
  {
    var n := |columns| - 1;
    if i < n {
      RowOfLastWins(columns[..n], values[..n], i);
    }
  }

  /** fetchall gives one row per tuple. */
  lemma {:induction false} RowsOfLength(description: seq<string>, tuples: seq<seq<Value>>)
    requires Shaped(description, tuples)
    ensures |RowsOf(description, tuples)| == |tuples|
    ensures forall k :: 0 <= k < |tuples| ==> RowsOf(description, tuples)[k] == RowOf(description, tuples[k])
    decreases |tuples|
  {
    if |tuples| > 0 {
      RowsOfLength(description, tuples[..|tuples| - 1]);
    }
  }

  // ---------------------------------------------------------------------
  // storage and storage_col

  /** The value lists a row is tested against, per column. */
  type Cond = map<string, seq<Value>>

  /** Row x can be tested: `x[y]` raises KeyError for a column y of cond
      the row does not have. */
  predicate HasKeys(x: Row, cond: Cond) {
    forall y :: y in cond ==> y in x
  }

  /** `[1 for y in cond if x[y] in cond[y]]` is non-empty: ANY column of
      cond has a value of its list. */
  predicate Matches(x: Row, cond: Cond)
    requires HasKeys(x, cond)
  {
    exists y :: y in cond && x[y] in cond[y]
  }

  predicate AllHaveKeys(rows: seq<Row>, cond: Cond) {
    forall k :: 0 <= k < |rows| ==> HasKeys(rows[k], cond)
  }

  function Filter(rows: seq<Row>, cond: Cond): seq<Row>
    requires AllHaveKeys(rows, cond)
    decreases |rows|
  {
    if |rows| == 0 then []
    else (if Matches(rows[0], cond) then [rows[0]] else []) + Filter(rows[1..], cond)
  }

  /** The comprehension of storage over the snapshot of a table. */
  function Select(rows: seq<Row>, cond: Cond): Result<seq<Row>> {
    if AllHaveKeys(rows, cond) then Ok(Filter(rows, cond)) else Err(MissingKey)
  }

  predicate AllHaveColumn(rows: seq<Row>, col: string) {
    forall k :: 0 <= k < |rows| ==> col in rows[k]
  }

  /** `x[col]` for every row. */
  function Project(rows: seq<Row>, col: string): (r: seq<Value>)
    requires AllHaveColumn(rows, col)
    ensures |r| == |rows|
    ensures forall k :: 0 <= k < |rows| ==> r[k] == rows[k][col]
    decreases |rows|
  {
    if |rows| == 0 then [] else [rows[0][col]] + Project(rows[1..], col)
  }

  /** The comprehension of storage_col: KeyError when a row lacks a column
      of cond, or a kept row lacks col. */
  function SelectCol(rows: seq<Row>, cond: Cond, col: string): Result<seq<Value>> {
    if !AllHaveKeys(rows, cond) then Err(MissingKey)
    else
      var kept := Filter(rows, cond);
      if AllHaveColumn(kept, col) then Ok(Project(kept, col)) else Err(MissingKey)
  }

  /** a is b with some elements left out, the rest in order. */
  predicate IsSubsequence<T(==)>(a: seq<T>, b: seq<T>)
    decreases |b|
  {
    if |a| == 0 then true
    else if |b| == 0 then false
    else (a[0] == b[0] && IsSubsequence(a[1..], b[1..])) || IsSubsequence(a, b[1..])
  }

  lemma {:induction false} SubsequenceSkip<T>(a: seq<T>, b: seq<T>)
    requires |b| > 0 && IsSubsequence(a, b[1..])
    ensures IsSubsequence(a, b)
  {
  }

  /** The rows storage keeps are the matching rows of the snapshot, in
      snapshot order. */
  lemma {:induction false} FilterIsSubsequence(rows: seq<Row>, cond: Cond)
    requires AllHaveKeys(rows, cond)
    ensures IsSubsequence(Filter(rows, cond), rows)
    decreases |rows|
  {
    if |rows| > 0 {
      FilterIsSubsequence(rows[1..], cond);
      var rest := Filter(rows[1..], cond);
      if Matches(rows[0], cond) {
        assert Filter(rows, cond) == [rows[0]] + rest;
        assert ([rows[0]] + rest)[1..] == rest;
      } else {
        assert Filter(rows, cond) == rest;
        SubsequenceSkip(rest, rows);
      }
    }
  }

  /** A row is kept exactly when it is in the snapshot and matches. */
  lemma {:induction false} FilterMembers(rows: seq<Row>, cond: Cond, x: Row)
    requires AllHaveKeys(rows, cond)
    ensures x in Filter(rows, cond) <==> x in rows && HasKeys(x, cond) && Matches(x, cond)
    decreases |rows|
  {
    if |rows| > 0 {
      FilterMembers(rows[1..], cond, x);
      assert rows == [rows[0]] + rows[1..];
    }
  }

  /** Every copy of a matching row is kept and no copy of any other row:
      the result has as many occurrences of x as the snapshot when x
      matches, and none otherwise. */
  lemma {:induction false} FilterCounts(rows: seq<Row>, cond: Cond, x: Row)
    requires AllHaveKeys(rows, cond)
    ensures multiset(Filter(rows, cond))[x] == if HasKeys(x, cond) && Matches(x, cond) then multiset(rows)[x] else 0
    decreases |rows|
  {
    if |rows| > 0 {
      FilterCounts(rows[1..], cond, x);
      assert rows == [rows[0]] + rows[1..];
    }
  }

  /** An empty cond keeps nothing. */
  lemma {:induction false} FilterEmptyCond(rows: seq<Row>)
    ensures AllHaveKeys(rows, map[])
    ensures Filter(rows, map[]) == []
    decreases |rows|
  {
    if |rows| > 0 {
      FilterEmptyCond(rows[1..]);
    }
  }

  /** storage: KeyError exactly when some row of the snapshot lacks a
      column of cond; otherwise the matching rows in order, every copy of
      a matching row kept, none for an empty cond. */
  lemma SelectSpec(rows: seq<Row>, cond: Cond)
    ensures Select(rows, cond).Err? <==> exists k :: 0 <= k < |rows| && !HasKeys(rows[k], cond)
    ensures Select(rows, cond).Ok? ==> IsSubsequence(Select(rows, cond).value, rows)
    ensures Select(rows, cond).Ok? ==>
      forall x :: x in Select(rows, cond).value <==> x in rows && HasKeys(x, cond) && Matches(x, cond)
    ensures Select(rows, cond).Ok? ==>
      forall x :: multiset(Select(rows, cond).value)[x] == if HasKeys(x, cond) && Matches(x, cond) then multiset(rows)[x] else 0
    ensures Select(rows, map[]) == Ok([])
  {
    if AllHaveKeys(rows, cond) {
      FilterIsSubsequence(rows, cond);
      forall x ensures x in Filter(rows, cond) <==> x in rows && HasKeys(x, cond) && Matches(x, cond) {
        FilterMembers(rows, cond, x);
      }
      forall x ensures multiset(Filter(rows, cond))[x] == if HasKeys(x, cond) && Matches(x, cond) then multiset(rows)[x] else 0 {
        FilterCounts(rows, cond, x);
      }
    }
    FilterEmptyCond(rows);
  }

  /** storage_col is the col projection of what storage returns, with the
      same length and order, whenever every kept row has col. */
  lemma SelectColSpec(rows: seq<Row>, cond: Cond, col: string)
    ensures SelectCol(rows, cond, col).Ok? <==>
      Select(rows, cond).Ok? && AllHaveColumn(Select(rows, cond).value, col)
    ensures SelectCol(rows, cond, col).Ok? ==>
      |SelectCol(rows, cond, col).value| == |Select(rows, cond).value|
      && forall k :: 0 <= k < |Select(rows, cond).value| ==>
           SelectCol(rows, cond, col).value[k] == Select(rows, cond).value[k][col]
  {
  }

  // ---------------------------------------------------------------------
  // The linkid dict of get_exist_linkid

  /** `{x["linkid"]: True for x in ret}`, built in row order. */
  function LinkidDict(rows: seq<Row>): map<Value, bool>
    requires AllHaveColumn(rows, "linkid")
    decreases |rows|
  {
    if |rows| == 0 then map[]
    else LinkidDict(rows[..|rows| - 1])[rows[|rows| - 1]["linkid"] := true]
  }

  /** KeyError when a returned row has no linkid column. */
  function LinkidMap(rows: seq<Row>): Result<map<Value, bool>> {
    if AllHaveColumn(rows, "linkid") then Ok(LinkidDict(rows)) else Err(MissingKey)
  }

  /** The dict maps every returned linkid, and nothing else, to True. */
  lemma {:induction false} LinkidDictSpec(rows: seq<Row>)
    requires AllHaveColumn(rows, "linkid")
    ensures LinkidDict(rows).Keys == set k | 0 <= k < |rows| :: rows[k]["linkid"]
    ensures forall v :: v in LinkidDict(rows) ==> LinkidDict(rows)[v]
    decreases |rows|
  {
    if |rows| > 0 {
      var n := |rows| - 1;
      LinkidDictSpec(rows[..n]);
      assert (set k | 0 <= k < |rows| :: rows[k]["linkid"]) == (set k | 0 <= k < n :: rows[..n][k]["linkid"]) + {rows[n]["linkid"]};
    }
  }

  lemma LinkidMapSpec(rows: seq<Row>)
    ensures LinkidMap(rows).Err? <==> exists k :: 0 <= k < |rows| && "linkid" !in rows[k]
    ensures LinkidMap(rows).Ok? ==>
      LinkidMap(rows).value.Keys == (set k | 0 <= k < |rows| :: rows[k]["linkid"])
      && forall v :: v in LinkidMap(rows).value ==> LinkidMap(rows).value[v]
  {
    if AllHaveColumn(rows, "linkid") {
      LinkidDictSpec(rows);
    }
  }

  // ---------------------------------------------------------------------
  // str.format of a value

  /** str(i) for any int. */
  function IntToString(i: int): string {
    if i < 0 then "-" + NatToString(-i) else NatToString(i)
  }

  /** What '{}'.format(v) writes: the text itself, the decimal digits of an
      int, and "None" for NULL. */
  function ValueToText(v: Value): string {
    match v
    case Text(s) => s
    case Int(i) => IntToString(i)
    case Null => "None"
  }
}
