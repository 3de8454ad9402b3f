/**
  The per-level count tables of the learner's panel (class Panel of
  app/lib/panel.rb): a 6-level by 3-state table of counts filled from query
  rows, its cross-tabulation with row and column totals, and the backbone
  coverage table.
 */
module Panels {
  import opened Wrappers

  /** The HSK levels "1".."6". */
  const Levels: seq<string> := ["1", "2", "3", "4", "5", "6"]
  /** The knowledge states, in table order. */
  const States: seq<string> := ["IGNORES", "LEARNING", "KNOWS"]
  const BackboneHeadings: seq<string> := ["chars-in-bb", "chars-not-repr", "words-via-bb", "level"]

  /** One row of the per-level count query: {rel, level, count}. */
  datatype QueryCount = QueryCount(rel: string, level: string, count: int)

  /** One row of a coverage query: {level, count}. */
  datatype LevelCount = LevelCount(level: string, count: int)

  /** A table cell: a Ruby symbol, a string or an integer. */
  datatype Cell = Sym(name: string) | Str(s: string) | Num(n: int)

  datatype PanelError = UnexpectedSize(size: nat)

  /** The counts by level, then by knowledge state. */
  type Values = map<string, map<string, int>>

  /** Every level maps every state. */
  ghost predicate Complete(v: Values) {
    forall l :: l in Levels ==> l in v && forall s :: s in States ==> s in v[l]
  }

  /** The table of zero counts. */
  function Zeroes(): (z: Values)
    ensures forall l :: l in z <==> l in Levels
    ensures forall l :: l in Levels ==> (forall s :: s in z[l] <==> s in States)
    ensures forall l, s :: l in Levels && s in States ==> z[l][s] == 0
  {
    map l | l in Levels :: map s | s in States :: 0
  }

  /** Every query row names one of the six levels (another level is a nil
      lookup in the source). */
  predicate LevelsKnown(qs: seq<QueryCount>) {
    forall i :: 0 <= i < |qs| ==> qs[i].level in Levels
  }

  /** The table after the query rows qs are stored into Zeroes(), in order. */
  function Tabulate(qs: seq<QueryCount>): (v: Values)
    requires LevelsKnown(qs)
    ensures forall l :: l in v <==> l in Levels
    decreases |qs|
  {
    if qs == [] then Zeroes()
    else
      var v := Tabulate(qs[..|qs| - 1]);
      var q := qs[|qs| - 1];
      v[q.level := v[q.level][q.rel := q.count]]
  }

  /** Some query row stores a count for level l and relation s. */
  ghost predicate StoredAt(qs: seq<QueryCount>, l: string, s: string) {
    exists i :: 0 <= i < |qs| && qs[i].level == l && qs[i].rel == s
  }

  /** Each level of the table maps the three states and every other relation
      that a query row stored at that level. */
  lemma {:induction false} TabulateKeys(qs: seq<QueryCount>, l: string)
    requires LevelsKnown(qs) && l in Levels
    ensures forall s :: s in Tabulate(qs)[l] <==> s in States || StoredAt(qs, l, s)
    decreases |qs|
  {
    if qs != [] {
      var init := qs[..|qs| - 1];
      var q := qs[|qs| - 1];
      TabulateKeys(init, l);
      var v := Tabulate(init);
      assert Tabulate(qs)[l] == if q.level == l then v[l][q.rel := q.count] else v[l];
      forall s
        ensures StoredAt(qs, l, s) <==> StoredAt(init, l, s) || (q.level == l && q.rel == s)
      {
        StoredAtSnoc(qs, l, s);
      }
    }
  }

  /** A count is stored by some row exactly when it is stored by a row before
      the last or by the last row. */
  lemma StoredAtSnoc(qs: seq<QueryCount>, l: string, s: string)
    requires qs != []
    ensures StoredAt(qs, l, s) <==>
              StoredAt(qs[..|qs| - 1], l, s) || (qs[|qs| - 1].level == l && qs[|qs| - 1].rel == s)
  {
    var init := qs[..|qs| - 1];
    if StoredAt(qs, l, s) {
      var i :| 0 <= i < |qs| && qs[i].level == l && qs[i].rel == s;
      if i < |init| {
        assert init[i] == qs[i];
      }
    }
    if StoredAt(init, l, s) {
      var i :| 0 <= i < |init| && init[i].level == l && init[i].rel == s;
      assert qs[i] == init[i];
    }
  }

  /** A relation stored by some query row is one that the rows name. */
  lemma StoredStates(qs: seq<QueryCount>, l: string)
    requires forall i :: 0 <= i < |qs| ==> qs[i].rel in States
    ensures forall s :: StoredAt(qs, l, s) ==> s in States
  {
    forall s | StoredAt(qs, l, s)
      ensures s in States
    {
      var i :| 0 <= i < |qs| && qs[i].level == l && qs[i].rel == s;
    }
  }

  /** When every query row names one of the three states, each level maps
      exactly the three states. */
  lemma TabulateKeysExact(qs: seq<QueryCount>, l: string)
    requires LevelsKnown(qs) && l in Levels
    requires forall i :: 0 <= i < |qs| ==> qs[i].rel in States
    ensures forall s :: s in Tabulate(qs)[l] <==> s in States
  {
    StoredStates(qs, l);
    TabulateKeys(qs, l);
  }

  /** Row i is the last query row for level l and state s. */
  ghost predicate LastRowFor(qs: seq<QueryCount>, i: int, l: string, s: string) {
    && 0 <= i < |qs| && qs[i].level == l && qs[i].rel == s
    && forall j :: i < j < |qs| ==> qs[j].level != l || qs[j].rel != s
  }

  /** A stored count is the one of the last query row for that level and
      state: later rows overwrite earlier ones. */
  lemma {:induction false} TabulateLastWins(qs: seq<QueryCount>, l: string, s: string)
    requires LevelsKnown(qs) && l in Levels
    ensures forall i :: LastRowFor(qs, i, l, s) ==>
              s in Tabulate(qs)[l] && Tabulate(qs)[l][s] == qs[i].count
    decreases |qs|
  {
    if qs != [] {
      var init := qs[..|qs| - 1];
      TabulateLastWins(init, l, s);
      forall i | LastRowFor(qs, i, l, s) && i < |qs| - 1
        ensures LastRowFor(init, i, l, s)
      {
        assert forall j :: i < j < |init| ==> init[j] == qs[j];
      }
    }
  }

  /** A state that no query row names at level l keeps its initial 0. */
  lemma {:induction false} TabulateUntouched(qs: seq<QueryCount>, l: string, s: string)
    requires LevelsKnown(qs) && l in Levels && s in States
    requires forall i :: 0 <= i < |qs| ==> qs[i].level != l || qs[i].rel != s
    ensures s in Tabulate(qs)[l] && Tabulate(qs)[l][s] == 0
    decreases |qs|
  {
    if qs != [] {
      var init := qs[..|qs| - 1];
      assert forall i :: 0 <= i < |init| ==> init[i] == qs[i];
      TabulateUntouched(init, l, s);
    }
  }

  /** One IGNORES row at level 1 gives a table of zeroes but for that cell,
      with exactly the three states at every level. */
  lemma TabulateExample()
    ensures var v := Tabulate([QueryCount("IGNORES", "1", 1)]);
      && (forall l :: l in v <==> l in Levels)
      && (forall l, s :: l in Levels ==> (s in v[l] <==> s in States))
      && v["1"]["IGNORES"] == 1
      && forall l, s :: l in Levels && s in States && (l != "1" || s != "IGNORES") ==> v[l][s] == 0
  {
    var qs := [QueryCount("IGNORES", "1", 1)];
    forall l | l in Levels
      ensures forall s :: s in Tabulate(qs)[l] <==> s in States
    {
      TabulateKeysExact(qs, l);
    }
    forall l, s | l in Levels && s in States && (l != "1" || s != "IGNORES")
      ensures Tabulate(qs)[l][s] == 0
    {
      TabulateUntouched(qs, l, s);
    }
    TabulateLastWins(qs, "1", "IGNORES");
    assert LastRowFor(qs, 0, "1", "IGNORES");
  }

  /** The table of counts has every level and state. */
  lemma TabulateComplete(qs: seq<QueryCount>)
    requires LevelsKnown(qs)
    ensures Complete(Tabulate(qs))
  {
    forall l | l in Levels
      ensures l in Tabulate(qs) && forall s :: s in States ==> s in Tabulate(qs)[l]
    {
      TabulateKeys(qs, l);
    }
  }

  /** The sum of the integer cells (other cells count 0). */
  function SumNums(cells: seq<Cell>): int {
    if cells == [] then 0
    else SumNums(cells[..|cells| - 1]) + (if cells[|cells| - 1].Num? then cells[|cells| - 1].n else 0)
  }

  /** The sum of column c over the first r rows (cells outside a row, or not
      integers, count 0). */
  function ColumnSum(rows: seq<seq<Cell>>, c: nat, r: nat): int
    requires r <= |rows|
  {
    if r == 0 then 0 else ColumnSum(rows, c, r - 1) + CellValue(rows[r - 1], c)
  }

  /** The integer in cell c of a row, 0 when there is none. */
  function CellValue(row: seq<Cell>, c: nat): int {
    if c < |row| && row[c].Num? then row[c].n else 0
  }

  /** A row of the counts table for one state: the state's name, its count
      at each level in level order, and under All the sum of those counts. */
  ghost predicate IsStateRow(v: Values, row: seq<Cell>, state: string)
    requires Complete(v) && state in States
  {
    && |row| == |Levels| + 2
    && row[0] == Str(state)
    && (forall j :: 0 <= j < |Levels| ==> row[j + 1] == Num(v[Levels[j]][state]))
    && row[|Levels| + 1] == Num(SumNums(row[1..|Levels| + 1]))
  }

  /** The headings of the counts table: :state, the levels, :All. */
  function CountsHeadings(): seq<Cell> {
    [Sym("state")] + seq(|Levels|, j requires 0 <= j < |Levels| => Str(Levels[j])) + [Sym("All")]
  }

  /** backbone_table's size check: the size of the first of the lists whose
      size is not the number of levels, if any. */
  function FirstWrongSize(counters: seq<seq<LevelCount>>): (r: Option<nat>)
    ensures r.None? <==> forall k :: 0 <= k < |counters| ==> |counters[k]| == |Levels|
    ensures r.Some? ==>
              exists k :: (0 <= k < |counters| && |counters[k]| != |Levels| && r.value == |counters[k]| &&
                           forall j :: 0 <= j < k ==> |counters[j]| == |Levels|)
  {
    if counters == [] then None
    else if |counters[0]| != |Levels| then Some(|counters[0]|)
    else
      var r := FirstWrongSize(counters[1..]);
      if r.Some? then
        assert forall j :: 0 <= j < |counters| - 1 ==> counters[1..][j] == counters[j + 1];
        r
      else r
  }

  /** The backbone coverage table: raises unless every list has one entry per
      level, and otherwise pairs the lists positionally with the levels, the
      connected counts first. */
  function BackboneTable(disconn: seq<LevelCount>, connect: seq<LevelCount>, wordsConnected: seq<LevelCount>)
    : (r: Result<(seq<string>, seq<seq<Cell>>), PanelError>)
    ensures r.Failure? <==> |disconn| != |Levels| || |connect| != |Levels| || |wordsConnected| != |Levels|
    ensures r.Failure? ==> r.error == UnexpectedSize(
              if |disconn| != |Levels| then |disconn|
              else if |connect| != |Levels| then |connect| else |wordsConnected|)
    ensures r.Success? ==> r.value.0 == BackboneHeadings && |r.value.1| == |Levels|
    ensures r.Success? ==> forall i :: 0 <= i < |Levels| ==>
              r.value.1[i] == [Num(connect[i].count), Num(disconn[i].count), Num(wordsConnected[i].count), Str(Levels[i])]
  {
    var counters := [disconn, connect, wordsConnected];
    assert counters[0] == disconn && counters[1] == connect && counters[2] == wordsConnected;
    match FirstWrongSize(counters)
    case Some(size) => Failure(UnexpectedSize(size))
    case None =>
      Success((BackboneHeadings,
               seq(|Levels|, i requires 0 <= i < |Levels| =>
                 [Num(connect[i].count), Num(disconn[i].count), Num(wordsConnected[i].count), Str(Levels[i])])))
  }

  /** The counts of a coverage list, in list order, without their level keys. */
  function CountsOf(xs: seq<LevelCount>): seq<int> {
    seq(|xs|, i requires 0 <= i < |xs| => xs[i].count)
  }

  /** The table is positional: column 0 holds the second list's count and
      column 1 the first list's (the first two arguments land swapped), the
      level column of row i is the i-th level, and the level keys the
      entries carry play no part, so lists with the same counts under other
      keys give the same table. */
  lemma BackboneTableIgnoresLevelKeys(disconn: seq<LevelCount>, connect: seq<LevelCount>, wordsConnected: seq<LevelCount>,
                                      disconn': seq<LevelCount>, connect': seq<LevelCount>, wordsConnected': seq<LevelCount>)
    requires CountsOf(disconn) == CountsOf(disconn') && CountsOf(connect) == CountsOf(connect')
    requires CountsOf(wordsConnected) == CountsOf(wordsConnected')
    ensures BackboneTable(disconn, connect, wordsConnected) == BackboneTable(disconn', connect', wordsConnected')
    ensures var r := BackboneTable(disconn, connect, wordsConnected);
      r.Success? ==> forall i :: 0 <= i < |Levels| ==>
        && r.value.1[i][0] == Num(connect[i].count)
        && r.value.1[i][1] == Num(disconn[i].count)
        && r.value.1[i][3] == Str(Levels[i])
  {
    var r, r' := BackboneTable(disconn, connect, wordsConnected), BackboneTable(disconn', connect', wordsConnected');
    assert |disconn| == |CountsOf(disconn)| && |disconn'| == |CountsOf(disconn')|;
    assert |connect| == |CountsOf(connect)| && |connect'| == |CountsOf(connect')|;
    assert |wordsConnected| == |CountsOf(wordsConnected)| && |wordsConnected'| == |CountsOf(wordsConnected')|;
    if r.Success? {
      forall i | 0 <= i < |Levels|
        ensures r.value.1[i] == r'.value.1[i]
      {
        assert CountsOf(disconn)[i] == CountsOf(disconn')[i];
        assert CountsOf(connect)[i] == CountsOf(connect')[i];
        assert CountsOf(wordsConnected)[i] == CountsOf(wordsConnected')[i];
      }
      assert r.value.1 == r'.value.1;
      assert r.value == r'.value;
    } else {
      assert r.error == r'.error;
    }
  }

  /** The lists of the backbone_table example in app/spec/panel_spec.rb, with
      5 as the first argument's and 10 as the second argument's level-"2"
      count, padded to one entry per level so the code does not raise: the
      level-"2" row holds 10 in column 0 and 5 in column 1, not the 5 in
      column 0 that the example expects. */
  lemma BackboneTableColumnOrder()
    ensures var pad := (n: int) => [LevelCount("1", 0), LevelCount("2", n), LevelCount("3", 0),
                                    LevelCount("4", 0), LevelCount("5", 0), LevelCount("6", 0)];
      var r := BackboneTable(pad(5), pad(10), pad(0));
      && r.Success?
      && r.value.1[1][3] == Str("2")
      && r.value.1[1][0] == Num(10) && r.value.1[1][1] == Num(5)
  {
  }

  /** The inputs of the backbone_table examples in app/spec/panel_spec.rb
      (empty and one-entry lists, expected to give one row per level looked up
      by level key) make the code as written raise instead. */
  lemma BackboneTableRaisesOnShortLists()
    ensures BackboneTable([], [], []) == Failure(UnexpectedSize(0))
    ensures BackboneTable([LevelCount("2", 5)], [LevelCount("2", 10)], []) == Failure(UnexpectedSize(1))
  {
  }

  class Panel {
    const levels: seq<string> := Levels
    const states: seq<string> := States
    var values: Values

    ghost predicate Valid()
      reads this
    {
      Complete(values)
    }

    /** Starts from zero counts and stores each query row in turn. */
    constructor (queryCounts: seq<QueryCount>)
      requires LevelsKnown(queryCounts)
      ensures values == Tabulate(queryCounts)
      ensures Valid()
    {
      values := Zeroes();
      new;
      for k := 0 to |queryCounts|
        invariant values == Tabulate(queryCounts[..k])
      {
        var h := queryCounts[k];
        assert queryCounts[..k + 1][..k] == queryCounts[..k];
        values := values[h.level := values[h.level][h.rel := h.count]];
      }
      assert queryCounts[..|queryCounts|] == queryCounts;
      TabulateComplete(queryCounts);
    }

    /** One state's row of the counts table: the state, its count at each
        level, and their sum. */
    method StateRow(state: string) returns (row: seq<Cell>)
      requires Valid() && state in States
      ensures IsStateRow(values, row, state)
    {
      row := [Str(state)];
      var tot := 0;
      for j := 0 to |levels|
        invariant |row| == j + 1 && row[0] == Str(state)
        invariant forall i :: 0 <= i < j ==> row[i + 1] == Num(values[Levels[i]][state])
        invariant tot == SumNums(row[1..])
      {
        var count := values[levels[j]][state];
        assert (row + [Num(count)])[1..] == row[1..] + [Num(count)];
        row := row + [Num(count)];
        tot := tot + count;
      }
      assert (row + [Num(tot)])[1..|Levels| + 1] == row[1..];
      row := row + [Num(tot)];
    }

    /** The counts table: one row per state holding its count at each level
        and their sum under All, then a Total row holding every column's sum
        over the three state rows. */
    method CountsTable() returns (headings: seq<Cell>, rows: seq<seq<Cell>>)
      requires Valid()
      ensures headings == CountsHeadings()
      ensures |rows| == |States| + 1
      ensures forall r :: 0 <= r < |States| ==> IsStateRow(values, rows[r], States[r])
      ensures |rows[|States|]| == |Levels| + 2 && rows[|States|][0] == Str("Total")
      ensures forall c :: 1 <= c <= |Levels| + 1 ==>
                rows[|States|][c] == Num(ColumnSum(rows, c, |States|))
      ensures rows[|States|][|Levels| + 1] == Num(SumNums(rows[|States|][1..|Levels| + 1]))
    {
      rows := [];
      for r := 0 to |states|
        invariant |rows| == r
        invariant forall k :: 0 <= k < r ==> IsStateRow(values, rows[k], States[k])
      {
        var row := StateRow(states[r]);
        rows := rows + [row];
      }
      var sumRow := TotalRow(rows);
      ColumnSumPrefix(rows, sumRow);
      rows := rows + [sumRow];
      GrandTotal(rows, |States|);
      headings := CountsHeadings();
    }
  }

  /** The Total row of the counts table: "Total", then every column's sum
      over the rows; a row's label in column 0 is skipped. */
  method TotalRow(rows: seq<seq<Cell>>) returns (sumRow: seq<Cell>)
    requires forall r :: 0 <= r < |rows| ==> |rows[r]| == |Levels| + 2
    ensures |sumRow| == |Levels| + 2 && sumRow[0] == Str("Total")
    ensures forall c :: 1 <= c < |Levels| + 2 ==> sumRow[c] == Num(ColumnSum(rows, c, |rows|))
  {
    sumRow := [Str("Total")] + seq(|Levels| + 1, _ => Num(0));
    for r := 0 to |rows|
      invariant |sumRow| == |Levels| + 2 && sumRow[0] == Str("Total")
      invariant forall c :: 1 <= c < |Levels| + 2 ==> sumRow[c] == Num(ColumnSum(rows, c, r))
    {
      var row := rows[r];
      for i := 0 to |row|
        invariant |sumRow| == |Levels| + 2 && sumRow[0] == Str("Total")
        invariant forall c :: 1 <= c < i ==> sumRow[c] == Num(ColumnSum(rows, c, r + 1))
        invariant forall c :: i <= c < |Levels| + 2 && 1 <= c ==> sumRow[c] == Num(ColumnSum(rows, c, r))
      {
        if i > 0 {
          var value := if row[i].Num? then row[i].n else 0;
          sumRow := sumRow[i := Num(sumRow[i].n + value)];
        }
      }
    }
  }

  /** A column sum over a prefix of the rows is unchanged by appending a row. */
  lemma {:induction false} ColumnSumPrefix(rows: seq<seq<Cell>>, extra: seq<Cell>)
    ensures forall c :: 0 <= c < |extra| ==> ColumnSum(rows + [extra], c, |rows|) == ColumnSum(rows, c, |rows|)
  {
    forall c | 0 <= c < |extra|
      ensures ColumnSum(rows + [extra], c, |rows|) == ColumnSum(rows, c, |rows|)
    {
      ColumnSumAppend(rows, extra, c, |rows|);
    }
  }

  lemma {:induction false} ColumnSumAppend(rows: seq<seq<Cell>>, extra: seq<Cell>, c: nat, r: nat)
    requires r <= |rows|
    ensures ColumnSum(rows + [extra], c, r) == ColumnSum(rows, c, r)
    decreases r
  {
    if r > 0 {
      assert (rows + [extra])[r - 1] == rows[r - 1];
      ColumnSumAppend(rows, extra, c, r - 1);
    }
  }

  // ---------------------------------------------------------------------------
  // The grand total of the counts table

  /** The sum of cells 1..c of a row. */
  function PrefixSum(row: seq<Cell>, c: nat): int {
    if c == 0 then 0 else PrefixSum(row, c - 1) + CellValue(row, c)
  }

  /** The sum of cells 1..c of each of the first r rows. */
  function RowsSum(rows: seq<seq<Cell>>, c: nat, r: nat): int
    requires r <= |rows|
  {
    if r == 0 then 0 else RowsSum(rows, c, r - 1) + PrefixSum(rows[r - 1], c)
  }

  /** The sum of the column sums of columns 1..c over the first r rows. */
  function ColumnsSum(rows: seq<seq<Cell>>, c: nat, r: nat): int
    requires r <= |rows|
  {
    if c == 0 then 0 else ColumnsSum(rows, c - 1, r) + ColumnSum(rows, c, r)
  }

  /** SumNums of cells 1..c is the prefix sum. */
  lemma {:induction false} SumNumsPrefix(row: seq<Cell>, c: nat)
    requires c < |row|
    ensures SumNums(row[1..c + 1]) == PrefixSum(row, c)
  {
    if c > 0 {
      SumNumsPrefix(row, c - 1);
      assert row[1..c + 1][..c - 1] == row[1..c];
    }
  }

  /** Widening the block by one column adds that column's sum. */
  lemma {:induction false} RowsSumStep(rows: seq<seq<Cell>>, c: nat, r: nat)
    requires r <= |rows|
    ensures RowsSum(rows, c + 1, r) == RowsSum(rows, c, r) + ColumnSum(rows, c + 1, r)
  {
    if r > 0 {
      RowsSumStep(rows, c, r - 1);
    }
  }

  /** Summing a block of cells row by row or column by column gives the same. */
  lemma {:induction false} SumsSwap(rows: seq<seq<Cell>>, c: nat, r: nat)
    requires r <= |rows|
    ensures RowsSum(rows, c, r) == ColumnsSum(rows, c, r)
  {
    if c > 0 {
      SumsSwap(rows, c - 1, r);
      RowsSumStep(rows, c - 1, r);
    } else if r > 0 {
      SumsSwap(rows, c, r - 1);
    }
  }

  /** The sum of an All column whose cells are their rows' sums. */
  lemma {:induction false} AllColumnSum(rows: seq<seq<Cell>>, r: nat)
    requires r <= |rows|
    requires forall k :: 0 <= k < r ==>
               |rows[k]| == |Levels| + 2 && rows[k][|Levels| + 1] == Num(SumNums(rows[k][1..|Levels| + 1]))
    ensures ColumnSum(rows, |Levels| + 1, r) == RowsSum(rows, |Levels|, r)
  {
    if r > 0 {
      AllColumnSum(rows, r - 1);
      SumNumsPrefix(rows[r - 1], |Levels|);
    }
  }

  /** A row of column sums sums to the sum of those columns. */
  lemma {:induction false} TotalsPrefix(rows: seq<seq<Cell>>, total: seq<Cell>, n: nat, c: nat)
    requires n <= |rows| && c < |total|
    requires forall j :: 1 <= j <= c ==> total[j] == Num(ColumnSum(rows, j, n))
    ensures PrefixSum(total, c) == ColumnsSum(rows, c, n)
  {
    if c > 0 {
      TotalsPrefix(rows, total, n, c - 1);
    }
  }

  /** The grand total of the counts table is consistent: the Total row's All
      cell, the sum of the All column, is also the sum of the Total row's
      level cells. */
  lemma GrandTotal(rows: seq<seq<Cell>>, n: nat)
    requires n < |rows|
    requires forall k :: 0 <= k < n ==>
               |rows[k]| == |Levels| + 2 && rows[k][|Levels| + 1] == Num(SumNums(rows[k][1..|Levels| + 1]))
    requires |rows[n]| == |Levels| + 2
    requires forall c :: 1 <= c <= |Levels| + 1 ==> rows[n][c] == Num(ColumnSum(rows, c, n))
    ensures rows[n][|Levels| + 1] == Num(SumNums(rows[n][1..|Levels| + 1]))
  {
    AllColumnSum(rows, n);
    SumsSwap(rows, |Levels|, n);
    TotalsPrefix(rows, rows[n], n, |Levels|);
    SumNumsPrefix(rows[n], |Levels|);
  }
}
