/** The shared spreadsheet as the ticket queue reaches it through gspread: a grid
    of text cells addressed by 1-based row and column numbers, row 1 holding the
    column headers. Reads of records go by header name, `find` searches every
    cell, and `update_cell` writes one cell at a time. */
module Sheet {

  datatype Option<+T> = None | Some(value: T)

  /** Sheet row n is g[n - 1]; cell (n, c) is g[n - 1][c - 1]. */
  type Grid = seq<seq<string>>

  /** Every row as wide as the header, the shape in which a worksheet's values
      are read back (short rows padded with blank cells). */
  predicate Rectangular(g: Grid) {
    forall i :: 0 <= i < |g| ==> |g[i]| == |g[0]|
  }

  /** Two grids with the same number of rows and the same width row by row. */
  predicate SameShape(g: Grid, h: Grid) {
    |g| == |h| && forall i :: 0 <= i < |g| ==> |g[i]| == |h[i]|
  }

  /** The column a record field is read from. A record pairs each header cell
      with the cell below it, so when a name heads several columns the last one
      wins. */
  function ColumnOf(header: seq<string>, name: string): (j: Option<nat>)
    ensures j.Some? ==> j.value < |header| && header[j.value] == name
    ensures j.Some? ==> forall k :: j.value < k < |header| ==> header[k] != name
    ensures j.None? <==> name !in header
  {
    if |header| == 0 then None
    else if header[|header| - 1] == name then Some(|header| - 1)
    else
      assert header == header[..|header| - 1] + [header[|header| - 1]];
      ColumnOf(header[..|header| - 1], name)
  }

  /** The value of field `name` in the record of sheet row n: the cell of that
      row under the header `name`, blank where the row is shorter than the
      header. A column that does not exist reads as blank; the queue checks
      for its columns before it reads them. */
  function Value(g: Grid, n: nat, name: string): (v: string)
    requires 1 <= n <= |g|
    ensures ColumnOf(g[0], name).Some? && ColumnOf(g[0], name).value < |g[n - 1]| ==>
      v == g[n - 1][ColumnOf(g[0], name).value]
    ensures ColumnOf(g[0], name).Some? && ColumnOf(g[0], name).value >= |g[n - 1]| ==> v == ""
    ensures name in g[0] && Rectangular(g) ==> v in g[n - 1]
    ensures name !in g[0] ==> v == ""
  {
    match ColumnOf(g[0], name)
    case None => ""
    case Some(j) => if j < |g[n - 1]| then g[n - 1][j] else ""
  }

  /** Some cell of sheet row n equals `text`. */
  predicate RowHolds(g: Grid, n: nat, text: string)
    requires 1 <= n <= |g|
  {
    text in g[n - 1]
  }

  /** Worksheet.find: the row of the first cell, in row-major order, whose
      text equals `text`, header row included and every column searched. */
  function FindRow(g: Grid, text: string): (r: Option<nat>)
    ensures r.Some? ==> 1 <= r.value <= |g| && RowHolds(g, r.value, text)
    ensures r.Some? ==> forall k :: 1 <= k < r.value ==> !RowHolds(g, k, text)
    ensures r.None? <==> forall k :: 1 <= k <= |g| ==> !RowHolds(g, k, text)
  {
    FindFrom(g, text, 1)
  }

  function FindFrom(g: Grid, text: string, from: nat): (r: Option<nat>)
    requires from >= 1
    ensures r.Some? ==> from <= r.value <= |g| && RowHolds(g, r.value, text)
    ensures r.Some? ==> forall k :: from <= k < r.value ==> !RowHolds(g, k, text)
    ensures r.None? <==> forall k :: from <= k <= |g| ==> !RowHolds(g, k, text)
    decreases |g| + 1 - from
  {
    if from > |g| then None
    else if RowHolds(g, from, text) then Some(from)
    else FindFrom(g, text, from + 1)
  }

  /** When the text occurs in row n and in no other row, find returns row n. */
  lemma FindRowOnlyIn(g: Grid, text: string, n: nat)
    requires 1 <= n <= |g| && RowHolds(g, n, text)
    requires forall k :: 1 <= k <= |g| && k != n ==> !RowHolds(g, k, text)
    ensures FindRow(g, text) == Some(n)
  {
  }

  /** One update_cell(row, col, value) call. */
  datatype Write = Write(row: int, col: int, value: string)

  /** A cell of the grid as a read returns it. A write outside it is
      modelled as refused, although the store accepts writes up to the
      worksheet's own size, which a read does not reveal. */
  predicate InGrid(g: Grid, row: int, col: int) {
    1 <= row <= |g| && 1 <= col <= |g[row - 1]|
  }

  /** The grid after cell (row, col) is set to v. */
  function SetCell(g: Grid, row: int, col: int, v: string): (h: Grid)
    requires InGrid(g, row, col)
    ensures SameShape(g, h)
    ensures h[row - 1][col - 1] == v
    ensures forall i, j :: 0 <= i < |g| && 0 <= j < |g[i]| && (i != row - 1 || j != col - 1) ==> h[i][j] == g[i][j]
  {
    g[row - 1 := g[row - 1][col - 1 := v]]
  }

  /** The outcome of a sequence of single-cell writes: the grid left behind
      and, when one was refused, that write. */
  datatype Applied = Applied(grid: Grid, rejected: Option<Write>)

  /** Runs the writes in order. The store accepts the first `accepted` calls
      (network errors and rate limits are outside the program's control); a
      refused call, or one outside the grid, raises, and the writes after it
      are never made. There is no rollback of the writes before it. */
  function Apply(g: Grid, ws: seq<Write>, accepted: nat): (a: Applied)
    ensures SameShape(g, a.grid)
    ensures a.rejected.Some? ==> a.rejected.value in ws
    decreases ws
  {
    if ws == [] then Applied(g, None)
    else if accepted == 0 || !InGrid(g, ws[0].row, ws[0].col) then Applied(g, Some(ws[0]))
    else Apply(SetCell(g, ws[0].row, ws[0].col, ws[0].value), ws[1..], accepted - 1)
  }

  /** All writes go through exactly when the store accepts as many calls as
      there are writes and every write addresses a cell of the grid. */
  lemma {:induction false} ApplySucceeds(g: Grid, ws: seq<Write>, accepted: nat)
    ensures Apply(g, ws, accepted).rejected.None? <==>
            accepted >= |ws| && forall k :: 0 <= k < |ws| ==> InGrid(g, ws[k].row, ws[k].col)
    decreases ws
  {
    if ws != [] && accepted != 0 && InGrid(g, ws[0].row, ws[0].col) {
      var h := SetCell(g, ws[0].row, ws[0].col, ws[0].value);
      ApplySucceeds(h, ws[1..], accepted - 1);
      assert forall row, col :: InGrid(h, row, col) <==> InGrid(g, row, col);
      assert forall k :: 1 <= k < |ws| ==> ws[1..][k - 1] == ws[k];
    }
  }

  /** When the first k writes are accepted and inside the grid and write k is
      not (the store's quota is used up, or the cell is outside), the run stops
      at write k: it reports write k, and the grid is the first k writes
      applied, with nothing rolled back and nothing after write k made. */
  lemma {:induction false} ApplyRefusedAt(g: Grid, ws: seq<Write>, accepted: nat, k: nat)
    requires k < |ws| && k <= accepted
    requires forall i :: 0 <= i < k ==> InGrid(g, ws[i].row, ws[i].col)
    requires k == accepted || !InGrid(g, ws[k].row, ws[k].col)
    ensures Apply(g, ws[..k], k).rejected.None?
    ensures Apply(g, ws, accepted) == Applied(Apply(g, ws[..k], k).grid, Some(ws[k]))
    decreases k
  {
    if k > 0 {
      assert InGrid(g, ws[0].row, ws[0].col);
      var h := SetCell(g, ws[0].row, ws[0].col, ws[0].value);
      var rest := ws[1..];
      assert forall i :: 0 <= i < k - 1 ==> InGrid(h, rest[i].row, rest[i].col) by {
        forall i | 0 <= i < k - 1 ensures InGrid(h, rest[i].row, rest[i].col) {
          assert rest[i] == ws[i + 1];
          assert InGrid(g, ws[i + 1].row, ws[i + 1].col);
        }
      }
      assert rest[k - 1] == ws[k];
      assert InGrid(h, ws[k].row, ws[k].col) == InGrid(g, ws[k].row, ws[k].col);
      ApplyRefusedAt(h, rest, accepted - 1, k - 1);
      assert Apply(g, ws, accepted) == Apply(h, rest, accepted - 1);
      var pre := ws[..k];
      assert pre[0] == ws[0] && pre[1..] == rest[..k - 1];
      assert Apply(g, pre, k) == Apply(h, rest[..k - 1], k - 1);
    }
  }

  /** Every refused run stops at some write k: the writes before it went
      through and stay, write k is the one reported, and none after it is
      made. */
  lemma ApplyStopsAt(g: Grid, ws: seq<Write>, accepted: nat)
    requires Apply(g, ws, accepted).rejected.Some?
    ensures exists k :: (0 <= k < |ws| && ws[k] == Apply(g, ws, accepted).rejected.value &&
                         Apply(g, ws[..k], k).rejected.None? &&
                         (k >= accepted || !InGrid(g, ws[k].row, ws[k].col)) &&
                         Apply(g, ws, accepted).grid == Apply(g, ws[..k], k).grid)
  {
    var k := 0;
    while k < |ws| && k < accepted && InGrid(g, ws[k].row, ws[k].col)
      invariant k <= |ws| && k <= accepted
      invariant forall i :: 0 <= i < k ==> InGrid(g, ws[i].row, ws[i].col)
    {
      k := k + 1;
    }
    ApplySucceeds(g, ws, accepted);
    ApplyRefusedAt(g, ws, accepted, k);
  }

  /** A cell that no write addresses keeps its value, whether or not the
      sequence was cut short. */
  lemma {:induction false} ApplyLeavesUntargeted(g: Grid, ws: seq<Write>, accepted: nat, i: nat, j: nat)
    requires i < |g| && j < |g[i]|
    requires forall w :: w in ws ==> w.row - 1 != i || w.col - 1 != j
    ensures Apply(g, ws, accepted).grid[i][j] == g[i][j]
    decreases ws
  {
    if ws != [] && accepted != 0 && InGrid(g, ws[0].row, ws[0].col) {
      var h := SetCell(g, ws[0].row, ws[0].col, ws[0].value);
      assert forall w :: w in ws[1..] ==> w in ws;
      ApplyLeavesUntargeted(h, ws[1..], accepted - 1, i, j);
    }
  }

  /** After a run with no refused write, a written cell holds the value of the
      write to it when no later write addresses the same cell. */
  lemma {:induction false} ApplyStores(g: Grid, ws: seq<Write>, accepted: nat, k: nat)
    requires Apply(g, ws, accepted).rejected.None?
    requires k < |ws|
    requires forall m :: k < m < |ws| ==> ws[m].row != ws[k].row || ws[m].col != ws[k].col
    ensures InGrid(g, ws[k].row, ws[k].col)
    ensures Apply(g, ws, accepted).grid[ws[k].row - 1][ws[k].col - 1] == ws[k].value
    decreases ws
  {
    var h := SetCell(g, ws[0].row, ws[0].col, ws[0].value);
    if k == 0 {
      assert forall w :: w in ws[1..] ==> w.row != ws[0].row || w.col != ws[0].col by {
        forall w | w in ws[1..] ensures w.row != ws[0].row || w.col != ws[0].col {
          var m :| 0 <= m < |ws[1..]| && ws[1..][m] == w;
          assert ws[m + 1] == w;
        }
      }
      ApplyLeavesUntargeted(h, ws[1..], accepted - 1, ws[0].row - 1, ws[0].col - 1);
    } else {
      ApplyStores(h, ws[1..], accepted - 1, k - 1);
    }
  }

  /** A row that no write addresses is left as it was. */
  lemma ApplyLeavesRow(g: Grid, ws: seq<Write>, accepted: nat, i: nat)
    requires i < |g|
    requires forall w :: w in ws ==> w.row - 1 != i
    ensures Apply(g, ws, accepted).grid[i] == g[i]
  {
    var h := Apply(g, ws, accepted).grid;
    forall j | 0 <= j < |g[i]| ensures h[i][j] == g[i][j] {
      ApplyLeavesUntargeted(g, ws, accepted, i, j);
    }
  }
}
