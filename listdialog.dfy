/**
 * The data side of the list dialog (`list_dialog`, `visible`,
 * `add_selected_row`) and the result rules it shares with `input_dialog`, in
 * src/textadept_gtk.c.
 */
module ListDialog {
  import opened Wrappers
  import ListSearch

  /** A list-store cell: unset cells (past the last item) read as NULL. */
  type Cell = Option<string>
  type Row = seq<Cell>

  /** What the cell at row `r`, column `c` holds once the first `filled` items are stored. */
  function CellAt(items: seq<string>, filled: nat, n: nat, r: nat, c: nat): Cell
    requires filled <= |items|
  {
    if r * n + c < filled then Some(items[r * n + c]) else None
  }

  /** The list store after all items are poured, row by row, into rows of `n` columns. */
  function PackedRows(items: seq<string>, n: nat): (rows: seq<Row>)
    requires n >= 1
  {
    seq((|items| + n - 1) / n, r requires 0 <= r => seq(n, c requires 0 <= c => CellAt(items, |items|, n, r, c)))
  }

  /** Two slots of an `n`-column grid with the same row-major index are the same slot. */
  lemma {:induction false} SlotUnique(n: nat, r: nat, c: nat, r2: nat, c2: nat)
    requires c < n && c2 < n && r * n + c == r2 * n + c2
    ensures r == r2 && c == c2
  {
    if r < r2 {
      assert r2 * n >= (r + 1) * n by { MulLe(r + 1, r2, n); }
      assert false;
    } else if r2 < r {
      assert r * n >= (r2 + 1) * n by { MulLe(r2 + 1, r, n); }
      assert false;
    }
  }

  lemma MulLe(a: nat, b: nat, n: nat)
    requires a <= b
    ensures a * n <= b * n
  {
    assert b * n == a * n + (b - a) * n;
  }

  /** Integer division is determined by a quotient and a remainder below the divisor. */
  lemma {:induction false} DivUnique(x: nat, n: nat, q: nat, m: nat)
    requires n >= 1 && m < n && x == q * n + m
    ensures x / n == q
  {
    var q2, m2 := x / n, x % n;
    assert x == q2 * n + m2;
    SlotUnique(n, q, m, q2, m2);
  }

  /** `list_dialog`'s loop: `j` counts columns and a new row is appended whenever it is 0. */
  method PackRows(items: seq<string>, n: nat) returns (rows: seq<Row>)
    requires n >= 1
    ensures rows == PackedRows(items, n)
  {
    rows := [];
    var j := 0;
    var i := 1;
    while i <= |items|
      invariant 1 <= i <= |items| + 1
      invariant 0 <= j < n
      invariant |rows| * n == i - 1 + (if j == 0 then 0 else n - j)
      invariant forall r :: 0 <= r < |rows| ==> |rows[r]| == n
      invariant forall r, c :: 0 <= r < |rows| && 0 <= c < n ==> rows[r][c] == CellAt(items, i - 1, n, r, c)
    {
      if j == 0 {
        rows := rows + [seq(n, _ => None)];
        var newRow, last := rows[|rows| - 1], |rows| - 1;
        forall c | 0 <= c < n ensures newRow[c] == CellAt(items, i - 1, n, last, c) {
          assert last * n == i - 1;
        }
      }
      rows := PlaceItem(items, n, rows, i - 1, j);
      j := j + 1;
      if j == n {
        j := 0;
      }
      i := i + 1;
    }
    FilledRows(items, n, rows, j);
  }

  /** Once every item is placed, the rows built so far are the packed list store. */
  lemma FilledRows(items: seq<string>, n: nat, rows: seq<Row>, j: nat)
    requires n >= 1 && j < n
    requires |rows| * n == |items| + (if j == 0 then 0 else n - j)
    requires forall r :: 0 <= r < |rows| ==> |rows[r]| == n
    requires forall r, c :: 0 <= r < |rows| && 0 <= c < n ==> rows[r][c] == CellAt(items, |items|, n, r, c)
    ensures rows == PackedRows(items, n)
  {
    assert |rows| == (|items| + n - 1) / n by {
      var pad := if j == 0 then 0 else n - j;
      DivUnique(|items| + n - 1, n, |rows|, n - 1 - pad);
    }
    var packed := PackedRows(items, n);
    forall r | 0 <= r < |rows| ensures rows[r] == packed[r] {
      assert forall c :: 0 <= c < n ==> rows[r][c] == packed[r][c];
    }
  }

  /** One `gtk_list_store_set` of the loop: item `k` (0-based) goes to the last row, column `j`. */
  method PlaceItem(items: seq<string>, n: nat, rows: seq<Row>, k: nat, j: nat) returns (rows': seq<Row>)
    requires k < |items| && j < n && |rows| >= 1
    requires (|rows| - 1) * n + j == k
    requires forall r :: 0 <= r < |rows| ==> |rows[r]| == n
    requires forall r, c :: 0 <= r < |rows| && 0 <= c < n ==> rows[r][c] == CellAt(items, k, n, r, c)
    ensures |rows'| == |rows|
    ensures forall r :: 0 <= r < |rows'| ==> |rows'[r]| == n
    ensures forall r, c :: 0 <= r < |rows'| && 0 <= c < n ==> rows'[r][c] == CellAt(items, k + 1, n, r, c)
  {
    var last := |rows| - 1;
    rows' := rows[last := rows[last][j := Some(items[k])]];
    forall r, c | 0 <= r < |rows'| && 0 <= c < n
      ensures rows'[r][c] == CellAt(items, k + 1, n, r, c)
    {
      if r * n + c == k {
        SlotUnique(n, r, c, last, j);
      } else if r == last && c == j {
      }
    }
  }

  /** Item `k` (counting from 1) lands in row `(k - 1) / n`, column `(k - 1) % n`. */
  lemma {:induction false} ItemPlacement(items: seq<string>, n: nat, k: nat)
    requires n >= 1 && 1 <= k <= |items|
    ensures (k - 1) / n < |PackedRows(items, n)|
    ensures PackedRows(items, n)[(k - 1) / n][(k - 1) % n] == Some(items[k - 1])
  {
    var q := (k - 1) / n;
    var total := (|items| + n - 1) / n;
    assert q * n + (k - 1) % n == k - 1;
    assert total * n + (|items| + n - 1) % n == |items| + n - 1;
    if total <= q {
      MulLe(total, q, n);
      assert false;
    }
  }

  /** Only the last row can have unset cells. */
  lemma {:induction false} OnlyLastRowShort(items: seq<string>, n: nat, r: nat, c: nat)
    requires n >= 1 && r + 1 < |PackedRows(items, n)| && c < n
    ensures PackedRows(items, n)[r][c].Some?
  {
    var total := (|items| + n - 1) / n;
    assert total * n + (|items| + n - 1) % n == |items| + n - 1;
    MulLe(r + 2, total, n);
    assert (r + 2) * n == r * n + n + n;
  }

  /**
   * `visible`: a row is shown when the search key matches its search column.
   * An unset cell would be dereferenced for a non-empty key, so the cell must
   * then be set.
   */
  predicate Visible(row: Row, column: nat, key: string)
    requires column < |row|
    requires key != [] ==> row[column].Some?
    ensures key != [] && row[column].value == [] ==> !Visible(row, column, key)
  {
    key == [] || ListSearch.MatchesKey(key, row[column].value)
  }

  /** Every row's search cell exists, and is set whenever the key is not empty. */
  predicate Searchable(rows: seq<Row>, column: nat, key: string) {
    forall r :: 0 <= r < |rows| ==> column < |rows[r]| && (key != [] ==> rows[r][column].Some?)
  }

  /** The rows from `start` on that the filter model shows, as indices into the list store, in order. */
  function VisibleFrom(rows: seq<Row>, column: nat, key: string, start: nat): (shown: seq<nat>)
    requires Searchable(rows, column, key) && start <= |rows|
    ensures forall k :: 0 <= k < |shown| ==> start <= shown[k] < |rows| && Visible(rows[shown[k]], column, key)
    ensures forall r :: start <= r < |rows| && Visible(rows[r], column, key) ==> r in shown
    ensures forall k, l :: 0 <= k < l < |shown| ==> shown[k] < shown[l]
    decreases |rows| - start
  {
    if start == |rows| then []
    else
      var rest := VisibleFrom(rows, column, key, start + 1);
      if Visible(rows[start], column, key) then [start] + rest else rest
  }

  /** The rows the filter model shows. */
  function VisibleRows(rows: seq<Row>, column: nat, key: string): seq<nat>
    requires Searchable(rows, column, key)
  {
    VisibleFrom(rows, column, key, 0)
  }

  /**
   * `add_selected_row`: each selected row of the filter model, converted to its
   * list-store index, is reported counting from 1.
   */
  function Reported(shown: seq<nat>, selected: seq<nat>): (indices: seq<int>)
    requires forall k :: 0 <= k < |selected| ==> selected[k] < |shown|
    ensures |indices| == |selected|
  {
    seq(|selected|, k requires 0 <= k < |selected| => shown[selected[k]] + 1)
  }

  /** Every reported index names, counting from 1, a list-store row that matches the key. */
  lemma {:induction false} ReportedRowsMatch(rows: seq<Row>, column: nat, key: string, selected: seq<nat>)
    requires Searchable(rows, column, key)
    requires forall k :: 0 <= k < |selected| ==> selected[k] < |VisibleRows(rows, column, key)|
    ensures forall k :: 0 <= k < |selected| ==>
      var i := Reported(VisibleRows(rows, column, key), selected)[k];
      1 <= i <= |rows| && (key == [] || ListSearch.MatchesKey(key, rows[i - 1][column].value))
  {
    var shown := VisibleRows(rows, column, key);
    forall k | 0 <= k < |selected|
      ensures var i := Reported(shown, selected)[k];
        1 <= i <= |rows| && (key == [] || ListSearch.MatchesKey(key, rows[i - 1][column].value))
    {
      assert Reported(shown, selected)[k] == shown[selected[k]] + 1;
      assert Visible(rows[shown[selected[k]]], column, key);
    }
  }

  /** A value a dialog returns to Lua. */
  datatype Value = Index(index: int) | Indices(indices: seq<int>) | Text(text: string) | Button(button: int)

  /** Both dialogs: no result for a closed dialog, or for button 2 unless buttons are returned. */
  predicate Cancelled(button: int, returnButton: bool)
    ensures button < 1 ==> Cancelled(button, returnButton)
    ensures button == 1 ==> !Cancelled(button, returnButton)
    ensures returnButton ==> (Cancelled(button, returnButton) <==> button < 1)
  {
    button < 1 || (button == 2 && !returnButton)
  }

  /** `input_dialog`'s results: the entry text, then the button when asked for. */
  function InputResult(button: int, returnButton: bool, text: string): (values: seq<Value>)
    ensures |values| == 0 <==> Cancelled(button, returnButton)
    ensures values != [] ==> values[0] == Text(text)
    ensures values != [] ==> (|values| == 2 <==> returnButton)
    ensures |values| == 2 ==> values[1] == Button(button)
  {
    if Cancelled(button, returnButton) then []
    else [Text(text)] + (if returnButton then [Button(button)] else [])
  }

  /**
   * `list_dialog`'s results: the reported indices (all of them, or the first
   * for a single-selection list), then the button when asked for.
   */
  function ListResult(button: int, returnButton: bool, multiple: bool, reported: seq<int>): (values: seq<Value>)
    ensures |values| == 0 <==> Cancelled(button, returnButton) || reported == []
    ensures values != [] ==> (|values| == 2 <==> returnButton)
    ensures values != [] && multiple ==> values[0] == Indices(reported)
    ensures values != [] && !multiple ==> values[0] == Index(reported[0])
    ensures |values| == 2 ==> values[1] == Button(button)
  {
    if Cancelled(button, returnButton) || reported == [] then []
    else
      [if multiple then Indices(reported) else Index(reported[0])] + (if returnButton then [Button(button)] else [])
  }
}
