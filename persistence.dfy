/** The tabular file out/points.csv as a sequence of rows (id, type, x, y):
    what saving writes and what loading rebuilds from it. */
module Persistence {
  import opened Points

  /** One row of the file. The fixed flag is not stored. */
  datatype Row = Row(id: int, slot: Slot, x: real, y: real)

  /** The rows saving writes: each entry projected to (id, type, x, y), in list order. */
  function Rows(ps: seq<Point>): seq<Row>
  {
    seq(|ps|, i requires 0 <= i < |ps| => Row(ps[i].id, ps[i].slot, ps[i].x, ps[i].y))
  }

  /** The entries loading appends: one fixed point per row, drawn by the
      canvas item created for that row. */
  function Loaded(rows: seq<Row>, items: seq<nat>): seq<Point>
    requires |items| == |rows|
  {
    if rows == [] then []
    else
      var n := |rows| - 1;
      Loaded(rows[..n], items[..n]) + [Point(rows[n].id, rows[n].slot, rows[n].x, rows[n].y, items[n], true)]
  }

  /** Loading keeps the file order: entry i is row i, fixed, with item i. */
  lemma {:induction false} LoadedAt(rows: seq<Row>, items: seq<nat>)
    requires |items| == |rows|
    ensures |Loaded(rows, items)| == |rows|
    ensures forall i :: 0 <= i < |rows| ==>
      Loaded(rows, items)[i] == Point(rows[i].id, rows[i].slot, rows[i].x, rows[i].y, items[i], true)
  {
    if rows != [] {
      var n := |rows| - 1;
      LoadedAt(rows[..n], items[..n]);
    }
  }

  function Max(a: int, b: int): int
  {
    if a < b then b else a
  }

  /** The current id after loading `rows` from the current id `start`. */
  function NextId(start: int, rows: seq<Row>): int
  {
    if rows == [] then start
    else
      var n := |rows| - 1;
      Max(NextId(start, rows[..n]), rows[n].id + 1)
  }

  /** NextId is max(start, id + 1 for every row): never below `start`, above
      every loaded id, and equal to `start` or to some row's id + 1. */
  lemma {:induction false} NextIdIsMax(start: int, rows: seq<Row>)
    ensures start <= NextId(start, rows)
    ensures forall i :: 0 <= i < |rows| ==> rows[i].id < NextId(start, rows)
    ensures NextId(start, rows) == start || exists i :: 0 <= i < |rows| && NextId(start, rows) == rows[i].id + 1
  {
    if rows != [] {
      var n := |rows| - 1;
      NextIdIsMax(start, rows[..n]);
      assert forall i :: 0 <= i < n ==> rows[..n][i] == rows[i];
      if NextId(start, rows) != start && NextId(start, rows) != rows[n].id + 1 {
        var i :| 0 <= i < n && NextId(start, rows[..n]) == rows[..n][i].id + 1;
        assert NextId(start, rows) == rows[i].id + 1;
      }
    }
  }

  /** Saving the list and loading that file gives back the same (id, type, x, y)
      tuples in the same order, each one fixed. */
  lemma SaveThenLoad(ps: seq<Point>, items: seq<nat>)
    requires |items| == |ps|
    ensures |Loaded(Rows(ps), items)| == |ps|
    ensures forall i :: 0 <= i < |ps| ==> Loaded(Rows(ps), items)[i] == ps[i].(item := items[i], fixed := true)
  {
    LoadedAt(Rows(ps), items);
  }

  /** Loading a file and saving the result writes the same file. */
  lemma LoadThenSave(rows: seq<Row>, items: seq<nat>)
    requires |items| == |rows|
    ensures Rows(Loaded(rows, items)) == rows
  {
    LoadedAt(rows, items);
  }

  /** The fixed flag is not persisted: a commit leaves the file content as it was. */
  lemma CommitKeepsRows(ps: seq<Point>, id: int)
    ensures Rows(FixId(ps, id)) == Rows(ps)
  {
  }

  /** Right after a load into an empty list, every loaded id lies below the
      current id, so the invariant holds with a fresh session. */
  lemma LoadedInv(rows: seq<Row>, items: seq<nat>, start: int)
    requires |items| == |rows|
    ensures StoreInv(Loaded(rows, items), NextId(start, rows), NextId(start, rows))
    ensures !HasId(Loaded(rows, items), NextId(start, rows))
    ensures !HasFixed(Loaded(rows, items), NextId(start, rows))
  {
    LoadedAt(rows, items);
    NextIdIsMax(start, rows);
  }
}
