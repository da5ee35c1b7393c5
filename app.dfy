/** The point-entry state machine of the quadrant click tool: the application
    object's point list, its id/slot cursor, the drag in progress and the
    CSV file, with the event handlers that change them. */
module Quadrant {
  import opened Points
  import opened Transform
  import opened Persistence

  /** Which branch a left click took (each prints its own message). */
  datatype ClickOutcome = OnAxisLine | IdAlreadyFixed | SlotTaken | Added

  /** Which branch the save button took. */
  datatype CommitOutcome = NoPointsForId | Committed

  /** The two kinds of Python sequence that meet in the axis-line guard of a
      click. Python never considers a tuple equal to a list. */
  datatype PyValue = PyTuple(elems: seq<nat>) | PyList(elems: seq<nat>)

  /** The axis-line guard as written: the tuple of items under the pointer
      is looked up in ([hline], [vline]), a tuple of lists. */
  predicate AxisHitAsWritten(found: seq<nat>, hline: nat, vline: nat)
  {
    PyTuple(found) in [PyList([hline]), PyList([vline])]
  }

  /** The guard as written never fires: a click right on an axis line is not ignored. */
  lemma AxisGuardAsWrittenNeverFires(found: seq<nat>, hline: nat, vline: nat)
    ensures !AxisHitAsWritten(found, hline, vline)
  {
  }

  /** The guard as intended: the item under the pointer is exactly one of the
      axis lines. It is the written guard with the one-element lists spelled
      as tuples, the kind of sequence the canvas returns. */
  function AxisHit(found: seq<nat>, hline: nat, vline: nat): (r: bool)
    ensures r <==> PyTuple(found) in [PyTuple([hline]), PyTuple([vline])]
  {
    found == [hline] || found == [vline]
  }

  /** Since at most one item is under the pointer, the intended guard is the
      axis-line test of the drag handler: some item, and it is an axis line. */
  lemma AxisHitIsDragGuard(found: seq<nat>, hline: nat, vline: nat)
    requires |found| <= 1
    ensures AxisHit(found, hline, vline) <==> |found| > 0 && (found[0] == hline || found[0] == vline)
  {
  }

  /** A click on the horizontal axis line is one the intended guard ignores and
      the written guard lets through. */
  lemma AxisGuardMissesAxisClick(hline: nat, vline: nat)
    ensures AxisHit([hline], hline, vline) && !AxisHitAsWritten([hline], hline, vline)
  {
  }

  class QuadrantApp {
    /** Canvas items of the two axis lines. */
    const hline: nat
    const vline: nat
    /** Entries (id, type, x, y, item, fixed) in insertion order. */
    var points: seq<Point>
    var currentId: int
    var currentType: Slot
    /** The canvas item a right-button drag has picked up, if any. */
    var dragItem: Option<nat>
    /** The content of out/points.csv. */
    var csv: seq<Row>
    /** The current id right after start-up; ids of this session start here. */
    ghost var sessionStart: int

    /** The file mirrors the list, and the list agrees with the cursor. */
    ghost predicate Valid()
      reads this
    {
      csv == Rows(points) && StoreInv(points, currentId, sessionStart)
    }

    /** The drag in progress, if any, holds an item that draws no fixed entry. */
    ghost predicate DragSafe()
      reads this
    {
      dragItem.Some? ==> !ItemFixed(points, dragItem.value)
    }

    /** Start-up: with no file, an empty one is written; otherwise the file is loaded.
        `items` are the canvas items drawn for the loaded rows. */
    constructor (hline: nat, vline: nat, stored: Option<seq<Row>>, items: seq<nat>)
      requires stored.Some? ==> |items| == |stored.value|
      ensures Valid()
      ensures this.hline == hline && this.vline == vline
      ensures currentType == Before && dragItem == None
      ensures stored.None? ==> points == [] && csv == [] && currentId == 1
      ensures stored.Some? ==>
        && csv == stored.value
        && points == Loaded(stored.value, items)
        && currentId == NextId(1, stored.value)
      ensures !HasFixed(points, currentId) && DragSafe()
    {
      this.hline := hline;
      this.vline := vline;
      points := [];
      currentId := 1;
      currentType := Before;
      dragItem := None;
      csv := [];
      sessionStart := 1;
      new;
      if stored.Some? {
        csv := stored.value;
        LoadCsv(items);
        assert points == Loaded(csv, items);
        LoadThenSave(csv, items);
        LoadedInv(csv, items, 1);
      } else {
        assert Rows(points) == [];
      }
    }

    /** Writes the list to the file, without the canvas items and fixed flags. */
    method SaveToCsv()
      modifies this`csv
      ensures csv == Rows(points)
    {
      csv := Rows(points);
    }

    /** Appends one fixed entry per file row, in file order, and moves the
        current id past every loaded id. */
    method LoadCsv(items: seq<nat>)
      requires |items| == |csv|
      modifies this
      ensures csv == old(csv) && currentType == old(currentType) && dragItem == old(dragItem)
      ensures points == old(points) + Loaded(csv, items)
      ensures currentId == NextId(old(currentId), csv)
      ensures sessionStart == currentId
      ensures Extends(old(points), points) && old(currentId) <= currentId
    {
      var rows := csv;
      var k := 0;
      while k < |rows|
        invariant 0 <= k <= |rows|
        invariant rows == csv && currentType == old(currentType) && dragItem == old(dragItem)
        invariant points == old(points) + Loaded(rows[..k], items[..k])
        invariant currentId == NextId(old(currentId), rows[..k])
      {
        var row := rows[k];
        points := points + [Point(row.id, row.slot, row.x, row.y, items[k], true)];
        currentId := Max(currentId, row.id + 1);
        assert rows[..k + 1][..k] == rows[..k];
        assert items[..k + 1][..k] == items[..k];
        k := k + 1;
      }
      assert rows[..k] == rows && items[..k] == items;
      LoadedAt(rows, items);
      NextIdIsMax(old(currentId), rows);
      sessionStart := currentId;
    }

    /** Whether some entry of the current id is fixed. */
    method IsCurrentIdFixed() returns (b: bool)
      ensures b == HasFixed(points, currentId)
    {
      var i := 0;
      while i < |points|
        invariant 0 <= i <= |points|
        invariant forall j :: 0 <= j < i ==> !(points[j].id == currentId && points[j].fixed)
      {
        if points[i].id == currentId && points[i].fixed {
          return true;
        }
        i := i + 1;
      }
      return false;
    }

    /** Whether the current id already has a point of type `t`. */
    method HasTypeForCurrentId(t: Slot) returns (b: bool)
      ensures b == HasSlot(points, currentId, t)
    {
      var i := 0;
      while i < |points|
        invariant 0 <= i <= |points|
        invariant forall j :: 0 <= j < i ==> !(points[j].id == currentId && points[j].slot == t)
      {
        if points[i].id == currentId && points[i].slot == t {
          return true;
        }
        i := i + 1;
      }
      return false;
    }

    /** Left click at canvas position (ex, ey). `hit` is what the canvas reports
        under the pointer; `item` is the oval the canvas draws for a new point.
        The axis-line test is the intended guard `AxisHit`, not the written one,
        which never fires. */
    method OnClick(hit: seq<nat>, ex: int, ey: int, item: nat) returns (outcome: ClickOutcome)
      requires Valid()
      modifies this
      ensures Valid()
      ensures currentId == old(currentId) && dragItem == old(dragItem) && sessionStart == old(sessionStart)
      ensures outcome == OnAxisLine <==> AxisHit(hit, hline, vline)
      ensures outcome == IdAlreadyFixed <==> !AxisHit(hit, hline, vline) && HasFixed(old(points), currentId)
      ensures outcome == SlotTaken <==>
        && !AxisHit(hit, hline, vline)
        && !HasFixed(old(points), currentId)
        && HasSlot(old(points), currentId, old(currentType))
      ensures outcome == OnAxisLine || outcome == IdAlreadyFixed ==>
        points == old(points) && currentType == old(currentType)
      ensures outcome == SlotTaken ==> points == old(points) && currentType == Flip(old(currentType))
      ensures outcome == Added ==>
        && points == old(points) + [Point(currentId, old(currentType),
                                          CanvasToMath(ex as real, ey as real).0,
                                          CanvasToMath(ex as real, ey as real).1, item, false)]
        && currentType == Flip(old(currentType))
      ensures HasFixed(points, currentId) == HasFixed(old(points), currentId)
      ensures Extends(old(points), points)
      ensures old(DragSafe()) ==> DragSafe()
    {
      if AxisHit(hit, hline, vline) {
        return OnAxisLine;
      }
      var isFixed := IsCurrentIdFixed();
      if isFixed {
        return IdAlreadyFixed;
      }
      var taken := HasTypeForCurrentId(currentType);
      if taken {
        currentType := Flip(currentType);
        return SlotTaken;
      }
      var m := CanvasToMath(ex as real, ey as real);
      var p := Point(currentId, currentType, m.0, m.1, item, false);
      AddKeepsInv(points, currentId, sessionStart, p);
      points := points + [p];
      SaveToCsv();
      currentType := Flip(currentType);
      outcome := Added;
      assert forall i :: 0 <= i < |old(points)| ==> points[i] == old(points)[i];
      assert HasFixed(points, currentId) == HasFixed(old(points), currentId);
      assert dragItem.Some? ==> ItemFixed(points, dragItem.value) == ItemFixed(old(points), dragItem.value);
    }

    /** Right-button press. `closest` is the item the canvas finds nearest the
        pointer (empty when there is none). A fixed point is not picked up. */
    method OnDragStart(closest: seq<nat>)
      requires Valid()
      modifies this`dragItem
      ensures Valid()
      ensures dragItem ==
        if |closest| == 0 || closest[0] == hline || closest[0] == vline || ItemFixed(points, closest[0])
        then old(dragItem)
        else Some(closest[0])
      ensures dragItem != old(dragItem) ==> !ItemFixed(points, dragItem.value)
      ensures old(DragSafe()) ==> DragSafe()
    {
      if |closest| == 0 || closest[0] == hline || closest[0] == vline {
        return;
      }
      var i := 0;
      while i < |points|
        invariant 0 <= i <= |points|
        invariant forall j :: 0 <= j < i ==> !(points[j].item == closest[0] && points[j].fixed)
      {
        if points[i].item == closest[0] && points[i].fixed {
          return;
        }
        i := i + 1;
      }
      dragItem := Some(closest[0]);
    }

    /** Right-button release with the dragged oval centred at canvas position
        (cx, cy): the first entry of the dragged item takes the new math position. */
    method OnDragRelease(cx: real, cy: real)
      requires Valid()
      modifies this
      ensures Valid()
      ensures dragItem == None
      ensures currentId == old(currentId) && currentType == old(currentType) && sessionStart == old(sessionStart)
      ensures old(dragItem).None? ==> points == old(points)
      ensures old(dragItem).Some? ==>
        points == MoveItem(old(points), old(dragItem).value, CanvasToMath(cx, cy).0, CanvasToMath(cx, cy).1)
      ensures HasFixed(points, currentId) == HasFixed(old(points), currentId)
      ensures Extends(old(points), points) && DragSafe()
      ensures old(DragSafe()) ==> forall i :: 0 <= i < |points| && old(points)[i].fixed ==> points[i] == old(points)[i]
    {
      if dragItem.None? {
        return;
      }
      var item := dragItem.value;
      var m := CanvasToMath(cx, cy);
      ghost var before := points;
      var i := 0;
      ghost var moved := false;
      while i < |points|
        invariant 0 <= i <= |points| && !moved
        invariant points == before && dragItem == old(dragItem)
        invariant currentId == old(currentId) && currentType == old(currentType) && sessionStart == old(sessionStart)
        invariant forall j :: 0 <= j < i ==> points[j].item != item
      {
        if points[i].item == item {
          points := points[i := Point(points[i].id, points[i].slot, m.0, m.1, item, points[i].fixed)];
          moved := true;
          break;
        }
        i := i + 1;
      }
      if moved {
        assert IndexOfItem(before, item) == Some(i);
      } else {
        assert IndexOfItem(before, item) == None;
      }
      assert points == MoveItem(before, item, m.0, m.1);
      MoveKeepsInv(before, currentId, sessionStart, item, m.0, m.1);
      if !ItemFixed(before, item) {
        MoveSparesFixed(before, item, m.0, m.1);
      }
      dragItem := None;
      SaveToCsv();
    }

    /** The save button: fixes every entry of the current id, then moves on to
        the next id with the slot reset to "before". */
    method SaveAndFix() returns (outcome: CommitOutcome)
      requires Valid()
      modifies this
      ensures Valid()
      ensures dragItem == old(dragItem) && sessionStart == old(sessionStart)
      ensures outcome == NoPointsForId <==> !HasId(old(points), old(currentId))
      ensures outcome == NoPointsForId ==>
        points == old(points) && currentId == old(currentId) && currentType == old(currentType)
      ensures outcome == Committed ==>
        && points == FixId(old(points), old(currentId))
        && currentId == old(currentId) + 1
        && currentType == Before
      ensures outcome == Committed ==> !HasId(points, currentId)
      ensures !HasFixed(old(points), old(currentId)) ==> !HasFixed(points, currentId)
      ensures Extends(old(points), points) && old(currentId) <= currentId
    {
      if !HasId(points, currentId) {
        return NoPointsForId;
      }
      ghost var before := points;
      var i := 0;
      while i < |points|
        invariant 0 <= i <= |points| == |before|
        invariant currentId == old(currentId) && currentType == old(currentType)
        invariant dragItem == old(dragItem) && sessionStart == old(sessionStart)
        invariant forall j :: 0 <= j < i ==>
          points[j] == if before[j].id == currentId then before[j].(fixed := true) else before[j]
        invariant forall j :: i <= j < |points| ==> points[j] == before[j]
      {
        if points[i].id == currentId {
          points := points[i := points[i].(fixed := true)];
        }
        i := i + 1;
      }
      assert points == FixId(before, currentId);
      CommitKeepsInv(before, currentId, sessionStart);
      SaveToCsv();
      currentId := currentId + 1;
      currentType := Before;
      outcome := Committed;
    }
  }

  /** The walk-through of one id: a "before" click at canvas (310, 280), an
      "after" click at (290, 320), a commit, and a second commit that finds
      nothing to do. */
  method ScenarioCommitOneId()
  {
    var app := new QuadrantApp(1, 2, None, []);
    var o := app.OnClick([], 310, 280, 7);
    assert o == Added;
    assert app.points[0] == Point(1, Before, 10.0, 20.0, 7, false);
    o := app.OnClick([], 290, 320, 8);
    assert o == Added;
    assert app.points[1] == Point(1, After, -10.0, -20.0, 8, false);
    assert app.points[0].id == app.currentId;
    var c := app.SaveAndFix();
    assert c == Committed;
    assert app.currentId == 2 && app.currentType == Before;
    assert app.points[0].fixed && app.points[1].fixed && |app.csv| == 2;
    c := app.SaveAndFix();
    assert c == NoPointsForId && app.currentId == 2;
  }

  /** A third click on a full id is refused and only flips the slot. */
  method ScenarioSlotTaken()
  {
    var app := new QuadrantApp(1, 2, None, []);
    var o := app.OnClick([], 310, 280, 7);
    o := app.OnClick([], 290, 320, 8);
    assert app.currentType == Before;
    assert app.points[0].id == app.currentId && app.points[0].slot == Before;
    o := app.OnClick([], 100, 100, 9);
    assert o == SlotTaken && |app.points| == 2 && app.currentType == After;
  }

  /** Start-up from a file with one row (5, before, 1.0, 2.0). */
  method ScenarioLoad()
  {
    var app := new QuadrantApp(1, 2, Some([Row(5, Before, 1.0, 2.0)]), [3]);
    assert app.currentId == 6;
    assert app.points == [Point(5, Before, 1.0, 2.0, 3, true)];
  }
}
