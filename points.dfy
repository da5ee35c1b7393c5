/** The point list of the quadrant tool: its records, the queries the event
    handlers ask of it, the two in-place rewrites (commit, drag release) as
    functions, and the invariant the handlers keep. */
module Points {

  datatype Option<T> = None | Some(value: T)

  /** The two roles a point plays for one id: "before" and "after". */
  datatype Slot = Before | After

  /** The slot that follows `s` in the automatic before/after alternation. */
  function Flip(s: Slot): (r: Slot)
    ensures r != s
  {
    if s == Before then After else Before
  }

  /** One entry of the point list: id, type, math x, math y, canvas item, fixed flag. */
  datatype Point = Point(id: int, slot: Slot, x: real, y: real, item: nat, fixed: bool)

  /** Some entry carries `id`. */
  predicate HasId(ps: seq<Point>, id: int)
  {
    exists i :: 0 <= i < |ps| && ps[i].id == id
  }

  /** Some entry of `id` is fixed. */
  predicate HasFixed(ps: seq<Point>, id: int)
  {
    exists i :: 0 <= i < |ps| && ps[i].id == id && ps[i].fixed
  }

  /** Some entry of `id` occupies `slot`. */
  predicate HasSlot(ps: seq<Point>, id: int, slot: Slot)
  {
    exists i :: 0 <= i < |ps| && ps[i].id == id && ps[i].slot == slot
  }

  /** Some fixed entry is drawn by canvas item `item`. */
  predicate ItemFixed(ps: seq<Point>, item: nat)
  {
    exists i :: 0 <= i < |ps| && ps[i].item == item && ps[i].fixed
  }

  /** The index of the first entry drawn by `item`, if any. */
  function IndexOfItem(ps: seq<Point>, item: nat): (r: Option<nat>)
    ensures r.Some? ==> r.value < |ps| && ps[r.value].item == item
    ensures forall j :: 0 <= j < |ps| && (r.None? || j < r.value) ==> ps[j].item != item
  {
    if ps == [] then None
    else if ps[0].item == item then Some(0)
    else match IndexOfItem(ps[1..], item)
      case None => None
      case Some(k) => Some(k + 1)
  }

  /** The list after a drag of `item` is released at math position (x, y):
      the first entry drawn by `item` takes the new coordinates. */
  function MoveItem(ps: seq<Point>, item: nat, x: real, y: real): seq<Point>
  {
    match IndexOfItem(ps, item)
    case None => ps
    case Some(k) => ps[k := ps[k].(x := x, y := y)]
  }

  /** A release repositions at most one entry, the first one drawn by `item`,
      and never changes an id, a type, an item or a fixed flag. */
  lemma MoveItemOnlyRepositions(ps: seq<Point>, item: nat, x: real, y: real)
    ensures |MoveItem(ps, item, x, y)| == |ps|
    ensures forall i :: 0 <= i < |ps| ==>
      MoveItem(ps, item, x, y)[i] == ps[i].(x := MoveItem(ps, item, x, y)[i].x, y := MoveItem(ps, item, x, y)[i].y)
    ensures forall i :: 0 <= i < |ps| && MoveItem(ps, item, x, y)[i] != ps[i] ==> IndexOfItem(ps, item) == Some(i)
    ensures IndexOfItem(ps, item).Some? ==>
      MoveItem(ps, item, x, y)[IndexOfItem(ps, item).value].x == x &&
      MoveItem(ps, item, x, y)[IndexOfItem(ps, item).value].y == y
    ensures IndexOfItem(ps, item).None? ==> MoveItem(ps, item, x, y) == ps
  {
  }

  /** `qs` is a later state of the list `ps`: entries are only appended, and no
      entry changes its id, type or item or loses its fixed flag. */
  predicate Extends(ps: seq<Point>, qs: seq<Point>)
  {
    && |ps| <= |qs|
    && forall i :: 0 <= i < |ps| ==>
         qs[i].id == ps[i].id && qs[i].slot == ps[i].slot && qs[i].item == ps[i].item && (ps[i].fixed ==> qs[i].fixed)
  }

  /** Any run of operations that each extend the list extends it. */
  lemma ExtendsTransitive(ps: seq<Point>, qs: seq<Point>, rs: seq<Point>)
    requires Extends(ps, qs) && Extends(qs, rs)
    ensures Extends(ps, rs)
  {
  }

  /** A release moves no fixed entry when the dragged item draws no fixed entry. */
  lemma MoveSparesFixed(ps: seq<Point>, item: nat, x: real, y: real)
    requires !ItemFixed(ps, item)
    ensures Extends(ps, MoveItem(ps, item, x, y))
    ensures forall i :: 0 <= i < |ps| && ps[i].fixed ==> MoveItem(ps, item, x, y)[i] == ps[i]
  {
    MoveItemOnlyRepositions(ps, item, x, y);
  }

  /** The list after the commit of `id`: its entries become fixed, nothing else changes. */
  function FixId(ps: seq<Point>, id: int): (r: seq<Point>)
    ensures |r| == |ps|
    ensures forall i :: 0 <= i < |ps| ==> r[i].fixed == (ps[i].fixed || ps[i].id == id)
    ensures forall i :: 0 <= i < |ps| ==> r[i] == ps[i].(fixed := r[i].fixed)
  {
    seq(|ps|, i requires 0 <= i < |ps| => if ps[i].id == id then ps[i].(fixed := true) else ps[i])
  }

  /** Committing an id twice has the effect of committing it once. */
  lemma FixIdIdempotent(ps: seq<Point>, id: int)
    ensures FixId(FixId(ps, id), id) == FixId(ps, id)
  {
  }

  /** Every id from `from` on has at most one entry per slot. */
  predicate UniqueSlots(ps: seq<Point>, from: int)
  {
    forall i, j :: 0 <= i < j < |ps| && from <= ps[i].id && ps[i].id == ps[j].id ==> ps[i].slot != ps[j].slot
  }

  /** The number of entries of `id` in `slot`. */
  function CountSlot(ps: seq<Point>, id: int, slot: Slot): nat
  {
    if ps == [] then 0
    else CountSlot(ps[..|ps| - 1], id, slot) + (if ps[|ps| - 1].id == id && ps[|ps| - 1].slot == slot then 1 else 0)
  }

  lemma {:induction false} CountSlotZero(ps: seq<Point>, id: int, slot: Slot)
    ensures CountSlot(ps, id, slot) == 0 <==> !HasSlot(ps, id, slot)
  {
    if ps != [] {
      var init := ps[..|ps| - 1];
      CountSlotZero(init, id, slot);
      if HasSlot(init, id, slot) {
        var i :| 0 <= i < |init| && init[i].id == id && init[i].slot == slot;
        assert ps[i] == init[i];
      }
      if !HasSlot(init, id, slot) {
        assert forall i :: 0 <= i < |init| ==> init[i] == ps[i];
      }
    }
  }

  /** Pairwise uniqueness means at most one point per id and slot. */
  lemma {:induction false} UniqueSlotsAtMostOne(ps: seq<Point>, from: int, id: int, slot: Slot)
    requires UniqueSlots(ps, from)
    requires from <= id
    ensures CountSlot(ps, id, slot) <= 1
  {
    if ps != [] {
      var init := ps[..|ps| - 1];
      var last := ps[|ps| - 1];
      assert UniqueSlots(init, from) by {
        forall i, j | 0 <= i < j < |init|
          ensures !(from <= init[i].id && init[i].id == init[j].id) || init[i].slot != init[j].slot
        {
          assert init[i] == ps[i] && init[j] == ps[j];
        }
      }
      UniqueSlotsAtMostOne(init, from, id, slot);
      if last.id == id && last.slot == slot {
        assert !HasSlot(init, id, slot) by {
          forall i | 0 <= i < |init|
            ensures !(init[i].id == id && init[i].slot == slot)
          {
            assert init[i] == ps[i];
          }
        }
        CountSlotZero(init, id, slot);
      }
    }
  }

  /** The invariant of the point list against the cursor: no entry is beyond
      the current id, and every id of the session (from `sessionStart` on)
      has at most one point per slot. */
  predicate StoreInv(ps: seq<Point>, currentId: int, sessionStart: int)
  {
    && sessionStart <= currentId
    && (forall i :: 0 <= i < |ps| ==> ps[i].id <= currentId)
    && UniqueSlots(ps, sessionStart)
  }

  /** Adding a point for the current id in a free slot keeps the invariant. */
  lemma AddKeepsInv(ps: seq<Point>, currentId: int, sessionStart: int, p: Point)
    requires StoreInv(ps, currentId, sessionStart)
    requires p.id == currentId && !HasSlot(ps, currentId, p.slot)
    ensures StoreInv(ps + [p], currentId, sessionStart)
  {
    var qs := ps + [p];
    forall i, j | 0 <= i < j < |qs| && sessionStart <= qs[i].id && qs[i].id == qs[j].id
      ensures qs[i].slot != qs[j].slot
    {
      if j == |ps| {
        assert qs[i] == ps[i];
      } else {
        assert qs[i] == ps[i] && qs[j] == ps[j];
      }
    }
  }

  /** A commit keeps the invariant with the next id, and the next id starts empty. */
  lemma CommitKeepsInv(ps: seq<Point>, currentId: int, sessionStart: int)
    requires StoreInv(ps, currentId, sessionStart)
    ensures StoreInv(FixId(ps, currentId), currentId + 1, sessionStart)
    ensures !HasId(FixId(ps, currentId), currentId + 1)
  {
    var qs := FixId(ps, currentId);
    assert forall i, j :: 0 <= i < j < |qs| ==> qs[i].id == ps[i].id && qs[j].id == ps[j].id && qs[i].slot == ps[i].slot && qs[j].slot == ps[j].slot;
  }

  /** A drag release keeps the invariant. */
  lemma MoveKeepsInv(ps: seq<Point>, currentId: int, sessionStart: int, item: nat, x: real, y: real)
    requires StoreInv(ps, currentId, sessionStart)
    ensures StoreInv(MoveItem(ps, item, x, y), currentId, sessionStart)
    ensures HasFixed(MoveItem(ps, item, x, y), currentId) == HasFixed(ps, currentId)
    ensures Extends(ps, MoveItem(ps, item, x, y))
  {
    MoveItemOnlyRepositions(ps, item, x, y);
    var qs := MoveItem(ps, item, x, y);
    assert forall i :: 0 <= i < |qs| ==> qs[i].id == ps[i].id && qs[i].slot == ps[i].slot && qs[i].fixed == ps[i].fixed;
    if HasFixed(ps, currentId) {
      var i :| 0 <= i < |ps| && ps[i].id == currentId && ps[i].fixed;
      assert qs[i].id == currentId && qs[i].fixed;
    }
  }
}
