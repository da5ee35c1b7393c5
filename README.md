# Quadrant click tool: the point-entry state machine

This project models the core of the quadrant click tool (`main.py`). The tool is a Tk
window with a 600 x 600 canvas. A user left-clicks to record "before" and "after" points
under a sequential integer id, right-drags an unfixed point to correct it, and presses
the save button to fix the current id's points and move on to the next id. Every change
is written to `out/points.csv`. At start-up that file is loaded back, and every loaded
point counts as fixed.

The model has four modules:

- `Transform` (transform.dfy): `canvas_to_math` and `math_to_canvas` around the canvas
  centre (300, 300). Coordinates are exact reals.
- `Points` (points.dfy) defines the `(id, type, x, y, item, fixed)` entry and the list
  queries the handlers use. It has the two in-place rewrites as functions: `FixId` is the
  commit, and `MoveItem` is the drag release. It also has the invariant `StoreInv` and
  lemmas showing that each rewrite keeps it.
- `Persistence` (persistence.dfy) covers the file as a sequence of `(id, type, x, y)`
  rows:
  - `Rows` is the projection `save_to_csv` writes.
  - `Loaded` is the list `load_csv` rebuilds.
  - `NextId` is its `current_id` update.
  - Lemmas prove the round trips.
- `Quadrant` (app.dfy): the class `QuadrantApp`.
  - Its fields are the point list, `current_id`, `current_type`, the drag in progress,
    the file content, and the two axis-line items.
  - The event handlers are methods. Each one states its whole new state in terms of the
    old one.
  - `Valid()` says two things. The file always holds `Rows(points)`. The list agrees with
    the cursor: no entry lies beyond the current id, and every id of the session has at
    most one point per slot.
  - Three client methods replay a click-click-commit walk-through, a third click on a
    full id, and a start-up from a one-row file against these contracts.

The model shows that `is_current_id_fixed` never holds in a reachable state. The
constructor establishes `!HasFixed(points, currentId)`, and every handler preserves it.
This makes the `AlreadyFixed` branch of a click defensive only. The branch is still
modelled as written.

`on_drag_release` does not re-check the fixed flag. The check is made only at drag start.
So the model promises that a release leaves fixed points alone only when the drag was
safe (`DragSafe`). A commit between drag start and release breaks this, and the release
then repositions a now fixed point.

The model departs from the code in one place. The axis-line guard of a click
(main.py:142) never fires as written, and `OnClick` uses the intended guard `AxisHit`
instead (see "## Findings" and "## Left out").

The model follows the code in three places where a reader might expect otherwise:
- A refused drag is refused at the press, not at the release.
- Loading does not validate rows.
- The current id after loading is `max(1, id + 1 for every row)`, whether or not the
  loaded points are complete pairs.

## Model

| member | source | states |
|---|---|---|
| Transform.CanvasToMath | main.py:134-135 | a canvas point right of the centre has positive math x; one above the centre (smaller canvas y) has positive math y; and the same holds for the negative sides |
| Transform.MathToCanvas | main.py:137-138 | converting to canvas coordinates and back gives the original math point |
| Transform.CanvasRoundTrip | main.py:134-138 | converting to math coordinates and back gives the original canvas point, so the transform is a bijection |
| Points.Flip | main.py:165 | the automatic alternation always switches to the other slot |
| Points.HasId | main.py:218 | the test the save button makes first: some entry carries the id; `SaveAndFix` answers "no points" exactly when it fails, and `CommitKeepsInv` shows it fails for the new id after a commit |
| Points.IndexOfItem | main.py:195-198 | finds the first entry drawn by the item (or none); no earlier entry is drawn by it |
| Points.MoveItem | main.py:195-198 | the list after a release at a math position; `MoveItemOnlyRepositions`, `MoveSparesFixed` and `MoveKeepsInv` state what it changes and what it keeps |
| Points.MoveItemOnlyRepositions | main.py:195-198 | a release keeps the list length; only x and y may change; only the first entry of the item changes, and it gets exactly the new position; with no such entry the list is unchanged |
| Points.MoveSparesFixed | main.py:173-176 | when the dragged item draws no fixed entry, the release leaves every fixed entry as it was |
| Points.ExtendsTransitive | main.py:141-236 | the "later state" relation that the click, release and save handlers each promise composes, so any run of them never removes, retypes or unfixes an entry |
| Points.FixId | main.py:222-226 | a commit keeps the length and every field except `fixed`, which becomes true exactly on the entries of the id and stays true where it was |
| Points.FixIdIdempotent | main.py:222-226 | fixing an id twice equals fixing it once |
| Points.CountSlotZero | main.py:210-214 | an id has no point in a slot exactly when the scan finds none |
| Points.UniqueSlotsAtMostOne | main.py:150-160 | under the pairwise uniqueness the handlers keep, each id of the session has at most one "before" and at most one "after" point |
| Points.AddKeepsInv | main.py:150-160 | appending a point for the current id in a free slot keeps the invariant |
| Points.CommitKeepsInv | main.py:222-233 | a commit followed by the id increment keeps the invariant, and the new current id has no points |
| Points.MoveKeepsInv | main.py:195-198 | a release keeps the invariant, the fixed status of the current id, and each entry's id, type and item |
| Persistence.Rows | main.py:240-243 | the rows saving writes; `SaveThenLoad`, `LoadThenSave` and `CommitKeepsRows` state what they keep and drop |
| Persistence.Loaded | main.py:249-264 | the entries loading appends; `LoadedAt` states them entry by entry and `LoadedInv` the invariant they establish |
| Persistence.NextId | main.py:265 | the current id after loading; `NextIdIsMax` characterises it as the maximum of the start id and every row id + 1 |
| Persistence.LoadedAt | main.py:249-264 | loading yields one entry per row in file order, with the row's id, type, x and y, the row's canvas item, and fixed = true |
| Persistence.NextIdIsMax | main.py:265 | the id after loading is at least the start id, above every loaded id, and equal to the start or to some row's id + 1 (so an empty file leaves it at 1) |
| Persistence.SaveThenLoad | main.py:239-264 | saving the list and loading the file gives back the same (id, type, x, y) in the same order, each marked fixed |
| Persistence.LoadThenSave | main.py:239-264 | loading a file and saving the result writes the same rows |
| Persistence.CommitKeepsRows | main.py:239-243 | the fixed flag is not stored: a commit does not change what is written |
| Persistence.LoadedInv | main.py:247-265 | after start-up loading, no loaded entry has the current id or beyond, so the invariant holds with an empty session |
| Quadrant.AxisHitAsWritten | main.py:142 | the guard as written, a tuple looked up among two lists; `AxisGuardAsWrittenNeverFires` shows it is always false |
| Quadrant.AxisGuardAsWrittenNeverFires | main.py:142-143 | the written axis-line guard (a tuple looked up among lists) is false for every click |
| Quadrant.AxisGuardMissesAxisClick | main.py:142-143 | a click whose current item is the horizontal axis line is one the intended guard ignores and the written guard lets through |
| Quadrant.AxisHit | main.py:142-143 | the intended guard holds exactly when the written lookup, with the two lists spelled as tuples, finds the items under the pointer |
| Quadrant.AxisHitIsDragGuard | main.py:142-171 | with at most one item under the pointer, the intended click guard is the drag handler's test: some item, and it is one of the two axis lines |
| Quadrant.QuadrantApp.constructor | main.py:99-117 | start-up without a file writes an empty file, with no points, id 1 and slot "before"; with a file, the points are the loaded rows and the id is NextId(1, rows); the invariant holds and the current id has no fixed point |
| Quadrant.QuadrantApp.SaveToCsv | main.py:239-244 | the file afterwards holds the projection of the whole list |
| Quadrant.QuadrantApp.LoadCsv | main.py:247-265 | appends the loaded entries to the list, moves the current id to NextId, and leaves the file, slot and drag alone |
| Quadrant.QuadrantApp.IsCurrentIdFixed | main.py:203-207 | true exactly when some entry of the current id is fixed |
| Quadrant.QuadrantApp.HasTypeForCurrentId | main.py:210-214 | true exactly when the current id already has a point of the given type |
| Quadrant.QuadrantApp.OnClick | main.py:141-166 | a click the intended guard `AxisHit` recognises as an axis-line click, or a fixed current id, changes nothing; an occupied slot leaves the list alone and only flips the slot; otherwise it appends exactly (current id, slot, canvas_to_math(x, y), item, unfixed), keeps every earlier entry, saves and flips the slot; the id and the drag are unchanged, the invariant is kept |
| Quadrant.QuadrantApp.OnDragStart | main.py:169-176 | no item, an axis line or an item of a fixed entry leaves the drag as it was; any other item becomes the dragged item, which then draws no fixed entry |
| Quadrant.QuadrantApp.OnDragRelease | main.py:187-200 | without a drag nothing changes; with one, the list becomes MoveItem of the old list at canvas_to_math of the release position; the drag ends, the file is saved, the id and slot are unchanged, and after a safe drag no fixed entry moved |
| Quadrant.QuadrantApp.SaveAndFix | main.py:217-236 | with no point of the current id nothing changes; otherwise the list becomes FixId of the old list for that id, the id grows by 1, the slot is "before", the file is saved, and a second commit finds no points; fixed flags never revert |

## Left out

- Tk window, frames, labels, legend, instruction text, button label updates and printed messages (main.py:8-131, 146, 151, 161, 166, 228, 235-236): presentation only. Each printed branch of a click or commit is reported as the method's outcome value instead.
- Canvas hit-testing and drawing (`find_withtag`, `find_closest`, `create_oval`, `itemconfig`, `coords`) and `on_drag_motion` (main.py:179-184). The items under the pointer, the new oval's item, the loaded rows' items and the release position are method parameters. Colours are not modelled.
- Real file I/O with pandas and `os.path.exists`. The file is the field `csv`, and the constructor's `stored` argument says whether it existed. Read and write failures and malformed rows are not modelled (the source does not handle them either).
- Parsing of the `type` column: rows carry a `Slot`. The source keeps any other string verbatim, and such rows are not modelled.
- `plot_and_save_png` (main.py:268-284): a rendering side effect with nothing to prove.
- Floating-point rounding in the transform and `int(...)`/`float(...)` conversions on load: coordinates are exact reals and ids exact integers.
- The unused `offset` part of `drag_data`.
- Points.UniqueSlotsAtMostOne: proves at most one point per slot only for ids from the session start (the current id after loading) on, because the source does not check rows loaded from the file for duplicates.
- Quadrant.QuadrantApp.LoadCsv: does not promise `Valid()`, because the source only calls it at start-up on an empty list, where the constructor establishes the invariant.
- Quadrant.QuadrantApp.OnClick: uses the intended axis-line guard `AxisHit`, not the guard as written at main.py:142. As written the guard never fires, so a click exactly on `hline` or `vline` goes on to the fixed and slot checks and, in a free slot, appends a point on the axis line (math y about 0 on `hline`, math x about 0 on `vline`, within the line's 2-pixel width). The model instead returns `OnAxisLine` and changes nothing. `AxisHitAsWritten` and `AxisGuardMissesAxisClick` record the written behaviour.
- Quadrant.QuadrantApp.OnDragRelease: promises that fixed entries stay put only after a safe drag, because the source does not re-check the fixed flag at release and does not cancel a drag on commit.

## Findings

| source | as written | input that shows it | evidently intended | confidence | as-written member | corrected member |
|---|---|---|---|---|---|---|
| main.py:142 | the click handler looks up the tuple returned by `find_withtag("current")` among the lists `[hline]` and `[vline]`; Python never equates a tuple with a list, so the guard never fires | left click exactly on the horizontal axis line: the current item is `(hline,)`, the lookup fails, and a point is added on the axis | ignore a click on an axis line, as the drag handler does with `item[0] in (hline, vline)` | likely, not executed | Quadrant.AxisGuardMissesAxisClick | Quadrant.AxisHit |
