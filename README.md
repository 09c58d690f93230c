# Bounded linear undo/redo history of the image editor

The image editor keeps a history of rendered snapshots (data-URL strings) in
a `HistoryStack`. The stack holds a list of snapshots, a cursor `index` into
that list and a capacity `limit`. `push` drops the redo branch and appends a
snapshot. When the list would grow past the capacity, it evicts the oldest
snapshot and leaves the cursor where it is. `undo` and `redo` move the cursor
and return the snapshot under it, or null. `canUndo` and `canRedo` are queries
on the cursor. `current` returns the snapshot under the cursor, or null.
`reset` forgets everything. The editor constructs the stack with capacity 30.
After a crop it calls `reset` and then `push` with the cropped image, which
makes that image the new baseline.

The model is in five modules. A snapshot is an opaque type parameter `T`.

- `Options` (options.dfy): the `Option` datatype that stands for the
  source's null-or-snapshot results.

- `HistoryModel` (history_model.dfy): the stack as a value `History(stack,
  index, limit)`. Each operation is a function on that value, and the store's
  invariant is `Valid`. A successful undo or redo step gives back a
  `Step(next, out)`, where `out` is `None` for the source's `null`.
- `HistoryStore` (history_stack.dfy): the class `HistoryStack<T>`, which has
  the three fields the source mutates. Each mutating method is proved to
  move `Model()` from its old value to the value given by the matching
  `HistoryModel` function. It is also proved to keep `Valid()`.
- `HistoryProperties` (history_properties.dfy): lemmas that relate several
  calls.
- `Editor` (editor.dfy): how the editor constructs the stack and re-seeds it
  after a crop.

The invariant is `-1 <= index < |stack|`, with `index == -1` exactly when
nothing is stored, and `|stack| <= max(limit, 0)`. It holds for every integer
capacity. With a capacity of zero or less, every push is evicted at once, so
the stack stays empty.

The constructor defaults to a capacity of 20 (src/utils/history.js:2), and
the editor passes 30 (src/App.jsx:36). `DefaultLimit` is 20 and
`Editor.EditorHistoryLimit` is 30.

## Model

| member | source | states |
|---|---|---|
| HistoryModel.Valid | src/utils/history.js:2-24 | the invariant every operation keeps: the cursor is -1 exactly when nothing is stored and otherwise points at a stored snapshot, and at most max(limit, 0) snapshots are stored; with a capacity below 1 the store is empty |
| HistoryModel.CanUndo | src/utils/history.js:19 | in a valid store, undo is possible exactly when there is a snapshot before the cursor; when it is not and something is stored, the cursor is on the oldest snapshot |
| HistoryModel.CanRedo | src/utils/history.js:20 | in a valid store, redo is possible exactly when there is a snapshot after the cursor; when it is not, the cursor is at \|stack\| - 1 (the newest snapshot, or -1 when nothing is stored) |
| HistoryModel.Empty | src/utils/history.js:2-6 | a new store is valid and empty: there is no current snapshot, and neither undo nor redo is possible |
| HistoryModel.Current | src/utils/history.js:23 | in a valid store, the result is null exactly when nothing is stored; otherwise it is a stored snapshot |
| HistoryModel.Push | src/utils/history.js:7-18 | keeps the invariant and the capacity; leaves nothing to redo; with a capacity of at least 1 the pushed snapshot becomes current at the tail; without overflow, the snapshots up to the old cursor are kept and the cursor advances; on overflow, exactly the oldest snapshot goes and the cursor stays; with a capacity below 1, nothing changes |
| HistoryModel.Undo | src/utils/history.js:19-21 | returns a snapshot exactly when canUndo holds; otherwise returns null and changes nothing; on success, the cursor moves back by one, the result is the new current snapshot, the stored snapshots are unchanged and redo becomes possible |
| HistoryModel.Redo | src/utils/history.js:20-22 | returns a snapshot exactly when canRedo holds; otherwise returns null and changes nothing; on success, the cursor moves forward by one, the result is the new current snapshot, the stored snapshots are unchanged and undo becomes possible |
| HistoryModel.Apply | src/utils/history.js:7-24 | each of push, undo, redo and reset keeps the invariant and the capacity |
| HistoryModel.Run | src/utils/history.js:7-24 | any sequence of push, undo, redo and reset calls keeps the invariant and the capacity |
| HistoryModel.PushAll | src/utils/history.js:7-18 | a sequence of pushes keeps the invariant and the capacity |
| HistoryProperties.UndoThenRedo | src/utils/history.js:19-22 | a successful undo followed by redo restores the original cursor, and redo returns the original current snapshot |
| HistoryProperties.RedoThenUndo | src/utils/history.js:19-22 | a successful redo followed by undo restores the original cursor, and undo returns the original current snapshot |
| HistoryProperties.PushAfterUndosDiscardsRedo | src/utils/history.js:7-22 | after two undos and a push, redo returns null and changes nothing; the pushed snapshot is current, and, when undo is possible afterwards, it returns the snapshot the cursor was on before the push |
| HistoryProperties.ResetThenPush | src/App.jsx:142-143 | from any valid store with a positive capacity, reset followed by push(x) leaves exactly [x] stored; x is current, and neither undo nor redo is possible |
| HistoryProperties.PushOntoFull | src/utils/history.js:13-14 | a push onto a full store, with the cursor at the tail, evicts the oldest snapshot and keeps the cursor |
| HistoryProperties.PushWithRoom | src/utils/history.js:15-16 | a push onto a store with room, with the cursor at the tail, appends and advances the cursor |
| HistoryProperties.PushOntoWindow | src/utils/history.js:12-17 | a store that holds the last `limit` snapshots pushed still holds the last `limit` after one more push |
| HistoryProperties.PushAllFromEmpty | src/utils/history.js:2-18 | pushing xs onto an empty store keeps exactly the last min(\|xs\|, limit) snapshots, in push order, with the cursor on the newest |
| HistoryProperties.UndoOutputsAreEarlierSnapshots | src/utils/history.js:19-21 | repeated undo returns the snapshots before the cursor, newest first, and then returns null |
| HistoryProperties.NPushesPermitNMinusOneUndos | src/utils/history.js:2-21 | after N pushes from empty with 1 <= N <= limit, all N snapshots are stored and the last is current; canUndo holds exactly when N > 1 and canRedo is false; exactly N-1 undos succeed, returning the earlier snapshots in reverse order |
| HistoryProperties.PushesBeyondLimitPermitLimitMinusOneUndos | src/utils/history.js:13-21 | after more pushes than the capacity, only the last `limit` snapshots remain, and exactly limit-1 undos succeed |
| HistoryProperties.UndoCountAtFullWindow | src/utils/history.js:19-21 | in a full store with the cursor on the newest snapshot, exactly limit-1 undos succeed |
| HistoryStore.HistoryStack.constructor | src/utils/history.js:2-6 | the new store has the given capacity and is valid and empty; current is null, and canUndo and canRedo are false |
| HistoryStore.HistoryStack.Default | src/utils/history.js:2 | a store constructed without a capacity is empty and has the default capacity 20 |
| HistoryStore.HistoryStack.Push | src/utils/history.js:7-18 | the new fields are those that HistoryModel.Push gives from the old ones; the invariant holds, canRedo is false, and with a capacity of at least 1 the pushed snapshot is current at the tail |
| HistoryStore.HistoryStack.CanUndo | src/utils/history.js:19 | true exactly when undo would return a snapshot; true only when more than one snapshot is stored |
| HistoryStore.HistoryStack.CanRedo | src/utils/history.js:20 | true exactly when redo would return a snapshot; true only when more than one snapshot is stored |
| HistoryStore.HistoryStack.Undo | src/utils/history.js:21 | the new cursor and the result are those that HistoryModel.Undo gives; the stored snapshots and the capacity are unchanged; returns null and leaves the cursor alone exactly when canUndo was false; on success, moves the cursor back by one and returns the new current snapshot |
| HistoryStore.HistoryStack.Redo | src/utils/history.js:22 | the new cursor and the result are those that HistoryModel.Redo gives; the stored snapshots and the capacity are unchanged; returns null and leaves the cursor alone exactly when canRedo was false; on success, moves the cursor forward by one and returns the new current snapshot |
| HistoryStore.HistoryStack.Current | src/utils/history.js:23 | in a valid store, null exactly when nothing is stored; otherwise a stored snapshot |
| HistoryStore.HistoryStack.Reset | src/utils/history.js:24 | the store is empty with cursor -1 and keeps its capacity; current is null, and canUndo and canRedo are false |
| Editor.NewEditorHistory | src/App.jsx:36 | the editor's store is fresh, valid, empty and has capacity 30 |
| Editor.ReseedAfterCrop | src/App.jsx:142-143 | from any state of a store with a positive capacity, after a crop the store holds exactly the cropped snapshot, which is current; neither undo nor redo is possible, and the capacity is unchanged |

## Left out

- The rest of src/App.jsx is not modelled: rendering with canvas transforms and filters, image loading and decoding, crop pixel extraction, export, pointer listeners and the scale clamp. These are browser calls, floating-point arithmetic and asynchronous callbacks. The editor's only interaction with the store that is modelled is its construction and the re-seed after a crop.
- Snapshot contents are not modelled. They are an opaque type `T`, not images or strings. In JavaScript, `current()` uses `?? null`, so a stored snapshot that is itself `null` or `undefined` would be read as null. The model has no such value, because the editor only stores data-URL strings.
- Only integer capacities are modelled. A JavaScript caller could pass a fractional or non-numeric `limit`; neither the source nor the editor does.
- In the source, `shift` and `push` change the snapshot array in place, while `slice` replaces it. The model reassigns an immutable `seq` field in every case. Aliasing of the array is not modelled, because nothing outside the store holds a reference to it.
- The undo and redo buttons call `canUndo`/`canRedo` to decide whether they are enabled. This wiring is not modelled. It is DOM glue, and its only effect is that it calls the queries modelled above.
