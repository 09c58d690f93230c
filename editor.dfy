/**
 * How the editor uses the history store: it constructs one with capacity
 * 30, and after a crop it resets the store and pushes the cropped image as
 * the only snapshot, the new baseline.
 */
module Editor {
  import opened Options
  import opened HistoryStore

  /** Capacity of the editor's history. */
  const EditorHistoryLimit: int := 30

  /** The history store the editor creates at start-up. */
  method NewEditorHistory<T>() returns (history: HistoryStack<T>)
    ensures fresh(history) && history.Valid()
    ensures history.limit == EditorHistoryLimit && history.stack == []
  {
    history := new HistoryStack(EditorHistoryLimit);
  }

  /**
   * Re-seeds the history after a crop: afterwards the cropped snapshot is
   * current, and neither undo nor redo can reach anything else.
   */
  method ReseedAfterCrop<T>(history: HistoryStack<T>, cropped: T)
    requires history.limit >= 1
    modifies history
    ensures history.Valid() && history.limit == old(history.limit)
    ensures history.stack == [cropped] && history.index == 0
    ensures history.Current() == Some(cropped)
    ensures !history.CanUndo() && !history.CanRedo()
  {
    history.Reset();
    history.Push(cropped);
  }
}
