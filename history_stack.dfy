/**
 * The history store as the editor holds it: one object whose snapshot list,
 * cursor and capacity are updated in place by push, undo, redo and reset.
 * Each method is proved to move the object from `old(Model())` to the
 * history that the matching HistoryModel function gives.
 */
module HistoryStore {
  import opened Options
  import opened HistoryModel

  class HistoryStack<T> {
    var limit: int
    var stack: seq<T>
    var index: int

    /** The fields as a value of the model. */
    function Model(): History<T>
      reads this
    {
      History(stack, index, limit)
    }

    ghost predicate Valid()
      reads this
    {
      HistoryModel.Valid(Model())
    }

    /** A store with capacity `limit`, holding nothing. */
    constructor (limit: int)
      ensures Valid() && Model() == Empty(limit)
      ensures Current() == None && !CanUndo() && !CanRedo()
    {
      this.limit := limit;
      stack := [];
      index := -1;
    }

    /** A store constructed without a capacity gets the default one. */
    constructor Default()
      ensures Valid() && Model() == Empty(DefaultLimit)
      ensures Current() == None && !CanUndo() && !CanRedo()
    {
      limit := DefaultLimit;
      stack := [];
      index := -1;
    }

    /** Records `state` as the newest snapshot, discarding the redo branch first. */
    method Push(state: T)
      requires Valid()
      modifies this
      ensures Valid() && limit == old(limit)
      ensures Model() == HistoryModel.Push(old(Model()), state)
      ensures !CanRedo()
      ensures limit >= 1 ==> Current() == Some(state) && index == |stack| - 1
    {
      if index < |stack| - 1 {
        stack := stack[..index + 1];
      }
      stack := stack + [state];
      if |stack| > limit {
        stack := stack[1..];
      } else {
        index := index + 1;
      }
    }

    /** True exactly when undo would return a snapshot. */
    function CanUndo(): (b: bool)
      reads this
      ensures Valid() ==> (b <==> HistoryModel.Undo(Model()).out.Some?)
      ensures Valid() && b ==> |stack| > 1
    {
      HistoryModel.CanUndo(Model())
    }

    /** True exactly when redo would return a snapshot. */
    function CanRedo(): (b: bool)
      reads this
      ensures Valid() ==> (b <==> HistoryModel.Redo(Model()).out.Some?)
      ensures Valid() && b ==> |stack| > 1
    {
      HistoryModel.CanRedo(Model())
    }

    /** Moves the cursor one snapshot back and returns that snapshot, or None and no change. */
    method Undo() returns (r: Option<T>)
      requires Valid()
      modifies this
      ensures Valid()
      ensures HistoryModel.Undo(old(Model())) == Step(Model(), r)
      ensures stack == old(stack) && limit == old(limit)
      ensures r.Some? <==> old(CanUndo())
      ensures r.Some? ==> index == old(index) - 1 && r == Current()
      ensures r.None? ==> index == old(index)
    {
      if CanUndo() {
        index := index - 1;
        r := Some(stack[index]);
      } else {
        r := None;
      }
    }

    /** Moves the cursor one snapshot forward and returns that snapshot, or None and no change. */
    method Redo() returns (r: Option<T>)
      requires Valid()
      modifies this
      ensures Valid()
      ensures HistoryModel.Redo(old(Model())) == Step(Model(), r)
      ensures stack == old(stack) && limit == old(limit)
      ensures r.Some? <==> old(CanRedo())
      ensures r.Some? ==> index == old(index) + 1 && r == Current()
      ensures r.None? ==> index == old(index)
    {
      if CanRedo() {
        index := index + 1;
        r := Some(stack[index]);
      } else {
        r := None;
      }
    }

    /** The snapshot under the cursor, or None when nothing is stored. */
    function Current(): (r: Option<T>)
      reads this
      ensures Valid() ==> (r.None? <==> stack == [])
      ensures r.Some? ==> r.value in stack
    {
      HistoryModel.Current(Model())
    }

    /** Forgets every snapshot; the capacity stays. */
    method Reset()
      modifies this
      ensures Valid() && Model() == Empty(old(limit))
      ensures Current() == None && !CanUndo() && !CanRedo()
    {
      stack := [];
      index := -1;
    }
  }
}
