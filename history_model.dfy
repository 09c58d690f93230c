/**
 * Value semantics of the bounded linear undo/redo store: a history is the
 * list of snapshots, the cursor into it and the capacity. Each operation of
 * the store is a function from the old history to the new one (and, for
 * undo and redo, the snapshot handed back). The class in HistoryStore is
 * proved against these functions.
 */
module HistoryModel {
  import opened Options

  /** Capacity used when the store is constructed without one. */
  const DefaultLimit: int := 20

  /** Snapshots of type T, the cursor `index` and the capacity `limit`. */
  datatype History<T> = History(stack: seq<T>, index: int, limit: int)

  /** The history after an undo or redo, and the snapshot it returned (None for null). */
  datatype Step<T> = Step(next: History<T>, out: Option<T>)

  function Max(a: int, b: int): (m: int) { if a < b then b else a }

  function Min(a: int, b: int): (m: int) { if a < b then a else b }

  /**
   * The store's invariant: the cursor is -1 exactly when there is nothing
   * stored and otherwise points at a stored snapshot; at most `limit`
   * snapshots are kept (none at all when the capacity is not positive).
   */
  predicate Valid<T>(h: History<T>)
    ensures Valid(h) ==> h.index + 1 <= |h.stack| <= Max(h.limit, 0)
    ensures Valid(h) && h.limit < 1 ==> h.stack == [] && h.index == -1
  {
    && -1 <= h.index < |h.stack|
    && (h.index == -1 <==> h.stack == [])
    && |h.stack| <= Max(h.limit, 0)
  }

  /** True when undo would move the cursor: there is an earlier snapshot. */
  predicate CanUndo<T>(h: History<T>)
    ensures Valid(h) ==> (CanUndo(h) <==> 0 <= h.index - 1 < |h.stack|)
    ensures Valid(h) && h.stack != [] && !CanUndo(h) ==> h.index == 0
  {
    h.index > 0
  }

  /** True when redo would move the cursor: there is a later snapshot. */
  predicate CanRedo<T>(h: History<T>)
    ensures Valid(h) ==> (CanRedo(h) <==> 0 <= h.index + 1 < |h.stack|)
    ensures Valid(h) && !CanRedo(h) ==> h.index == |h.stack| - 1
  {
    h.index < |h.stack| - 1
  }

  /** The snapshot under the cursor, or None where the source yields null. */
  function Current<T>(h: History<T>): (r: Option<T>)
    ensures r.Some? ==> r.value in h.stack
    ensures Valid(h) ==> (r.None? <==> h.stack == [])
  {
    if 0 <= h.index < |h.stack| then Some(h.stack[h.index]) else None
  }

  /** A freshly constructed (or reset) store with capacity `limit`. */
  function Empty<T>(limit: int): (h: History<T>)
    ensures Valid(h) && h.limit == limit
    ensures Current(h) == None && !CanUndo(h) && !CanRedo(h)
  {
    History([], -1, limit)
  }

  /**
   * push: drop every snapshot after the cursor, append `s`; if that
   * overflows the capacity, evict the oldest snapshot and keep the cursor,
   * otherwise advance the cursor.
   */
  function Push<T>(h: History<T>, s: T): (r: History<T>)
    requires Valid(h)
    ensures Valid(r) && r.limit == h.limit
    ensures !CanRedo(r)
    ensures h.limit >= 1 ==> Current(r) == Some(s) && r.index == |r.stack| - 1
    ensures h.limit < 1 ==> r == h
    // no overflow: the snapshots up to the cursor are untouched, `s` follows them
    ensures h.index + 2 <= h.limit ==>
              r.index == h.index + 1 && r.stack == h.stack[..h.index + 1] + [s]
    // overflow: exactly the oldest snapshot goes, the cursor stays where it was
    ensures 1 <= h.limit < h.index + 2 ==>
              r.index == h.index && r.stack == h.stack[1..h.index + 1] + [s]
  {
    var kept := if h.index < |h.stack| - 1 then h.stack[..h.index + 1] else h.stack;
    var appended := kept + [s];
    if |appended| > h.limit then History(appended[1..], h.index, h.limit)
    else History(appended, h.index + 1, h.limit)
  }

  /** undo: step the cursor back and return the snapshot there, or null and no change. */
  function Undo<T>(h: History<T>): (r: Step<T>)
    requires Valid(h)
    ensures Valid(r.next) && r.next.stack == h.stack && r.next.limit == h.limit
    ensures r.out.Some? <==> CanUndo(h)
    ensures !CanUndo(h) ==> r.next == h
    ensures CanUndo(h) ==> r.next.index == h.index - 1 && r.out == Current(r.next)
    ensures CanUndo(h) ==> CanRedo(r.next)
  {
    if CanUndo(h) then
      var n := h.(index := h.index - 1);
      Step(n, Some(n.stack[n.index]))
    else
      Step(h, None)
  }

  /** redo: step the cursor forward and return the snapshot there, or null and no change. */
  function Redo<T>(h: History<T>): (r: Step<T>)
    requires Valid(h)
    ensures Valid(r.next) && r.next.stack == h.stack && r.next.limit == h.limit
    ensures r.out.Some? <==> CanRedo(h)
    ensures !CanRedo(h) ==> r.next == h
    ensures CanRedo(h) ==> r.next.index == h.index + 1 && r.out == Current(r.next)
    ensures CanRedo(h) ==> CanUndo(r.next)
  {
    if CanRedo(h) then
      var n := h.(index := h.index + 1);
      Step(n, Some(n.stack[n.index]))
    else
      Step(h, None)
  }

  /** One call on the store that changes it. */
  datatype Op<T> = PushOp(state: T) | UndoOp | RedoOp | ResetOp

  /** The history after one call. */
  function Apply<T>(h: History<T>, op: Op<T>): (r: History<T>)
    requires Valid(h)
    ensures Valid(r) && r.limit == h.limit
  {
    match op
    case PushOp(s) => Push(h, s)
    case UndoOp => Undo(h).next
    case RedoOp => Redo(h).next
    case ResetOp => Empty(h.limit)
  }

  /** The history after a sequence of calls, first call first. */
  function Run<T>(h: History<T>, ops: seq<Op<T>>): (r: History<T>)
    requires Valid(h)
    ensures Valid(r) && r.limit == h.limit
    decreases |ops|
  {
    if ops == [] then h else Run(Apply(h, ops[0]), ops[1..])
  }

  /** The history after pushing every snapshot of `xs`, first one first. */
  function PushAll<T>(h: History<T>, xs: seq<T>): (r: History<T>)
    requires Valid(h)
    ensures Valid(r) && r.limit == h.limit
    decreases |xs|
  {
    if xs == [] then h else Push(PushAll(h, xs[..|xs| - 1]), xs[|xs| - 1])
  }

  /**
   * The snapshots returned by calling undo again and again until it
   * returns null, in the order they are returned.
   */
  function UndoOutputs<T>(h: History<T>): (outs: seq<T>)
    requires Valid(h)
    decreases h.index
  {
    var st := Undo(h);
    if st.out.None? then [] else [st.out.value] + UndoOutputs(st.next)
  }

  /** `s` back to front. */
  function Reversed<T>(s: seq<T>): (r: seq<T>)
    ensures |r| == |s|
  {
    if s == [] then [] else [s[|s| - 1]] + Reversed(s[..|s| - 1])
  }
}
