/**
 * Properties of the history store that relate several calls: undo and redo
 * undo each other, a push destroys the redo branch, the crop baseline, and
 * what a run of pushes leaves behind for undo.
 */
module HistoryProperties {
  import opened Options
  import opened HistoryModel

  /** A successful undo followed by redo gives back the original history and its current snapshot. */
  lemma UndoThenRedo<T>(h: History<T>)
    requires Valid(h) && CanUndo(h)
    ensures Redo(Undo(h).next) == Step(h, Current(h))
  {
  }

  /** A successful redo followed by undo gives back the original history and its current snapshot. */
  lemma RedoThenUndo<T>(h: History<T>)
    requires Valid(h) && CanRedo(h)
    ensures Undo(Redo(h).next) == Step(h, Current(h))
  {
  }

  /**
   * Two undos, then a push: the redo branch is gone, so redo returns null
   * and changes nothing; with a positive capacity the new snapshot directly
   * follows the one the cursor was on.
   */
  lemma PushAfterUndosDiscardsRedo<T>(h: History<T>, s: T)
    requires Valid(h) && h.limit >= 1
    ensures var before := Undo(Undo(h).next).next;
            var after := Push(before, s);
            && Redo(after) == Step(after, None)
            && Current(after) == Some(s)
            && (CanUndo(after) ==> Undo(after).out == Current(before))
  {
  }

  /** The crop baseline: from any store, reset, then push the cropped snapshot. */
  lemma ResetThenPush<T>(h: History<T>, x: T)
    requires Valid(h) && h.limit >= 1
    ensures var r := Apply(Apply(h, ResetOp), PushOp(x));
            && r.stack == [x] && r.index == 0
            && !CanUndo(r) && !CanRedo(r) && Current(r) == Some(x)
  {
  }

  /** The last `Min(|xs|, limit)` snapshots of `xs`: what a store of that capacity keeps. */
  function Window<T>(xs: seq<T>, limit: int): (w: seq<T>)
    requires limit >= 1
    ensures |w| == Min(|xs|, limit)
    ensures |xs| <= limit ==> w == xs
    ensures |w| > 0 ==> w[|w| - 1] == xs[|xs| - 1]
  {
    xs[|xs| - Min(|xs|, limit)..]
  }

  /** A push at the tail of a full store evicts the oldest snapshot. */
  lemma PushOntoFull<T>(w: seq<T>, x: T)
    requires |w| >= 1
    ensures Push(History(w, |w| - 1, |w|), x) == History(w[1..] + [x], |w| - 1, |w|)
  {
  }

  /** A push at the tail of a store with room appends. */
  lemma PushWithRoom<T>(w: seq<T>, x: T, limit: int)
    requires |w| < limit
    ensures Push(History(w, |w| - 1, limit), x) == History(w + [x], |w|, limit)
  {
  }

  /** One push onto a store holding `Window(ys, limit)` leaves `Window(ys + [x], limit)`. */
  lemma PushOntoWindow<T>(limit: int, ys: seq<T>, x: T)
    requires limit >= 1
    ensures var w := Window(ys, limit);
            Push(History(w, |w| - 1, limit), x) == History(Window(ys + [x], limit), |Window(ys + [x], limit)| - 1, limit)
  {
    var w, xs := Window(ys, limit), ys + [x];
    if |w| == limit {
      PushOntoFull(w, x);
      var k := |ys| - limit;
      assert w[1..] == ys[k + 1..];
      assert Window(xs, limit) == xs[k + 1..] == ys[k + 1..] + [x];
    } else {
      PushWithRoom(w, x, limit);
      assert w == ys;
    }
  }

  /**
   * Pushing `xs` onto an empty store keeps exactly the last `limit`
   * snapshots, in push order, with the cursor on the newest one.
   */
  lemma {:induction false} PushAllFromEmpty<T>(limit: int, xs: seq<T>)
    requires limit >= 1
    ensures PushAll(Empty(limit), xs) == History(Window(xs, limit), |Window(xs, limit)| - 1, limit)
    decreases |xs|
  {
    if xs != [] {
      var ys := xs[..|xs| - 1];
      assert xs == ys + [xs[|xs| - 1]];
      PushAllFromEmpty(limit, ys);
      PushOntoWindow(limit, ys, xs[|xs| - 1]);
    }
  }

  /** Undo hands back the snapshots before the cursor, newest first, then returns null. */
  lemma {:induction false} UndoOutputsAreEarlierSnapshots<T>(h: History<T>)
    requires Valid(h)
    ensures UndoOutputs(h) == Reversed(h.stack[..Max(h.index, 0)])
    decreases h.index
  {
    if CanUndo(h) {
      var n := Undo(h).next;
      UndoOutputsAreEarlierSnapshots(n);
      assert h.stack[..h.index][..h.index - 1] == n.stack[..n.index];
    }
  }

  /**
   * N pushes onto an empty store with N no more than its capacity: the
   * store holds them all, undo is possible exactly when N > 1, and exactly
   * N - 1 undos succeed, returning the earlier snapshots newest first.
   */
  lemma NPushesPermitNMinusOneUndos<T>(limit: int, xs: seq<T>)
    requires 1 <= |xs| <= limit
    ensures var h := PushAll(Empty(limit), xs);
            && h.stack == xs
            && Current(h) == Some(xs[|xs| - 1])
            && (CanUndo(h) <==> |xs| > 1)
            && !CanRedo(h)
            && UndoOutputs(h) == Reversed(xs[..|xs| - 1])
            && |UndoOutputs(h)| == |xs| - 1
  {
    PushAllFromEmpty(limit, xs);
    UndoOutputsAreEarlierSnapshots(PushAll(Empty(limit), xs));
  }

  /** With more pushes than the capacity, only `limit - 1` undos succeed. */
  lemma PushesBeyondLimitPermitLimitMinusOneUndos<T>(limit: int, xs: seq<T>)
    requires 1 <= limit < |xs|
    ensures var h := PushAll(Empty(limit), xs);
            && h.stack == xs[|xs| - limit..]
            && |UndoOutputs(h)| == limit - 1
  {
    PushAllFromEmpty(limit, xs);
    UndoCountAtFullWindow(History(Window(xs, limit), limit - 1, limit));
  }

  /** In a full store with the cursor at the tail, `limit - 1` undos succeed. */
  lemma UndoCountAtFullWindow<T>(h: History<T>)
    requires Valid(h) && h.limit >= 1 && h.index == h.limit - 1
    ensures |UndoOutputs(h)| == h.limit - 1
  {
    UndoOutputsAreEarlierSnapshots(h);
  }
}
