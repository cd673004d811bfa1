/** The two linked-list stacks behind undo and redo, shared by the
    `PathManager` of `SignaturePad` and the `SketchesManager` of `SketchBoard`:
    `history` holds the recorded strokes, most recent first, and `retained`
    the undone ones, most recently undone first. Index 0 of each sequence is
    the head of the list, where `push` and `pop` act. */
module UndoHistory {
  import opened JavaMath

  datatype Stacks<T> = Stacks(history: seq<T>, retained: seq<T>)

  function Reverse<T>(s: seq<T>): (r: seq<T>)
    ensures |r| == |s|
    ensures forall i :: 0 <= i < |s| ==> r[i] == s[|s| - 1 - i]
  {
    if |s| == 0 then [] else Reverse(s[1..]) + [s[0]]
  }

  lemma {:induction false} ReverseReverse<T>(s: seq<T>)
    ensures Reverse(Reverse(s)) == s
  {
    var r := Reverse(s);
    assert forall i :: 0 <= i < |s| ==> Reverse(r)[i] == s[i];
  }

  lemma ReverseAppend<T>(a: seq<T>, b: seq<T>)
    ensures Reverse(a + b) == Reverse(b) + Reverse(a)
  {
    assert forall i :: 0 <= i < |a + b| ==> Reverse(a + b)[i] == (Reverse(b) + Reverse(a))[i];
  }

  /** `k` single pops from the head of `source`, each pushed onto the head of
      `target`, one at a time. */
  function Transfer<T>(source: seq<T>, target: seq<T>, k: nat): (r: (seq<T>, seq<T>))
    requires k <= |source|
    ensures r.0 == source[k..]
    ensures r.1 == Reverse(source[..k]) + target
    decreases k
  {
    if k == 0 then
      (source, target)
    else
      var r := Transfer(source[1..], [source[0]] + target, k - 1);
      assert source[1..][..k - 1] == source[1..k];
      assert Reverse(source[..k]) == Reverse(source[1..k]) + [source[0]] by {
        assert source[..k] == [source[0]] + source[1..k];
        ReverseAppend([source[0]], source[1..k]);
      }
      r
  }

  /** Moving `k` entries back undoes moving them: the popped prefix comes
      back in its original order. */
  lemma TransferBack<T>(source: seq<T>, target: seq<T>, k: nat)
    requires k <= |source|
    ensures var r := Transfer(source, target, k);
      Transfer(r.1, r.0, k) == (target, source)
  {
    var r := Transfer(source, target, k);
    var back := Reverse(source[..k]);
    assert r.1[..k] == back && r.1[k..] == target;
    ReverseReverse(source[..k]);
    assert source[..k] + source[k..] == source;
  }

  /** A single `undo()` of `PathManager`: `history.pop()` throws on an empty
      list, which is the `None` result. */
  function UndoOne<T>(s: Stacks<T>): (r: Option<Stacks<T>>)
    ensures r.None? <==> |s.history| == 0
    ensures r.Some? ==> r.value.history == s.history[1..] && r.value.retained == [s.history[0]] + s.retained
  {
    if |s.history| == 0 then None
    else Some(Stacks(s.history[1..], [s.history[0]] + s.retained))
  }

  /** A single `undo()` of `SketchesManager`: guarded by `canUndo`, so an
      empty history leaves both lists as they are. */
  function GuardedUndoOne<T>(s: Stacks<T>): (r: Stacks<T>)
    ensures |s.history| == 0 ==> r == s
    ensures 0 < |s.history| ==> Some(r) == UndoOne(s)
  {
    if |s.history| == 0 then s else Stacks(s.history[1..], [s.history[0]] + s.retained)
  }

  /** A single `redo()`, which both managers guard by `retained` being
      non-empty. */
  function RedoOne<T>(s: Stacks<T>): (r: Stacks<T>)
    ensures |s.retained| == 0 ==> r == s
    ensures 0 < |s.retained| ==> r.retained == s.retained[1..] && r.history == [s.retained[0]] + s.history
  {
    if |s.retained| == 0 then s else Stacks([s.retained[0]] + s.history, s.retained[1..])
  }

  /** `undo(steps)`: `stepsToUndo = Math.min(steps, history.size())` single
      undos when that is positive; the count is returned either way. */
  function Undo<T>(s: Stacks<T>, steps: int): (r: (Stacks<T>, int))
    ensures r.1 == Min(steps, |s.history|)
    ensures r.1 <= 0 ==> r.0 == s
    ensures 0 < r.1 ==> r.0.history == s.history[r.1..] &&
                        r.0.retained == Reverse(s.history[..r.1]) + s.retained
    ensures |r.0.history| + |r.0.retained| == |s.history| + |s.retained|
  {
    var count := Min(steps, |s.history|);
    if count > 0 then
      var moved := Transfer(s.history, s.retained, count);
      (Stacks(moved.0, moved.1), count)
    else (s, count)
  }

  /** `redo(steps)`: `stepsToRedo = Math.min(steps, retained.size())` single
      redos when that is at least one; the count is returned either way. */
  function Redo<T>(s: Stacks<T>, steps: int): (r: (Stacks<T>, int))
    ensures r.1 == Min(steps, |s.retained|)
    ensures r.1 <= 0 ==> r.0 == s
    ensures 0 < r.1 ==> r.0.retained == s.retained[r.1..] &&
                        r.0.history == Reverse(s.retained[..r.1]) + s.history
    ensures |r.0.history| + |r.0.retained| == |s.history| + |s.retained|
  {
    var count := Min(steps, |s.retained|);
    if count >= 1 then
      var moved := Transfer(s.retained, s.history, count);
      (Stacks(moved.1, moved.0), count)
    else (s, count)
  }

  /** Undoing `k` steps with `k` single undos, as the loop does, gives the
      same lists as the closed form of `Undo`. */
  lemma {:induction false} UndoIsRepeatedUndoOne<T>(s: Stacks<T>, k: nat)
    requires k <= |s.history|
    ensures Undo(s, k).0 == RepeatUndoOne(s, k)
    decreases k
  {
    if k > 0 {
      var s1 := UndoOne(s).value;
      UndoIsRepeatedUndoOne(s1, k - 1);
      assert s.history[1..][k - 1..] == s.history[k..];
      assert s.history[..k] == [s.history[0]] + s.history[1..][..k - 1];
      ReverseAppend([s.history[0]], s.history[1..][..k - 1]);
    }
  }

  function RepeatUndoOne<T>(s: Stacks<T>, k: nat): Stacks<T>
    requires k <= |s.history|
    decreases k
  {
    if k == 0 then s else RepeatUndoOne(UndoOne(s).value, k - 1)
  }

  /** Redoing `k` steps with `k` single redos, as the loop does, gives the
      same lists as the closed form of `Redo`. */
  lemma {:induction false} RedoIsRepeatedRedoOne<T>(s: Stacks<T>, k: nat)
    requires k <= |s.retained|
    ensures Redo(s, k).0 == RepeatRedoOne(s, k)
    decreases k
  {
    if k > 0 {
      var s1 := RedoOne(s);
      RedoIsRepeatedRedoOne(s1, k - 1);
      assert s.retained[1..][k - 1..] == s.retained[k..];
      assert s.retained[..k] == [s.retained[0]] + s.retained[1..][..k - 1];
      ReverseAppend([s.retained[0]], s.retained[1..][..k - 1]);
    }
  }

  function RepeatRedoOne<T>(s: Stacks<T>, k: nat): Stacks<T>
    decreases k
  {
    if k == 0 then s else RepeatRedoOne(RedoOne(s), k - 1)
  }

  /** `undo(k)` followed by `redo(k)` restores both lists exactly, for any
      `k` up to the size of the history. */
  lemma UndoThenRedo<T>(s: Stacks<T>, k: int)
    requires 0 <= k <= |s.history|
    ensures Undo(s, k).1 == k
    ensures Redo(Undo(s, k).0, k).1 == k
    ensures Redo(Undo(s, k).0, k).0 == s
  {
    if k > 0 {
      TransferBack(s.history, s.retained, k);
    }
  }

  /** `redo(k)` followed by `undo(k)` restores both lists exactly, for any
      `k` up to the size of the redo list. */
  lemma RedoThenUndo<T>(s: Stacks<T>, k: int)
    requires 0 <= k <= |s.retained|
    ensures Undo(Redo(s, k).0, k).0 == s
  {
    if k > 0 {
      TransferBack(s.retained, s.history, k);
    }
  }

  /** `add`: a non-null item goes to the head of the history; `retained` is
      not touched. */
  function Add<T>(s: Stacks<T>, item: Option<T>): (r: Stacks<T>)
    ensures item.None? ==> r == s
    ensures item.Some? ==> r.history == [item.value] + s.history
    ensures r.retained == s.retained
  {
    match item
    case None => s
    case Some(x) => Stacks([x] + s.history, s.retained)
  }

  /** `destroy`: both lists emptied. */
  function Destroy<T>(s: Stacks<T>): (r: Stacks<T>)
    ensures r.history == [] && r.retained == []
  {
    Stacks([], [])
  }
}
