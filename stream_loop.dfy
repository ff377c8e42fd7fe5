/** The loop of the live view's `stream` thread, for any view type `V` and
    message type `M`: each message is applied to the view with `step`, then
    the view is redrawn with `redraw`, the k-th redraw at time `clock[k]`. A
    redraw yields the text it wrote, the exception it raised if any, and the
    line remembered afterwards; an exception ends the loop. The live view
    instantiates this loop with its own merge and redraw. */
module StreamLoop {
  import opened Json

  /** What one redraw produces: the text written, the exception raised if
      any, and the line remembered afterwards. */
  type Frame = (string, Option<Failure>, string)

  /** The view after the messages `msgs`, in order. */
  function Replay<V, M>(step: (V, M) -> V, v0: V, msgs: seq<M>): V
  {
    if msgs == [] then v0 else step(Replay(step, v0, msgs[..|msgs| - 1]), msgs[|msgs| - 1])
  }

  /** The line remembered after the first `i` redraws, starting from `line0`. */
  function LineAfter<V, M>(step: (V, M) -> V, redraw: (V, string, int) -> Frame, v0: V, line0: string,
                           msgs: seq<M>, clock: seq<int>, i: nat): string
    requires i <= |msgs| == |clock|
  {
    if i == 0 then line0
    else redraw(Replay(step, v0, msgs[..i]), LineAfter(step, redraw, v0, line0, msgs, clock, i - 1), clock[i - 1]).2
  }

  /** Redraw number `k`: of the view after the first `k + 1` messages, from
      the line the previous redraws left. */
  function Redrawn<V, M>(step: (V, M) -> V, redraw: (V, string, int) -> Frame, v0: V, line0: string,
                         msgs: seq<M>, clock: seq<int>, k: nat): Frame
    requires k < |msgs| == |clock|
  {
    redraw(Replay(step, v0, msgs[..k + 1]), LineAfter(step, redraw, v0, line0, msgs, clock, k), clock[k])
  }

  /** The loop over its first `n` messages: what the redraws wrote, the
      exception that ended the loop if any, and the view and the line
      afterwards. Once a redraw has failed, later messages are never read. */
  function Run<V, M>(step: (V, M) -> V, redraw: (V, string, int) -> Frame, v0: V, line0: string,
                     msgs: seq<M>, clock: seq<int>, n: nat): (seq<string>, Option<Failure>, V, string)
    requires n <= |msgs| == |clock|
  {
    if n == 0 then ([], None, v0, line0)
    else
      var before := Run(step, redraw, v0, line0, msgs, clock, n - 1);
      if before.1.Some? then before
      else
        var v := step(before.2, msgs[n - 1]);
        var frame := redraw(v, before.3, clock[n - 1]);
        (before.0 + [frame.0], frame.1, v, frame.2)
  }

  /** One more turn of a loop that has not failed yet: the message is
      applied, the view redrawn, and what it wrote appended. */
  lemma RunStep<V, M>(step: (V, M) -> V, redraw: (V, string, int) -> Frame, v0: V, line0: string,
                      msgs: seq<M>, clock: seq<int>, n: nat)
    requires n < |msgs| == |clock|
    requires Run(step, redraw, v0, line0, msgs, clock, n).1.None?
    ensures var before := Run(step, redraw, v0, line0, msgs, clock, n);
      var frame := redraw(step(before.2, msgs[n]), before.3, clock[n]);
      && Run(step, redraw, v0, line0, msgs, clock, n + 1).0 == before.0 + [frame.0]
      && Run(step, redraw, v0, line0, msgs, clock, n + 1).1 == frame.1
      && Run(step, redraw, v0, line0, msgs, clock, n + 1).2 == step(before.2, msgs[n])
      && Run(step, redraw, v0, line0, msgs, clock, n + 1).3 == frame.2
  {
  }

  /** When the last message of `before` takes the view it was applied to to
      the same view as it would take `v2` to, the replay forgets everything
      before that message. */
  lemma {:induction false} ReplayForgets<V, M>(step: (V, M) -> V, v1: V, v2: V, before: seq<M>, after: seq<M>)
    requires |before| > 0
    requires step(Replay(step, v1, before[..|before| - 1]), before[|before| - 1]) == step(v2, before[|before| - 1])
    ensures Replay(step, v1, before + after) == Replay(step, v2, [before[|before| - 1]] + after)
    decreases |after|
  {
    var last := before[|before| - 1];
    if after == [] {
      assert before + after == before;
      assert before[..|before| - 1] + [last] == before;
      assert [last] + after == [last];
      assert [last][..0] == [];
      assert step(Replay(step, v1, before[..|before| - 1]), last) == step(v2, last);
    } else {
      ReplayForgets(step, v1, v2, before, after[..|after| - 1]);
      assert (before + after)[..|before + after| - 1] == before + after[..|after| - 1];
      var tail := [last] + after;
      assert tail[..|tail| - 1] == [last] + after[..|after| - 1];
    }
  }

  /** One redraw per message read; the loop ends early only on an exception,
      and an exception comes with at least one redraw. */
  lemma {:induction false} RunShape<V, M>(step: (V, M) -> V, redraw: (V, string, int) -> Frame, v0: V, line0: string,
                                          msgs: seq<M>, clock: seq<int>, n: nat)
    requires n <= |msgs| == |clock|
    ensures |Run(step, redraw, v0, line0, msgs, clock, n).0| <= n
    ensures Run(step, redraw, v0, line0, msgs, clock, n).1.None? ==> |Run(step, redraw, v0, line0, msgs, clock, n).0| == n
    ensures Run(step, redraw, v0, line0, msgs, clock, n).1.Some? ==> |Run(step, redraw, v0, line0, msgs, clock, n).0| > 0
  {
    if n > 0 {
      RunShape(step, redraw, v0, line0, msgs, clock, n - 1);
    }
  }

  /** The state the loop ends in: the exception, if any, is the one of the
      last redraw; the view is the replay of the messages read and the line
      is the one the redraws left. */
  lemma {:induction false} RunState<V, M>(step: (V, M) -> V, redraw: (V, string, int) -> Frame, v0: V, line0: string,
                                          msgs: seq<M>, clock: seq<int>, n: nat)
    requires n <= |msgs| == |clock|
    ensures |Run(step, redraw, v0, line0, msgs, clock, n).0| <= n
    ensures Run(step, redraw, v0, line0, msgs, clock, n).1 ==
      if |Run(step, redraw, v0, line0, msgs, clock, n).0| == 0 then None
      else Redrawn(step, redraw, v0, line0, msgs, clock, |Run(step, redraw, v0, line0, msgs, clock, n).0| - 1).1
    ensures Run(step, redraw, v0, line0, msgs, clock, n).2 ==
      Replay(step, v0, msgs[..|Run(step, redraw, v0, line0, msgs, clock, n).0|])
    ensures Run(step, redraw, v0, line0, msgs, clock, n).3 ==
      LineAfter(step, redraw, v0, line0, msgs, clock, |Run(step, redraw, v0, line0, msgs, clock, n).0|)
  {
    RunShape(step, redraw, v0, line0, msgs, clock, n);
    if n > 0 {
      RunState(step, redraw, v0, line0, msgs, clock, n - 1);
      RunShape(step, redraw, v0, line0, msgs, clock, n - 1);
      if Run(step, redraw, v0, line0, msgs, clock, n - 1).1.None? {
        assert msgs[..n][..n - 1] == msgs[..n - 1];
      }
    }
  }

  /** Redraw `k` wrote `screen[k]`, and succeeded unless it was the last. */
  lemma {:induction false} RunWrote<V, M>(step: (V, M) -> V, redraw: (V, string, int) -> Frame, v0: V, line0: string,
                                          msgs: seq<M>, clock: seq<int>, n: nat, k: nat)
    requires n <= |msgs| == |clock|
    requires k < |Run(step, redraw, v0, line0, msgs, clock, n).0|
    ensures k < |msgs|
    ensures Run(step, redraw, v0, line0, msgs, clock, n).0[k] == Redrawn(step, redraw, v0, line0, msgs, clock, k).0
    ensures k < |Run(step, redraw, v0, line0, msgs, clock, n).0| - 1 ==> Redrawn(step, redraw, v0, line0, msgs, clock, k).1.None?
  {
    RunShape(step, redraw, v0, line0, msgs, clock, n);
    if n > 0 {
      var before := Run(step, redraw, v0, line0, msgs, clock, n - 1);
      RunShape(step, redraw, v0, line0, msgs, clock, n - 1);
      RunState(step, redraw, v0, line0, msgs, clock, n - 1);
      if before.1.Some? || k < n - 1 {
        RunWrote(step, redraw, v0, line0, msgs, clock, n - 1, k);
      }
      if before.1.None? {
        assert msgs[..n][..n - 1] == msgs[..n - 1];
      }
    }
  }

  /** What the loop writes, redraw by redraw: `screen[k]` is redraw `k` of the
      view after the first `k + 1` messages; every redraw before the last one
      succeeded, and the loop ends early exactly when the last one failed,
      with that redraw's exception; the view is the replay of the messages
      read and the line is the one the redraws left. */
  lemma RunFrames<V, M>(step: (V, M) -> V, redraw: (V, string, int) -> Frame, v0: V, line0: string,
                        msgs: seq<M>, clock: seq<int>, n: nat)
    requires n <= |msgs| == |clock|
    ensures |Run(step, redraw, v0, line0, msgs, clock, n).0| <= n
    ensures Run(step, redraw, v0, line0, msgs, clock, n).1.None? ==> |Run(step, redraw, v0, line0, msgs, clock, n).0| == n
    ensures forall k :: 0 <= k < |Run(step, redraw, v0, line0, msgs, clock, n).0| ==>
      Run(step, redraw, v0, line0, msgs, clock, n).0[k] == Redrawn(step, redraw, v0, line0, msgs, clock, k).0
    ensures forall k :: 0 <= k < |Run(step, redraw, v0, line0, msgs, clock, n).0| - 1 ==>
      Redrawn(step, redraw, v0, line0, msgs, clock, k).1.None?
    ensures Run(step, redraw, v0, line0, msgs, clock, n).1 ==
      if |Run(step, redraw, v0, line0, msgs, clock, n).0| == 0 then None
      else Redrawn(step, redraw, v0, line0, msgs, clock, |Run(step, redraw, v0, line0, msgs, clock, n).0| - 1).1
    ensures Run(step, redraw, v0, line0, msgs, clock, n).2 ==
      Replay(step, v0, msgs[..|Run(step, redraw, v0, line0, msgs, clock, n).0|])
    ensures Run(step, redraw, v0, line0, msgs, clock, n).3 ==
      LineAfter(step, redraw, v0, line0, msgs, clock, |Run(step, redraw, v0, line0, msgs, clock, n).0|)
  {
    RunShape(step, redraw, v0, line0, msgs, clock, n);
    RunState(step, redraw, v0, line0, msgs, clock, n);
    forall k | 0 <= k < |Run(step, redraw, v0, line0, msgs, clock, n).0|
      ensures Run(step, redraw, v0, line0, msgs, clock, n).0[k] == Redrawn(step, redraw, v0, line0, msgs, clock, k).0
      ensures k < |Run(step, redraw, v0, line0, msgs, clock, n).0| - 1 ==> Redrawn(step, redraw, v0, line0, msgs, clock, k).1.None?
    {
      RunWrote(step, redraw, v0, line0, msgs, clock, n, k);
    }
  }
}
