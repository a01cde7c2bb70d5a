/** The two coroutine bodies of ImageSpriteSheetAnimator, as resumable tasks.

    Unity runs a coroutine up to its first `yield` when it is started, and
    resumes it after each `WaitForSeconds`. Here a start is `LoopingBegin` or
    `OneShotBegin`, and each resumption is one `Resume`. Wall-clock time is
    abstract: one resumption is one tick.
 */
module Playback {

  datatype Option<+T> = None | Some(value: T)

  /** An opaque handle to a sprite asset; the animator only copies it around. */
  datatype Sprite = Sprite(id: nat)

  /** The coroutine the animator's handle refers to.
      - Idle: no coroutine was started, or it was stopped;
      - Looping(frames, next): `PlayAnimation` suspended at its `yield`, having
        written `frames[next - 1]`; `next` is the index of the frame the inner
        `foreach` writes when resumed (`next == |frames|` means the pass is over
        and `while (this.loop)` is tested next);
      - OneShot(frames, next): `PlayOneShot` suspended likewise;
      - Done: the coroutine ran to its end on its own. */
  datatype Task =
    | Idle
    | Looping(frames: seq<Sprite>, next: nat)
    | OneShot(frames: seq<Sprite>, next: nat)
    | Done
  {
    /** A suspended coroutine that will be resumed by the scheduler. */
    predicate Running() {
      Looping? || OneShot?
    }

    /** Indices reachable by the coroutine bodies. A looping body over an
        empty array never yields, so a suspended one has frames. */
    predicate WellFormed() {
      match this
      case Looping(f, i) => 1 <= i <= |f|
      case OneShot(f, i) => i <= |f|
      case _ => true
    }
  }

  /** `StopCoroutine`: a suspended coroutine is dropped; a finished one is
      left as it is. */
  function Cancel(t: Task): (r: Task)
    ensures !r.Running()
    ensures !t.Running() ==> r == t
  {
    if t.Running() then Idle else t
  }

  /** What one step of a coroutine does: the sprite it assigns to
      `targetImage.sprite` (if any) and where it is suspended afterwards. */
  datatype Step = Step(write: Option<Sprite>, task: Task)

  /** The display slot after a step. */
  function Show(display: Option<Sprite>, s: Step): Option<Sprite> {
    if s.write.Some? then s.write else display
  }

  /** The display slot after a sequence of writes: the last one, or unchanged. */
  function ShowAll(display: Option<Sprite>, shown: seq<Sprite>): Option<Sprite> {
    if shown == [] then display else Some(shown[|shown| - 1])
  }

  /** The first step of `PlayAnimation(frames, loop)`, up to its first `yield`:
      after `this.loop = loop`, the `while (this.loop)` guard is tested. The
      caller has set `this.loop` to `shouldLoop`, so the guard is `shouldLoop`. */
  function LoopingBegin(frames: seq<Sprite>, shouldLoop: bool): (s: Step)
    requires shouldLoop ==> |frames| > 0
    ensures s.task.WellFormed()
    ensures s.task.Running() <==> shouldLoop
    ensures s.write.Some? <==> shouldLoop
    ensures shouldLoop ==> s.write == Some(frames[0]) && s.task.frames == frames
  {
    if shouldLoop then Step(Some(frames[0]), Looping(frames, 1)) else Step(None, Done)
  }

  /** The first step of `PlayOneShot(frames)`: the `foreach` writes the first
      frame and yields, or ends at once on an empty array. */
  function OneShotBegin(frames: seq<Sprite>): (s: Step)
    ensures s.task.WellFormed()
    ensures s.task.Running() <==> |frames| > 0
    ensures s.write.Some? <==> |frames| > 0
    ensures |frames| > 0 ==> s.write == Some(frames[0]) && s.task.OneShot? && s.task.frames == frames
  {
    if |frames| > 0 then Step(Some(frames[0]), OneShot(frames, 1)) else Step(None, Done)
  }

  /** One resumption after `WaitForSeconds`. `loopOn` is the value of the
      animator's `loop` field at that moment, which the looping body reads
      when a pass is over. */
  function Resume(t: Task, loopOn: bool): (s: Step)
    requires t.WellFormed()
    ensures s.task.WellFormed()
    // a resumption that keeps the coroutine alive writes exactly one frame;
    // one that ends it writes none
    ensures s.write.Some? <==> s.task.Running()
    // a stopped or finished coroutine is never resumed into life
    ensures !t.Running() ==> s == Step(None, t)
    // a coroutine keeps its array
    ensures s.task.Running() ==> t.Running() && s.task.frames == t.frames
    // at the end of a pass the looping body goes on exactly when `loop` is set
    ensures t.Looping? && t.next == |t.frames| ==>
              (s.task.Running() <==> loopOn) && (loopOn ==> s.write == Some(t.frames[0]))
  {
    match t
    case Looping(f, i) =>
      if i < |f| then Step(Some(f[i]), Looping(f, i + 1))
      else if loopOn then Step(Some(f[0]), Looping(f, 1))
      else Step(None, Done)
    case OneShot(f, i) =>
      if i < |f| then Step(Some(f[i]), OneShot(f, i + 1))
      else Step(None, Done)
    case _ => Step(None, t)
  }

  /** What `n` resumptions in a row show, with `loop` fixed at `loopOn`. */
  datatype Run = Run(shown: seq<Sprite>, task: Task)

  function Written(s: Step): seq<Sprite> {
    if s.write.Some? then [s.write.value] else []
  }

  function Trace(t: Task, loopOn: bool, n: nat): (p: Run)
    requires t.WellFormed()
    ensures p.task.WellFormed()
    // at most one frame per tick
    ensures |p.shown| <= n
    // nothing is written once the coroutine is no longer running
    ensures !t.Running() ==> p == Run([], t)
    decreases n
  {
    if n == 0 then Run([], t)
    else
      var s := Resume(t, loopOn);
      var rest := Trace(s.task, loopOn, n - 1);
      Run(Written(s) + rest.shown, rest.task)
  }

  /** `m + n` ticks are `m` ticks followed by `n` ticks. */
  lemma {:induction false} TraceSplit(t: Task, loopOn: bool, m: nat, n: nat)
    requires t.WellFormed()
    ensures var p := Trace(t, loopOn, m);
            var q := Trace(p.task, loopOn, n);
            Trace(t, loopOn, m + n) == Run(p.shown + q.shown, q.task)
    decreases m
  {
    if m > 0 {
      var s := Resume(t, loopOn);
      TraceSplit(s.task, loopOn, m - 1, n);
      var p' := Trace(s.task, loopOn, m - 1);
      var q := Trace(p'.task, loopOn, n);
      assert Written(s) + (p'.shown + q.shown) == (Written(s) + p'.shown) + q.shown;
    }
  }

  /** The display after a concatenation of writes. */
  lemma ShowAllAppend(display: Option<Sprite>, a: seq<Sprite>, b: seq<Sprite>)
    ensures ShowAll(display, a + b) == ShowAll(ShowAll(display, a), b)
  {
  }

  /** The one-shot body, from index `i`, writes the rest of its array in
      order, one frame per tick, whatever `loop` is. */
  lemma {:induction false} OneShotRest(f: seq<Sprite>, i: nat, loopOn: bool)
    requires i <= |f|
    ensures Trace(OneShot(f, i), loopOn, |f| - i) == Run(f[i..], OneShot(f, |f|))
    decreases |f| - i
  {
    if i < |f| {
      OneShotRest(f, i + 1, loopOn);
      assert f[i..] == [f[i]] + f[i + 1..];
    }
  }

  /** `PlayOneShot` started on a non-empty array and resumed `n` times has
      shown exactly the first `n + 1` frames in order (all of them once `n`
      reaches `|frames| - 1`), and it has finished exactly when `n >= |frames|`;
      a finished one-shot leaves the display on the last frame. */
  lemma {:induction false} OneShotPlayback(frames: seq<Sprite>, loopOn: bool, n: nat)
    requires |frames| > 0
    ensures var s := OneShotBegin(frames);
            var p := Trace(s.task, loopOn, n);
            var all := Written(s) + p.shown;
            all == frames[..if n + 1 < |frames| then n + 1 else |frames|]
            && (p.task == Done <==> n >= |frames|)
            && (n >= |frames| - 1 ==> ShowAll(None, all) == Some(frames[|frames| - 1]))
  {
    if n + 1 < |frames| {
      OneShotUnfinished(frames, loopOn, n);
    } else {
      OneShotFinished(frames, loopOn, n);
    }
  }

  lemma OneShotUnfinished(frames: seq<Sprite>, loopOn: bool, n: nat)
    requires n + 1 < |frames|
    ensures var p := Trace(OneShot(frames, 1), loopOn, n);
            [frames[0]] + p.shown == frames[..n + 1] && p.task == OneShot(frames, n + 1)
  {
    OneShotPrefix(frames, 1, loopOn, n);
    assert [frames[0]] + frames[1..n + 1] == frames[..n + 1];
  }

  lemma OneShotFinished(frames: seq<Sprite>, loopOn: bool, n: nat)
    requires 0 < |frames| <= n + 1
    ensures var p := Trace(OneShot(frames, 1), loopOn, n);
            [frames[0]] + p.shown == frames
            && p.task == (if n == |frames| - 1 then OneShot(frames, |frames|) else Done)
  {
    var m := |frames| - 1;
    OneShotRest(frames, 1, loopOn);
    TraceSplit(OneShot(frames, 1), loopOn, m, n - m);
    OneShotEnd(frames, loopOn, n - m);
    assert [frames[0]] + frames[1..] == frames;
  }

  /** Resumed after its last frame, the one-shot body ends without writing. */
  lemma OneShotEnd(f: seq<Sprite>, loopOn: bool, n: nat)
    ensures Trace(OneShot(f, |f|), loopOn, n)
            == Run([], if n == 0 then OneShot(f, |f|) else Done)
  {
  }

  /** Before the end of its array, the one-shot body is still running and has
      written the next `n` frames. */
  lemma {:induction false} OneShotPrefix(f: seq<Sprite>, i: nat, loopOn: bool, n: nat)
    requires i + n <= |f|
    ensures Trace(OneShot(f, i), loopOn, n) == Run(f[i..i + n], OneShot(f, i + n))
    decreases n
  {
    if n > 0 {
      OneShotPrefix(f, i + 1, loopOn, n - 1);
      assert f[i..i + n] == [f[i]] + f[i + 1..i + n];
    }
  }

  /** With `loop` set, the looping body resumed at index `i` writes frame
      `(i + j) % |frames|` at its `j`-th tick, never skips a tick and never
      finishes. */
  lemma {:induction false} LoopingCycle(f: seq<Sprite>, i: nat, n: nat)
    requires 1 <= i <= |f|
    ensures var p := Trace(Looping(f, i), true, n);
            |p.shown| == n && p.task.Looping? && p.task.frames == f
            && forall j :: 0 <= j < n ==> p.shown[j] == f[(i + j) % |f|]
    decreases n
  {
    if n > 0 {
      var i' := if i < |f| then i + 1 else 1;
      var x := f[if i < |f| then i else 0];
      assert Resume(Looping(f, i), true) == Step(Some(x), Looping(f, i'));
      LoopingCycle(f, i', n - 1);
      var rest := Trace(Looping(f, i'), true, n - 1);
      assert Trace(Looping(f, i), true, n) == Run([x] + rest.shown, rest.task);
      forall j | 0 <= j < n
        ensures ([x] + rest.shown)[j] == f[(i + j) % |f|]
      {
        NextIndex(|f|, i, j);
      }
    }
  }

  /** Index arithmetic of one looping step: the frame written at index `i`
      and the index resumed at next agree with counting modulo `m`. */
  lemma NextIndex(m: nat, i: nat, j: nat)
    requires 1 <= i <= m
    ensures j == 0 ==> (i + j) % m == (if i < m then i else 0)
    ensures j > 0 ==> ((if i < m then i + 1 else 1) + j - 1) % m == (i + j) % m
  {
    if i == m {
      ModShift(m, j);
      ModShift(m, 0);
    }
  }

  lemma ModShift(m: nat, j: nat)
    requires m > 0
    ensures (m + j) % m == j % m
  {
    var q, r := j / m, j % m;
    assert m + j == (q + 1) * m + r;
    ModUnique(m + j, m, q + 1, r);
  }

  lemma ModUnique(x: int, m: int, q: int, r: int)
    requires m > 0 && 0 <= r < m && x == q * m + r
    ensures x % m == r
  {
    var d := x / m - q;
    assert d * m == r - x % m;
    MulBound(d, m);
  }

  lemma MulBound(d: int, m: int)
    requires m > 0
    ensures d > 0 ==> d * m >= m
    ensures d < 0 ==> d * m <= -m
  {
  }

  /** `StartAnimation(frames, true)` followed by `n` ticks: the display has
      received `frames[k % |frames|]` as its `k`-th write, one per tick, and
      the coroutine is still running over the same array. */
  lemma {:induction false} LoopingPlayback(frames: seq<Sprite>, n: nat)
    requires |frames| > 0
    ensures var s := LoopingBegin(frames, true);
            var p := Trace(s.task, true, n);
            var all := Written(s) + p.shown;
            |all| == n + 1 && p.task.Looping? && p.task.frames == frames
            && forall k :: 0 <= k <= n ==> all[k] == frames[k % |frames|]
  {
    var s := LoopingBegin(frames, true);
    LoopingCycle(frames, 1, n);
    var p := Trace(s.task, true, n);
    var all := Written(s) + p.shown;
    forall k | 0 <= k <= n
      ensures all[k] == frames[k % |frames|]
    {
      if k > 0 {
        assert all[k] == p.shown[k - 1];
      }
    }
  }

  /** With `loop` cleared, the looping body resumed at index `i` finishes the
      pass it is in, writing the rest of the array, and then ends without
      going back to the first frame. */
  lemma {:induction false} LoopingStopsAtPassEnd(f: seq<Sprite>, i: nat)
    requires 1 <= i <= |f|
    ensures Trace(Looping(f, i), false, |f| - i + 1) == Run(f[i..], Done)
    decreases |f| - i
  {
    if i < |f| {
      LoopingStopsAtPassEnd(f, i + 1);
      assert f[i..] == [f[i]] + f[i + 1..];
    } else {
      assert Resume(Looping(f, i), false) == Step(None, Done);
    }
  }

  /** `StartAnimation(frames, false)` shows nothing: the `while` guard fails
      before the first frame, so the coroutine is finished at once and stays
      silent for any number of ticks. */
  lemma LoopingOffShowsNothing(frames: seq<Sprite>, loopOn: bool, n: nat)
    ensures var s := LoopingBegin(frames, false);
            s.write == None && s.task == Done && Trace(s.task, loopOn, n) == Run([], Done)
  {
  }
}
