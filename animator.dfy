/** The ImageSpriteSheetAnimator component: a UI image slot, the playback
    settings, the frames of the last `StartAnimation`, and one coroutine handle.

    The coroutine the handle refers to is the field `task`; the scheduler
    resuming it after a `WaitForSeconds` is `Tick`. `StartCoroutine` returns
    a handle exactly when the body reached a `yield` (a body that ends in its
    first step yields null), and that handle stays non-null after its
    coroutine has finished, so `hasHandle` (`animationCoroutine != null`) is
    kept apart from `task.Running()`.
 */
module Animator {
  import opened Playback

  class ImageSpriteSheetAnimator {
    /** `targetImage.sprite`; `None` is a null sprite. */
    var sprite: Option<Sprite>
    /** Seconds between frames, stored and never interpreted. */
    var frameRate: real
    var loop: bool
    var currentFrame: int
    /** `None` until the first non-empty `StartAnimation`. */
    var animationFrames: Option<seq<Sprite>>
    /** `animationCoroutine != null`. */
    var hasHandle: bool
    /** The coroutine `animationCoroutine` refers to. */
    var task: Task

    /** What every public method keeps:
        - only the coroutine behind the handle can be running, so there is
          never more than one writer to the display;
        - a running looping coroutine plays the stored frames, and `loop` is
          set while it runs (only `SetLoop` clears `loop`, and it replaces
          the coroutine whenever there is a handle);
        - stored frames are never empty. */
    ghost predicate Valid()
      reads this
    {
      task.WellFormed()
      && (task.Running() ==> hasHandle)
      && (task.Looping? ==> loop && animationFrames == Some(task.frames))
      && (animationFrames.Some? ==> |animationFrames.value| > 0)
    }

    /** The component as the engine creates it, showing whatever the image
        held already (`Start` and `GetComponent<Image>()` are not modelled). */
    constructor (display: Option<Sprite>)
      ensures Valid()
      ensures sprite == display && frameRate == 0.1 && loop && currentFrame == 0
      ensures animationFrames == None && !hasHandle && task == Idle
    {
      sprite := display;
      frameRate := 0.1;
      loop := true;
      currentFrame := 0;
      animationFrames := None;
      hasHandle := false;
      task := Idle;
    }

    /** Stores the frames, stops the coroutine behind the handle and starts
        `PlayAnimation`; ignores an empty array. With `loop == false` the
        new coroutine ends before it writes any frame, so `StartCoroutine`
        returns null and the handle is dropped. */
    method StartAnimation(frames: seq<Sprite>, loop: bool)
      requires Valid()
      modifies this`animationFrames, this`task, this`hasHandle, this`loop, this`sprite
      ensures Valid()
      ensures |frames| == 0 ==> unchanged(this)
      ensures |frames| > 0 ==> animationFrames == Some(frames) && hasHandle == loop && this.loop == loop
      ensures |frames| > 0 && loop ==> task == Looping(frames, 1) && sprite == Some(frames[0])
      ensures |frames| > 0 && !loop ==> task == Done && sprite == old(sprite)
    {
      if |frames| > 0 {
        animationFrames := Some(frames);
        if hasHandle {
          task := Cancel(task);
        }
        task := PlayAnimation(frames, loop);
        hasHandle := task.Running();
      }
    }

    /** Stops the coroutine behind the handle and drops the handle; with no
        handle it does nothing. */
    method StopAnimation()
      requires Valid()
      modifies this`task, this`hasHandle
      ensures Valid()
      ensures !hasHandle && !task.Running()
      ensures old(hasHandle) ==> task == Cancel(old(task))
      ensures !old(hasHandle) ==> unchanged(this)
    {
      if hasHandle {
        task := Cancel(task);
        hasHandle := false;
      }
    }

    /** Shows the first of `frames` without playing; a null or empty array
        clears the display. */
    method SetFirstFrame(frames: Option<seq<Sprite>>)
      requires Valid()
      modifies this`sprite
      ensures Valid()
      ensures frames.None? || |frames.value| == 0 ==> sprite == None
      ensures frames.Some? && |frames.value| > 0 ==> sprite == Some(frames.value[0])
    {
      if frames.None? || |frames.value| == 0 {
        sprite := None;
        return;
      }
      sprite := Some(frames.value[0]);
    }

    /** Stops playback and starts `PlayOneShot` over `frames`; ignores an
        empty array. The stored frames are not replaced. */
    method PlayOneShotAnimation(frames: seq<Sprite>)
      requires Valid()
      modifies this`task, this`hasHandle, this`sprite
      ensures Valid()
      ensures |frames| == 0 ==> unchanged(this)
      ensures |frames| > 0 ==> hasHandle && task == OneShot(frames, 1) && sprite == Some(frames[0])
    {
      if |frames| > 0 {
        StopAnimation();
        task := PlayOneShot(frames);
        hasHandle := task.Running();
      }
    }

    /** The body of `PlayOneShot`, run by `StartCoroutine` up to its first
        `yield`; the rest of it is `Tick`. */
    method PlayOneShot(frames: seq<Sprite>) returns (t: Task)
      modifies this`sprite
      ensures t == OneShotBegin(frames).task
      ensures sprite == Show(old(sprite), OneShotBegin(frames))
    {
      var s := OneShotBegin(frames);
      sprite := Show(sprite, s);
      t := s.task;
    }

    method SetFrameRate(newFrameRate: real)
      requires Valid()
      modifies this`frameRate
      ensures Valid()
      ensures frameRate == newFrameRate
    {
      frameRate := newFrameRate;
    }

    /** Zeroes the frame counter; the display is assigned to itself. */
    method ResetAnimation()
      requires Valid()
      modifies this`currentFrame, this`sprite
      ensures Valid()
      ensures currentFrame == 0 && sprite == old(sprite)
    {
      currentFrame := 0;
      sprite := sprite;
    }

    /** Stores the flag and, when there is a handle (even to a finished
        coroutine), replaces its coroutine by a one-shot over the stored
        frames, whatever the flag. A handle without stored frames
        (`PlayOneShotAnimation` before any `StartAnimation`) would make the
        one-shot iterate a null array. */
    method SetLoop(shouldLoop: bool)
      requires Valid()
      requires hasHandle ==> animationFrames.Some?
      modifies this`loop, this`task, this`sprite, this`hasHandle
      ensures Valid()
      ensures loop == shouldLoop && hasHandle == old(hasHandle)
      ensures !old(hasHandle) ==> task == old(task) && sprite == old(sprite)
      ensures old(hasHandle) ==> task == OneShot(animationFrames.value, 1)
                                 && sprite == Some(animationFrames.value[0])
    {
      loop := shouldLoop;
      if hasHandle {
        task := Cancel(task);
        task := PlayOneShot(animationFrames.value);
        hasHandle := task.Running();
      }
    }

    /** The body of `PlayAnimation`, run by `StartCoroutine` up to its first
        `yield`; the rest of it is `Tick`. */
    method PlayAnimation(frames: seq<Sprite>, loop: bool) returns (t: Task)
      requires loop ==> |frames| > 0
      modifies this`loop, this`sprite
      ensures this.loop == loop
      ensures t == LoopingBegin(frames, loop).task
      ensures sprite == Show(old(sprite), LoopingBegin(frames, loop))
    {
      this.loop := loop;
      var s := LoopingBegin(frames, this.loop);
      sprite := Show(sprite, s);
      t := s.task;
    }

    /** The scheduler resumes the coroutine after its wait: the looping body
        writes the next frame, or at the end of a pass tests `loop` and
        starts over or ends; the one-shot body writes the next frame or ends.
        A stopped or finished coroutine is not resumed. */
    method Tick()
      requires task.WellFormed()
      modifies this`sprite, this`task
      ensures old(Valid()) ==> Valid()
      ensures task == Resume(old(task), loop).task
      ensures sprite == Show(old(sprite), Resume(old(task), loop))
    {
      var s := Resume(task, loop);
      sprite := Show(sprite, s);
      task := s.task;
    }

    /** The scheduler resumes the coroutine `n` times with no other call to
        the component in between. */
    method AdvanceTicks(n: nat)
      requires Valid()
      modifies this`sprite, this`task
      ensures Valid()
      ensures task == Trace(old(task), loop, n).task
      ensures sprite == ShowAll(old(sprite), Trace(old(task), loop, n).shown)
    {
      var k := 0;
      while k < n
        invariant k <= n && Valid()
        invariant task == Trace(old(task), loop, k).task
        invariant sprite == ShowAll(old(sprite), Trace(old(task), loop, k).shown)
      {
        var s := Resume(task, loop);
        Tick();
        TraceSplit(old(task), loop, k, 1);
        ShowAllAppend(old(sprite), Trace(old(task), loop, k).shown, Written(s));
        k := k + 1;
      }
    }
  }

  /** A one-shot run resumed once per frame ends on its own with the display
      left on the last frame. */
  method OneShotEndsOnLastFrame(a: ImageSpriteSheetAnimator, frames: seq<Sprite>)
    requires a.Valid() && |frames| > 0
    modifies a
    ensures a.Valid() && a.hasHandle && a.task == Done
    ensures a.sprite == Some(frames[|frames| - 1])
  {
    a.PlayOneShotAnimation(frames);
    a.AdvanceTicks(|frames|);
    OneShotPlayback(frames, a.loop, |frames|);
    ShowAllAppend(None, [frames[0]], Trace(OneShot(frames, 1), a.loop, |frames|).shown);
  }

  /** A looping run shows `frames[n % |frames|]` after `n` ticks and is still
      running: it cycles until it is stopped or replaced. */
  method LoopingShowsFrameOfTick(a: ImageSpriteSheetAnimator, frames: seq<Sprite>, n: nat)
    requires a.Valid() && |frames| > 0
    modifies a
    ensures a.Valid() && a.hasHandle && a.task.Looping? && a.task.frames == frames
    ensures a.sprite == Some(frames[n % |frames|])
  {
    a.StartAnimation(frames, true);
    a.AdvanceTicks(n);
    LoopingPlayback(frames, n);
    ShowAllAppend(None, [frames[0]], Trace(Looping(frames, 1), true, n).shown);
  }

  /** `PlayOneShotAnimation` does not store its frames, so a later `SetLoop`
      replays, once, the frames of the last `StartAnimation`. */
  method SetLoopReplaysStartedFrames(a: ImageSpriteSheetAnimator, started: seq<Sprite>,
                                     loop: bool, oneShot: seq<Sprite>, shouldLoop: bool)
    requires a.Valid() && |started| > 0 && |oneShot| > 0
    modifies a
    ensures a.Valid() && a.loop == shouldLoop && a.animationFrames == Some(started)
    ensures a.task == OneShot(started, 1) && a.sprite == Some(started[0])
  {
    a.StartAnimation(started, loop);
    a.PlayOneShotAnimation(oneShot);
    a.SetLoop(shouldLoop);
  }

  /** `StartAnimation(frames, false)` leaves no handle, because its coroutine
      ends inside `StartCoroutine`; a later `SetLoop` then only stores the
      flag and shows nothing. */
  method SetLoopAfterImmediateEnd(a: ImageSpriteSheetAnimator, frames: seq<Sprite>, shouldLoop: bool)
    requires a.Valid() && |frames| > 0
    modifies a
    ensures a.Valid() && !a.hasHandle && a.task == Done && a.loop == shouldLoop
    ensures a.sprite == old(a.sprite) && a.animationFrames == Some(frames)
  {
    a.StartAnimation(frames, false);
    a.SetLoop(shouldLoop);
  }
}
