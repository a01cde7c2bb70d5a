# ImageSpriteSheetAnimator in Dafny

A model of the Unity component `ImageSpriteSheetAnimator`. The component plays an array of
sprites into a UI `Image` at a fixed rate, optionally looping. It holds:

- the displayed sprite (`targetImage.sprite`);
- a frame rate in seconds;
- a `loop` flag;
- a `currentFrame` counter;
- the frames of the last `StartAnimation` (`animationFrames`);
- one coroutine handle (`animationCoroutine`).

Two coroutine bodies write to the display: a looping player (`PlayAnimation`) and a one-pass
player (`PlayOneShot`).

The project has two modules:

- `Playback` (playback.dfy) models the coroutine bodies as a resumable task. The task is
  `Idle`, `Looping(frames, next)`, `OneShot(frames, next)` or `Done`.
  - `LoopingBegin` and `OneShotBegin` are what `StartCoroutine` runs before it returns,
    which is the body up to its first `yield`.
  - `Resume` is one resumption after a `WaitForSeconds`.
  - `Trace` is `n` resumptions in a row.
  - The lemmas describe what the display receives over time.
- `Animator` (animator.dfy) holds the class `ImageSpriteSheetAnimator`. Its fields mirror the
  component's, and its methods mirror the public methods and the two coroutine starts.
  - `Tick` stands for the scheduler resuming the coroutine.
  - `AdvanceTicks` stands for `n` scheduler resumptions with no other call in between.
  - `Valid()` is the invariant every public method keeps:
    - only the coroutine behind the handle can be running;
    - a running looping coroutine plays the stored frames and sees `loop == true`;
    - stored frames are never empty.
  - The handle (`hasHandle`, meaning `animationCoroutine != null`) is kept apart from
    `task.Running()`. `StartCoroutine` returns a non-null handle exactly when the body
    reached its first `yield`. A body that ends within that first step yields a null handle.
    A non-null handle stays non-null after its coroutine ends. Only `StopAnimation`, or a
    restart whose body ends at once, clears it.

The model follows the code as written, including where it differs from the component's own
doc comments:

- `StartAnimation(frames, false)` shows nothing. `PlayAnimation` sets `loop` to false, and then
  `while (this.loop)` fails before the first frame. The doc comment on line 24 promises a
  one-time animation. Because the body ends inside `StartCoroutine`, `animationCoroutine`
  becomes null, so a later `SetLoop` only stores the flag.
- `SetLoop`, whenever a handle exists, restarts a one-shot over the stored frames, whatever
  flag it is given. This includes a handle whose coroutine has already finished.
  `PlayOneShotAnimation` never stores its frames, so a later `SetLoop` replays the frames of
  the last `StartAnimation`.
- Through the public methods, `loop` is always set while a looping coroutine runs. So a looping
  coroutine never ends on its own. `Playback.LoopingStopsAtPassEnd` proves what the pass-end test
  does when `loop` is clear, but only the class's `Tick` on a state outside `Valid()` reaches that
  branch.

## Model

In the table, `N` is the number of frames in the array being played.

| member | source | states |
|---|---|---|
| Playback.Cancel | ImageSpriteSheetAnimator.cs:48 | `StopCoroutine` leaves no running coroutine; a finished or absent one is left as it is |
| Playback.LoopingBegin | ImageSpriteSheetAnimator.cs:126-136 | starting the looping body writes `frames[0]` and stays suspended exactly when the flag is true; with the flag false it writes nothing and ends |
| Playback.OneShotBegin | ImageSpriteSheetAnimator.cs:82-87 | starting the one-shot body writes `frames[0]` and stays suspended over the same array exactly when the array is non-empty |
| Playback.Resume | ImageSpriteSheetAnimator.cs:126-139 | a resumption of either body (one-shot body at lines 84-88) writes exactly one frame when the coroutine stays alive and none when it ends; a stopped or finished coroutine stays inert; the array never changes; at the end of a looping pass it goes on, from `frames[0]`, exactly when `loop` is set |
| Playback.Trace | ImageSpriteSheetAnimator.cs:130-137 | `n` resumptions write at most `n` frames, and none when the coroutine is not running |
| Playback.OneShotRest | ImageSpriteSheetAnimator.cs:84-88 | from index `i`, the one-shot body writes `frames[i..]` in order, one per tick |
| Playback.OneShotPrefix | ImageSpriteSheetAnimator.cs:84-88 | before its array ends, the one-shot body writes the next `n` frames in order and is still running |
| Playback.OneShotEnd | ImageSpriteSheetAnimator.cs:84-89 | resumed after its last frame, the one-shot body ends without a write and stays ended |
| Playback.OneShotPlayback | ImageSpriteSheetAnimator.cs:82-89 | start plus `n` ticks shows exactly the first `min(n+1, N)` frames, each once and in order; the coroutine has ended exactly when `n >= N`; the display is left on the last frame |
| Playback.LoopingCycle | ImageSpriteSheetAnimator.cs:130-137 | with `loop` set, the looping body resumed at index `i` writes `frames[(i+j) % N]` at tick `j`, one per tick, and never ends |
| Playback.LoopingPlayback | ImageSpriteSheetAnimator.cs:126-139 | `PlayAnimation(frames, true)` plus `n` ticks has written `frames[k % N]` as its `k`-th write for every `k <= n`, and is still running |
| Playback.LoopingStopsAtPassEnd | ImageSpriteSheetAnimator.cs:130-138 | with `loop` clear, the looping body finishes its current pass, writing the rest of the array, then ends instead of going back to `frames[0]` |
| Playback.LoopingOffShowsNothing | ImageSpriteSheetAnimator.cs:128-130 | `PlayAnimation(frames, false)` writes nothing, ends at once, and stays silent for any number of ticks |
| Animator.ImageSpriteSheetAnimator.constructor | ImageSpriteSheetAnimator.cs:13-18 | defaults: frame rate 0.1, `loop` true, counter 0, no stored frames, no handle, no coroutine; the invariant holds |
| Animator.ImageSpriteSheetAnimator.StartAnimation | ImageSpriteSheetAnimator.cs:25-39 | empty array: nothing changes. Otherwise it stores the array and sets `loop`. The one task slot then holds `Looping(frames, 1)` under a handle, with `frames[0]` shown (flag true). With the flag false it holds `Done`, with no handle and the display untouched |
| Animator.ImageSpriteSheetAnimator.StopAnimation | ImageSpriteSheetAnimator.cs:44-51 | afterwards there is no handle and no running coroutine; with no handle it changes nothing (idempotent) |
| Animator.ImageSpriteSheetAnimator.SetFirstFrame | ImageSpriteSheetAnimator.cs:56-65 | a null or empty array clears the display, otherwise it shows `frames[0]`; only the display changes |
| Animator.ImageSpriteSheetAnimator.PlayOneShotAnimation | ImageSpriteSheetAnimator.cs:70-77 | empty array: nothing changes. Otherwise it stops playback and installs `OneShot(frames, 1)` under a handle with `frames[0]` shown. Stored frames and `loop` are untouched |
| Animator.ImageSpriteSheetAnimator.PlayOneShot | ImageSpriteSheetAnimator.cs:82-89 | the first step of the one-shot body agrees with `OneShotBegin` on the task and the display |
| Animator.ImageSpriteSheetAnimator.SetFrameRate | ImageSpriteSheetAnimator.cs:95-98 | only the frame rate changes, to the given value |
| Animator.ImageSpriteSheetAnimator.ResetAnimation | ImageSpriteSheetAnimator.cs:103-107 | the counter becomes 0; the display and everything else are unchanged |
| Animator.ImageSpriteSheetAnimator.SetLoop | ImageSpriteSheetAnimator.cs:113-121 | stores the flag. With a handle, even one to a finished coroutine, the task becomes `OneShot(stored frames, 1)` with the first stored frame shown, whatever the flag. Without a handle, task and display are untouched |
| Animator.ImageSpriteSheetAnimator.PlayAnimation | ImageSpriteSheetAnimator.cs:126-139 | the first step of the looping body sets `loop` to the passed flag and agrees with `LoopingBegin` on the task and the display |
| Animator.ImageSpriteSheetAnimator.Tick | ImageSpriteSheetAnimator.cs:130-137 | one resumption of the coroutine agrees with `Resume`, reading the current `loop` field; it keeps the invariant |
| Animator.ImageSpriteSheetAnimator.AdvanceTicks | ImageSpriteSheetAnimator.cs:130-137 | `n` resumptions agree with `Trace`; the display is the last frame written, or unchanged if none was |
| Animator.OneShotEndsOnLastFrame | ImageSpriteSheetAnimator.cs:82-89 | `PlayOneShotAnimation(frames)` followed by `N` ticks leaves the coroutine ended, the handle held, and `frames[N-1]` on display |
| Animator.LoopingShowsFrameOfTick | ImageSpriteSheetAnimator.cs:126-139 | `StartAnimation(frames, true)` followed by `n` ticks shows `frames[n % N]` and is still looping over `frames` |
| Animator.SetLoopAfterImmediateEnd | ImageSpriteSheetAnimator.cs:113-121 | after `StartAnimation(F, false)` there is no handle, so `SetLoop(b)` only stores `b`: nothing is shown and no coroutine runs |
| Animator.SetLoopReplaysStartedFrames | ImageSpriteSheetAnimator.cs:113-121 | `StartAnimation(F, _)`, then `PlayOneShotAnimation(G)`, then `SetLoop(b)` leaves `loop == b` and a one-shot over `F`, not `G`, with `F[0]` shown |

## Left out

- `Start()` and `GetComponent<Image>()` (lines 141-145) are engine lifecycle. The constructor instead takes the sprite the image already shows. `targetImage` is assumed non-null.
- Wall-clock timing is not modelled. Each `WaitForSeconds` resumption is one `Tick`, so the model does not state when a frame rate set mid-run takes effect.
- `frameRate` is not modelled as a float. It is stored as an uninterpreted `real`, and no arithmetic is done on it.
- The Unity scheduler is not modelled: disabling the component, and coroutines it stops on its own, are outside the model. `StopCoroutine` is reduced to `Cancel`.
- Null arrays passed to `StartAnimation` and `PlayOneShotAnimation`, and `SetLoop` replaying a null `animationFrames`, are not modelled, because they only lead to a `NullReferenceException`. The first two cannot be written, because the parameters are sequences. `SetLoop` with a handle but no stored frames is excluded by its precondition. `SetFirstFrame` does handle a null array without error, and the model covers that case.
- Arrays are taken by value, although the source keeps the caller's `Sprite[]` by reference (line 29). The running `foreach` (lines 84, 133) and `SetLoop`'s replay (line 119) read the array's current elements, so a caller's later change to the array shows up in the source but not in the model.
- StartAnimation: like `PlayOneShotAnimation` and `SetLoop`, it stores the handle that Unity's `StartCoroutine` returns. The model takes that handle to be null exactly when the body ends before its first `yield`. Unity's engine code is not part of this model, so this behaviour is an assumption. It decides whether a later `SetLoop` restarts a one-shot.
- Null entries inside a sprite array are not modelled: frames are non-null `Sprite` handles.
- The editor attributes `Header` and `Tooltip` are left out, because they only affect presentation. `SerializeField` (lines 10, 13) lets the inspector supply `targetImage` and `frameRate`. The constructor models the C# field initializers instead, and an inspector-set frame rate is left out. This is harmless, because `frameRate` is never read by the model.
