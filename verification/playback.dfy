/**
 * The playback index state machine of one player session: the
 * frame-presentation step with its image-loaded continuation, and the
 * transport object's `finish`, `play`, `pause` and `seek`. Timers only decide
 * when a presentation runs; here every transition reports instead whether it
 * scheduled one.
 */
module Playback {
  import opened Wrappers

  /** Frame rate used when the caller gives none. */
  const DefaultFps: nat := 24

  /** Looping used when the caller gives none. */
  const DefaultAutoloop: bool := true

  /** Frames per second, taken here as a positive whole number. */
  type Fps = x: nat | 0 < x witness 24

  /** The variables of one session. `len` is the number of split frames, where 0
      stands for the frame list still being undefined: it is assigned only when
      the split produced at least one frame. `finished` stands for the image
      element having been released. */
  datatype Player = Player(fps: Fps, autoloop: bool, len: nat, nextFrameIndex: nat, pause: bool, finished: bool)

  /** The state after a transition, and whether the transition scheduled a
      presentation (a timeout followed by an animation frame). */
  datatype Transition = Transition(state: Player, scheduled: bool)

  /** What one presentation did: showed a frame, did nothing because the
      session is finished, or threw because no frame exists at the index.
      With no frame list yet, indexing the undefined list throws; with frames
      loaded, the index past the end reads `undefined` and creating an object
      URL from it throws, after the URL of the frame on screen was revoked. */
  datatype Outcome = Displayed(frame: nat) | Skipped | Failed

  /** The state after the display half of a presentation, and its outcome. */
  datatype Shown = Shown(state: Player, outcome: Outcome)

  /** The state after a whole presentation, its outcome, and whether it
      scheduled the next one. */
  datatype Presented = Presented(state: Player, outcome: Outcome, scheduled: bool)

  /** Reading the length of the frame list while it is still undefined throws. */
  datatype Fault = FramesUndefined

  /** A new session: the defaults for a missing frame rate or loop flag, paused
      unless asked to autoplay, at frame 0, with no frames yet. */
  function Start(fps: Option<Fps>, autoloop: Option<bool>, autoplay: bool): (s: Player)
    ensures s.fps == (if fps.Some? then fps.value else 24)
    ensures s.autoloop <==> autoloop.None? || autoloop.value
    ensures s.pause <==> !autoplay
    ensures s.nextFrameIndex == 0 && s.len == 0 && !s.finished
  {
    Player(fps.GetOr(DefaultFps), autoloop.GetOr(DefaultAutoloop), 0, 0, !autoplay, false)
  }

  /** The split callback: a non-empty frame list is stored and the first
      presentation scheduled; an empty one leaves the session untouched. */
  function FramesReady(s: Player, count: nat): (t: Transition)
    ensures t.scheduled <==> count > 0
    ensures count > 0 ==> t.state == s.(len := count)
    ensures count == 0 ==> t.state == s
  {
    if count > 0 then Transition(s.(len := count), true) else Transition(s, false)
  }

  /** The display half of a presentation. A finished session does nothing.
      Otherwise the index is incremented before the frame is looked up, so it
      moves on even when no frame exists there and the presentation throws
      (see `Outcome`). The pause flag is not consulted. */
  function Show(s: Player): (r: Shown)
    ensures s.finished ==> r == Shown(s, Skipped)
    ensures !s.finished ==> r.state == s.(nextFrameIndex := s.nextFrameIndex + 1)
    ensures !s.finished ==> (r.outcome == Displayed(s.nextFrameIndex) <==> s.nextFrameIndex < s.len)
    ensures !s.finished ==> (r.outcome == Failed <==> s.len <= s.nextFrameIndex)
  {
    if s.finished then Shown(s, Skipped)
    else
      var k := s.nextFrameIndex;
      Shown(s.(nextFrameIndex := k + 1), if k < s.len then Displayed(k) else Failed)
  }

  /** The image-loaded continuation. Unless the session is finished or paused,
      it schedules the next presentation when looping or when a frame remains,
      wrapping the index to 0 only in the branch that schedules. */
  function Loaded(s: Player): (t: Transition)
    ensures t.scheduled <==> !s.finished && !s.pause && (s.autoloop || s.nextFrameIndex < s.len)
    ensures t.scheduled && s.nextFrameIndex == s.len ==> t.state == s.(nextFrameIndex := 0)
    ensures !(t.scheduled && s.nextFrameIndex == s.len) ==> t.state == s
  {
    if !s.finished && (s.autoloop || s.nextFrameIndex < s.len) && !s.pause then
      Transition(s.(nextFrameIndex := if s.nextFrameIndex == s.len then 0 else s.nextFrameIndex), true)
    else Transition(s, false)
  }

  /** One whole presentation: the display half, then, when a frame was shown,
      its image-loaded continuation. */
  function Present(s: Player): (p: Presented)
    ensures s.finished ==> p == Presented(s, Skipped, false)
    ensures !s.finished && s.len <= s.nextFrameIndex ==>
      p == Presented(s.(nextFrameIndex := s.nextFrameIndex + 1), Failed, false)
    ensures !s.finished && s.nextFrameIndex < s.len ==>
      var k := s.nextFrameIndex;
      && p.outcome == Displayed(k)
      && (p.scheduled <==> !s.pause && (s.autoloop || k + 1 < s.len))
      && p.state == s.(nextFrameIndex := if p.scheduled && k + 1 == s.len then 0 else k + 1)
  {
    var sh := Show(s);
    if sh.outcome.Displayed? then
      var t := Loaded(sh.state);
      Presented(t.state, sh.outcome, t.scheduled)
    else Presented(sh.state, sh.outcome, false)
  }

  /** `finish`: releases the image element once; later calls change nothing. */
  function Finish(s: Player): (t: Transition)
    ensures t.state.finished && !t.scheduled
    ensures t.state.(finished := s.finished) == s
  {
    if !s.finished then Transition(s.(finished := true), false) else Transition(s, false)
  }

  /** `play`: clears the pause flag and always schedules a presentation, even
      on a finished session, where that presentation then does nothing. */
  function Play(s: Player): (t: Transition)
    ensures t.scheduled && !t.state.pause
    ensures t.state.(pause := s.pause) == s
  {
    Transition(s.(pause := false), true)
  }

  /** `pause`: sets the pause flag and nothing else. */
  function Pause(s: Player): (t: Transition)
    ensures !t.scheduled && t.state.pause
    ensures t.state.(pause := s.pause) == s
  {
    Transition(s.(pause := true), false)
  }

  /** The frame on screen at playback position `ms` milliseconds: frame k is
      shown from k * 1000 / fps ms until the next frame replaces it. */
  function SeekTarget(fps: Fps, ms: nat): (k: nat)
    ensures k * 1000 <= ms * fps < (k + 1) * 1000
  {
    ms * fps / 1000
  }

  /** The frame `seek` computes as written: floor(second * 1000 / fps), which
      for a position of `ms` milliseconds is floor(ms / fps). */
  function SeekTargetAsWritten(fps: Fps, ms: nat): nat {
    ms / fps
  }

  /** The index and flag updates of `seek` once its target frame is known. The
      target is clamped to the last frame, never wrapped. The pause flag is
      cleared and a presentation scheduled only when `autoPlay` is set. With no
      frames yet, reading the frame count throws and nothing changes. */
  function SeekTo(s: Player, target: nat, autoPlay: bool): (r: Result<Transition, Fault>)
    ensures r.Err? <==> s.len == 0
    ensures r.Ok? ==> r.value.state.nextFrameIndex == (if target < s.len then target else s.len - 1)
    ensures r.Ok? ==> r.value.state.nextFrameIndex < s.len
    ensures r.Ok? ==> (r.value.scheduled <==> autoPlay)
    ensures r.Ok? ==> r.value.state.pause == (if autoPlay then false else s.pause)
    ensures r.Ok? ==> r.value.state.(nextFrameIndex := s.nextFrameIndex, pause := s.pause) == s
  {
    if s.len == 0 then Err(FramesUndefined)
    else
      var index := if target >= s.len then s.len - 1 else target;
      if autoPlay then Ok(Transition(s.(nextFrameIndex := index, pause := false), true))
      else Ok(Transition(s.(nextFrameIndex := index), false))
  }

  /** `seek` to a position of `ms` milliseconds, with the target frame being
      the one on screen at that position. */
  function Seek(s: Player, ms: nat, autoPlay: bool): (r: Result<Transition, Fault>)
    ensures r.Err? <==> s.len == 0
    ensures r.Ok? && ms * s.fps < s.len * 1000 ==>
      var k := r.value.state.nextFrameIndex;
      k * 1000 <= ms * s.fps < (k + 1) * 1000
    ensures r.Ok? && s.len * 1000 <= ms * s.fps ==> r.value.state.nextFrameIndex == s.len - 1
  {
    SeekTo(s, SeekTarget(s.fps, ms), autoPlay)
  }

  /** `seek` with the target frame computed as the source writes it. */
  function SeekAsWritten(s: Player, ms: nat, autoPlay: bool): (r: Result<Transition, Fault>)
    ensures r.Err? <==> s.len == 0
    ensures r.Ok? ==> r.value.state.nextFrameIndex == (if ms / s.fps < s.len then ms / s.fps else s.len - 1)
  {
    SeekTo(s, SeekTargetAsWritten(s.fps, ms), autoPlay)
  }

  /** The target frame is the only one on screen at the position. */
  lemma SeekTargetUnique(fps: Fps, ms: nat, k: nat)
    requires k * 1000 <= ms * fps < (k + 1) * 1000
    ensures k == SeekTarget(fps, ms)
  {}

  /** As written, seeking to one second at 24 fps selects frame 41, which is
      not on screen until after 1.7 s; the frame on screen at one second is 24. */
  lemma SeekAsWrittenOvershoots()
    ensures SeekTargetAsWritten(24, 1000) == 41
    ensures SeekTarget(24, 1000) == 24
    ensures !(41 * 1000 <= 1000 * 24 < 42 * 1000)
  {}

  /** With no presentation pending, pausing keeps the index, so a later
      `play` resumes at the same frame: the presentation it schedules shows the
      frame that was next at the pause. */
  lemma PauseThenPlayResumes(s: Player)
    requires !s.finished && s.nextFrameIndex < s.len
    ensures Play(Pause(s).state).state == s.(pause := false)
    ensures Present(Play(Pause(s).state).state).outcome == Displayed(s.nextFrameIndex)
  {}

  /** A presentation already scheduled when `pause` comes in still runs, since
      the display half does not consult the pause flag: it shows frame k and
      schedules nothing, so a later `play` resumes at frame k + 1. */
  lemma PendingPresentationAfterPause(s: Player)
    requires !s.finished && s.nextFrameIndex + 1 < s.len
    ensures Present(Pause(s).state) ==
      Presented(s.(pause := true, nextFrameIndex := s.nextFrameIndex + 1), Displayed(s.nextFrameIndex), false)
    ensures Present(Play(Present(Pause(s).state).state).state).outcome == Displayed(s.nextFrameIndex + 1)
  {}

  /** A `play` before the split callback runs a presentation on the undefined
      frame list, which throws after the index moved to 1; once the frames
      arrive, playback starts at frame 1 and frame 0 is never shown first. */
  lemma PlayBeforeFramesSkipsFirst(fps: Option<Fps>, autoloop: Option<bool>, autoplay: bool, count: nat)
    requires count > 1
    ensures Present(Play(Start(fps, autoloop, autoplay)).state).outcome == Failed
    ensures Present(Play(Start(fps, autoloop, autoplay)).state).state.nextFrameIndex == 1
    ensures Present(FramesReady(Present(Play(Start(fps, autoloop, autoplay)).state).state, count).state).outcome == Displayed(1)
  {}

  /** `finish` is idempotent. */
  lemma FinishIdempotent(s: Player)
    ensures Finish(Finish(s).state) == Finish(s)
  {}

  /** After `finish`, presentations and image-loaded continuations change
      nothing and schedule nothing, whatever transport call came in between. */
  lemma FinishedIsInert(s: Player)
    requires s.finished
    ensures Present(s) == Presented(s, Skipped, false)
    ensures Loaded(s) == Transition(s, false)
    ensures Present(Play(s).state).outcome == Skipped
    ensures Pause(s).state.finished && Finish(s).state == s
  {}

  /** Without looping, presenting the last frame schedules nothing and leaves
      the index one past the end, the last image staying on screen. */
  lemma LastFrameStops(s: Player)
    requires !s.autoloop && !s.finished && s.len > 0 && s.nextFrameIndex == s.len - 1
    ensures Present(s).outcome == Displayed(s.len - 1)
    ensures !Present(s).scheduled
    ensures Present(s).state.nextFrameIndex == s.len
  {}

  /** A presentation scheduled by the image-loaded continuation always finds a
      frame at the index, provided the index was at most one past the end. */
  lemma ScheduledFrameExists(s: Player)
    requires s.len > 0 && s.nextFrameIndex <= s.len
    requires Loaded(s).scheduled
    ensures Loaded(s).state.nextFrameIndex < s.len
    ensures Show(Loaded(s).state).outcome == Displayed(Loaded(s).state.nextFrameIndex)
  {}

  /** `play` after playback stopped on the last frame without looping looks
      up the frame past the end, which reads `undefined`, and creating its
      object URL throws: it neither rewinds nor stays. */
  lemma PlayAfterEndFails(s: Player)
    requires !s.autoloop && !s.finished && !s.pause && s.len > 0 && s.nextFrameIndex == s.len - 1
    ensures Present(Play(Present(s).state).state).outcome == Failed
  {}

  /** With looping, pausing while the last frame loads skips the wrap, so the
      presentation a later `play` schedules looks up the frame past the end. */
  lemma PauseOnLastLoopFrameFails(s: Player)
    requires s.autoloop && !s.finished && s.len > 0 && s.nextFrameIndex == s.len - 1
    ensures Loaded(Pause(Show(s).state).state).state.nextFrameIndex == s.len
    ensures Present(Play(Loaded(Pause(Show(s).state).state).state).state).outcome == Failed
  {}

  /** The frames shown by up to n chained presentations from s, with no
      transport call in between; the chain ends when a presentation schedules
      nothing or shows nothing. */
  function Chain(s: Player, n: nat): seq<nat>
    decreases n
  {
    if n == 0 then []
    else
      var p := Present(s);
      match p.outcome
      case Displayed(k) => [k] + (if p.scheduled then Chain(p.state, n - 1) else [])
      case _ => []
  }

  /** The only multiple of m strictly between -m and m is 0. */
  lemma MultipleNearZero(d: int, m: int)
    requires 0 < m && -m < d * m < m
    ensures d == 0
  {}

  /** Adding m does not change the remainder modulo m. */
  lemma ModAddPeriod(j: nat, m: nat)
    requires 0 < m
    ensures (m + j) % m == j % m
  {
    var q, r := j / m, j % m;
    var q', r' := (m + j) / m, (m + j) % m;
    assert m + j == (q + 1) * m + r;
    assert m + j == q' * m + r';
    assert (q' - q - 1) * m == r - r';
    MultipleNearZero(q' - q - 1, m);
  }

  /** Advancing by one and wrapping at m commutes with reducing modulo m. */
  lemma WrapShift(a: nat, j: nat, m: nat)
    requires a < m
    ensures ((if a + 1 == m then 0 else a + 1) + j) % m == (a + 1 + j) % m
  {
    if a + 1 == m {
      ModAddPeriod(j, m);
    }
  }

  /** With looping and no pause, one presentation shows the frame at the
      index and hands the chain on to the following, wrapped, index. */
  lemma LoopStep(s: Player, n: nat)
    requires s.autoloop && !s.pause && !s.finished && s.nextFrameIndex < s.len && n > 0
    ensures var a := s.nextFrameIndex;
      Chain(s, n) == [a] + Chain(s.(nextFrameIndex := if a + 1 == s.len then 0 else a + 1), n - 1)
  {}

  /** The indices of c count on from a, wrapping modulo m. */
  ghost predicate CountsOnFrom(c: seq<nat>, a: nat, m: nat) {
    0 < m && forall j :: 0 <= j < |c| ==> c[j] == (a + j) % m
  }

  /** Prefixing index a to a run that counts on modulo m from the wrapped
      successor of a gives a run that counts on modulo m from a. */
  lemma ConsCycle(c: seq<nat>, rest: seq<nat>, a: nat, m: nat)
    requires a < m && c == [a] + rest
    requires CountsOnFrom(rest, if a + 1 == m then 0 else a + 1, m)
    ensures CountsOnFrom(c, a, m)
  {
    forall j | 0 <= j < |c|
      ensures c[j] == (a + j) % m
    {
      if j > 0 {
        assert c[j] == rest[j - 1];
        WrapShift(a, j - 1, m);
      }
    }
  }

  /** With looping and no pause, chained presentation shows the frames in
      order from the index, wrapping from the last frame back to frame 0
      without end. */
  lemma {:induction false} LoopCycles(s: Player, n: nat)
    requires s.autoloop && !s.pause && !s.finished && s.nextFrameIndex < s.len
    ensures |Chain(s, n)| == n
    ensures CountsOnFrom(Chain(s, n), s.nextFrameIndex, s.len)
    decreases n
  {
    if n > 0 {
      var a := s.nextFrameIndex;
      var next := s.(nextFrameIndex := if a + 1 == s.len then 0 else a + 1);
      LoopStep(s, n);
      LoopCycles(next, n - 1);
      ConsCycle(Chain(s, n), Chain(next, n - 1), a, s.len);
    }
  }

  /** Without looping and with no pause, one presentation shows the frame at
      the index and hands the chain on to the next index while one remains. */
  lemma StraightStep(s: Player, n: nat)
    requires !s.autoloop && !s.pause && !s.finished && s.nextFrameIndex < s.len && n > 0
    ensures var a := s.nextFrameIndex;
      Chain(s, n) == [a] + (if a + 1 < s.len then Chain(s.(nextFrameIndex := a + 1), n - 1) else [])
  {}

  /** The run of indices from a up to b starts with a and continues from a + 1. */
  lemma ConsRun(a: nat, b: nat)
    requires a < b
    ensures seq(b - a, j => a + j) == [a] + seq(b - a - 1, j => a + 1 + j)
  {}

  /** Without looping and with no pause, chained presentation shows every
      frame from the index to the last one exactly once, in order, and stops. */
  lemma {:induction false} PlaysToLastFrame(s: Player, n: nat)
    requires !s.autoloop && !s.pause && !s.finished && s.nextFrameIndex < s.len
    requires s.len - s.nextFrameIndex <= n
    ensures Chain(s, n) == seq(s.len - s.nextFrameIndex, j => s.nextFrameIndex + j)
    decreases s.len - s.nextFrameIndex
  {
    var a := s.nextFrameIndex;
    StraightStep(s, n);
    ConsRun(a, s.len);
    if a + 1 < s.len {
      PlaysToLastFrame(s.(nextFrameIndex := a + 1), n - 1);
    }
  }
}
