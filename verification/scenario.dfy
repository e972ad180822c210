/**
 * A whole session: the buffer is split once, the split callback hands the
 * frame count to a fresh player, and the scheduled presentations run with no
 * transport call in between.
 */
module Scenario {
  import opened Wrappers
  import opened Splitter
  import opened Playback

  /** The session after the split callback, and whether it scheduled the
      first presentation. */
  function Session(bytes: seq<Byte>, fps: Option<Fps>, autoloop: Option<bool>, autoplay: bool): (t: Transition)
    ensures t.scheduled <==> |Split(bytes)| > 0
    ensures t.state.len == |Split(bytes)| && t.state.nextFrameIndex == 0
    ensures !t.state.finished && (t.state.pause <==> !autoplay)
  {
    FramesReady(Start(fps, autoloop, autoplay), |Split(bytes)|)
  }

  /** Playing a buffer through once without looping shows every emitted frame
      in stream order, starting at frame 0, and then holds on the last one. */
  lemma PlaysEveryFrameOnce(bytes: seq<Byte>, fps: Option<Fps>, n: nat)
    requires |Split(bytes)| > 0 && |Split(bytes)| <= n
    ensures Chain(Session(bytes, fps, Some(false), true).state, n) == seq(|Split(bytes)|, j => j)
  {
    PlaysToLastFrame(Session(bytes, fps, Some(false), true).state, n);
  }

  /** Three frames A, B and C behind three signatures, at 10 fps, without
      looping, autoplaying. */
  const Clip: seq<Byte> := [0xFF, 0xD8, 0xFF, 0x0A, 0x0A, 0xFF, 0xD8, 0xFF, 0x0B, 0x0B, 0xFF, 0xD8, 0xFF, 0x0C, 0x0C]

  /** The clip's signatures sit at offsets 0, 5 and 10. */
  lemma ClipMarkers()
    ensures Markers(Clip) == [0, 5, 10]
  {
    assert MatchAt(Clip, 0) && MatchAt(Clip, 5) && MatchAt(Clip, 10);
    assert !MatchAt(Clip, 1) && !MatchAt(Clip, 2) && !MatchAt(Clip, 3) && !MatchAt(Clip, 4);
    assert !MatchAt(Clip, 6) && !MatchAt(Clip, 7) && !MatchAt(Clip, 8) && !MatchAt(Clip, 9);
    assert !MatchAt(Clip, 11) && !MatchAt(Clip, 12) && !MatchAt(Clip, 13) && !MatchAt(Clip, 14);
    assert MarkersBelow(Clip, 1) == [0];
    assert MarkersBelow(Clip, 2) == [0];
    assert MarkersBelow(Clip, 3) == [0];
    assert MarkersBelow(Clip, 4) == [0];
    assert MarkersBelow(Clip, 5) == [0];
    assert MarkersBelow(Clip, 6) == [0, 5];
    assert MarkersBelow(Clip, 7) == [0, 5];
    assert MarkersBelow(Clip, 8) == [0, 5];
    assert MarkersBelow(Clip, 9) == [0, 5];
    assert MarkersBelow(Clip, 10) == [0, 5];
    assert MarkersBelow(Clip, 11) == [0, 5, 10];
    assert MarkersBelow(Clip, 12) == [0, 5, 10];
    assert MarkersBelow(Clip, 13) == [0, 5, 10];
    assert MarkersBelow(Clip, 14) == [0, 5, 10];
    assert MarkersBelow(Clip, 15) == [0, 5, 10];
    assert |Clip| == 15;
  }

  /** The clip splits into A and B only, since the bytes after the last
      signature are never emitted; playback shows A, then B, and holds on B. */
  lemma ClipShowsTwoFrames()
    ensures Split(Clip) == [Frame(0, 5), Frame(5, 10)]
    ensures Chain(Session(Clip, Some(10), Some(false), true).state, 3) == [0, 1]
  {
    ClipMarkers();
    assert Between([0, 5, 10]) == [Frame(0, 5), Frame(5, 10)];
    PlaysEveryFrameOnce(Clip, Some(10), 3);
    assert seq(2, j => j) == [0, 1];
  }
}
