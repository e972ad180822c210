/**
 * The MJPEG frame splitter: the scan loop run once over the downloaded
 * buffer. It records every offset where the three-byte start-of-image
 * signature begins, and each time it finds one after an earlier one it
 * emits the half-open byte range between the two. The range after the last
 * signature is never emitted.
 */
module Splitter {
  import opened Wrappers

  /** One element of the `Uint8Array` view of the buffer. */
  type Byte = x: int | 0 <= x < 256

  /** The JPEG start-of-image marker FF D8 (ITU-T T.81, Annex B.1.1.3)
      followed by the FF that opens the next marker. */
  const SOI: seq<Byte> := [0xFF, 0xD8, 0xFF]

  /** A frame as the half-open range [start, end) of buffer offsets. */
  datatype Frame = Frame(start: nat, end: nat)

  /** Reading index k of a typed array: an index out of range reads `undefined`. */
  function ByteAt(bytes: seq<Byte>, k: int): Option<Byte> {
    if 0 <= k < |bytes| then Some(bytes[k]) else None
  }

  /** The loop's test at index i: three reads compared strictly against the
      signature, so a read past the end never matches. */
  function MatchAt(bytes: seq<Byte>, i: int): (b: bool)
    ensures b <==> 0 <= i && i + 2 < |bytes| && bytes[i] == 0xFF && bytes[i + 1] == 0xD8 && bytes[i + 2] == 0xFF
  {
    ByteAt(bytes, i) == Some(SOI[0]) && ByteAt(bytes, i + 1) == Some(SOI[1]) && ByteAt(bytes, i + 2) == Some(SOI[2])
  }

  /** The positions below n where the loop's test succeeds, in increasing order. */
  function MarkersBelow(bytes: seq<Byte>, n: nat): (ms: seq<nat>)
    ensures forall k :: 0 <= k < |ms| ==> ms[k] < n && MatchAt(bytes, ms[k])
    ensures forall j, k :: 0 <= j < k < |ms| ==> ms[j] < ms[k]
  {
    if n == 0 then [] else MarkersBelow(bytes, n - 1) + (if MatchAt(bytes, n - 1) then [n - 1] else [])
  }

  /** No matching index below n is missing from the position list. */
  lemma {:induction false} MarkersBelowComplete(bytes: seq<Byte>, n: nat)
    ensures forall i :: 0 <= i < n && MatchAt(bytes, i) ==> i in MarkersBelow(bytes, n)
  {
    if n > 0 {
      MarkersBelowComplete(bytes, n - 1);
      assert MarkersBelow(bytes, n) == MarkersBelow(bytes, n - 1) + (if MatchAt(bytes, n - 1) then [n - 1] else []);
    }
  }

  /** Every signature position of the buffer, overlapping ones included. */
  function Markers(bytes: seq<Byte>): seq<nat> {
    MarkersBelow(bytes, |bytes|)
  }

  /** The ranges between consecutive positions: K positions give K - 1 ranges. */
  function Between(ms: seq<nat>): (frames: seq<Frame>) {
    if |ms| <= 1 then []
    else seq(|ms| - 1, k requires 0 <= k < |ms| - 1 => Frame(ms[k], ms[k + 1]))
  }

  /** The loop's two variables: `startIndex` (None while undefined) and the
      frames pushed onto `jpegs`. */
  datatype ScanState = ScanState(startIndex: Option<nat>, jpegs: seq<Frame>)

  /** One iteration of the loop body at index i. */
  function ScanStep(bytes: seq<Byte>, i: nat, st: ScanState): ScanState {
    if !MatchAt(bytes, i) then st
    else if i > 0 && st.startIndex.Some? then ScanState(Some(i), st.jpegs + [Frame(st.startIndex.value, i)])
    else ScanState(Some(i), st.jpegs)
  }

  /** The loop from index i to the end of the buffer. */
  function ScanFrom(bytes: seq<Byte>, i: nat, st: ScanState): ScanState
    decreases |bytes| - i
  {
    if i >= |bytes| then st else ScanFrom(bytes, i + 1, ScanStep(bytes, i, st))
  }

  /** What the loop holds after visiting the indices below i. */
  function ScanAfter(bytes: seq<Byte>, i: nat): ScanState {
    var ms := MarkersBelow(bytes, i);
    ScanState(if |ms| == 0 then None else Some(ms[|ms| - 1]), Between(ms))
  }

  /** Appending a position closes one more range, ending at the new position. */
  lemma BetweenSnoc(ms: seq<nat>, x: nat)
    ensures |ms| == 0 ==> Between(ms + [x]) == []
    ensures |ms| > 0 ==> Between(ms + [x]) == Between(ms) + [Frame(ms[|ms| - 1], x)]
  {
    if |ms| > 0 {
      var ms' := ms + [x];
      assert forall k :: 0 <= k < |ms| ==> ms'[k] == ms[k];
    }
  }

  /** One iteration moves the loop's state from index i to index i + 1. */
  lemma ScanStepAdvances(bytes: seq<Byte>, i: nat)
    ensures ScanStep(bytes, i, ScanAfter(bytes, i)) == ScanAfter(bytes, i + 1)
  {
    var ms := MarkersBelow(bytes, i);
    if MatchAt(bytes, i) {
      assert MarkersBelow(bytes, i + 1) == ms + [i];
      BetweenSnoc(ms, i);
      if |ms| > 0 {
        assert ms[|ms| - 1] < i;
      }
    } else {
      assert MarkersBelow(bytes, i + 1) == ms + [];
    }
  }

  /** Running the loop from index i on the state for i ends in the state for
      the whole buffer. */
  lemma {:induction false} ScanFromFinishes(bytes: seq<Byte>, i: nat)
    requires i <= |bytes|
    ensures ScanFrom(bytes, i, ScanAfter(bytes, i)) == ScanAfter(bytes, |bytes|)
    decreases |bytes| - i
  {
    if i < |bytes| {
      ScanStepAdvances(bytes, i);
      ScanFromFinishes(bytes, i + 1);
    }
  }

  /** In a strictly increasing sequence nothing lies strictly between two
      neighbouring entries. */
  lemma NothingBetweenNeighbours(ms: seq<nat>, k: nat, i: int)
    requires forall a, b :: 0 <= a < b < |ms| ==> ms[a] < ms[b]
    requires k + 1 < |ms| && ms[k] < i < ms[k + 1]
    ensures i !in ms
  {
    forall j | 0 <= j < |ms|
      ensures ms[j] != i
    {
      if j <= k {
        assert ms[j] <= ms[k];
      } else {
        assert ms[k + 1] <= ms[j];
      }
    }
  }

  /** Frames between signature positions start and end at signatures. */
  lemma BetweenMarkersEnds(bytes: seq<Byte>)
    ensures var frames := Between(Markers(bytes));
      forall k :: 0 <= k < |frames| ==> MatchAt(bytes, frames[k].start) && MatchAt(bytes, frames[k].end)
  {}

  /** Frames between signature positions are non-empty and lie in the buffer. */
  lemma BetweenMarkersOrdered(bytes: seq<Byte>)
    ensures var frames := Between(Markers(bytes));
      forall k :: 0 <= k < |frames| ==> frames[k].start < frames[k].end <= |bytes|
  {}

  /** Frames between signature positions follow each other without gaps. */
  lemma BetweenMarkersContiguous(bytes: seq<Byte>)
    ensures var frames := Between(Markers(bytes));
      forall k :: 0 <= k < |frames| - 1 ==> frames[k].end == frames[k + 1].start
  {}

  /** No signature lies strictly inside a frame between neighbouring positions. */
  lemma BetweenMarkersInside(bytes: seq<Byte>)
    ensures var ms := Markers(bytes);
      forall k, i :: 0 <= k < |ms| - 1 && ms[k] < i < ms[k + 1] ==> !MatchAt(bytes, i)
  {
    var ms := Markers(bytes);
    MarkersBelowComplete(bytes, |bytes|);
    forall k, i | 0 <= k < |ms| - 1 && ms[k] < i < ms[k + 1]
      ensures !MatchAt(bytes, i)
    {
      NothingBetweenNeighbours(ms, k, i);
    }
  }

  /** The signature test at i, restated as a comparison of the three-byte slice. */
  lemma MatchAtSlice(bytes: seq<Byte>, i: int)
    requires MatchAt(bytes, i)
    ensures i + 2 < |bytes| && bytes[i..i + 3] == SOI
  {
    assert bytes[i..i + 3] == [bytes[i], bytes[i + 1], bytes[i + 2]];
  }

  /** The frames `splitMJPEG` passes to its callback. */
  function Split(bytes: seq<Byte>): (frames: seq<Frame>)
    ensures frames == Between(Markers(bytes))
    ensures |frames| == if |Markers(bytes)| == 0 then 0 else |Markers(bytes)| - 1
    // every frame begins with the signature
    ensures forall k :: 0 <= k < |frames| ==> MatchAt(bytes, frames[k].start)
    // frames are non-empty, in stream order and contiguous
    ensures forall k :: 0 <= k < |frames| ==> frames[k].start < frames[k].end <= |bytes|
    ensures forall k :: 0 <= k < |frames| - 1 ==> frames[k].end == frames[k + 1].start
    // each frame ends where the next signature begins, and holds no other
    ensures forall k :: 0 <= k < |frames| ==> MatchAt(bytes, frames[k].end)
    ensures forall k, i :: 0 <= k < |frames| && frames[k].start < i < frames[k].end ==> !MatchAt(bytes, i)
  {
    ScanFromFinishes(bytes, 0);
    assert ScanAfter(bytes, 0) == ScanState(None, []);
    BetweenMarkersEnds(bytes);
    BetweenMarkersOrdered(bytes);
    BetweenMarkersContiguous(bytes);
    BetweenMarkersInside(bytes);
    ScanFrom(bytes, 0, ScanState(None, [])).jpegs
  }

  /** The number of indices at which the loop's test succeeds. */
  function MatchCount(bytes: seq<Byte>): nat {
    |set i | 0 <= i < |bytes| && MatchAt(bytes, i)|
  }

  /** A strictly increasing sequence has as many distinct values as entries. */
  lemma {:induction false} IncreasingCard(ms: seq<nat>)
    requires forall a, b :: 0 <= a < b < |ms| ==> ms[a] < ms[b]
    ensures |set x: int | x in ms| == |ms|
  {
    if |ms| > 0 {
      var init := ms[..|ms| - 1];
      var last := ms[|ms| - 1];
      IncreasingCard(init);
      assert forall x: int :: x in ms <==> x in init || x == last;
      assert (set x: int | x in ms) == (set x: int | x in init) + {last};
      assert last !in init;
    }
  }

  /** The increasing position list has as many entries as there are matching indices. */
  lemma MarkersBelowCounts(bytes: seq<Byte>, n: nat)
    ensures |MarkersBelow(bytes, n)| == |set i | 0 <= i < n && MatchAt(bytes, i)|
  {
    var ms := MarkersBelow(bytes, n);
    MarkersBelowComplete(bytes, n);
    IncreasingCard(ms);
    assert (set i | 0 <= i < n && MatchAt(bytes, i)) == (set x: int | x in ms);
  }

  /** K matching indices give exactly max(K - 1, 0) frames. */
  lemma SplitCount(bytes: seq<Byte>)
    ensures |Split(bytes)| == if MatchCount(bytes) == 0 then 0 else MatchCount(bytes) - 1
  {
    MarkersBelowCounts(bytes, |bytes|);
  }

  /** A buffer with at most one signature yields no frame at all: the bytes
      after the last signature are never emitted. */
  lemma AtMostOneMarkerYieldsNothing(bytes: seq<Byte>)
    requires MatchCount(bytes) <= 1
    ensures Split(bytes) == []
  {
    SplitCount(bytes);
  }

  /** No emitted frame reaches past the last signature, so the tail of the
      buffer from it onward belongs to no frame. */
  lemma TailNeverEmitted(bytes: seq<Byte>)
    ensures forall k :: 0 <= k < |Split(bytes)| ==> Split(bytes)[k].end <= Markers(bytes)[|Markers(bytes)| - 1]
  {
    var ms := Markers(bytes);
    var frames := Split(bytes);
    forall k | 0 <= k < |frames|
      ensures frames[k].end <= ms[|ms| - 1]
    {
      assert frames[k].end == ms[k + 1];
      if k + 1 < |ms| - 1 { assert ms[k + 1] < ms[|ms| - 1]; }
    }
  }

  /** Signatures may overlap: in FF D8 FF D8 FF the second one starts at
      offset 2, inside the first, and the frame between them has two bytes. */
  lemma OverlappingMarkers()
    ensures Split([0xFF, 0xD8, 0xFF, 0xD8, 0xFF]) == [Frame(0, 2)]
  {
    var bytes: seq<Byte> := [0xFF, 0xD8, 0xFF, 0xD8, 0xFF];
    assert MatchAt(bytes, 0) && !MatchAt(bytes, 1) && MatchAt(bytes, 2) && !MatchAt(bytes, 3) && !MatchAt(bytes, 4);
    assert Markers(bytes) == [0, 2];
  }
}
