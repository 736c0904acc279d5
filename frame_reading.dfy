/** The frame reader of a video clip, and the frames read from it until the first failed read. */
module FrameReading {
  import opened Outcome
  import opened ImageHash

  /** The frames of `outcomes` before the first failed read. */
  function TakeUntilFailure<F>(outcomes: seq<Option<F>>): (frames: seq<F>)
    ensures |frames| <= |outcomes|
  {
    if |outcomes| == 0 || outcomes[0].None? then [] else [outcomes[0].value] + TakeUntilFailure(outcomes[1..])
  }

  /** The frames taken are those of the first reads, in read order, and stop exactly at the
      first failed read. */
  lemma {:induction false} TakeUntilFailureStopsAtFirstFailure<F>(outcomes: seq<Option<F>>)
    ensures var frames := TakeUntilFailure(outcomes);
      && |frames| <= |outcomes|
      && (forall i :: 0 <= i < |frames| ==> outcomes[i] == Some(frames[i]))
      && (|frames| < |outcomes| ==> outcomes[|frames|].None?)
  {
    if |outcomes| != 0 && outcomes[0].Some? {
      TakeUntilFailureStopsAtFirstFailure(outcomes[1..]);
    }
  }

  /** Taking frames from a stream of successful reads takes all of them. */
  lemma {:induction false} TakeAllWhenNoFailure<F>(outcomes: seq<Option<F>>)
    requires forall i :: 0 <= i < |outcomes| ==> outcomes[i].Some?
    ensures |TakeUntilFailure(outcomes)| == |outcomes|
  {
    TakeUntilFailureStopsAtFirstFailure(outcomes);
  }

  /** The outcomes from index `p` on. */
  function Rest<F>(outcomes: seq<Option<F>>, p: nat): seq<Option<F>>
  {
    if p <= |outcomes| then outcomes[p..] else []
  }

  /** Reading at `p` either yields the first frame still to be taken, or ends the taking. */
  lemma ReadStep<F>(outcomes: seq<Option<F>>, p: nat)
    ensures TakeUntilFailure(Rest(outcomes, p))
      == if p < |outcomes| && outcomes[p].Some?
         then [outcomes[p].value] + TakeUntilFailure(Rest(outcomes, p + 1))
         else []
  {
    if p < |outcomes| {
      assert Rest(outcomes, p)[1..] == Rest(outcomes, p + 1);
    }
  }

  /** What is left to take after the frames already taken, once the read at `p` is done. */
  lemma ReadAdvance<F>(outcomes: seq<Option<F>>, p: nat, taken: seq<F>, frames: seq<F>)
    requires taken == frames + TakeUntilFailure(Rest(outcomes, p))
    ensures p < |outcomes| && outcomes[p].Some? ==>
      taken == frames + [outcomes[p].value] + TakeUntilFailure(Rest(outcomes, p + 1))
    ensures !(p < |outcomes| && outcomes[p].Some?) ==> taken == frames
  {
    ReadStep(outcomes, p);
  }

  /** A decoder's frame reader. `outcomes[i]` is what the i-th read reports: a frame, or a
      failure; every read past the end of `outcomes` fails. Frames arrive already converted to
      luma and resized. */
  class FrameReader {
    const outcomes: seq<Option<Grid>>
    var position: nat

    constructor (outcomes: seq<Option<Grid>>)
      ensures this.outcomes == outcomes && position == 0
    {
      this.outcomes := outcomes;
      position := 0;
    }

    /** What the remaining reads will report. */
    function Pending(): seq<Option<Grid>>
      reads this
    {
      Rest(outcomes, position)
    }

    /** `read_frame()`: a success flag and the next frame (an empty grid on failure). */
    method ReadFrame() returns (success: bool, image: Grid)
      modifies this
      ensures position == old(position) + 1
      ensures success <==> old(position) < |outcomes| && outcomes[old(position)].Some?
      ensures success ==> image == outcomes[old(position)].value
      ensures !success ==> image == []
    {
      success := position < |outcomes| && outcomes[position].Some?;
      image := if success then outcomes[position].value else [];
      position := position + 1;
    }
  }
}
