/** The cry-interval aggregator: turns a stream of per-frame "crying baby"
    confidence scores into committed cry episodes.

    Times are seconds on one clock, as exact `real`s; the clock reading that the
    app takes with `Date()` is passed in as `now`. */
module Intervals {

  import opened Wrappers

  /** A pair of instants, before Foundation has checked it. */
  datatype Interval = Interval(start: real, end: real)

  /** Foundation's `DateInterval`: its initializer traps unless `start <= end`,
      so every place that builds one must prove that. */
  type DateInterval = iv: Interval | iv.start <= iv.end witness Interval(0.0, 0.0)

  function Duration(iv: DateInterval): (d: real)
    ensures d >= 0.0
    ensures iv.start + d == iv.end
  {
    iv.end - iv.start
  }

  /** What a call to `recordData` did to the committed episodes. */
  datatype ModificationType = NoChange | CreatedNewEntry | ModifiedExistingEntry

  function Last(s: seq<DateInterval>): DateInterval
    requires s != []
  {
    s[|s| - 1]
  }

  /** Consecutive committed episodes are more than `gap` apart: the later one
      starts more than `gap` seconds after the earlier one ends. */
  ghost predicate Separated(s: seq<DateInterval>, gap: real)
  {
    forall i :: 0 < i < |s| ==> s[i].start - s[i - 1].end > gap
  }

  /** With a non-negative gap, separation of neighbours makes the whole list
      ordered by start and pairwise disjoint. */
  lemma {:induction false} SeparatedIsOrdered(s: seq<DateInterval>, gap: real)
    requires gap >= 0.0
    requires Separated(s, gap)
    ensures forall i, j :: 0 <= i < j < |s| ==> s[i].end < s[j].start
  {
    if |s| >= 2 {
      var init := s[..|s| - 1];
      assert Separated(init, gap) by {
        forall i | 0 < i < |init| ensures init[i].start - init[i - 1].end > gap {
          assert init[i] == s[i] && init[i - 1] == s[i - 1];
        }
      }
      SeparatedIsOrdered(init, gap);
      forall i, j | 0 <= i < j < |s| ensures s[i].end < s[j].start {
        if j < |s| - 1 {
          assert s[i] == init[i] && s[j] == init[j];
        } else if i < j - 1 {
          assert s[i] == init[i] && s[j - 1] == init[j - 1];
          assert s[i].end < s[j - 1].start;
        }
      }
    }
  }

  /** The later of the pending span's end and the last committed episode's end
      (`Date.distantPast` stands in for an absent one in the source, so when
      both exist the later wins and when one exists it is taken). */
  function LatestEnd(purgatory: Option<DateInterval>, data: seq<DateInterval>): (t: real)
    requires purgatory.Some? || data != []
    ensures purgatory.Some? ==> purgatory.value.end <= t
    ensures data != [] ==> Last(data).end <= t
    ensures (purgatory.Some? && t == purgatory.value.end) || (data != [] && t == Last(data).end)
  {
    if purgatory.None? then Last(data).end
    else if data == [] then purgatory.value.end
    else if purgatory.value.end >= Last(data).end then purgatory.value.end
    else Last(data).end
  }

  /** A wrapper class to store cry intervals. */
  class CryIntervals {

    /** The committed cry episodes, oldest first. */
    var data: seq<DateInterval>
    const confidenceThreshold: real
    const maximumCryGap: real
    const minimumCryDuration: real
    /** A span of above-threshold frames that is still too short to be an episode. */
    var purgatory: Option<DateInterval>

    /** The aggregator's invariant: every committed episode lasts at least the
        minimum duration; consecutive episodes, and the pending span after the
        last episode, are more than the maximum gap apart; and nothing is ever
        committed when the maximum gap is negative (no gap can be within it). */
    ghost predicate Valid()
      reads this
    {
      && (forall i :: 0 <= i < |data| ==> Duration(data[i]) >= minimumCryDuration)
      && Separated(data, maximumCryGap)
      && (maximumCryGap < 0.0 ==> data == [])
      && (purgatory.Some? && data != [] ==> purgatory.value.start - Last(data).end > maximumCryGap)
    }

    constructor (confidenceThreshold: real, maximumCryGap: real, minimumCryDuration: real)
      ensures Valid()
      ensures this.confidenceThreshold == confidenceThreshold
      ensures this.maximumCryGap == maximumCryGap
      ensures this.minimumCryDuration == minimumCryDuration
      ensures data == [] && purgatory == None
    {
      this.confidenceThreshold := confidenceThreshold;
      this.maximumCryGap := maximumCryGap;
      this.minimumCryDuration := minimumCryDuration;
      data := [];
      purgatory := None;
    }

    /** The time of the last above-threshold observation that changed the state. */
    function LastRecordedTime(): real
      reads this
      requires purgatory.Some? || data != []
    {
      LatestEnd(purgatory, data)
    }

    /** Whether a call with these arguments gets past the threshold guard and
        the first-observation branch, and so measures a gap up to `now`. */
    predicate MeasuresGap(confidence: real)
      reads this
    {
      confidence >= confidenceThreshold && (purgatory.Some? || data != [])
    }

    /** Records one confidence score observed at time `now`, and decides whether
        to open, restart or extend the pending span, or stretch the last episode.
        Foundation traps when the gap interval would run backwards, so a call
        that measures a gap must not be earlier than the last recorded time. */
    method RecordData(confidence: real, now: real) returns (m: ModificationType)
      requires Valid()
      requires MeasuresGap(confidence) ==> LastRecordedTime() <= now
      modifies this
      ensures Valid()
      // what the table relies on: only additions at the end, or a change of the last entry
      ensures m == NoChange ==> data == old(data)
      ensures m == CreatedNewEntry ==> |data| == |old(data)| + 1 && data[..|old(data)|] == old(data)
      ensures m == ModifiedExistingEntry ==>
                old(data) != [] && |data| == |old(data)| && data[..|data| - 1] == old(data)[..|data| - 1]
      // below the threshold: nothing happens
      ensures confidence < confidenceThreshold ==>
                m == NoChange && data == old(data) && purgatory == old(purgatory)
      // the first qualifying score opens a pending span
      ensures confidence >= confidenceThreshold && old(purgatory).None? && old(data) == [] ==>
                m == NoChange && data == [] && purgatory == Some(Interval(now, now))
      // a gap that is too long restarts the pending span, leaving the episodes alone
      ensures old(MeasuresGap(confidence)) && now - old(LastRecordedTime()) > maximumCryGap ==>
                m == NoChange && data == old(data) && purgatory == Some(Interval(now, now))
      // within the gap, the pending span is extended and promoted once long enough
      ensures old(MeasuresGap(confidence)) && now - old(LastRecordedTime()) <= maximumCryGap && old(purgatory).Some? ==>
                var span := Interval(old(purgatory).value.start, now);
                if now - span.start >= minimumCryDuration
                then m == CreatedNewEntry && purgatory == None && data == old(data) + [span]
                else m == NoChange && purgatory == Some(span) && data == old(data)
      // within the gap and with nothing pending, the last episode is stretched to now
      ensures old(MeasuresGap(confidence)) && now - old(LastRecordedTime()) <= maximumCryGap && old(purgatory).None? ==>
                old(data) != [] && m == ModifiedExistingEntry && purgatory == None &&
                data == old(data)[..|old(data)| - 1] + [Interval(Last(old(data)).start, now)]
    {
      if confidence < confidenceThreshold {
        return NoChange;
      }
      if purgatory.None? && data == [] {
        purgatory := Some(Interval(now, now));
        return NoChange;
      }
      var lastRecordedTime := LastRecordedTime();
      var gapInterval: DateInterval := Interval(lastRecordedTime, now);
      var timeGap := Duration(gapInterval);
      if timeGap > maximumCryGap {
        purgatory := Some(Interval(now, now));
        return NoChange;
      }
      if purgatory.Some? {
        var updatedInterval: DateInterval := Interval(purgatory.value.start, now);
        if Duration(updatedInterval) >= minimumCryDuration {
          purgatory := None;
          data := data + [updatedInterval];
          return CreatedNewEntry;
        } else {
          purgatory := Some(updatedInterval);
          return NoChange;
        }
      }
      // The source's closing `return .noChange` cannot be reached: with no
      // pending span, the first-observation branch above left `data` non-empty.
      assert data != [];
      var lastInterval := Last(data);
      data := data[..|data| - 1];
      data := data + [Interval(lastInterval.start, now)];
      return ModifiedExistingEntry;
    }
  }

  /** Every committed episode of a valid aggregator is a proper interval, lasts
      at least the minimum duration, and the episodes are in increasing start
      order without overlap. */
  lemma EpisodesOrdered(c: CryIntervals)
    requires c.Valid()
    ensures forall i :: 0 <= i < |c.data| ==>
              c.data[i].start <= c.data[i].end && c.data[i].end - c.data[i].start >= c.minimumCryDuration
    ensures forall i, j :: 0 <= i < j < |c.data| ==>
              c.data[i].end < c.data[j].start && c.data[i].start < c.data[j].start
  {
    if c.maximumCryGap >= 0.0 {
      SeparatedIsOrdered(c.data, c.maximumCryGap);
    }
  }

}
