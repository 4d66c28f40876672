/** What the record screen takes from the aggregator: its configuration, the
    newest-first table over the committed episodes, and the rows it refreshes
    after each kind of modification. */
module RecordVC {

  import opened Wrappers
  import opened Extensions
  import opened Intervals

  const ConfidenceThreshold: real := 0.5
  const MaximumCryGap: real := 20.0
  const MinimumCryDuration: real := 2.0

  /** The episode `cellForRowAt` shows in `row`: `data[safe: data.count - row - 1]`. */
  function RowEntry(data: seq<DateInterval>, row: int): (r: Option<DateInterval>)
    ensures r.Some? <==> 0 <= row < |data|
    ensures r.Some? ==> r.value == data[|data| - 1 - row]
  {
    SafeGet(data, |data| - row - 1)
  }

  /** Every row the table asks for (`0 ..< data.count`) finds an episode, row 0
      is the most recent one, and each episode is shown in exactly one row. */
  lemma RowsNewestFirst(data: seq<DateInterval>)
    ensures forall row :: 0 <= row < |data| ==> RowEntry(data, row) == Some(data[|data| - 1 - row])
    ensures data != [] ==> RowEntry(data, 0) == Some(Last(data))
    ensures forall row :: row < 0 || row >= |data| ==> RowEntry(data, row) == None
    ensures forall k :: 0 <= k < |data| ==> RowEntry(data, |data| - 1 - k) == Some(data[k])
  {
  }

  /** On a valid aggregator the table reads back in time: a lower row holds an
      episode that started after the one in any higher row ended. */
  lemma RowsDescendInTime(c: CryIntervals, row1: int, row2: int)
    requires c.Valid()
    requires 0 <= row1 < row2 < |c.data|
    ensures RowEntry(c.data, row1).Some? && RowEntry(c.data, row2).Some?
    ensures RowEntry(c.data, row2).value.end < RowEntry(c.data, row1).value.start
  {
    EpisodesOrdered(c);
    var n := |c.data|;
    assert RowEntry(c.data, row1) == Some(c.data[n - 1 - row1]);
    assert RowEntry(c.data, row2) == Some(c.data[n - 1 - row2]);
  }

  /** After `createdNewEntry` the new episode is in row 0 and every older row
      moved down by one, which is why the screen reloads the whole table. */
  lemma CreatedNewEntryShiftsRows(before: seq<DateInterval>, after: seq<DateInterval>)
    requires |after| == |before| + 1 && after[..|before|] == before
    ensures RowEntry(after, 0) == Some(Last(after))
    ensures forall row :: 0 <= row < |before| ==> RowEntry(after, row + 1) == RowEntry(before, row)
  {
    forall row | 0 <= row < |before| ensures RowEntry(after, row + 1) == RowEntry(before, row) {
      assert after[|before| - 1 - row] == before[|before| - 1 - row];
    }
  }

  /** After `modifiedExistingEntry` only row 0 shows something different, so
      reloading row 0 alone keeps the table in step with the episodes. */
  lemma ModifiedExistingEntryChangesRowZero(before: seq<DateInterval>, after: seq<DateInterval>)
    requires before != [] && |after| == |before| && after[..|after| - 1] == before[..|after| - 1]
    ensures RowEntry(after, 0) == Some(Last(after))
    ensures forall row :: 1 <= row < |before| ==> RowEntry(after, row) == RowEntry(before, row)
  {
    forall row | 1 <= row < |before| ensures RowEntry(after, row) == RowEntry(before, row) {
      var k := |before| - 1 - row;
      assert after[..|after| - 1][k] == before[..|after| - 1][k];
    }
  }

  /** With the screen's settings (threshold 0.5, gap 20 s, minimum 2 s): a cry
      heard at 0, 1 and 2 s becomes an episode on the third frame, a quiet frame
      changes nothing, a frame at 10 s stretches the episode, and one at 40 s,
      30 s after the last, leaves the episode alone and opens a new pending span. */
  method CryThenSilence() returns (results: seq<ModificationType>, episodes: seq<DateInterval>, pending: Option<DateInterval>)
    ensures results == [NoChange, NoChange, CreatedNewEntry, NoChange, ModifiedExistingEntry, NoChange]
    ensures episodes == [Interval(0.0, 10.0)]
    ensures pending == Some(Interval(40.0, 40.0))
  {
    var c := new CryIntervals(ConfidenceThreshold, MaximumCryGap, MinimumCryDuration);
    var m0 := c.RecordData(0.9, 0.0);
    var m1 := c.RecordData(0.9, 1.0);
    var m2 := c.RecordData(0.9, 2.0);
    assert c.data == [Interval(0.0, 2.0)];
    var m3 := c.RecordData(0.2, 5.0);
    var m4 := c.RecordData(0.9, 10.0);
    assert c.data == [Interval(0.0, 10.0)];
    var m5 := c.RecordData(0.9, 40.0);
    results := [m0, m1, m2, m3, m4, m5];
    episodes := c.data;
    pending := c.purgatory;
  }

  /** A run of loud frames that spans only one second never becomes an episode:
      once the silence after it exceeds the gap, it is dropped for a new span. */
  method ShortBlipIsDropped() returns (results: seq<ModificationType>, episodes: seq<DateInterval>, pending: Option<DateInterval>)
    ensures results == [NoChange, NoChange, NoChange]
    ensures episodes == []
    ensures pending == Some(Interval(30.0, 30.0))
  {
    var c := new CryIntervals(ConfidenceThreshold, MaximumCryGap, MinimumCryDuration);
    var m0 := c.RecordData(0.9, 0.0);
    var m1 := c.RecordData(0.9, 1.0);
    var m2 := c.RecordData(0.9, 30.0);
    results := [m0, m1, m2];
    episodes := c.data;
    pending := c.purgatory;
  }

}
