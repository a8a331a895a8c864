/** The arithmetic that turns elapsed time into progress: the total length
    of a challenge in seconds, the capped percentage, the 5% milestone it has
    reached, and the message shown for it. Percentages are exact reals
    (the program uses floating point). */
module Progress {

  const SecondsPerDay: int := 24 * 60 * 60

  /** The range the day-count input accepts. */
  const MinDays: int := 1
  const MaxDays: int := 100

  /** Completion is capped at this percentage. */
  const Complete: real := 100.0

  /** Milestones are whole multiples of this many percent. */
  const MilestoneStep: int := 5

  /** Length of a challenge of `days` days, in seconds. */
  function TotalSeconds(days: int): (secs: int)
    ensures secs % SecondsPerDay == 0 && secs / SecondsPerDay == days
    ensures days >= MinDays ==> secs >= SecondsPerDay
  {
    days * 24 * 60 * 60
  }

  /** Percentage of the challenge done after `elapsed` seconds, capped at 100
      (the smaller of the raw ratio and 100, as Python's `min` picks it).
      Not capped from below: a clock that went backwards gives a negative
      percentage. */
  function Percent(elapsed: real, days: int): (p: real)
    requires days >= MinDays
    ensures p <= Complete
    ensures p == Complete <==> elapsed >= TotalSeconds(days) as real
    ensures p < Complete ==> p * TotalSeconds(days) as real == elapsed * 100.0
    ensures p < 0.0 <==> elapsed < 0.0
  {
    var total := TotalSeconds(days) as real;
    RatioScaled(elapsed, total);
    var raw := elapsed / total * 100.0;
    if Complete < raw then Complete else raw
  }

  /** Scaling by a positive total keeps the order of `elapsed` against 0 and
      against the total. */
  lemma RatioScaled(elapsed: real, total: real)
    requires total > 0.0
    ensures elapsed / total * 100.0 * total == elapsed * 100.0
    ensures elapsed / total * 100.0 < 100.0 <==> elapsed < total
    ensures elapsed / total * 100.0 < 0.0 <==> elapsed < 0.0
  {
    var q := elapsed / total;
    assert q * total == elapsed;
    assert (q - 1.0) * total == elapsed - total;
  }

  /** Percentage never decreases as time goes on, for a fixed length. */
  lemma PercentMonotone(e1: real, e2: real, days: int)
    requires days >= MinDays
    requires e1 <= e2
    ensures Percent(e1, days) <= Percent(e2, days)
  {
    var total := TotalSeconds(days) as real;
    var q1, q2 := e1 / total, e2 / total;
    assert q2 - q1 == (e2 - e1) / total;
    assert q1 * 100.0 <= q2 * 100.0;
  }

  /** The milestone reached at percentage `p`: `p` floor-divided by 5, times 5. */
  function Milestone(p: real): (m: int)
    ensures m % MilestoneStep == 0
    ensures m as real <= p < m as real + MilestoneStep as real
    ensures p <= Complete ==> m <= 100
    ensures 0.0 <= p ==> 0 <= m
  {
    (p / 5.0).Floor * 5
  }

  /** The milestone is the largest multiple of 5 not above the percentage. */
  lemma MilestoneIsLargest(p: real, k: int)
    requires k % MilestoneStep == 0 && k as real <= p
    ensures k <= Milestone(p)
  {
    var m := Milestone(p);
    assert k < m + 5;
    assert (m + 5) % 5 == 0;
  }

  /** A later (larger) percentage never has a smaller milestone. */
  lemma MilestoneMonotone(p1: real, p2: real)
    requires p1 <= p2
    ensures Milestone(p1) <= Milestone(p2)
  {
    MilestoneIsLargest(p2, Milestone(p1));
  }

  /** The five encouragement messages, in order of progress. */
  const KeepGoing: string := "🚶 Keep going!"
  const Halfway: string := "🏃 You're halfway!"
  const CrushingIt: string := "🔥 Crushing it!"
  const AlmostThere: string := "💪 Almost there!"
  const Done: string := "🎉 Done!"

  /** The message for percentage `p`: one per quarter, "done" from 100 on.
      The five buckets are disjoint and together cover every percentage. */
  function GetEmoji(p: real): (msg: string)
    ensures msg == KeepGoing <==> p < 25.0
    ensures msg == Halfway <==> 25.0 <= p < 50.0
    ensures msg == CrushingIt <==> 50.0 <= p < 75.0
    ensures msg == AlmostThere <==> 75.0 <= p < 100.0
    ensures msg == Done <==> 100.0 <= p
  {
    assert KeepGoing[0] != Halfway[0] && KeepGoing[0] != CrushingIt[0];
    assert KeepGoing[0] != AlmostThere[0] && KeepGoing[0] != Done[0];
    assert Halfway[0] != CrushingIt[0] && Halfway[0] != AlmostThere[0];
    assert Halfway[0] != Done[0] && CrushingIt[0] != AlmostThere[0];
    assert CrushingIt[0] != Done[0] && AlmostThere[0] != Done[0];
    if p < 25.0 then KeepGoing
    else if p < 50.0 then Halfway
    else if p < 75.0 then CrushingIt
    else if p < 100.0 then AlmostThere
    else Done
  }

  /** Reference definition of the messages: indexed by the quarter the
      percentage falls in, clamped to the first and last message. */
  const Messages: seq<string> := [KeepGoing, Halfway, CrushingIt, AlmostThere, Done]

  function Quarter(p: real): (q: int)
    ensures 0 <= q < |Messages|
  {
    var k := (p / 25.0).Floor;
    if k < 0 then 0 else if k > 4 then 4 else k
  }

  /** The threshold chain picks the message of the quarter `p` falls in. */
  lemma GetEmojiByQuarter(p: real)
    ensures GetEmoji(p) == Messages[Quarter(p)]
  {
    var k := (p / 25.0).Floor;
    assert k as real <= p / 25.0 < k as real + 1.0;
    assert k as real * 25.0 <= p < k as real * 25.0 + 25.0;
    if p < 25.0 {
      assert k <= 0;
    } else if p < 50.0 {
      assert k == 1;
    } else if p < 75.0 {
      assert k == 2;
    } else if p < 100.0 {
      assert k == 3;
    } else {
      assert k >= 4;
    }
  }

  /** A challenge just started is at 0%, milestone 0, "keep going". */
  lemma AtStart(days: int)
    requires MinDays <= days
    ensures Percent(0.0, days) == 0.0
    ensures Milestone(Percent(0.0, days)) == 0
    ensures GetEmoji(Percent(0.0, days)) == KeepGoing
  {
    var total := TotalSeconds(days) as real;
    assert 0.0 / total * 100.0 == 0.0;
  }

  /** Exactly `days` days in, the challenge is at 100%, milestone 100, "done";
      any time later it stays there. */
  lemma AtEnd(days: int, elapsed: real)
    requires MinDays <= days
    requires elapsed >= TotalSeconds(days) as real
    ensures Percent(elapsed, days) == Complete
    ensures Milestone(Percent(elapsed, days)) == 100
    ensures GetEmoji(Percent(elapsed, days)) == Done
  {
  }

  /** Twelve hours into a one-day challenge: 50%, milestone 50, and the
      message for the third quarter. */
  lemma HalfOfOneDay()
    ensures Percent(43200.0, 1) == 50.0
    ensures Milestone(Percent(43200.0, 1)) == 50
    ensures GetEmoji(Percent(43200.0, 1)) == CrushingIt
  {
    assert 43200.0 / 86400.0 * 100.0 == 50.0;
  }
}
