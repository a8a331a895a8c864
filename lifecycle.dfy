/** The challenge record and what one page view does to it. The backing file
    is a single slot: it holds no record (no challenge started) or exactly
    one. A view either offers the set-up form (no record) or shows progress,
    records a newly crossed milestone, and offers to stop the challenge
    (before 100%) or to start a new one (from 100% on). */
module Lifecycle {
  import opened Progress

  datatype Option<T> = None | Some(value: T)

  /** The only status ever written; an absent record means "not started". */
  datatype Status = Running

  /** The persisted record. `startTime` is in seconds on the wall clock;
      `lastMilestone` is `None` when the field is missing from the file. */
  datatype Record = Record(startTime: real, challengeDays: int, status: Status, lastMilestone: Option<int>)

  /** What the user clicked during a view, if anything. */
  datatype Action = NoClick | ClickStart(days: int) | ClickStartNew | ClickStop

  /** What a view shows: the set-up form, or the progress of the running
      challenge with the milestone cue and the celebration it triggers. */
  datatype Screen =
    | Setup
    | InProgress(percent: real, milestone: int, message: string, ding: bool, victory: bool)

  /** The recorded milestone, 0 when the field is missing. */
  function LastMilestone(r: Record): int
  {
    match r.lastMilestone
    case Some(m) => m
    case None => 0
  }

  /** A record as this program writes it: a length in the accepted range and
      a recorded milestone that is a multiple of 5 below 100. */
  ghost predicate ValidRecord(r: Record)
  {
    MinDays <= r.challengeDays <= MaxDays &&
    0 <= LastMilestone(r) <= 100 - MilestoneStep &&
    LastMilestone(r) % MilestoneStep == 0
  }

  ghost predicate ValidStore(d: Option<Record>)
  {
    d.Some? ==> ValidRecord(d.value)
  }

  /** The record written when a challenge of `days` days starts at `now`. */
  function NewRecord(now: real, days: int): (r: Record)
    ensures r.startTime == now && r.challengeDays == days
    ensures r.status == Running && LastMilestone(r) == 0 && r.lastMilestone.Some?
    ensures MinDays <= days <= MaxDays ==> ValidRecord(r)
  {
    Record(now, days, Running, Some(0))
  }

  /** Percentage of the challenge `r` done at wall-clock time `now`. */
  function PercentAt(r: Record, now: real): real
    requires r.challengeDays >= MinDays
  {
    Percent(now - r.startTime, r.challengeDays)
  }

  /** Whether `milestone` is one to record and cue: past the recorded one
      and short of completion. */
  predicate DingDue(r: Record, milestone: int)
  {
    milestone > LastMilestone(r) && milestone < 100
  }

  /** The record after the milestone check: only `lastMilestone` may change,
      it never goes back, and it changes exactly when a cue is due. */
  function Advance(r: Record, milestone: int): (r': Record)
    ensures r'.startTime == r.startTime && r'.challengeDays == r.challengeDays
    ensures r'.status == r.status
    ensures r' != r ==> LastMilestone(r) < LastMilestone(r') < 100
    ensures r' != r <==> DingDue(r, milestone)
    ensures r' != r ==> LastMilestone(r') == milestone
  {
    if DingDue(r, milestone) then r.(lastMilestone := Some(milestone)) else r
  }

  /** The store after one view at time `now` in which the user did `a`. */
  function Next(d: Option<Record>, now: real, a: Action): Option<Record>
    requires d.Some? ==> d.value.challengeDays >= MinDays
  {
    match d
    case None =>
      if a.ClickStart? && MinDays <= a.days <= MaxDays then Some(NewRecord(now, a.days)) else None
    case Some(r) =>
      var p := PercentAt(r, now);
      if (p >= Complete && a.ClickStartNew?) || (p < Complete && a.ClickStop?) then None
      else Some(Advance(r, Milestone(p)))
  }

  /** What one view at time `now` shows, given the store before it. */
  function Render(d: Option<Record>, now: real): Screen
    requires d.Some? ==> d.value.challengeDays >= MinDays
  {
    match d
    case None => Setup
    case Some(r) =>
      var p := PercentAt(r, now);
      var m := Milestone(p);
      InProgress(p, m, GetEmoji(p), DingDue(r, m), p >= Complete)
  }

  /** Recording a milestone keeps a record valid. */
  lemma AdvanceKeepsValid(r: Record, p: real)
    requires ValidRecord(r)
    ensures ValidRecord(Advance(r, Milestone(p)))
  {
    var m := Milestone(p);
    if DingDue(r, m) {
      assert m < 100 && m % 5 == 0;
      assert m <= 95;
    }
  }

  /** Every view keeps the store valid. */
  lemma NextKeepsValid(d: Option<Record>, now: real, a: Action)
    requires ValidStore(d)
    ensures ValidStore(Next(d, now, a))
  {
    if d.Some? {
      AdvanceKeepsValid(d.value, PercentAt(d.value, now));
    }
  }

  /** A new record is written only from the empty store, only by a click on
      start with a length in range, and it starts at `now` with milestone 0. */
  lemma StartOnlyWhenEmpty(d: Option<Record>, now: real, a: Action)
    requires d.Some? ==> d.value.challengeDays >= MinDays
    ensures d.None? ==> (Next(d, now, a).Some? <==> a.ClickStart? && MinDays <= a.days <= MaxDays)
    ensures d.None? && Next(d, now, a).Some? ==> Next(d, now, a).value == NewRecord(now, a.days)
    ensures d.Some? && Next(d, now, a).Some? ==> Next(d, now, a).value.startTime == d.value.startTime
  {
  }

  /** While a challenge runs, a view changes nothing but the recorded
      milestone; that never decreases, stays below 100, and after the view it
      is at least the milestone just reached, unless that is 100. */
  lemma ViewKeepsRecord(r: Record, now: real, a: Action)
    requires ValidRecord(r)
    requires Next(Some(r), now, a).Some?
    ensures var r' := Next(Some(r), now, a).value;
      r'.startTime == r.startTime && r'.challengeDays == r.challengeDays && r'.status == r.status &&
      LastMilestone(r) <= LastMilestone(r') < 100 &&
      (r' == r || LastMilestone(r') == Milestone(PercentAt(r, now)))
    ensures var m := Milestone(PercentAt(r, now));
      m < 100 ==> m <= LastMilestone(Next(Some(r), now, a).value)
  {
    AdvanceKeepsValid(r, PercentAt(r, now));
  }

  /** "Start new" ends the challenge exactly when it is complete, "stop"
      exactly when it is not; a view with no click never ends it. */
  lemma ResetOffered(r: Record, now: real)
    requires r.challengeDays >= MinDays
    ensures Next(Some(r), now, ClickStartNew).None? <==> PercentAt(r, now) >= Complete
    ensures Next(Some(r), now, ClickStop).None? <==> PercentAt(r, now) < Complete
    ensures Next(Some(r), now, NoClick).Some?
  {
  }

  /** Reloading the page at the same moment gives no second cue. */
  lemma NoDingOnReload(r: Record, now: real, a: Action)
    requires r.challengeDays >= MinDays
    requires Next(Some(r), now, a).Some?
    ensures !Render(Next(Some(r), now, a), now).ding
  {
    var m := Milestone(PercentAt(r, now));
    var r' := Advance(r, m);
    if r' != r {
      assert LastMilestone(r') == m;
    }
  }

  /** The number of milestone cues over a run of views at times `nows`, with
      no click, starting from record `r`: each view shows `Render` of the
      store and leaves `Next` of it for the following one. */
  function Cues(r: Record, nows: seq<real>): nat
    requires r.challengeDays >= MinDays
    decreases |nows|
  {
    if nows == [] then 0
    else
      var next := Next(Some(r), nows[0], NoClick);
      assert next.Some? && next.value.challengeDays == r.challengeDays;
      (if Render(Some(r), nows[0]).ding then 1 else 0) + Cues(next.value, nows[1..])
  }

  /** One view with no click in a run: a cue exactly when one is due for
      the milestone reached, and the record after it is `Advance`d. */
  lemma CuesStep(r: Record, nows: seq<real>)
    requires r.challengeDays >= MinDays && nows != []
    ensures var m := Milestone(PercentAt(r, nows[0]));
      Cues(r, nows) == (if DingDue(r, m) then 1 else 0) + Cues(Advance(r, m), nows[1..])
  {
    var m := Milestone(PercentAt(r, nows[0]));
    assert Next(Some(r), nows[0], NoClick) == Some(Advance(r, m));
    assert Render(Some(r), nows[0]).ding == DingDue(r, m);
  }

  /** At most one cue per 5% boundary: however the clock moves between
      views, a challenge gives at most 19 cues in all, and fewer the further
      its recorded milestone already is. */
  lemma {:induction false} CuesBounded(r: Record, nows: seq<real>)
    requires ValidRecord(r)
    ensures MilestoneStep * Cues(r, nows) <= 100 - MilestoneStep - LastMilestone(r)
    decreases |nows|
  {
    if nows != [] {
      var m := Milestone(PercentAt(r, nows[0]));
      var r' := Advance(r, m);
      CuesStep(r, nows);
      AdvanceKeepsValid(r, PercentAt(r, nows[0]));
      CuesBounded(r', nows[1..]);
      if DingDue(r, m) {
        assert LastMilestone(r') == m;
        assert m >= LastMilestone(r) + MilestoneStep;
      }
    }
  }

  /** With the clock moving forward, the percentage shown never goes back. */
  lemma PercentFollowsClock(r: Record, t1: real, t2: real)
    requires r.challengeDays >= MinDays
    requires t1 <= t2
    ensures PercentAt(r, t1) <= PercentAt(r, t2)
  {
    PercentMonotone(t1 - r.startTime, t2 - r.startTime, r.challengeDays);
  }

  /** A click that does not end the challenge (a start click on a running
      challenge, "stop" from 100% on, "start new" before 100%) leaves the
      same store as a view with no click, so `CuesBounded` covers every view
      of a challenge until it ends. */
  lemma NonEndingClickIsView(r: Record, now: real, a: Action)
    requires r.challengeDays >= MinDays
    requires Next(Some(r), now, a).Some?
    ensures Next(Some(r), now, a) == Next(Some(r), now, NoClick)
  {
  }

  /** With the clock moving forward, the milestone shown never goes back. */
  lemma MilestoneFollowsClock(r: Record, t1: real, t2: real)
    requires r.challengeDays >= MinDays
    requires t1 <= t2
    ensures Milestone(PercentAt(r, t1)) <= Milestone(PercentAt(r, t2))
  {
    PercentFollowsClock(r, t1, t2);
    MilestoneMonotone(PercentAt(r, t1), PercentAt(r, t2));
  }
}
