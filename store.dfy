/** The single-slot store behind the page, changed in place: loading,
    overwriting and deleting the record, and the page script that runs once
    per view on top of them. */
module Store {
  import opened Progress
  import opened Lifecycle

  class ChallengeStore {
    /** The record in the backing file, or `None` when there is no file. */
    var data: Option<Record>

    ghost predicate Valid()
      reads this
    {
      ValidStore(data)
    }

    /** A store over whatever the backing file holds at launch. */
    constructor (initial: Option<Record>)
      requires ValidStore(initial)
      ensures Valid() && data == initial
    {
      data := initial;
    }

    /** Reads the record; `None` when no file exists. */
    method Load() returns (d: Option<Record>)
      ensures d == data
    {
      d := data;
    }

    /** Writes `r`, overwriting whatever was stored. */
    method Save(r: Record)
      modifies this
      ensures data == Some(r)
    {
      data := Some(r);
    }

    /** Deletes the record; does nothing when there is none, so calling it
        twice is the same as calling it once. */
    method Reset()
      modifies this
      ensures Valid() && data == None
    {
      if data.Some? {
        data := None;
      }
    }

    /** Starts a challenge of `days` days at `now`, overwriting any record.
        A length outside the accepted range is refused and nothing is written. */
    method Start(now: real, days: int) returns (started: bool)
      requires Valid()
      modifies this
      ensures Valid()
      ensures started <==> MinDays <= days <= MaxDays
      ensures started ==> data == Some(NewRecord(now, days))
      ensures !started ==> data == old(data)
    {
      started := MinDays <= days <= MaxDays;
      if started {
        Save(NewRecord(now, days));
      }
    }

    /** Records the milestone reached at percentage `percent` when it is past
        the recorded one and below 100, saving the record; reports whether
        the cue is due. Nothing but `lastMilestone` changes. */
    method AdvanceMilestone(percent: real) returns (milestone: int, ding: bool)
      requires Valid() && data.Some?
      modifies this
      ensures Valid() && data.Some?
      ensures milestone == Milestone(percent)
      ensures ding == DingDue(old(data).value, milestone)
      ensures data == Some(Advance(old(data).value, milestone))
      ensures ding ==> LastMilestone(data.value) == milestone
      ensures !ding ==> data == old(data)
    {
      milestone := Milestone(percent);
      var r := data.value;
      ding := milestone > LastMilestone(r) && milestone < 100;
      if ding {
        AdvanceKeepsValid(r, percent);
        r := r.(lastMilestone := Some(milestone));
        Save(r);
      }
    }

    /** One run of the page at time `now` in which the user did `a`: the
        set-up form and start button when there is no record; otherwise the
        progress, the milestone check, and the stop button (before 100%) or
        the start-new button (from 100% on). */
    method Run(now: real, a: Action) returns (s: Screen)
      requires Valid()
      modifies this
      ensures Valid()
      ensures data == Next(old(data), now, a)
      ensures s == Render(old(data), now)
    {
      var d := Load();
      if d.None? {
        s := Setup;
        if a.ClickStart? {
          var _ := Start(now, a.days);
        }
      } else {
        var r := d.value;
        var p := Percent(now - r.startTime, r.challengeDays);
        var message := GetEmoji(p);
        var milestone, ding := AdvanceMilestone(p);
        s := InProgress(p, milestone, message, ding, p >= Complete);
        if p >= Complete {
          if a.ClickStartNew? {
            Reset();
          }
        } else {
          if a.ClickStop? {
            Reset();
          }
        }
      }
    }
  }

  /** Starting a 7-day challenge and loading gives the fresh record;
      stopping it right away leaves the store empty. */
  method StartThenStop(now: real) returns (loaded: Option<Record>, after: Option<Record>)
    ensures loaded.Some? && loaded.value.challengeDays == 7
    ensures loaded.value.status == Running && loaded.value.lastMilestone == Some(0)
    ensures after.None?
  {
    var store := new ChallengeStore(None);
    var started := store.Start(now, 7);
    loaded := store.Load();
    var _ := store.Run(now, ClickStop);
    after := store.Load();
  }

  /** A length of 0 or 101 days is refused before any record is written. */
  method RejectOutOfRange(now: real) returns (first: Option<Record>, second: Option<Record>)
    ensures first.None? && second.None?
  {
    var store := new ChallengeStore(None);
    var _ := store.Run(now, ClickStart(0));
    first := store.Load();
    var _ := store.Run(now, ClickStart(101));
    second := store.Load();
  }
}
