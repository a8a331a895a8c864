# Challenge tracker: progress arithmetic and record lifecycle

A single-user page that tracks a challenge of 1 to 100 days. Starting a
challenge writes one record (start time, length in days, status `running`,
last milestone 0) to a backing file. Every view of the page recomputes how
much of the challenge has elapsed as a percentage capped at 100. It shows an
encouragement message for that percentage. When a new 5% milestone below 100
has been crossed, it plays a cue and records that milestone. Before 100% the
page offers "stop"; from 100% on it offers "start new". Both delete the record.

The project has three modules:

- `Progress` (`progress.dfy`): pure arithmetic. It holds the total length in
  seconds, the capped percentage, the 5% milestone and the message buckets,
  with their bounds, floor facts, monotonicity and a reference definition of
  the buckets by quarter.
- `Lifecycle` (`lifecycle.dfy`): the record, the single-slot store as
  `Option<Record>`, and one page view as the pure transition `Next` with its
  screen `Render`. The lemmas state the lifecycle's invariants: start only
  from the empty store, the milestone rule, when each reset is offered, and
  no repeated cue.
- `Store` (`store.dfy`): the store as a class whose `data` field the methods
  change in place. `Load`, `Save` and `Reset` are the file operations.
  `Start` and `AdvanceMilestone` are the two writes. `Run` is one run of the
  page script, proved equal to `Next` and `Render`.

Modelling choices:

- Times are real numbers of seconds on the wall clock. `now` is a parameter
  of every view. The elapsed time is `now - startTime`, so a clock that went
  backwards gives a negative elapsed time and a negative percentage.
- Percentages are exact `real`s; the program uses floating point. The floor
  division `percent // 5` is `.Floor` on reals, which agrees with Python's
  floor division also for negative values.
- Python's `min(x, 100)` returns `x` unless `100 < x`. `Percent` follows that.
- A missing `last_milestone` field reads as 0, as `data.get("last_milestone", 0)`
  does. This is `lastMilestone == None`.
- Clicks are an `Action` parameter of a view. The day-count widget accepts
  only 1 to 100. A start click with any other count is modelled as refused,
  with nothing written.

Behaviour of the program worth noting:

- At exactly 50% `get_emoji` returns "🔥 Crushing it!", because it tests
  `percent < 50` before that bucket (lemma `HalfOfOneDay`).
- The percentage is capped at 100 but not floored at 0.
- The recorded milestone never decreases and never becomes 100, so it is not
  always the largest multiple of 5 below the current percentage. After
  completion it stays at 95, or lower if no view happened in the last 5%. It
  does not follow a clock that moved backwards. What holds is
  `ViewKeepsRecord`: after a view it is at least the current milestone when
  that is below 100.

## Model

| member | source | states |
|---|---|---|
| Progress.TotalSeconds | challange_timer_app.py:87 | the total is a whole number of days in seconds (divides back to `days` exactly) and is at least one day when `days >= 1` |
| Progress.Percent | challange_timer_app.py:88-89 | the percentage is at most 100; it is exactly 100 iff the elapsed time reaches the total; below 100 it is elapsed/total·100; it is negative iff the elapsed time is |
| Progress.PercentMonotone | challange_timer_app.py:88-89 | for a fixed length, more elapsed time never gives a smaller percentage |
| Progress.Milestone | challange_timer_app.py:90 | the milestone is a multiple of 5 with `m <= p < m + 5`; it is at most 100 when `p <= 100` and not negative when `p >= 0` |
| Progress.MilestoneIsLargest | challange_timer_app.py:90 | every multiple of 5 not above the percentage is at most the milestone |
| Progress.MilestoneMonotone | challange_timer_app.py:90 | a larger percentage never has a smaller milestone |
| Progress.GetEmoji | challange_timer_app.py:28-38 | each of the five messages is returned exactly on its range (<25, [25,50), [50,75), [75,100), >=100); the ranges are disjoint and cover every percentage |
| Progress.GetEmojiByQuarter | challange_timer_app.py:28-38 | the threshold chain equals the reference definition that picks the message by the quarter the percentage falls in, clamped to the first and last |
| Progress.AtStart | challange_timer_app.py:85-92 | at the start time the percentage is 0, the milestone 0 and the message "keep going" |
| Progress.AtEnd | challange_timer_app.py:85-92 | from `days` days on the percentage is exactly 100, the milestone 100 and the message "done" |
| Progress.HalfOfOneDay | challange_timer_app.py:85-92 | 12 hours into a 1-day challenge: 50%, milestone 50, message "crushing it" |
| Lifecycle.NewRecord | challange_timer_app.py:73-78 | a started record has the given start time and length, status running and recorded milestone 0, and is valid when the length is in 1..100 |
| Lifecycle.Advance | challange_timer_app.py:110-113 | the milestone check changes the record iff the milestone is past the recorded one and below 100; then it records that milestone, which is larger than before and below 100; start time, length and status never change |
| Lifecycle.LastMilestone | challange_timer_app.py:110 | the recorded milestone as `data.get("last_milestone", 0)` reads it: the stored value, 0 when the field is missing; `Advance`, `ViewKeepsRecord` and `CuesBounded` state its evolution |
| Lifecycle.PercentAt | challange_timer_app.py:85-89 | the percentage of a record at wall-clock time `now`, from the elapsed time `now - startTime`; its bounds and cap are the contract of `Percent`, its monotonicity in `now` is `PercentFollowsClock` |
| Lifecycle.DingDue | challange_timer_app.py:110 | the guard of the milestone check: past the recorded milestone and below 100; `Advance` changes the record exactly when it holds, and `NoDingOnReload` and `CuesBounded` bound how often it holds |
| Lifecycle.Next | challange_timer_app.py:66-129 | the store after one run of the page with a given click; its properties are stated by `NextKeepsValid`, `StartOnlyWhenEmpty`, `ViewKeepsRecord` and `ResetOffered`, and `Store.ChallengeStore.Run` is proved to produce it |
| Lifecycle.Render | challange_timer_app.py:92-118 | what one run shows: the set-up form with no record, else the percentage, milestone, message (lines 92-93), whether the milestone cue is due (lines 110-112) and whether to celebrate (lines 117-118); `NoDingOnReload` and `CuesBounded` are stated over it, and `Run` is proved to show it |
| Lifecycle.CuesStep | challange_timer_app.py:110-114 | one view without a click in a run of views gives a cue exactly when one is due, and leaves the record with the milestone advanced |
| Lifecycle.AdvanceKeepsValid | challange_timer_app.py:110-113 | recording a milestone keeps the recorded milestone a multiple of 5 in [0,95] |
| Lifecycle.NextKeepsValid | challange_timer_app.py:66-129 | every page view keeps the store valid: no record, or one with length in 1..100 and milestone a multiple of 5 in [0,95] |
| Lifecycle.StartOnlyWhenEmpty | challange_timer_app.py:69-78 | from the empty store a record appears iff start was clicked with a length in 1..100, and it is the fresh record at `now`; a running record is never replaced by a new one |
| Lifecycle.ViewKeepsRecord | challange_timer_app.py:110-114 | a view of a running challenge that does not end it changes only the recorded milestone, which does not decrease, stays below 100, is either unchanged or the current milestone, and is at least the current milestone when that is below 100 |
| Lifecycle.ResetOffered | challange_timer_app.py:117-129 | "start new" empties the store iff the percentage is at least 100, "stop" iff it is below 100, and a view without a click never empties it |
| Lifecycle.NoDingOnReload | challange_timer_app.py:110-114 | a second view at the same moment after a view that kept the record gives no milestone cue |
| Lifecycle.CuesBounded | challange_timer_app.py:109-114 | over any sequence of views without a click, each showing `Render` and leaving `Next` of the store (and by `NonEndingClickIsView` every view before the challenge ends acts as one), 5 times the number of cues is at most 95 minus the recorded milestone: at most one cue per 5% boundary, 19 at most per challenge |
| Lifecycle.PercentFollowsClock | challange_timer_app.py:85-89 | for a fixed record, a later time never shows a smaller percentage |
| Lifecycle.NonEndingClickIsView | challange_timer_app.py:117-129 | a click that does not end the challenge (start on a running challenge, stop from 100% on, start new before 100%) leaves the store exactly as a view with no click does |
| Lifecycle.MilestoneFollowsClock | challange_timer_app.py:85-90 | for a fixed record, a later time never shows a smaller milestone |
| Store.ChallengeStore.constructor | challange_timer_app.py:13-17 | the store starts out holding whatever the backing file holds |
| Store.ChallengeStore.Load | challange_timer_app.py:13-17 | loading returns the stored record, or none when there is no file |
| Store.ChallengeStore.Save | challange_timer_app.py:19-21 | saving overwrites whatever was stored with the given record |
| Store.ChallengeStore.Reset | challange_timer_app.py:23-25 | after a reset the store is empty, whether or not it held a record, so resetting is idempotent |
| Store.ChallengeStore.Start | challange_timer_app.py:71-78 | a length in 1..100 overwrites the store with the fresh record at `now`; any other length is refused and the store is unchanged; the store stays valid |
| Store.ChallengeStore.AdvanceMilestone | challange_timer_app.py:110-114 | updates the record in place to `Advance` of the old one with the milestone of the percentage, reports whether the cue is due, and leaves the store unchanged when it is not |
| Store.ChallengeStore.Run | challange_timer_app.py:66-129 | one run of the page leaves the store equal to `Next` of the old store and shows `Render` of it, and keeps the store valid |
| Store.StartThenStop | challange_timer_app.py:73-78 | starting a 7-day challenge and loading gives length 7, status running and milestone 0; stopping it right away leaves no record |
| Store.RejectOutOfRange | challange_timer_app.py:71-78 | start clicks with 0 or 101 days leave the store empty |

## Left out

- Rendering: title, CSS, the progress-bar HTML, `st.balloons`, `st.success`, `st.warning` and `st.rerun` (lines 41-64, 79-80, 93, 101-107, 118, 121, 128-129). A `Screen` value records what is shown: the percentage, milestone, message, whether a cue is due and whether to celebrate. One call of `Run` is one run of the script; the rerun that follows a click is the next call.
- Audio: the background-music toggle and the ding and victory sounds, with their checks for the mp3 files (lines 95-99, 111-112, 119-120). They have no effect on the record. `ding` says a cue is due, whether or not the sound file exists.
- File format and errors: the JSON encoding, ISO timestamps, `datetime.now()` and `fromisoformat` are not modelled. Times are real seconds and `now` is a parameter. A malformed file raises in the program and is not modelled.
- Store.ChallengeStore.constructor: requires the file at launch to hold a record this program could have written, with a length in 1..100 and a recorded milestone that is a multiple of 5 in [0,95]. A hand-edited file is not modelled; with a length of 0 the program would divide by zero.
- A file holding a falsy JSON value, such as `{}`, also shows the set-up form, because the program tests `not data`. The model's store holds either a record or nothing, so this case is not modelled.
- Floating point: percentages are exact reals, so rounding of `elapsed / total * 100` and the `:.2f` formatting are not modelled.
- The variant of the script without sound cues is not part of this model. Its records without `last_milestone` are covered by `lastMilestone == None`.
