/** The update indicator of the title bar: the status pushed by the updater,
    the result of the periodic update check, and the manual check button. */
module UpdateStatus {
  import opened Wrappers

  /** An `updater:status` event. Fields the updater leaves out are `None`. */
  datatype StatusEvent = StatusEvent(
    status: string,
    currentVersion: Option<string>,
    version: Option<string>,
    releaseNotes: Option<string>)

  /** How one update check settled: a result, or a thrown error (including a
      missing result, whose fields cannot be read). */
  datatype PollOutcome =
    | Polled(status: string, version: Option<string>, releaseNotes: Option<string>)
    | PollFailed

  /** The title bar's update state. */
  datatype UpdateState = UpdateState(
    status: string,
    appVersion: string,
    newAppVersion: string,
    releaseNotes: string,
    showUpdateDialog: bool,
    manuallyOpened: bool,
    showIcon: bool)

  const Initial := UpdateState("", "", "", "", false, false, false)

  /** A field counts as present when it holds a non-empty string. */
  predicate Truthy(o: Option<string>) {
    o.Some? && o.value != []
  }

  /** A field as a template literal writes it: a missing one prints as
      `undefined`. */
  function Shown(o: Option<string>): string {
    o.GetOr("undefined")
  }

  /** A version as the title bar writes it. */
  function Tagged(o: Option<string>): (s: string)
    ensures |s| >= 1 && s[0] == 'v'
    ensures o.Some? ==> s[1..] == o.value
  {
    "v" + Shown(o)
  }

  /** The notes `prev`, replaced by the incoming ones only when those are present. */
  function NotesAfter(prev: string, incoming: Option<string>): (r: string)
    ensures Truthy(incoming) ==> r == incoming.value
    ensures !Truthy(incoming) ==> r == prev
  {
    if Truthy(incoming) then incoming.value else prev
  }

  // ---------------------------------------------------------------------
  // Pushed status
  // ---------------------------------------------------------------------

  /** The `updater:status` handler: the status is recorded and the icon
      hidden; `available` records both versions; `downloaded` records both
      versions, shows the icon and takes the notes when there are any. */
  function OnStatus(st: UpdateState, e: StatusEvent): (r: UpdateState)
    ensures r.status == e.status
    ensures r.showIcon <==> e.status == "downloaded"
    ensures e.status == "available" || e.status == "downloaded" ==>
      r.appVersion == Tagged(e.currentVersion) && r.newAppVersion == Tagged(e.version)
    ensures e.status != "available" && e.status != "downloaded" ==>
      r.appVersion == st.appVersion && r.newAppVersion == st.newAppVersion
    ensures r.releaseNotes == (if e.status == "downloaded" then NotesAfter(st.releaseNotes, e.releaseNotes) else st.releaseNotes)
    ensures r.showUpdateDialog == st.showUpdateDialog && r.manuallyOpened == st.manuallyOpened
  {
    var hidden := st.(status := e.status, showIcon := false);
    if e.status == "available" then
      hidden.(appVersion := Tagged(e.currentVersion), newAppVersion := Tagged(e.version))
    else if e.status == "downloaded" then
      hidden.(appVersion := Tagged(e.currentVersion), newAppVersion := Tagged(e.version),
              showIcon := true, releaseNotes := NotesAfter(st.releaseNotes, e.releaseNotes))
    else hidden
  }

  /** Receiving the same event twice is receiving it once. */
  lemma OnStatusIdempotent(st: UpdateState, e: StatusEvent)
    ensures OnStatus(OnStatus(st, e), e) == OnStatus(st, e)
  {
  }

  // ---------------------------------------------------------------------
  // Periodic check
  // ---------------------------------------------------------------------

  /** The periodic check: an `available` result with a version records it as
      `appVersion` (not `newAppVersion`); present notes replace the old ones
      whatever the status; a failed check changes nothing. */
  function OnPoll(st: UpdateState, o: PollOutcome): (r: UpdateState)
    ensures o.PollFailed? ==> r == st
    ensures o.Polled? && o.status == "available" && Truthy(o.version) ==> r.appVersion == Tagged(o.version)
    ensures o.Polled? && !(o.status == "available" && Truthy(o.version)) ==> r.appVersion == st.appVersion
    ensures o.Polled? ==> r.releaseNotes == NotesAfter(st.releaseNotes, o.releaseNotes)
    ensures r.(appVersion := st.appVersion, releaseNotes := st.releaseNotes) == st
  {
    match o
    case PollFailed => st
    case Polled(status, version, notes) =>
      var versioned := if status == "available" && Truthy(version) then st.(appVersion := Tagged(version)) else st;
      versioned.(releaseNotes := NotesAfter(st.releaseNotes, notes))
  }

  /** Seeing the same check result twice is seeing it once. */
  lemma OnPollIdempotent(st: UpdateState, o: PollOutcome)
    ensures OnPoll(OnPoll(st, o), o) == OnPoll(st, o)
  {
  }

  /** After a download is announced, a check that finds the same version
      overwrites the version the dialog shows as current with the new one, so
      both versions read the same. */
  lemma PollOverwritesCurrentVersion(st: UpdateState, cur: string, v: string)
    requires v != [] && cur != v
    ensures var downloaded := OnStatus(st, StatusEvent("downloaded", Some(cur), Some(v), None));
      && downloaded.appVersion != downloaded.newAppVersion
      && var polled := OnPoll(downloaded, Polled("available", Some(v), None));
         polled.appVersion == polled.newAppVersion == "v" + v
  {
    var d := OnStatus(st, StatusEvent("downloaded", Some(cur), Some(v), None));
    assert d.appVersion[1..] == cur && d.newAppVersion[1..] == v;
  }

  // ---------------------------------------------------------------------
  // Manual check
  // ---------------------------------------------------------------------

  /** The check-for-updates button: with a downloaded update the dialog opens
      as manually opened; otherwise the state is kept and an "up to date"
      notice is shown instead (the flag returned beside the state). */
  function CheckForUpdates(st: UpdateState): (r: (UpdateState, bool))
    ensures r.1 <==> st.status != "downloaded"
    ensures st.status == "downloaded" ==> r.0.showUpdateDialog && r.0.manuallyOpened
    ensures r.0.(showUpdateDialog := st.showUpdateDialog, manuallyOpened := st.manuallyOpened) == st
    ensures r.1 ==> r.0 == st
  {
    if st.status == "downloaded" then (st.(manuallyOpened := true, showUpdateDialog := true), false)
    else (st, true)
  }

  // ---------------------------------------------------------------------
  // Histories
  // ---------------------------------------------------------------------

  /** Anything that reaches the title bar's update state. */
  datatype Input = Pushed(e: StatusEvent) | Checked(o: PollOutcome) | Pressed

  /** One input. Only a pushed event moves the status and the icon, and only
      it announces a new version. */
  function Step(st: UpdateState, i: Input): (r: UpdateState)
    ensures i.Pushed? ==> r.status == i.e.status && (r.showIcon <==> i.e.status == "downloaded")
    ensures !i.Pushed? ==>
      r.status == st.status && r.showIcon == st.showIcon && r.newAppVersion == st.newAppVersion
  {
    match i
    case Pushed(e) => OnStatus(st, e)
    case Checked(o) => OnPoll(st, o)
    case Pressed => CheckForUpdates(st).0
  }

  /** The state after a history of inputs, oldest first. Without pushed
      events the status, the icon and the new version never change: checks
      and button presses touch none of them. */
  function Run(st: UpdateState, inputs: seq<Input>): (r: UpdateState)
    decreases |inputs|
    ensures !HasEvent(inputs) ==>
      r.status == st.status && r.showIcon == st.showIcon && r.newAppVersion == st.newAppVersion
  {
    if inputs == [] then st
    else
      NoEventInTail(inputs);
      Run(Step(st, inputs[0]), inputs[1..])
  }

  /** Whether the history holds a pushed event. */
  predicate HasEvent(inputs: seq<Input>) {
    exists k :: 0 <= k < |inputs| && inputs[k].Pushed?
  }

  /** A history without pushed events starts with something else and goes on
      without them. */
  lemma NoEventInTail(inputs: seq<Input>)
    requires inputs != []
    ensures !HasEvent(inputs) ==> !inputs[0].Pushed? && !HasEvent(inputs[1..])
  {
    if HasEvent(inputs[1..]) {
      var k :| 0 <= k < |inputs[1..]| && inputs[1..][k].Pushed?;
      assert inputs[k + 1] == inputs[1..][k];
    }
  }

  /** The status of the latest pushed event, or `prev` when there is none. */
  function LastStatus(prev: string, inputs: seq<Input>): string
    decreases |inputs|
  {
    if inputs == [] then prev
    else if inputs[|inputs| - 1].Pushed? then inputs[|inputs| - 1].e.status
    else LastStatus(prev, inputs[..|inputs| - 1])
  }

  /** Only pushed events move the status, and the icon shows exactly when the
      latest of them was `downloaded`; checks and button presses touch
      neither. */
  lemma {:induction false} RunTracksLastEvent(st: UpdateState, inputs: seq<Input>)
    decreases |inputs|
    ensures Run(st, inputs).status == LastStatus(st.status, inputs)
    ensures Run(st, inputs).showIcon == (if HasEvent(inputs) then LastStatus(st.status, inputs) == "downloaded" else st.showIcon)
  {
    if inputs != [] {
      var last := inputs[|inputs| - 1];
      var front := inputs[..|inputs| - 1];
      RunSnoc(st, front, last);
      assert front + [last] == inputs;
      RunTracksLastEvent(st, front);
      HasEventSnoc(front, last);
    }
  }

  /** Running a history one input longer takes one more step. */
  lemma {:induction false} RunSnoc(st: UpdateState, inputs: seq<Input>, i: Input)
    decreases |inputs|
    ensures Run(st, inputs + [i]) == Step(Run(st, inputs), i)
  {
    if inputs == [] {
      assert [] + [i] == [i];
    } else {
      assert (inputs + [i])[1..] == inputs[1..] + [i];
      RunSnoc(Step(st, inputs[0]), inputs[1..], i);
    }
  }

  lemma HasEventSnoc(inputs: seq<Input>, i: Input)
    ensures HasEvent(inputs + [i]) <==> HasEvent(inputs) || i.Pushed?
  {
    var all := inputs + [i];
    if HasEvent(inputs) {
      var k :| 0 <= k < |inputs| && inputs[k].Pushed?;
      assert all[k] == inputs[k];
    }
    if HasEvent(all) && !i.Pushed? {
      var k :| 0 <= k < |all| && all[k].Pushed?;
      assert k < |inputs| && inputs[k] == all[k];
    }
    if i.Pushed? {
      assert all[|inputs|] == i;
    }
  }
}
