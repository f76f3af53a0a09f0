/** The resumable two-rename swap of the backup runtime (scripts/backup_schedule.py, refresh_runtime).
    `power` is the number of durable writes and renames that still happen before a crash. */
module RuntimeSwap {
  import opened Wrappers

  /** File names and digests, as a manifest records them. */
  type Manifest = map<string, nat>

  /** A directory that verifies against its own manifest, or one that does not. */
  datatype Directory = Verified(manifest: Manifest) | Broken

  datatype Intent = Intent(previous: Manifest, desired: Manifest)

  datatype Layout = Layout(
    runtime: Option<Directory>, previous: Option<Directory>, candidate: Option<Directory>, marker: Option<Intent>)

  datatype Outcome = Completed | Unchanged | Refused | Interrupted

  /** Between the writing and the removal of the marker. */
  predicate InFlight(l: Layout, old': Manifest, desired: Manifest) {
    && l.marker == Some(Intent(old', desired)) && old' != desired
    && (|| l == Layout(Some(Verified(old')), None, Some(Verified(desired)), l.marker)
        || l == Layout(None, Some(Verified(old')), Some(Verified(desired)), l.marker)
        || l == Layout(Some(Verified(desired)), Some(Verified(old')), None, l.marker))
  }

  predicate Done(l: Layout, old': Manifest, desired: Manifest) {
    l == Layout(Some(Verified(desired)), Some(Verified(old')), None, None) && old' != desired
  }

  /** Before the marker: the old runtime runs, and a candidate may or may not have been staged. */
  predicate Untouched(l: Layout, old': Manifest) {
    l.marker.None? && l.runtime == Some(Verified(old')) && l.previous.None?
  }

  /** What one attempt with source manifest `source`, however it ends, makes of a layout. */
  ghost predicate Attempt(l: Layout, source: Manifest, l': Layout) {
    && (forall o, d | InFlight(l, o, d) :: if source == d then InFlight(l', o, d) || Done(l', o, d) else l' == l)
    && (forall o, d | Done(l, o, d) :: l' == l)
    && (forall o | Untouched(l, o) :: Untouched(l', o) || InFlight(l', o, source) || Done(l', o, source))
  }

  class BackupRuntime {
    var runtime: Option<Directory>
    var previous: Option<Directory>
    var candidate: Option<Directory>
    var marker: Option<Intent>

    function View(): Layout
      reads this
    {
      Layout(runtime, previous, candidate, marker)
    }

    static function Verify(d: Option<Directory>): Result<Manifest> {
      if d.Some? && d.value.Verified? then Success(d.value.manifest) else Failure
    }

    /** The candidate for `source` and, once it is complete, the durable intent. */
    method Prepare(source: Manifest, stageable: bool, power: nat) returns (outcome: Outcome, left: nat)
      requires marker.None?
      modifies this`candidate, this`marker
      ensures outcome.Completed? ==>
                && Verify(runtime).Success? && Verify(runtime).value != source && previous.None?
                && candidate == Some(Verified(source)) && marker == Some(Intent(Verify(runtime).value, source))
                && left + 2 >= power
      ensures !outcome.Completed? ==> marker.None?
      ensures outcome.Unchanged? || outcome.Refused? ==> View() == old(View())
      ensures outcome.Unchanged? <==> Verify(runtime) == Success(source)
      ensures (&& Verify(runtime).Success? && Verify(runtime).value != source && previous.None?
               && old(candidate) in {None, Some(Verified(source))} && stageable && power >= 2) ==> outcome.Completed?
      ensures Verify(runtime).Success? && Verify(runtime).value != source && previous.Some? ==> outcome.Refused?
    {
      var current := Verify(runtime);
      if current.Failure? { return Refused, 0; }
      if current.value == source { return Unchanged, power; }
      if previous.Some? { return Refused, 0; }
      left := power;
      if candidate.Some? {
        if Verify(candidate) != Success(source) { return Refused, 0; }
      } else {
        if !stageable { return Refused, 0; }
        if left == 0 {
          candidate := Some(Broken);
          return Interrupted, 0;
        }
        candidate, left := Some(Verified(source)), left - 1;
      }
      if left == 0 { return Interrupted, 0; }
      marker, left := Some(Intent(current.value, source)), left - 1;
      outcome := Completed;
    }

    method Refresh(source: Manifest, stageable: bool, power: nat) returns (outcome: Outcome)
      modifies this
      ensures Attempt(old(View()), source, View())
      ensures outcome.Unchanged? ==> View() == old(View()) && Verify(runtime) == Success(source)
      // A refusal changes nothing, unless a damaged candidate shows up behind the first rename.
      ensures outcome.Refused? ==>
                || View() == old(View())
                || (old(candidate) != Some(Verified(source))
                    && View() == old(View()).(runtime := None, previous := old(runtime)))
      // Another source is refused while an intent exists.
      ensures old(marker).Some? && old(marker).value.desired != source ==> outcome.Refused?
      // A rerun after completion does nothing; another upgrade needs the retained runtime reviewed first.
      ensures forall o, d | Done(old(View()), o, d) :: outcome == if source == d then Unchanged else Refused
      // An uninterrupted attempt from the same source completes from every point of the swap.
      ensures forall o | InFlight(old(View()), o, source) && power >= 3 :: outcome.Completed? && Done(View(), o, source)
      ensures forall o | Untouched(old(View()), o) && o != source && stageable && power >= 5
                         && old(candidate) in {None, Some(Verified(source))} ::
                outcome.Completed? && Done(View(), o, source)
    {
      var left := power;
      if marker.Some? {
        if marker.value.desired != source { return Refused; }
      } else {
        outcome, left := Prepare(source, stageable, power);
        if !outcome.Completed? { return; }
      }
      var intent := marker.value;
      if runtime.Some? {
        var current := Verify(runtime);
        if current.Failure? { return Refused; }
        if current.value == source {
          if Verify(previous) != Success(intent.previous) { return Refused; }
          if left == 0 { return Interrupted; }
          marker := None;
          return Completed;
        }
        if current.value != intent.previous || previous.Some? { return Refused; }
        if left == 0 { return Interrupted; }
        runtime, previous, left := None, runtime, left - 1;
      }
      if Verify(previous) != Success(intent.previous) || Verify(candidate) != Success(source) { return Refused; }
      if left == 0 { return Interrupted; }
      runtime, candidate, left := candidate, None, left - 1;
      if left == 0 { return Interrupted; }
      marker := None;
      outcome := Completed;
    }
  }

  /** After any number of attempts from any sources, each cut short anywhere, the old runtime still
      exists intact and the live runtime is absent, exactly the old or exactly the desired one. */
  lemma {:induction false} OldRuntimeSurvives(layouts: seq<Layout>, sources: seq<Manifest>, old': Manifest, desired: Manifest)
    requires |layouts| == |sources| + 1
    requires forall i | 0 <= i < |sources| :: Attempt(layouts[i], sources[i], layouts[i + 1])
    requires InFlight(layouts[0], old', desired) || Done(layouts[0], old', desired)
    ensures var l := layouts[|layouts| - 1];
            && (InFlight(l, old', desired) || Done(l, old', desired))
            && (l.runtime == Some(Verified(old')) || l.previous == Some(Verified(old')))
            && l.runtime in {None, Some(Verified(old')), Some(Verified(desired))}
            && (l.marker.None? ==> l.runtime == Some(Verified(desired)))
    decreases |sources|
  {
    if sources != [] {
      assert Attempt(layouts[0], sources[0], layouts[1]);
      OldRuntimeSurvives(layouts[1..], sources[1..], old', desired);
    }
  }
}
