/** Capturing a snapshot while the relevant services are quiescent (scripts/backup_snapshot.py, _capture).
    Every service call may raise, with or without its effect, and every observation may fail. */
module SnapshotCapture {
  import opened Wrappers

  /** `Copy` records which services were running while the path was copied. */
  datatype Event = Stop(name: string) | Copy(path: string, running: set<string>) | Start(name: string)

  /** One stop or start call: whether it takes effect, whether it raises, and whether the state of
      the service can be observed afterwards. */
  datatype Reply = Reply(takesEffect: bool, raises: bool, observable: bool)

  predicate Obedient(r: Reply) { r.takesEffect && !r.raises && r.observable }

  datatype Snapshot = Partial(copied: seq<string>) | Complete(copied: seq<string>, originallyActive: set<string>)

  /** Removing the snapshot directory: it goes, or an exception leaves something of it behind. */
  datatype Removal = Removed | Leaves(rest: Snapshot)

  /** `RemovalFailed` is the exception of a removal, which replaces the one that led to it. */
  datatype Outcome = Captured | Failed | ServiceRecoveryError | RemovalFailed

  function Stops(names: seq<string>): seq<Event> {
    if names == [] then [] else Stops(names[..|names| - 1]) + [Stop(names[|names| - 1])]
  }

  function Copies(paths: seq<string>, running: set<string>): seq<Event> {
    if paths == [] then [] else Copies(paths[..|paths| - 1], running) + [Copy(paths[|paths| - 1], running)]
  }

  function Names(names: seq<string>): set<string> {
    set n | n in names
  }

  /** Starts in the reverse of the order of `names`. */
  function RestartsOf(names: seq<string>): seq<Event> {
    if names == [] then [] else [Start(names[|names| - 1])] + RestartsOf(names[..|names| - 1])
  }

  function Restarts(names: seq<string>, left: seq<string>): seq<Event>
    requires left <= names
  {
    if names == left then [] else [Start(names[|names| - 1])] + Restarts(names[..|names| - 1], left)
  }

  lemma {:induction false} RestartsGrow(names: seq<string>, left: seq<string>)
    requires left <= names && left != []
    ensures Restarts(names, left[..|left| - 1]) == Restarts(names, left) + [Start(left[|left| - 1])]
  {
    var shorter := left[..|left| - 1];
    if names == left {
      assert Restarts(left[..|left| - 1], shorter) == [];
    } else {
      RestartsGrow(names[..|names| - 1], left);
    }
  }

  lemma {:induction false} RestartsAll(names: seq<string>)
    ensures Restarts(names, []) == RestartsOf(names)
  {
    if names != [] { RestartsAll(names[..|names| - 1]); }
  }

  predicate Distinct(names: seq<string>) {
    forall i, j | 0 <= i < j < |names| :: names[i] != names[j]
  }

  /** The services of the catalogue that were active on entry, in catalogue order. */
  function ActiveOf(services: seq<string>, running: set<string>): seq<string> {
    if services == [] then []
    else ActiveOf(services[..|services| - 1], running)
         + (if services[|services| - 1] in running then [services[|services| - 1]] else [])
  }

  lemma {:induction false} ActiveOfMembers(services: seq<string>, running: set<string>)
    ensures forall n :: n in ActiveOf(services, running) <==> n in services && n in running
  {
    if services != [] {
      var front := services[..|services| - 1];
      assert services == front + [services[|services| - 1]];
      ActiveOfMembers(front, running);
    }
  }

  class Host {
    var running: set<string>
    var snapshot: Option<Snapshot>
    ghost var log: seq<Event>

    method StopService(name: string, reply: Reply) returns (observed: bool)
      modifies this`running, this`log
      ensures log == old(log) + [Stop(name)]
      ensures running == if reply.takesEffect then old(running) - {name} else old(running)
      ensures observed <==> !reply.raises && reply.observable && name !in running
    {
      log := log + [Stop(name)];
      if reply.takesEffect { running := running - {name}; }
      observed := !reply.raises && reply.observable && name !in running;
    }

    method StartService(name: string, reply: Reply) returns (observed: bool)
      modifies this`running, this`log
      ensures log == old(log) + [Start(name)]
      ensures running == if reply.takesEffect then old(running) + {name} else old(running)
      ensures observed <==> !reply.raises && reply.observable && name in running
    {
      log := log + [Start(name)];
      if reply.takesEffect { running := running + {name}; }
      observed := !reply.raises && reply.observable && name in running;
    }

    /** Stops the active services one after another; a failed stop still joins the recovery list. */
    method StopAll(active: seq<string>, stop: string -> Reply) returns (ok: bool, recovery: seq<string>)
      requires Distinct(active) && forall n | n in active :: n in running
      modifies this`running, this`log
      ensures recovery <= active && log == old(log) + Stops(recovery)
      ensures running <= old(running) && forall n | n in old(running) && n !in recovery :: n in running
      ensures ok ==> recovery == active && running == old(running) - Names(active)
      ensures (forall n :: Obedient(stop(n))) ==> ok
    {
      recovery := [];
      ok := true;
      for i := 0 to |active|
        invariant ok ==> recovery == active[..i]
        invariant recovery <= active && log == old(log) + Stops(recovery)
        invariant running <= old(running) && forall n | n in old(running) && n !in recovery :: n in running
        invariant ok ==> running == old(running) - Names(recovery)
        invariant !ok ==> i == |active|
        invariant (forall n :: Obedient(stop(n))) ==> ok
      {
        var name := active[i];
        ghost var before := recovery;
        recovery := recovery + [name];
        assert recovery == active[..i + 1] && recovery[..|recovery| - 1] == before;
        ok := StopService(name, stop(name));
        if !ok { break; }
      }
    }

    /** Copies into the new directory once everything has stopped. */
    method CopyAll(paths: seq<string>, active: seq<string>, originally: set<string>, copies: string -> bool, sound: bool)
      returns (ok: bool, ghost done: seq<string>)
      requires snapshot.None? && forall n | n in active :: n !in running
      modifies this`snapshot, this`log
      ensures done <= paths && log == old(log) + Copies(done, running)
      ensures ok <==> sound && forall p | p in paths :: copies(p)
      ensures ok ==> done == paths && snapshot == Some(Complete(paths, originally))
    {
      snapshot := Some(Partial([]));
      assert paths[..0] == [] && Copies(paths[..0], running) == [];
      var i := 0;
      while i < |paths|
        invariant 0 <= i <= |paths|
        invariant snapshot == Some(Partial(paths[..i]))
        invariant log == old(log) + Copies(paths[..i], running)
        invariant forall p | p in paths[..i] :: copies(p)
      {
        assert paths[..i + 1] == paths[..i] + [paths[i]];
        if !copies(paths[i]) {
          return false, paths[..i];
        }
        log := log + [Copy(paths[i], running)];
        snapshot := Some(Partial(paths[..i + 1]));
        i := i + 1;
      }
      assert paths[..i] == paths;
      ok, done := sound, paths;
      if ok { snapshot := Some(Complete(paths, originally)); }
    }

    /** Restarts what was stopped, last stopped first, whatever fails on the way. */
    method StartAll(recovery: seq<string>, start: string -> Reply) returns (failed: bool)
      requires Distinct(recovery)
      modifies this`running, this`log
      ensures log == old(log) + RestartsOf(recovery)
      ensures old(running) <= running && forall n | n in running && n !in recovery :: n in old(running)
      ensures !failed ==> forall n | n in recovery :: n in running
      ensures (forall n :: Obedient(start(n))) ==> !failed
    {
      failed := false;
      var left := recovery;
      assert Restarts(recovery, left) == [];
      while left != []
        invariant left <= recovery
        invariant log == old(log) + Restarts(recovery, left)
        invariant old(running) <= running && forall n | n in running && n !in recovery :: n in old(running)
        invariant !failed ==> forall k | |left| <= k < |recovery| :: recovery[k] in running
        invariant (forall n :: Obedient(start(n))) ==> !failed
        decreases |left|
      {
        var name := left[|left| - 1];
        assert name == recovery[|left| - 1];
        RestartsGrow(recovery, left);
        var observed := StartService(name, start(name));
        failed := failed || !observed;
        left := left[..|left| - 1];
      }
      RestartsAll(recovery);
    }

    method Capture(services: seq<string>, paths: seq<string>, admitted: bool, resourcesSound: bool, sound: bool,
                   stop: string -> Reply, copies: string -> bool, start: string -> Reply,
                   discard: Removal, retract: Removal)
      returns (outcome: Outcome, ghost recovery: seq<string>)
      requires Distinct(services)
      modifies this
      // The log: stops in order, then copies while none of the stopped services runs, then restarts
      // in reverse stop order. Copying begins only once every active service has stopped.
      ensures recovery <= ActiveOf(services, old(running))
      ensures exists done :: && done <= paths
                             && log == old(log) + Stops(recovery) + Copies(done, old(running) - Names(recovery)) + RestartsOf(recovery)
                             && (done != [] ==> recovery == ActiveOf(services, old(running)))
      // A service that was not active, or not in the catalogue, is never touched.
      ensures forall n | n !in recovery :: n in running <==> n in old(running)
      ensures outcome.Captured? ==>
                && running == old(running) && recovery == ActiveOf(services, old(running))
                && snapshot == Some(Complete(paths, Names(ActiveOf(services, old(running)))))
                && log == old(log) + Stops(recovery) + Copies(paths, old(running) - Names(recovery)) + RestartsOf(recovery)
      // Failure after admission leaves no snapshot; unless it is reported as a recovery failure,
      // every service that was stopped is active again. Only a removal that fails itself leaves a
      // snapshot, and is never reported as success.
      ensures outcome.Failed? && admitted && old(snapshot).None? ==> snapshot.None? && running == old(running)
      ensures outcome.ServiceRecoveryError? ==> snapshot.None?
      ensures outcome.RemovalFailed? ==>
                || (discard.Leaves? && snapshot == Some(discard.rest) && running == old(running))
                || (retract.Leaves? && snapshot == Some(retract.rest))
      ensures !admitted || old(snapshot).Some? ==> outcome.Failed? && recovery == [] && snapshot == old(snapshot)
      // Without faults the capture goes through.
      ensures (&& admitted && old(snapshot).None? && resourcesSound && sound && (forall p :: copies(p))
               && forall n :: Obedient(stop(n)) && Obedient(start(n))) ==> outcome.Captured?
    {
      recovery := [];
      var originally := running;
      ghost var log0 := log;
      if !admitted || snapshot.Some? {
        assert log == log0 + Stops([]) + Copies([], originally - Names([])) + RestartsOf([]);
        return Failed, recovery;
      }
      var active := ActiveOf(services, originally);
      ActiveOfMembers(services, originally);
      ActiveOfDistinct(services, originally);
      var ok, stopped := StopAll(active, stop);
      recovery := stopped;
      ghost var done: seq<string> := [];
      ghost var log1 := log;
      assert log1 == log0 + Stops(recovery) + Copies(done, originally - Names(recovery));
      if ok && resourcesSound {
        ok, done := CopyAll(paths, active, Names(active), copies, sound);
      } else {
        ok := false;
      }
      var stuck := !ok && snapshot.Some? && discard.Leaves?;
      if !ok { snapshot := if stuck then Some(discard.rest) else None; }
      ghost var log2, running2 := log, running;
      assert log2 == log0 + Stops(recovery) + Copies(done, originally - Names(recovery));
      var failed := StartAll(stopped, start);
      assert log == log0 + Stops(recovery) + Copies(done, originally - Names(recovery)) + RestartsOf(recovery);
      if failed {
        if snapshot.Some? && retract.Leaves? {
          snapshot := Some(retract.rest);
          return RemovalFailed, recovery;
        }
        snapshot := None;
        return ServiceRecoveryError, recovery;
      }
      outcome := if ok then Captured else if stuck then RemovalFailed else Failed;
    }
  }

  lemma {:induction false} ActiveOfDistinct(services: seq<string>, running: set<string>)
    requires Distinct(services)
    ensures Distinct(ActiveOf(services, running))
  {
    if services != [] {
      var front, last := services[..|services| - 1], services[|services| - 1];
      ActiveOfDistinct(front, running);
      ActiveOfMembers(front, running);
      forall n | n in ActiveOf(front, running) ensures n != last {
        var k :| 0 <= k < |front| && front[k] == n;
        assert services[k] == n;
      }
    }
  }
}
