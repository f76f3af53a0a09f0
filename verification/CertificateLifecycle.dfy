/** Generation pointers, rollback and garbage collection of managed certificates
    (scripts/certificate_lifecycle.py, generation, point and activate).
    `power` is the number of durable writes that still happen: quantifying over it puts a crash, or
    an exception, after every single write. The directory name hashes the pair of certificate and
    key; the hash is taken as injective, so the name is represented by the pair. */
module CertificateLifecycle {
  import opened Wrappers

  type Fingerprint = nat
  type PrivateKey = seq<nat>

  /** A PEM chain; its first certificate determines the fingerprint a client sees. */
  datatype Chain = Chain(leaf: Fingerprint, rest: seq<nat>)

  datatype Material = Material(cert: Chain, key: PrivateKey)

  /** One generation directory. A crash leaves any part of it missing. */
  datatype Folder = Folder(metadata: Option<Fingerprint>, cert: Option<Chain>, key: Option<PrivateKey>)

  /** What the service answers during one activation. */
  datatype Replies = Replies(
    served: bool, restart: bool, verify: bool, restoreRestart: bool, restoreVerify: bool)

  datatype Outcome = Active | Staged | ActivationError(recovered: bool) | Raised

  predicate Holds(f: Folder, m: Material) {
    f.cert == Some(m.cert) && f.key == Some(m.key)
  }

  /** Deleting a directory removes its entries one by one, in no particular order. */
  predicate PartOf(part: Folder, whole: Folder) {
    && part.metadata in {None, whole.metadata}
    && part.cert in {None, whole.cert}
    && part.key in {None, whole.key}
  }

  class Generations {
    var active: Option<Material>
    var previous: Option<Material>
    var activeNew: bool     // a stale active.new link
    var previousNew: bool   // a stale previous.new link
    var folders: map<Material, Folder>
    ghost var verified: Option<Fingerprint>  // last fingerprint verified since the last restart

    /** Neither pointer dangles, and both lead to a certificate and a key. */
    ghost predicate Valid()
      reads this
    {
      && (active.Some? ==> active.value in folders && folders[active.value].cert.Some? && folders[active.value].key.Some?)
      && (previous.Some? ==> previous.value in folders && folders[previous.value].cert.Some? && folders[previous.value].key.Some?)
    }

    /** Every directory holds parts of the material it is named after, and nothing else. */
    ghost predicate Genuine()
      reads this
    {
      forall m | m in folders :: PartOf(folders[m], Folder(Some(m.cert.leaf), Some(m.cert), Some(m.key)))
    }

    /** Another generation is active, its fingerprint is recorded, nothing stale or damaged is in the
        way of `m`, and `power` suffices for every write that follows. */
    ghost predicate Replaceable(m: Material, power: nat)
      requires Valid()
      reads this
    {
      && active.Some? && active != Some(m) && folders[active.value].metadata.Some?
      && !activeNew && !previousNew && (m in folders ==> Holds(folders[m], m))
      && power >= 10 + 2 * |folders|
    }

    constructor ()
      ensures Valid() && Genuine() && active.None? && previous.None? && folders == map[] && !activeNew && !previousNew
    {
      active, previous, activeNew, previousNew, folders, verified := None, None, false, false, map[], None;
    }

    method PointActive(m: Material, power: nat) returns (ok: bool, left: nat)
      modifies this`active, this`activeNew
      ensures ok <==> !old(activeNew) && power >= 2
      ensures if ok then active == Some(m) && !activeNew && left == power - 2
              else active == old(active) && left == 0
    {
      if activeNew || power == 0 { return false, 0; }
      activeNew := true;
      if power == 1 { return false, 0; }
      active, activeNew := Some(m), false;
      ok, left := true, power - 2;
    }

    method PointPrevious(m: Material, power: nat) returns (ok: bool, left: nat)
      modifies this`previous, this`previousNew
      ensures ok <==> !old(previousNew) && power >= 2
      ensures if ok then previous == Some(m) && !previousNew && left == power - 2
              else previous == old(previous) && left == 0
    {
      if previousNew || power == 0 { return false, 0; }
      previousNew := true;
      if power == 1 { return false, 0; }
      previous, previousNew := Some(m), false;
      ok, left := true, power - 2;
    }

    /** Uses an existing directory only if its bytes are the given ones, else writes a new one file by file. */
    method Stage(m: Material, power: nat) returns (ok: bool, left: nat)
      requires Valid()
      modifies this`folders
      ensures Valid() && (old(Genuine()) ==> Genuine())
      ensures forall x | x in old(folders) :: x in folders && folders[x] == old(folders[x])
      ensures folders.Keys <= old(folders).Keys + {m}
      ensures ok ==> m in folders && Holds(folders[m], m)
      ensures ok ==> left <= power
      ensures !ok ==> left == 0
      ensures ok <==> if m in old(folders) then Holds(old(folders)[m], m) else power >= 4
      ensures ok ==> left >= power - 4
    {
      if m in folders {
        if !Holds(folders[m], m) { return false, 0; }
        return true, power;
      }
      if power == 0 { return false, 0; }
      folders := folders[m := Folder(None, None, None)];
      if power == 1 { return false, 0; }
      folders := folders[m := Folder(Some(m.cert.leaf), None, None)];
      if power == 2 { return false, 0; }
      folders := folders[m := Folder(Some(m.cert.leaf), Some(m.cert), None)];
      if power == 3 { return false, 0; }
      folders := folders[m := Folder(Some(m.cert.leaf), Some(m.cert), Some(m.key))];
      ok, left := true, power - 4;
    }

    /** Removes every directory but the kept ones. `debris` is what a deletion cut short leaves. */
    method Collect(keep: set<Material>, debris: Folder, power: nat) returns (ok: bool)
      requires Valid() && (active.Some? ==> active.value in keep) && (previous.Some? ==> previous.value in keep)
      modifies this`folders
      ensures Valid() && (old(Genuine()) ==> Genuine())
      ensures forall x | x in keep && x in old(folders) :: x in folders && folders[x] == old(folders[x])
      ensures folders.Keys <= old(folders).Keys
      ensures ok ==> folders.Keys == old(folders).Keys * keep
      ensures power >= 2 * |old(folders)| ==> ok
    {
      var left, rest := power, folders.Keys;
      while rest != {}
        invariant rest <= folders.Keys <= old(folders).Keys
        invariant forall x | x in folders && x !in rest :: x in keep
        invariant forall x | x in keep && x in old(folders) :: x in folders
        invariant forall x | x in folders :: folders[x] == old(folders)[x]
        invariant power >= 2 * |old(folders)| ==> left >= 2 * |rest|
        decreases |rest|
      {
        var x :| x in rest;
        rest := rest - {x};
        if x !in keep {
          if left == 0 { return false; }
          if left == 1 {
            if PartOf(debris, folders[x]) { folders := folders[x := debris]; }
            return false;
          }
          folders := folders - {x};
          left := left - 2;
        }
      }
      ok := true;
    }

    method Restart(works: bool) returns (ok: bool)
      modifies this`verified
      ensures ok == works && verified.None?
    {
      verified := None;
      ok := works;
    }

    method Verify(fingerprint: Fingerprint, matches: bool) returns (ok: bool)
      modifies this`verified
      ensures ok == matches && verified == if ok then Some(fingerprint) else old(verified)
    {
      if matches { verified := Some(fingerprint); }
      ok := matches;
    }

    /** The identical material is already active: verify it, restarting once if that fails. */
    method Confirm(m: Material, r: Replies) returns (outcome: Outcome)
      modifies this`verified
      ensures outcome == if r.served || (r.restart && r.verify) then Active else Raised
      ensures outcome.Active? ==> verified == Some(m.cert.leaf)
    {
      var ok := Verify(m.cert.leaf, r.served);
      if ok { return Active; }
      ok := Restart(r.restart);
      if !ok { return Raised; }
      ok := Verify(m.cert.leaf, r.verify);
      outcome := if ok then Active else Raised;
    }

    /** Back to the entry generation, and restart on it. */
    method Rollback(back: Material, recorded: Fingerprint, r: Replies, power: nat) returns (outcome: Outcome)
      requires Valid() && back in folders && folders[back].cert.Some? && folders[back].key.Some?
      modifies this`active, this`activeNew, this`verified
      ensures Valid()
      ensures outcome.ActivationError? || outcome.Raised?
      ensures outcome.ActivationError? ==> active == Some(back)
      ensures outcome == ActivationError(true) ==> verified == Some(recorded)
      ensures active in {old(active), Some(back)}
      ensures !old(activeNew) && power >= 2 ==> outcome == ActivationError(r.restoreRestart && r.restoreVerify)
    {
      var ok, _ := PointActive(back, power);
      if !ok { return Raised; }
      ok := Restart(r.restoreRestart);
      if !ok { return ActivationError(false); }
      ok := Verify(recorded, r.restoreVerify);
      outcome := ActivationError(ok);
    }

    /** Activates `m`. Whatever happens, neither pointer dangles and the entry generation is intact. */
    method Activate(m: Material, suitable: bool, initial: bool, r: Replies, debris: Folder, power: nat)
      returns (outcome: Outcome)
      requires Valid()
      modifies this
      ensures Valid() && (old(Genuine()) ==> Genuine())
      // Unsuitable material, or nothing to replace, changes nothing.
      ensures !suitable || (old(active).None? && !initial) ==>
                outcome.Raised? && active == old(active) && previous == old(previous) && folders == old(folders)
      // The generation active on entry survives untouched.
      ensures old(active).Some? ==>
                old(active).value in folders && folders[old(active).value] == old(folders)[old(active).value]
      ensures active == old(active) || active == Some(m)
      ensures previous == old(previous) || previous == old(active)
      // A replacement is complete only when the new fingerprint was verified after the switch.
      ensures outcome.Active? ==> active == Some(m) && verified == Some(m.cert.leaf)
      ensures outcome.Active? && old(active) != Some(m) ==>
                && old(active).Some? && Holds(folders[m], m) && previous == old(active)
                && folders.Keys == {m, old(active).value}
      ensures outcome.Active? && old(active) == Some(m) ==> folders == old(folders) && previous == old(previous)
      // A recovered failure runs on the entry generation with its recorded fingerprint verified.
      ensures outcome.ActivationError? ==> active == old(active) && active.Some? && previous == old(previous)
      ensures outcome == ActivationError(true) ==>
                verified.Some? && verified == old(folders)[old(active).value].metadata
      ensures outcome.Staged? ==> initial && active == Some(m) && (old(active) != Some(m) ==> Holds(folders[m], m))
      // Without crashes, stale links or damaged directories the outcome is decided by the service: a
      // replacement goes through, or the entry generation is put back.
      ensures suitable && !initial && old(Replaceable(m, power)) ==>
                outcome == if r.restart && r.verify then Active else ActivationError(r.restoreRestart && r.restoreVerify)
      // Material that is active already is confirmed, and a first deployment is staged.
      ensures suitable && !initial && old(active) == Some(m) ==>
                outcome == if r.served || (r.restart && r.verify) then Active else Raised
      ensures suitable && initial && old(active).None? && !old(activeNew) && m !in old(folders) && power >= 6 ==> outcome.Staged?
    {
      var back := active;
      if (back.None? && !initial) || !suitable { return Raised; }
      if back == Some(m) {
        if initial { return Staged; }
        outcome := Confirm(m, r);
        return;
      }
      var ok, left := Stage(m, power);
      if !ok { return Raised; }
      if back.Some? && folders[back.value].metadata.None? { return Raised; }
      if back.None? {
        ok, left := PointActive(m, left);
        return if ok then Staged else Raised;
      }
      CardinalityOfAdded(old(folders).Keys, folders.Keys, m);
      outcome := Switch(m, back.value, r, debris, left);
    }

    /** From the entry generation `back` to the staged one, or back again. */
    method Switch(m: Material, back: Material, r: Replies, debris: Folder, power: nat) returns (outcome: Outcome)
      requires Valid() && active == Some(back) && back != m && folders[back].metadata.Some?
      requires m in folders && Holds(folders[m], m)
      modifies this
      ensures Valid() && (old(Genuine()) ==> Genuine())
      ensures back in folders && folders[back] == old(folders)[back] && folders.Keys <= old(folders).Keys
      ensures active == Some(back) || active == Some(m)
      ensures previous == old(previous) || previous == Some(back)
      ensures outcome.Active? ==>
                && active == Some(m) && verified == Some(m.cert.leaf) && Holds(folders[m], m)
                && previous == Some(back) && folders.Keys == {m, back}
      ensures outcome.ActivationError? ==> active == Some(back) && previous == old(previous)
      ensures outcome == ActivationError(true) ==> verified == folders[back].metadata
      ensures !outcome.Staged?
      ensures !old(activeNew) && !old(previousNew) && power >= 4 + 2 * |old(folders)| ==>
                outcome == if r.restart && r.verify then Active else ActivationError(r.restoreRestart && r.restoreVerify)
    {
      var recorded := folders[back].metadata.value;
      var ok, left := PointActive(m, power);
      if !ok { return Raised; }
      ok := Restart(r.restart);
      if ok { ok := Verify(m.cert.leaf, r.verify); }
      if !ok {
        outcome := Rollback(back, recorded, r, left);
        return;
      }
      ok := Retire(m, back, debris, left);
      outcome := if ok then Active else Raised;
    }

    /** After verification: the entry generation becomes the previous one, older ones are deleted. */
    method Retire(m: Material, back: Material, debris: Folder, power: nat) returns (ok: bool)
      requires Valid() && active == Some(m) && back in folders && folders[back].cert.Some? && folders[back].key.Some?
      modifies this`previous, this`previousNew, this`folders
      ensures Valid() && (old(Genuine()) ==> Genuine())
      ensures previous in {old(previous), Some(back)}
      ensures folders.Keys <= old(folders).Keys
      ensures back in folders && folders[back] == old(folders)[back] && m in folders && folders[m] == old(folders)[m]
      ensures ok ==> previous == Some(back) && folders.Keys == {m, back}
      ensures !old(previousNew) && power >= 2 + 2 * |old(folders)| ==> ok
    {
      var left;
      ok, left := PointPrevious(back, power);
      if ok { ok := Collect({m, back}, debris, left); }
    }
  }

  lemma CardinalityOfAdded(before: set<Material>, after: set<Material>, m: Material)
    requires after <= before + {m}
    ensures |after| <= |before| + 1
  {
    Subset(after, before + {m});
  }

  lemma {:induction false} Subset(a: set<Material>, b: set<Material>)
    requires a <= b
    ensures |a| <= |b|
  {
    if a != {} {
      var x :| x in a;
      Subset(a - {x}, b - {x});
    }
  }
}
