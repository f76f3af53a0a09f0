/** The journalled guest installer (scripts/guest_installation.py): a local journal against a remote
    virtual machine whose answers may be lost, whose updates may arrive late, and whose power button
    anybody may press. `power` is the number of journal writes and POSTs before the process dies. */
module GuestInstaller {
  datatype Phase =
    | New | AttachRequested | MediaAttached | InstallerStartRequested | FinishRequested
    | DiskReady | DiskStartRequested | DiskBootObserved | GuestInstalledAttested

  function Rank(p: Phase): nat {
    match p
    case New => 0
    case AttachRequested => 1
    case MediaAttached => 2
    case InstallerStartRequested => 3
    case FinishRequested => 4
    case DiskReady => 5
    case DiskStartRequested => 6
    case DiskBootObserved => 7
    case GuestInstalledAttested => 8
  }

  /** The remote configuration: the allocated shell, installer media attached, disk only, or a
      configuration that is not recognised. Its digest is taken as injective. */
  datatype Stage = Shell | Attached | DiskOnly | Foreign

  /** A configuration POST guarded by the digest of the configuration it was computed from. */
  datatype Update = Update(digest: Stage, target: Stage)

  const AttachUpdate := Update(Shell, Attached)
  const FinishUpdate := Update(Attached, DiskOnly)

  /** What happens to a POST: it is served (and the reply may still be lost), it stays in flight, or it is lost. */
  datatype Post = Served(replied: bool) | Delayed | Lost

  /** What others do in between: console power changes, late arrivals, vanishing requests. */
  datatype Event = Console(on: bool) | Arrive(update: Update) | StartArrives | Vanish(update: Update)

  datatype Outcome = Ok | Refused

  class Installation {
    var phase: Phase        // the journal
    var stage: Stage        // the remote configuration
    var running: bool       // the remote power state
    var updates: set<Update>
    var starts: nat         // start requests still in flight
    ghost var installerStarts: nat  // start POSTs sent by Start
    ghost var diskStarts: nat       // start POSTs sent by Boot

    /** The remote stages each journal phase admits. */
    predicate StageMatches()
      reads this
    {
      match phase
      case New => stage == Shell
      case AttachRequested => stage == Shell || stage == Attached
      case MediaAttached => stage == Attached
      case InstallerStartRequested => stage == Attached
      case FinishRequested => stage == Attached || stage == DiskOnly
      case _ => stage == DiskOnly
    }

    ghost predicate Valid()
      reads this
    {
      && StageMatches()
      && updates <= {AttachUpdate, FinishUpdate}
      && (AttachUpdate in updates ==> Rank(phase) >= 1)
      && (FinishUpdate in updates ==> Rank(phase) >= 4)
      && installerStarts <= 1 && (Rank(phase) < 3 ==> installerStarts == 0)
      && diskStarts <= 1 && (Rank(phase) < 6 ==> diskStarts == 0)
    }

    /** A role with no journal yet and the freshly allocated, stopped shell. */
    constructor ()
      ensures Valid() && phase == New && installerStarts == 0 && diskStarts == 0
    {
      phase, stage, running, updates, starts := New, Shell, false, {}, 0;
      installerStarts, diskStarts := 0, 0;
    }

    /** Anything others may do between two calls. */
    method Interfere(events: seq<Event>)
      modifies this`stage, this`running, this`updates, this`starts
      ensures old(Valid()) ==> Valid()
      ensures updates <= old(updates)
      ensures (forall u | u in old(updates) :: u.digest != old(stage)) ==> stage == old(stage)
      ensures events == [] ==> running == old(running) && stage == old(stage) && starts == old(starts) && updates == old(updates)
    {
      for i := 0 to |events|
        invariant old(Valid()) ==> Valid()
        invariant updates <= old(updates)
        invariant (forall u | u in old(updates) :: u.digest != old(stage)) ==> stage == old(stage)
        invariant i == 0 ==> running == old(running) && stage == old(stage) && starts == old(starts) && updates == old(updates)
      {
        match events[i] {
          case Console(on) => running := on;
          case Vanish(u) => updates := updates - {u};
          case StartArrives =>
            if starts > 0 { running, starts := true, starts - 1; }
          case Arrive(u) =>
            if u in updates {
              updates := updates - {u};
              if u.digest == stage { stage := u.target; }
            }
        }
      }
    }

    /** The guarded configuration POST. Raises unless it was served, accepted and answered. */
    method PostUpdate(u: Update, post: Post) returns (ok: bool)
      modifies this`stage, this`updates
      ensures ok ==> old(stage) == u.digest && stage == u.target
      ensures stage == old(stage) || (old(stage) == u.digest && stage == u.target)
      ensures updates <= old(updates) + {u}
      ensures ok <==> post == Served(true) && old(stage) == u.digest
      ensures post == Delayed ==> u in updates
    {
      match post {
        case Lost => ok := false;
        case Delayed =>
          updates := updates + {u};
          ok := false;
        case Served(replied) =>
          ok := replied && stage == u.digest;
          if stage == u.digest { stage := u.target; }
      }
    }

    method PostStart(post: Post) returns (ok: bool)
      modifies this`running, this`starts
      ensures ok <==> post == Served(true)
      ensures running == (old(running) || post.Served?)
      ensures starts == old(starts) + if post.Delayed? then 1 else 0
    {
      match post {
        case Lost => ok := false;
        case Delayed =>
          starts := starts + 1;
          ok := false;
        case Served(replied) =>
          running, ok := true, replied;
      }
    }

    method Attach(first: seq<Event>, second: seq<Event>, post: Post, third: seq<Event>, last: seq<Event>, power: nat)
      returns (outcome: Outcome)
      modifies this`phase, this`stage, this`running, this`updates, this`starts
      ensures old(Valid()) ==> Valid() && Rank(old(phase)) <= Rank(phase)
      ensures outcome.Ok? ==> phase == MediaAttached && (old(Valid()) ==> stage == Attached)
      ensures phase == old(phase) || phase == AttachRequested || phase == MediaAttached
      // An undisturbed attempt goes through, and so does its repetition after a crash anywhere.
      ensures (&& old(Valid()) && Rank(old(phase)) <= 2 && !old(running) && first == second == third == last == []
               && post == Served(true) && power >= 3) ==> outcome.Ok?
      // Remote progress without a matching journal is neither adopted nor restarted.
      ensures old(phase) == New && old(stage) in {Attached, Foreign} && old(updates) == {} ==>
                outcome.Refused? && phase == New && stage == old(stage)
      ensures Rank(old(phase)) > 2 ==> outcome.Refused? && phase == old(phase)
    {
      if phase !in {New, AttachRequested, MediaAttached} { return Refused; }
      var seen := if stage == Attached then Attached else Shell;
      if seen == Attached && phase !in {AttachRequested, MediaAttached} { return Refused; }
      Interfere(first);
      if stage != seen { return Refused; }
      var stopped := !running;
      if !stopped { return Refused; }
      var left := power;
      if seen == Shell {
        if left == 0 { return Refused; }
        phase, left := AttachRequested, left - 1;
        Interfere(second);
        if left == 0 { return Refused; }
        left := left - 1;
        var ok := PostUpdate(AttachUpdate, post);
        if !ok { return Refused; }
        Interfere(third);
        if stage != Attached { return Refused; }
      }
      Interfere(last);
      if left == 0 { return Refused; }
      phase := MediaAttached;
      outcome := Ok;
    }

    method Start(first: seq<Event>, second: seq<Event>, post: Post, power: nat) returns (outcome: Outcome)
      modifies this`phase, this`stage, this`running, this`updates, this`starts, this`installerStarts
      ensures old(Valid()) ==> Valid() && Rank(old(phase)) <= Rank(phase)
      ensures installerStarts != old(installerStarts) ==>
                && installerStarts == old(installerStarts) + 1
                && old(phase) == MediaAttached && phase == InstallerStartRequested
      ensures outcome.Ok? ==> phase == InstallerStartRequested && running
      ensures phase == old(phase) || phase == InstallerStartRequested
      ensures !(2 <= Rank(old(phase)) <= 3) ==> outcome.Refused? && phase == old(phase)
      // An undisturbed first attempt sends the request; a repetition only reports.
      ensures (&& old(Valid()) && old(phase) == MediaAttached && !old(running) && first == second == []
               && post == Served(true) && power >= 2) ==> outcome.Ok? && installerStarts == old(installerStarts) + 1
      ensures old(phase) == InstallerStartRequested && first == [] && old(stage) == Attached ==>
                outcome == if old(running) then Ok else Refused
    {
      if phase !in {MediaAttached, InstallerStartRequested} { return Refused; }
      if stage != Attached { return Refused; }
      Interfere(first);
      if phase == InstallerStartRequested {
        return if running then Ok else Refused;
      }
      if running || power == 0 { return Refused; }
      phase := InstallerStartRequested;
      Interfere(second);
      if power == 1 { return Refused; }
      installerStarts := installerStarts + 1;
      var ok := PostStart(post);
      outcome := if ok then Ok else Refused;
    }

    method Finish(first: seq<Event>, second: seq<Event>, post: Post, third: seq<Event>, last: seq<Event>, power: nat)
      returns (outcome: Outcome)
      modifies this`phase, this`stage, this`running, this`updates, this`starts
      ensures old(Valid()) ==> Valid() && Rank(old(phase)) <= Rank(phase)
      ensures outcome.Ok? ==> phase == DiskReady && (old(Valid()) ==> stage == DiskOnly)
      ensures phase == old(phase) || phase == FinishRequested || phase == DiskReady
      ensures !(3 <= Rank(old(phase)) <= 5) ==> outcome.Refused? && phase == old(phase)
      ensures old(running) && first == [] ==> outcome.Refused? && phase == old(phase) && stage == old(stage)
      // An undisturbed attempt goes through, and so does its repetition after a crash anywhere.
      ensures (&& old(Valid()) && 3 <= Rank(old(phase)) <= 5 && !old(running)
               && first == second == third == last == [] && post == Served(true) && power >= 3) ==> outcome.Ok?
    {
      if phase !in {InstallerStartRequested, FinishRequested, DiskReady} { return Refused; }
      var seen := if stage == DiskOnly then DiskOnly else Attached;
      Interfere(first);
      if stage != seen || running { return Refused; }
      var left := power;
      if seen == Attached {
        if left == 0 { return Refused; }
        phase, left := FinishRequested, left - 1;
        Interfere(second);
        if left == 0 { return Refused; }
        left := left - 1;
        var ok := PostUpdate(FinishUpdate, post);
        if !ok { return Refused; }
        Interfere(third);
        if stage != DiskOnly { return Refused; }
      }
      Interfere(last);
      if left == 0 { return Refused; }
      phase := DiskReady;
      outcome := Ok;
    }

    method Boot(first: seq<Event>, second: seq<Event>, post: Post, third: seq<Event>, last: seq<Event>, power: nat)
      returns (outcome: Outcome)
      modifies this`phase, this`stage, this`running, this`updates, this`starts, this`diskStarts
      ensures old(Valid()) ==> Valid() && Rank(old(phase)) <= Rank(phase)
      ensures diskStarts != old(diskStarts) ==>
                && diskStarts == old(diskStarts) + 1
                && old(phase) == DiskReady && Rank(phase) > Rank(old(phase))
      ensures outcome.Ok? ==> phase == DiskBootObserved && (last == [] ==> running && stage == DiskOnly)
      ensures phase == old(phase) || phase == DiskStartRequested || phase == DiskBootObserved
      ensures !(5 <= Rank(old(phase)) <= 7) ==> outcome.Refused? && phase == old(phase)
      // An undisturbed first attempt sends the request; otherwise only a running guest is observed.
      ensures (&& old(Valid()) && old(phase) == DiskReady && !old(running) && first == second == third == last == []
               && post == Served(true) && power >= 3) ==> outcome.Ok? && diskStarts == old(diskStarts) + 1
      ensures (&& old(Valid()) && 6 <= Rank(old(phase)) <= 7 && first == third == last == []
               && power >= 1) ==> outcome == if old(running) then Ok else Refused
    {
      if phase !in {DiskReady, DiskStartRequested, DiskBootObserved} { return Refused; }
      if stage != DiskOnly { return Refused; }
      Interfere(first);
      var left := power;
      if !running {
        if phase != DiskReady || left == 0 { return Refused; }
        phase, left := DiskStartRequested, left - 1;
        Interfere(second);
        if left == 0 { return Refused; }
        left := left - 1;
        diskStarts := diskStarts + 1;
        var ok := PostStart(post);
        if !ok { return Refused; }
      }
      Interfere(third);
      if stage != DiskOnly || !running { return Refused; }
      Interfere(last);
      if left == 0 { return Refused; }
      phase := DiskBootObserved;
      outcome := Ok;
    }

    method ConfirmLogin(first: seq<Event>, last: seq<Event>, power: nat) returns (outcome: Outcome)
      modifies this`phase, this`stage, this`running, this`updates, this`starts
      ensures old(Valid()) ==> Valid() && Rank(old(phase)) <= Rank(phase)
      ensures outcome.Ok? ==> phase == GuestInstalledAttested && (last == [] ==> running) && (old(Valid()) ==> stage == DiskOnly)
      ensures outcome.Refused? ==> phase == old(phase)
      ensures first == last == [] ==>
                (outcome.Ok? <==> && 7 <= Rank(old(phase)) && old(stage) == DiskOnly
                                  && old(running) && power >= 1)
    {
      if phase !in {DiskBootObserved, GuestInstalledAttested} { return Refused; }
      if stage != DiskOnly { return Refused; }
      Interfere(first);
      if !running { return Refused; }
      Interfere(last);
      if power == 0 { return Refused; }
      phase := GuestInstalledAttested;
      outcome := Ok;
    }

    /** Any history of actions, whatever others do and wherever the process dies. */
    method History(actions: seq<Action>)
      requires Valid()
      modifies this
      ensures Valid() && Rank(old(phase)) <= Rank(phase)
      ensures installerStarts <= 1 && diskStarts <= 1
    {
      for i := 0 to |actions|
        invariant Valid() && Rank(old(phase)) <= Rank(phase)
      {
        match actions[i] {
          case DoAttach(a, b, p, c, d, n) => var _ := Attach(a, b, p, c, d, n);
          case DoStart(a, b, p, n) => var _ := Start(a, b, p, n);
          case DoFinish(a, b, p, c, d, n) => var _ := Finish(a, b, p, c, d, n);
          case DoBoot(a, b, p, c, d, n) => var _ := Boot(a, b, p, c, d, n);
          case DoConfirm(a, b, n) => var _ := ConfirmLogin(a, b, n);
          case Others(e) => Interfere(e);
        }
      }
    }
  }

  datatype Action =
    | DoAttach(a: seq<Event>, b: seq<Event>, p: Post, c: seq<Event>, d: seq<Event>, n: nat)
    | DoStart(a: seq<Event>, b: seq<Event>, p: Post, n: nat)
    | DoFinish(a: seq<Event>, b: seq<Event>, p: Post, c: seq<Event>, d: seq<Event>, n: nat)
    | DoBoot(a: seq<Event>, b: seq<Event>, p: Post, c: seq<Event>, d: seq<Event>, n: nat)
    | DoConfirm(a: seq<Event>, b: seq<Event>, n: nat)
    | Others(e: seq<Event>)
}
