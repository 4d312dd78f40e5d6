/** rungroup.c: the main loop and its two signal handlers over the globals `sig`
    and `status`. The handlers interrupt the main program between any two of its
    steps; `hnd` may also interrupt `hndcld` between any two of its own. */
module RunGroup {
  import opened Text

  const SIGINT := 2
  const SIGTERM := 15
  const SIGCHLD := 17

  predicate WIFEXITED(st: nat) { st % 128 == 0 }

  function WEXITSTATUS(st: nat): nat { st / 256 % 256 }

  /** Where the main program is. */
  datatype Main =
    | Testing                 // about to evaluate the loop condition
    | Pausing                 // condition read, pause () not yet entered
    | Paused
    | Checking                // back from pause ()
    | Leaving                 // saw SIGCHLD, about to exit
    | Exited(code: nat)
    | Reporting               // left the loop
    | Aborting(printed: int)  // "Build aborted on signal .." printed, handlers being reset

  /** Where `hndcld` is. */
  datatype Handler =
    | Idle
    | Waiting                 // about to call waitpid
    | Reaped(st: nat)         // about to evaluate the condition
    | Storing(st: nat)        // about to assign status
    | Marking                 // about to assign sig

  /** What happened, oldest first; `at` is where the main program was interrupted. */
  datatype Event =
    | Signalled(s: int, at: Main)  // hnd assigned sig
    | Examined(st: nat)            // hndcld evaluated its condition
    | Stored(st: nat)              // hndcld assigned status
    | Marked(at: Main)             // hndcld assigned sig

  datatype State = State(main: Main, handler: Handler, sig: int, status: nat,
                         zombies: multiset<nat>, pending: bool, woken: bool, log: seq<Event>)

  /** The instant the handlers are installed. */
  predicate Init(s: State) {
    && s.main == Testing && s.handler == Idle && s.sig == 0 && s.status == 0
    && !s.pending && !s.woken && s.log == []
  }

  /** About to test the loop condition or to enter pause (). */
  predicate Early(m: Main) {
    m == Testing || m == Pausing
  }

  /** The loop has been left for good, one way or the other. */
  predicate Decided(m: Main) {
    m == Leaving || m == Reporting || m.Exited? || m.Aborting?
  }

  predicate Listening(m: Main) {
    !m.Exited? && !m.Aborting?
  }

  datatype Step =
    | ChildDies(st: nat)
    | Deliver(s: int)         // SIGTERM or SIGINT runs hnd
    | Enter                   // a pending SIGCHLD starts hndcld
    | Reap(st: nat) | NoMore | Examine | Store | Mark
    | MainStep

  function Write(s: State, value: int, e: Event): State {
    s.(sig := value, woken := s.woken || s.main == Paused, log := s.log + [e])
  }

  function MainNext(s: State): State {
    match s.main
    case Testing => s.(main := if s.sig == SIGTERM || s.sig == SIGINT then Reporting else Pausing)
    case Pausing => s.(main := Paused, woken := false)
    case Paused => s.(main := Checking)
    case Checking => s.(main := if s.sig == SIGCHLD then Leaving else Testing)
    case Leaving => s.(main := Exited(WEXITSTATUS(s.status)))
    case Reporting => s.(main := Aborting(s.sig))
    case _ => s
  }

  /** Whether a step can be taken, and where it leads. */
  predicate Enabled(s: State, step: Step) {
    match step
    case ChildDies(_) => Listening(s.main)
    case Deliver(n) => Listening(s.main) && (n == SIGTERM || n == SIGINT)
    case Enter => Listening(s.main) && s.pending && s.handler == Idle
    case Reap(st) => s.handler == Waiting && st in s.zombies
    case NoMore => s.handler == Waiting && s.zombies == multiset{}
    case Examine => s.handler.Reaped?
    case Store => s.handler.Storing?
    case Mark => s.handler == Marking
    case MainStep => s.handler == Idle && Listening(s.main) && (s.main == Paused ==> s.woken)
  }

  function Take(s: State, step: Step): State
    requires Enabled(s, step)
  {
    match step
    case ChildDies(st) => s.(zombies := s.zombies + multiset{st}, pending := true)
    case Deliver(n) => Write(s, n, Signalled(n, s.main))
    case Enter => s.(pending := false, handler := Waiting)
    case Reap(st) => s.(zombies := s.zombies - multiset{st}, handler := Reaped(st))
    case NoMore => s.(handler := Idle, woken := s.woken || s.main == Paused)
    case Examine =>
      s.(handler := if s.sig == 0 && WIFEXITED(s.handler.st) then Storing(s.handler.st) else Marking,
         log := s.log + [Examined(s.handler.st)])
    case Store => s.(handler := Marking, status := s.handler.st, log := s.log + [Stored(s.handler.st)])
    case Mark => Write(s, SIGCHLD, Marked(s.main)).(handler := Waiting)
    case MainStep => MainNext(s)
  }

  ghost predicate IsRun(run: seq<State>) {
    && run != [] && Init(run[0])
    && forall i :: 0 <= i < |run| - 1 ==> Linked(run, i)
  }

  ghost predicate Linked(run: seq<State>, i: nat)
    requires i < |run| - 1
  {
    Stepped(run[i], run[i + 1])
  }

  ghost predicate Stepped(s: State, t: State) {
    exists step :: Enabled(s, step) && t == Take(s, step)
  }

  // ---------------------------------------------------------------- a pass of hndcld

  function SigAfter(sig: int, children: seq<nat>): int {
    if children == [] then sig else SIGCHLD
  }

  function StatusAfter(sig: int, status: nat, children: seq<nat>): nat {
    if children != [] && sig == 0 && WIFEXITED(children[0]) then children[0] else status
  }

  /** The two globals, and the handlers run without interruption. */
  class Globals {
    var sig: int
    var status: nat

    constructor ()
      ensures sig == 0 && status == 0
    {
      sig, status := 0, 0;
    }

    method Hnd(s: int)
      modifies this`sig
      ensures sig == s
    {
      sig := s;
    }

    /** `children` are the statuses waitpid yields, in order; only the first can reach `status`. */
    method Hndcld(children: seq<nat>)
      modifies this
      ensures sig == SigAfter(old(sig), children)
      ensures status == StatusAfter(old(sig), old(status), children)
    {
      for i := 0 to |children|
        invariant sig == SigAfter(old(sig), children[..i])
        invariant status == StatusAfter(old(sig), old(status), children[..i])
      {
        if sig == 0 && WIFEXITED(children[i]) {
          status := children[i];
        }
        sig := SIGCHLD;
      }
      assert children[..|children|] == children;
    }
  }

  // ---------------------------------------------------------------- what the log says

  predicate IsWrite(e: Event) {
    e.Signalled? || e.Marked?
  }

  /** The last assignment to `sig`. */
  function LastWrite(log: seq<Event>): (e: Option<Event>)
    ensures e.Some? ==> IsWrite(e.value)
  {
    if log == [] then None
    else if IsWrite(log[|log| - 1]) then Some(log[|log| - 1])
    else LastWrite(log[..|log| - 1])
  }

  /** The last assignment to `sig` made before the main program had left its loop. */
  function LastLoopWrite(log: seq<Event>): (e: Option<Event>)
    ensures e.Some? ==> IsWrite(e.value)
  {
    if log == [] then None
    else if IsWrite(log[|log| - 1]) && !Decided(log[|log| - 1].at) then Some(log[|log| - 1])
    else LastLoopWrite(log[..|log| - 1])
  }

  function Written(e: Option<Event>): int
    requires e.Some? ==> IsWrite(e.value)
  {
    if e.None? then 0 else if e.value.Signalled? then e.value.s else SIGCHLD
  }

  predicate LastWriteEarly(log: seq<Event>) {
    LastWrite(log).Some? && Early(LastWrite(log).value.at)
  }

  /** SIGTERM or SIGINT was recorded at some time. */
  ghost predicate Asked(log: seq<Event>) {
    exists e :: e in log && e.Signalled?
  }

  function Stores(log: seq<Event>): nat {
    if log == [] then 0
    else Stores(log[..|log| - 1]) + if log[|log| - 1].Stored? then 1 else 0
  }

  /** The status to report: that of the first child examined, if nothing at all
      happened before it and it exited normally; otherwise the initial 0. */
  function Reported(log: seq<Event>): nat {
    if log != [] && log[0].Examined? && WIFEXITED(log[0].st) then log[0].st else 0
  }

  // ---------------------------------------------------------------- invariant

  /** All the invariant needs of the log. */
  datatype Digest = Digest(quiet: bool, last: Option<Event>, inLoop: Option<Event>, stores: nat, reported: nat)

  function DigestOf(log: seq<Event>): Digest {
    Digest(log == [], LastWrite(log), LastLoopWrite(log), Stores(log), Reported(log))
  }

  function Extend(d: Digest, e: Event): Digest {
    Digest(false,
           if IsWrite(e) then Some(e) else d.last,
           if IsWrite(e) && !Decided(e.at) then Some(e) else d.inLoop,
           d.stores + if e.Stored? then 1 else 0,
           if !d.quiet then d.reported else if e.Examined? && WIFEXITED(e.st) then e.st else 0)
  }

  lemma DigestExtends(log: seq<Event>, e: Event)
    ensures DigestOf(log + [e]) == Extend(DigestOf(log), e)
  {
    assert (log + [e])[..|log + [e]| - 1] == log;
  }

  /** `status` is what it should be, or hndcld is just about to make it so. */
  ghost predicate StatusRight(s: State, d: Digest) {
    if s.handler.Storing?
    then s.status == 0 && d.stores == 0 && !d.quiet && d.reported == s.handler.st && WIFEXITED(s.handler.st)
    else s.status == d.reported
  }

  /** `sig` holds the last value written; it is still 0 only before anything
      happened, or inside the first pass of hndcld. */
  ghost predicate SigRight(s: State, d: Digest) {
    && (d.last.Some? ==> IsWrite(d.last.value))
    && s.sig == Written(d.last)
    && (d.last.Some? && d.last.value.Signalled? ==> s.sig == SIGINT || s.sig == SIGTERM)
    && (s.sig == 0 && !d.quiet ==> s.handler.Storing? || s.handler == Marking)
  }

  ghost predicate EarlyWrite(d: Digest) {
    d.last.Some? && IsWrite(d.last.value) && Early(d.last.value.at)
  }

  ghost predicate MainRight(s: State, d: Digest) {
    && (s.main == Testing && s.sig == SIGCHLD ==> EarlyWrite(d))
    && (s.main == Pausing && s.sig != 0 ==> EarlyWrite(d))
    && (s.main == Paused && !s.woken && s.sig != 0 ==> EarlyWrite(d))
    && (s.main == Leaving || s.main == Reporting ==> s.sig != 0)
    && (s.main.Exited? ==> s.handler == Idle && s.main.code == WEXITSTATUS(d.reported))
    && (s.main.Aborting? ==> s.handler == Idle && s.main.printed == s.sig && s.sig != 0)
  }

  /** The last write inside the loop decides how the loop is left; any later one is
      made on the way out. */
  ghost predicate LoopRight(s: State, d: Digest) {
    && (!Decided(s.main) ==> d.inLoop == d.last)
    && (s.main == Leaving || s.main.Exited? ==> d.inLoop.Some? && d.inLoop.value.Marked?)
    && (s.main == Reporting || s.main.Aborting? ==>
          && d.inLoop.Some? && d.inLoop.value.Signalled?
          && (d.last == d.inLoop || (d.last.Some? && IsWrite(d.last.value) && d.last.value.at == Reporting)))
  }

  ghost predicate StoredOnce(s: State, d: Digest) {
    d.stores <= 1 && (d.stores == 1 ==> s.sig != 0 || s.handler == Marking)
  }

  ghost predicate InvWith(s: State, d: Digest) {
    && (d.quiet ==> d == Digest(true, None, None, 0, 0))
    && StatusRight(s, d) && SigRight(s, d) && MainRight(s, d) && LoopRight(s, d) && StoredOnce(s, d)
  }

  ghost predicate Inv(s: State) {
    InvWith(s, DigestOf(s.log))
  }

  /** The event a step adds to the log. */
  function Noted(s: State, step: Step): Option<Event>
    requires Enabled(s, step)
  {
    match step
    case Deliver(n) => Some(Signalled(n, s.main))
    case Examine => Some(Examined(s.handler.st))
    case Store => Some(Stored(s.handler.st))
    case Mark => Some(Marked(s.main))
    case _ => None
  }

  lemma ExamineKeeps(s: State, d: Digest)
    requires InvWith(s, d) && Enabled(s, Examine)
    ensures InvWith(Take(s, Examine), Extend(d, Examined(s.handler.st)))
  {
  }

  lemma StoreKeeps(s: State, d: Digest)
    requires InvWith(s, d) && Enabled(s, Store)
    ensures InvWith(Take(s, Store), Extend(d, Stored(s.handler.st)))
  {
  }

  lemma MarkKeeps(s: State, d: Digest)
    requires InvWith(s, d) && Enabled(s, Mark)
    ensures InvWith(Take(s, Mark), Extend(d, Marked(s.main)))
  {
  }

  lemma MainKeeps(s: State, d: Digest)
    requires InvWith(s, d) && Enabled(s, MainStep)
    ensures InvWith(Take(s, MainStep), d)
  {
  }

  lemma DeliverKeeps(s: State, n: int, d: Digest)
    requires InvWith(s, d) && Enabled(s, Deliver(n))
    ensures InvWith(Take(s, Deliver(n)), Extend(d, Signalled(n, s.main)))
  {
  }

  lemma StepKeepsWith(s: State, step: Step, d: Digest)
    requires InvWith(s, d) && Enabled(s, step)
    ensures InvWith(Take(s, step), if Noted(s, step).Some? then Extend(d, Noted(s, step).value) else d)
  {
    match step {
      case Deliver(n) => DeliverKeeps(s, n, d);
      case MainStep => MainKeeps(s, d);
      case Examine => ExamineKeeps(s, d);
      case Store => StoreKeeps(s, d);
      case Mark => MarkKeeps(s, d);
      case _ =>
    }
  }

  lemma NotedDigest(s: State, step: Step)
    requires Enabled(s, step)
    ensures DigestOf(Take(s, step).log) ==
      if Noted(s, step).Some? then Extend(DigestOf(s.log), Noted(s, step).value) else DigestOf(s.log)
  {
    if Noted(s, step).Some? {
      DigestExtends(s.log, Noted(s, step).value);
    }
  }

  lemma StepKeeps(s: State, step: Step)
    requires Inv(s) && Enabled(s, step)
    ensures Inv(Take(s, step))
    ensures s.sig != 0 ==> Take(s, step).sig != 0
  {
    StepKeepsWith(s, step, DigestOf(s.log));
    NotedDigest(s, step);
  }

  lemma StartsRight(s: State)
    requires Init(s)
    ensures Inv(s)
  {
    assert DigestOf(s.log) == Digest(true, None, None, 0, 0);
  }

  // ---------------------------------------------------------------- every interleaving

  lemma SteppedKeeps(s: State, t: State)
    requires Inv(s) && Stepped(s, t)
    ensures Inv(t) && (s.sig != 0 ==> t.sig != 0)
  {
    var step :| Enabled(s, step) && t == Take(s, step);
    StepKeeps(s, step);
  }

  lemma {:induction false} RunKeeps(run: seq<State>, i: nat)
    requires IsRun(run) && i < |run|
    ensures Inv(run[i])
  {
    if i == 0 {
      StartsRight(run[0]);
    } else {
      RunKeeps(run, i - 1);
      assert Linked(run, i - 1);
      SteppedKeeps(run[i - 1], run[i]);
    }
  }

  /** Once set, `sig` never returns to 0. */
  lemma {:induction false} SigStaysSet(run: seq<State>, i: nat, j: nat)
    requires IsRun(run) && i <= j < |run| && run[i].sig != 0
    ensures run[j].sig != 0
    decreases j
  {
    if i < j {
      SigStaysSet(run, i, j - 1);
      RunKeeps(run, j - 1);
      assert Linked(run, j - 1);
      SteppedKeeps(run[j - 1], run[j]);
    }
  }

  /** In every run `status` is assigned at most once, and a normal exit reports the
      code of the first child examined if that child exited normally and no signal
      had been recorded before, and 0 in every other case. */
  lemma NormalExit(run: seq<State>)
    requires IsRun(run)
    ensures var s := run[|run| - 1];
      Stores(s.log) <= 1 && (s.main.Exited? ==> s.main.code == WEXITSTATUS(Reported(s.log)))
  {
    RunKeeps(run, |run| - 1);
  }

  /** The code itself. If the first thing to happen is that a child which exited with
      code `c` is examined, every normal exit reports `c`; if that child was killed by
      signal `sg`, with or without a core dump, or if something else happened first,
      it reports 0. */
  lemma ExitCode(run: seq<State>, c: nat, sg: nat)
    requires IsRun(run) && run[|run| - 1].main.Exited? && c < 256 && 0 < sg < 127
    ensures var s := run[|run| - 1];
      && s.log != []
      && (s.log[0] == Examined(256 * c) ==> s.main.code == c)
      && (s.log[0] == Examined(sg) || s.log[0] == Examined(128 + sg) ==> s.main.code == 0)
      && (!s.log[0].Examined? ==> s.main.code == 0)
  {
    RunKeeps(run, |run| - 1);
  }

  /** The main program leaves its loop as the last write inside the loop says: for a
      normal exit if hndcld made it, for an abort if hnd did. So it aborts, or is about
      to, only if SIGTERM or SIGINT was recorded. */
  lemma EndsAsLastLoopWrite(run: seq<State>)
    requires IsRun(run)
    ensures var s := run[|run| - 1]; var e := LastLoopWrite(s.log);
      && (s.main == Leaving || s.main.Exited? ==> e.Some? && e.value.Marked?)
      && (s.main == Reporting || s.main.Aborting? ==> e.Some? && e.value.Signalled? && Asked(s.log))
  {
    RunKeeps(run, |run| - 1);
    if LastLoopWrite(run[|run| - 1].log).Some? {
      LastLoopWriteIsLogged(run[|run| - 1].log);
    }
  }

  lemma {:induction false} LastLoopWriteIsLogged(log: seq<Event>)
    requires LastLoopWrite(log).Some?
    ensures LastLoopWrite(log).value in log
  {
    if !(IsWrite(log[|log| - 1]) && !Decided(log[|log| - 1].at)) {
      LastLoopWriteIsLogged(log[..|log| - 1]);
    }
  }

  /** Exactly when a request to terminate is lost: a run that recorded SIGTERM or SIGINT
      and has ended exits normally, the group not killed, if and only if the last write
      inside the loop was that of hndcld. Without a request no run aborts. */
  lemma TerminationLostIff(run: seq<State>)
    requires IsRun(run) && !Listening(run[|run| - 1].main)
    ensures var s := run[|run| - 1];
      && (s.main.Exited? && Asked(s.log) <==> Asked(s.log) && LastLoopWrite(s.log).Some? && LastLoopWrite(s.log).value.Marked?)
      && (!Asked(s.log) ==> s.main.Exited?)
  {
    EndsAsLastLoopWrite(run);
  }

  /** The message of an abort names the last signal recorded; it names SIGCHLD exactly
      when a child was reaped between the end of the loop and the message. */
  lemma AbortMessage(run: seq<State>)
    requires IsRun(run) && run[|run| - 1].main.Aborting?
    ensures var s := run[|run| - 1]; var last := LastWrite(s.log);
      && last.Some? && s.main.printed == Written(last)
      && s.main.printed in {2, 15, 17}
      && (s.main.printed == 17 <==> last.value == Marked(Reporting))
  {
    RunKeeps(run, |run| - 1);
  }

  /** The main program sleeps on an event already recorded exactly when the last
      assignment to `sig` came between leaving one pause and entering the next. */
  lemma SleepsOnNews(run: seq<State>)
    requires IsRun(run) && run[|run| - 1].main == Paused && !run[|run| - 1].woken
    ensures run[|run| - 1].sig != 0 <==> LastWriteEarly(run[|run| - 1].log)
  {
    RunKeeps(run, |run| - 1);
  }

  // ---------------------------------------------------------------- three runs

  const START := State(Testing, Idle, 0, 0, multiset{}, false, false, [])

  ghost predicate Reachable(t: State) {
    exists run :: IsRun(run) && run[|run| - 1] == t
  }

  lemma ReachStart()
    ensures Reachable(START)
  {
    assert IsRun([START]) && [START][|[START]| - 1] == START;
  }

  lemma ReachNext(s: State, step: Step, t: State)
    requires Reachable(s) && Enabled(s, step) && t == Take(s, step)
    ensures Reachable(t)
  {
    var run :| IsRun(run) && run[|run| - 1] == s;
    var next := run + [t];
    forall i | 0 <= i < |next| - 1 ensures Linked(next, i) {
      if i < |run| - 1 {
        assert Linked(run, i);
        assert next[i] == run[i] && next[i + 1] == run[i + 1];
      }
    }
    assert IsRun(next) && next[|next| - 1] == t;
  }

  /** What one pass of hndcld adds to the log. */
  function PassLog(sig: int, at: Main, children: seq<nat>): seq<Event>
    decreases |children|
  {
    if children == [] then []
    else
      [Examined(children[0])] +
      (if sig == 0 && WIFEXITED(children[0]) then [Stored(children[0])] else []) +
      [Marked(at)] + PassLog(SIGCHLD, at, children[1..])
  }

  function AfterPass(s: State, children: seq<nat>): State {
    s.(handler := Idle, zombies := multiset{}, woken := s.woken || s.main == Paused,
       sig := SigAfter(s.sig, children), status := StatusAfter(s.sig, s.status, children),
       log := s.log + PassLog(s.sig, s.main, children))
  }

  lemma ReachExamined(s: State, st: nat) returns (t: State)
    requires Reachable(s) && s.handler == Waiting && st in s.zombies
    ensures Reachable(t)
    ensures t == s.(zombies := s.zombies - multiset{st}, log := s.log + [Examined(st)],
                    handler := if s.sig == 0 && WIFEXITED(st) then Storing(st) else Marking)
  {
    var a := s.(zombies := s.zombies - multiset{st}, handler := Reaped(st));
    ReachNext(s, Reap(st), a);
    t := Take(a, Examine);
    ReachNext(a, Examine, t);
  }

  lemma ReachStored(s: State) returns (t: State)
    requires Reachable(s) && (s.handler.Storing? || s.handler == Marking)
    ensures Reachable(t)
    ensures t == if s.handler == Marking then s
                 else s.(handler := Marking, status := s.handler.st, log := s.log + [Stored(s.handler.st)])
  {
    t := s;
    if s.handler.Storing? {
      t := Take(s, Store);
      ReachNext(s, Store, t);
    }
  }

  /** hndcld reaps one child. */
  lemma ReachReaped(s: State, st: nat) returns (t: State)
    requires Reachable(s) && s.handler == Waiting && st in s.zombies
    ensures Reachable(t)
    ensures t == s.(zombies := s.zombies - multiset{st}, woken := s.woken || s.main == Paused, sig := SIGCHLD,
                    status := StatusAfter(s.sig, s.status, [st]), log := s.log + PassLog(s.sig, s.main, [st]))
  {
    var a := ReachExamined(s, st);
    var b := ReachStored(a);
    t := Take(b, Mark);
    ReachNext(b, Mark, t);
    PassLogOne(s.log, s.sig, s.main, st);
  }

  lemma PassLogOne(log: seq<Event>, sig: int, at: Main, st: nat)
    ensures log + PassLog(sig, at, [st]) ==
      if sig == 0 && WIFEXITED(st) then log + [Examined(st)] + [Stored(st)] + [Marked(at)]
      else log + [Examined(st)] + [Marked(at)]
  {
    assert PassLog(SIGCHLD, at, [st][1..]) == [];
  }

  /** The steps of hndcld taken in a row, whatever the order in which waitpid yields
      the children, do to the globals what the method Hndcld does. */
  lemma {:induction false} PassIsHndcld(s: State, children: seq<nat>)
    requires Reachable(s) && s.handler == Waiting && s.zombies == multiset(children)
    ensures Reachable(AfterPass(s, children))
    decreases |children|
  {
    if children == [] {
      assert s.log + PassLog(s.sig, s.main, []) == s.log;
      ReachNext(s, NoMore, AfterPass(s, children));
    } else {
      var st, rest := children[0], children[1..];
      assert children == [st] + rest;
      var t := ReachReaped(s, st);
      assert t.zombies == multiset(rest);
      PassIsHndcld(t, rest);
      PassJoins(s, st, rest);
    }
  }

  lemma PassJoins(s: State, st: nat, rest: seq<nat>)
    ensures PassLog(s.sig, s.main, [st] + rest) == PassLog(s.sig, s.main, [st]) + PassLog(SIGCHLD, s.main, rest)
    ensures s.log + PassLog(s.sig, s.main, [st]) + PassLog(SIGCHLD, s.main, rest) == s.log + PassLog(s.sig, s.main, [st] + rest)
    ensures StatusAfter(s.sig, s.status, [st] + rest) == StatusAfter(SIGCHLD, StatusAfter(s.sig, s.status, [st]), rest)
  {
    assert ([st] + rest)[1..] == rest;
    assert [st][1..] == [];
  }

  /** A child with status `st` dies in state `s` and hndcld runs to its end. */
  lemma ReachPass(s: State, st: nat) returns (t: State)
    requires Reachable(s) && Listening(s.main) && s.handler == Idle && s.zombies == multiset{}
    ensures Reachable(t) && t == AfterPass(s.(pending := false), [st])
  {
    var a := s.(zombies := multiset{st}, pending := true);
    assert s.zombies + multiset{st} == multiset{st};
    ReachNext(s, ChildDies(st), a);
    var b := a.(pending := false, handler := Waiting);
    ReachNext(a, Enter, b);
    assert multiset([st]) == multiset{st};
    PassIsHndcld(b, [st]);
    t := AfterPass(b, [st]);
  }

  /** The same when hndcld finds `sig` set. */
  lemma ReachDeath(s: State, st: nat) returns (t: State)
    requires Reachable(s) && Listening(s.main) && s.handler == Idle && s.zombies == multiset{} && s.sig != 0
    ensures Reachable(t)
    ensures t == s.(sig := SIGCHLD, pending := false, woken := s.woken || s.main == Paused,
                    log := s.log + [Examined(st), Marked(s.main)])
  {
    t := ReachPass(s, st);
    PassLogOne(s.log, s.sig, s.main, st);
  }

  lemma ReachPausing() returns (t: State)
    ensures Reachable(t) && t == START.(main := Pausing)
  {
    ReachStart();
    t := START.(main := Pausing);
    ReachNext(START, MainStep, t);
  }

  /** SIGTERM arrives during pause () and the child, with exit code 3, dies before the
      main program looks: it exits normally, reporting 0, and the group is not killed. */
  lemma TerminationLost() returns (t: State)
    ensures Reachable(t) && t.main == Exited(0)
    ensures t.log == [Signalled(SIGTERM, Paused), Examined(768), Marked(Paused)] && WEXITSTATUS(768) == 3
  {
    var a := ReachTold();
    var b := ReachDeath(a, 768);
    var c := b.(main := Checking);
    ReachNext(b, MainStep, c);
    var d := c.(main := Leaving);
    ReachNext(c, MainStep, d);
    t := d.(main := Exited(0));
    ReachNext(d, MainStep, t);
  }

  /** SIGTERM interrupts pause (). */
  lemma ReachTold() returns (t: State)
    ensures Reachable(t)
    ensures t == START.(main := Paused, sig := SIGTERM, woken := true, log := [Signalled(SIGTERM, Paused)])
  {
    var a := ReachPausing();
    var b := a.(main := Paused);
    ReachNext(a, MainStep, b);
    t := b.(sig := SIGTERM, woken := true, log := [Signalled(SIGTERM, Paused)]);
    assert [] + [Signalled(SIGTERM, Paused)] == [Signalled(SIGTERM, Paused)];
    ReachNext(b, Deliver(SIGTERM), t);
  }

  /** For every code there is a run that reports it: the child exits with it during
      pause (), and nothing else happens. */
  lemma EveryCodeReported(c: nat) returns (t: State)
    requires c < 256
    ensures Reachable(t) && t.main == Exited(c)
    ensures t.log == [Examined(256 * c), Stored(256 * c), Marked(Paused)]
  {
    var a := ReachPausing();
    var b := a.(main := Paused);
    ReachNext(a, MainStep, b);
    var d := ReachFirstDeath(b, c);
    var e := d.(main := Checking);
    ReachNext(d, MainStep, e);
    var f := e.(main := Leaving);
    ReachNext(e, MainStep, f);
    t := f.(main := Exited(c));
    ReachNext(f, MainStep, t);
  }

  /** The only child exits during the first pause (). */
  lemma ReachFirstDeath(s: State, c: nat) returns (t: State)
    requires Reachable(s) && s == START.(main := Paused)
    ensures Reachable(t)
    ensures t == s.(sig := SIGCHLD, status := 256 * c, woken := true, log := [Examined(256 * c), Stored(256 * c), Marked(Paused)])
  {
    t := ReachPass(s, 256 * c);
    assert WIFEXITED(256 * c);
    PassLogOne([], 0, Paused, 256 * c);
  }

  /** A signal recorded after the loop test and before pause () is slept on: the main
      program is paused, nothing is pending, and no step of the system is possible
      until another signal or another child's death comes from outside. */
  lemma WakeupLost() returns (t: State)
    ensures Reachable(t) && t.main == Paused && t.sig == SIGTERM
    ensures forall step :: Enabled(t, step) ==> step.ChildDies? || step.Deliver?
  {
    var a := ReachPausing();
    var b := a.(sig := SIGTERM, log := [Signalled(SIGTERM, Pausing)]);
    assert [] + [Signalled(SIGTERM, Pausing)] == [Signalled(SIGTERM, Pausing)];
    ReachNext(a, Deliver(SIGTERM), b);
    t := b.(main := Paused);
    ReachNext(b, MainStep, t);
  }

  /** A child that dies right after SIGTERM has ended the loop turns the message into
      "Build aborted on signal 17". */
  lemma AbortMisreported() returns (t: State)
    ensures Reachable(t) && t.main == Aborting(SIGCHLD)
  {
    ReachStart();
    var a := START.(sig := SIGTERM, log := [Signalled(SIGTERM, Testing)]);
    assert [] + [Signalled(SIGTERM, Testing)] == [Signalled(SIGTERM, Testing)];
    ReachNext(START, Deliver(SIGTERM), a);
    var b := a.(main := Reporting);
    ReachNext(a, MainStep, b);
    var c := ReachDeath(b, 0);
    t := c.(main := Aborting(SIGCHLD));
    ReachNext(c, MainStep, t);
  }
}
