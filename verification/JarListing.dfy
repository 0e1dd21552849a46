/** The concurrent JAR listing as a state machine over its goroutines.

    A producer walks the roots and offers JAR paths on one unbuffered channel, a spawner
    starts the workers and later closes the results channel, each worker turns paths into
    results, and the main loop collects results. An unbuffered send and its receive are one
    step. A scheduler is a sequence of actions; nothing is assumed about which it picks. */
module JarListing {
  import opened Wrappers
  import opened JarOrder
  import opened Sequences

  const WORKERS: nat := 128

  type Error = string

  /** What `process` returns for a path, and what travels on the results channel. */
  datatype Outcome = Value(jar: MavenJar) | Failure(err: Error)

  /** One callback of the directory walk. */
  datatype Visit = Fault(err: Error) | Directory | Entry(path: string)

  /** A root that does not exist, one that cannot be resolved, or one that is walked. */
  datatype Root = Missing | Unresolvable(err: Error) | Tree(visits: seq<Visit>)

  datatype Producer = Walking(todo: seq<Root>) | Stopped
  datatype Spawner = Adding(k: nat) | Launching(k: nat) | Closed
  datatype Worker = Unborn | Receiving | Processing(path: string) | Sending(res: Outcome) | Leaving | Finished
  datatype Main = Collecting(jars: seq<MavenJar>) | Listed(jars: seq<MavenJar>) | Failed(err: Error)

  datatype State = State(
    producer: Producer,
    spawner: Spawner,
    workers: seq<Worker>,
    wg: int,
    pathsClosed: bool,
    resultsClosed: bool,
    main: Main,
    panicked: bool)

  function Init(roots: seq<Root>): State {
    State(Walking(roots), Adding(0), seq(WORKERS, _ => Unborn), 0, false, false, Collecting([]), false)
  }

  // ---- what the walk yields, independently of any schedule ----

  predicate IsJar(path: string) {
    |path| >= 4 && path[|path| - 4..] == ".jar"
  }

  function TreeJars(visits: seq<Visit>): seq<string> {
    if visits == [] || visits[0].Fault? then []
    else (if visits[0].Entry? && IsJar(visits[0].path) then [visits[0].path] else []) + TreeJars(visits[1..])
  }

  function TreeFault(visits: seq<Visit>): Option<Error> {
    if visits == [] then None
    else if visits[0].Fault? then Some(visits[0].err)
    else TreeFault(visits[1..])
  }

  /** The first error of the walk, which ends it. */
  function WalkFault(roots: seq<Root>): Option<Error> {
    if roots == [] then None
    else match roots[0]
      case Missing => WalkFault(roots[1..])
      case Unresolvable(e) => Some(e)
      case Tree(vs) => if TreeFault(vs).Some? then TreeFault(vs) else WalkFault(roots[1..])
  }

  /** The JAR paths met before the walk ends. */
  function WalkedJars(roots: seq<Root>): seq<string> {
    if roots == [] then []
    else match roots[0]
      case Missing => WalkedJars(roots[1..])
      case Unresolvable(_) => []
      case Tree(vs) => TreeJars(vs) + if TreeFault(vs).Some? then [] else WalkedJars(roots[1..])
  }

  function Outcomes(proc: string -> Outcome, paths: seq<string>): (r: seq<Outcome>)
    ensures |r| == |paths|
  {
    if paths == [] then [] else [proc(paths[0])] + Outcomes(proc, paths[1..])
  }

  function Values(jars: seq<MavenJar>): (r: seq<Outcome>) {
    if jars == [] then [] else Values(jars[..|jars| - 1]) + [Value(jars[|jars| - 1])]
  }

  function Jars(outcomes: seq<Outcome>): seq<MavenJar> {
    if outcomes == [] then []
    else (if outcomes[0].Value? then [outcomes[0].jar] else []) + Jars(outcomes[1..])
  }

  /** Nothing goes wrong: the walk ends without an error and every path is processed. */
  ghost predicate Clean(roots: seq<Root>, proc: string -> Outcome) {
    WalkFault(roots).None? && forall o :: o in Outcomes(proc, WalkedJars(roots)) ==> o.Value?
  }

  /** The errors a run may report. */
  ghost predicate Culprit(roots: seq<Root>, proc: string -> Outcome, e: Error) {
    WalkFault(roots) == Some(e) || Failure(e) in Outcomes(proc, WalkedJars(roots))
  }

  /** The listing a caller expects: every walked JAR once, sorted. */
  function Listing(roots: seq<Root>, proc: string -> Outcome): seq<MavenJar> {
    Sort(Jars(Outcomes(proc, WalkedJars(roots))))
  }

  // ---- the producer's next move ----

  datatype Move = Exhausted | Silent | Offer(path: string) | Abort(err: Error)

  function NextMove(todo: seq<Root>): Move {
    if todo == [] then Exhausted
    else match todo[0]
      case Missing => Silent
      case Unresolvable(e) => Abort(e)
      case Tree(vs) =>
        if vs == [] then Silent
        else match vs[0]
          case Fault(e) => Abort(e)
          case Directory => Silent
          case Entry(p) => if IsJar(p) then Offer(p) else Silent
  }

  /** What is left to walk after a silent move or an accepted offer. */
  function Rest(todo: seq<Root>): seq<Root>
    requires NextMove(todo).Silent? || NextMove(todo).Offer?
  {
    if todo[0].Tree? && todo[0].visits != [] then [Tree(todo[0].visits[1..])] + todo[1..] else todo[1..]
  }

  // ---- the step relation ----

  datatype Action =
    | Walk                          // the producer passes over something it does not offer
    | HandOff(w: nat)               // producer sends a path, worker w receives it
    | Report                        // producer sends its error, main receives it
    | ClosePaths
    | Add                           // workers.Add(1)
    | Launch                        // go worker(...)
    | CloseResults                  // after workers.Wait()
    | Compute(w: nat)               // worker w runs process
    | Deliver(w: nat)               // worker w sends its result, main receives it
    | Leave(w: nat)                 // worker w sees the closed paths channel
    | Done(w: nat)                  // worker w calls wg.Done()
    | Finish(out: seq<MavenJar>)    // main sees the closed results channel, sorts, returns
    | Crash                         // a goroutine misuses a channel or the wait group

  /** Sending on a closed channel, closing a channel twice, or a negative wait group. */
  ghost predicate Misuse(s: State) {
    || (s.pathsClosed && s.producer.Walking? && NextMove(s.producer.todo).Offer?)
    || (s.pathsClosed && s.producer.Walking? && NextMove(s.producer.todo).Exhausted?)
    || (s.resultsClosed && s.producer.Walking? && NextMove(s.producer.todo).Abort?)
    || (s.resultsClosed && exists w: nat :: w < |s.workers| && s.workers[w].Sending?)
    || (s.resultsClosed && s.spawner == Adding(WORKERS) && s.wg == 0)
    || (s.wg <= 0 && exists w: nat :: w < |s.workers| && s.workers[w].Leaving?)
  }

  ghost predicate Enabled(s: State, a: Action) {
    && !s.panicked
    && match a
       case Walk => s.producer.Walking? && NextMove(s.producer.todo).Silent?
       case HandOff(w) =>
         && s.producer.Walking? && NextMove(s.producer.todo).Offer? && !s.pathsClosed
         && w < |s.workers| && s.workers[w].Receiving?
       case Report =>
         s.producer.Walking? && NextMove(s.producer.todo).Abort? && !s.resultsClosed && s.main.Collecting?
       case ClosePaths => s.producer.Walking? && NextMove(s.producer.todo).Exhausted? && !s.pathsClosed
       case Add => s.spawner.Adding? && s.spawner.k < WORKERS
       case Launch => s.spawner.Launching? && s.spawner.k < |s.workers|
       case CloseResults => s.spawner == Adding(WORKERS) && s.wg == 0 && !s.resultsClosed
       case Compute(w) => w < |s.workers| && s.workers[w].Processing?
       case Deliver(w) => w < |s.workers| && s.workers[w].Sending? && !s.resultsClosed && s.main.Collecting?
       case Leave(w) => w < |s.workers| && s.workers[w].Receiving? && s.pathsClosed
       case Done(w) => w < |s.workers| && s.workers[w].Leaving? && s.wg > 0
       case Finish(out) =>
         s.main.Collecting? && s.resultsClosed && Sorted(out) && multiset(out) == multiset(s.main.jars)
       case Crash => Misuse(s)
  }

  function Next(proc: string -> Outcome, s: State, a: Action): State
    requires Enabled(s, a)
  {
    match a
    case Walk => s.(producer := Walking(Rest(s.producer.todo)))
    case HandOff(w) =>
      s.(producer := Walking(Rest(s.producer.todo)),
         workers := s.workers[w := Processing(NextMove(s.producer.todo).path)])
    case Report => s.(producer := Stopped, main := Failed(NextMove(s.producer.todo).err))
    case ClosePaths => s.(producer := Stopped, pathsClosed := true)
    case Add => s.(spawner := Launching(s.spawner.k), wg := s.wg + 1)
    case Launch => s.(spawner := Adding(s.spawner.k + 1), workers := s.workers[s.spawner.k := Receiving])
    case CloseResults => s.(spawner := Closed, resultsClosed := true)
    case Compute(w) => s.(workers := s.workers[w := Sending(proc(s.workers[w].path))])
    case Deliver(w) =>
      var main := match s.workers[w].res
        case Value(jar) => Collecting(s.main.jars + [jar])
        case Failure(e) => Failed(e);
      s.(workers := s.workers[w := Receiving], main := main)
    case Leave(w) => s.(workers := s.workers[w := Leaving])
    case Done(w) => s.(workers := s.workers[w := Finished], wg := s.wg - 1)
    case Finish(out) => s.(main := Listed(out))
    case Crash => s.(panicked := true)
  }

  /** Every action of the schedule can be taken when its turn comes. */
  ghost predicate Schedulable(proc: string -> Outcome, s: State, acts: seq<Action>)
    decreases |acts|
  {
    acts == [] || (Enabled(s, acts[0]) && Schedulable(proc, Next(proc, s, acts[0]), acts[1..]))
  }

  ghost function Run(proc: string -> Outcome, s: State, acts: seq<Action>): State
    requires Schedulable(proc, s, acts)
    decreases |acts|
  {
    if acts == [] then s else Run(proc, Next(proc, s, acts[0]), acts[1..])
  }

  // ---- folds over the workers ----

  function Live(workers: seq<Worker>): nat {
    if workers == [] then 0
    else (if workers[0].Unborn? || workers[0].Finished? then 0 else 1) + Live(workers[1..])
  }

  /** 1 if the worker holds o, or holds the path that will become o. */
  function Hand(proc: string -> Outcome, w: Worker, o: Outcome): nat {
    match w
    case Processing(p) => if proc(p) == o then 1 else 0
    case Sending(r) => if r == o then 1 else 0
    case _ => 0
  }

  function Held(proc: string -> Outcome, workers: seq<Worker>, o: Outcome): nat {
    if workers == [] then 0 else Hand(proc, workers[0], o) + Held(proc, workers[1..], o)
  }

  /** How many own steps a worker may still take before it next waits for a path or ends. */
  function Potential(w: Worker): nat {
    match w
    case Unborn => 3
    case Receiving => 2
    case Processing(_) => 4
    case Sending(_) => 3
    case Leaving => 1
    case Finished => 0
  }

  function Potentials(workers: seq<Worker>): nat {
    if workers == [] then 0 else Potential(workers[0]) + Potentials(workers[1..])
  }

  lemma {:induction false} UpdateLive(workers: seq<Worker>, w: nat, x: Worker)
    requires w < |workers|
    ensures Live(workers[w := x]) + Live([workers[w]]) == Live(workers) + Live([x])
  {
    if w == 0 {
      assert workers[w := x][1..] == workers[1..];
    } else {
      assert workers[w := x][1..] == workers[1..][w - 1 := x];
      UpdateLive(workers[1..], w - 1, x);
    }
  }

  lemma {:induction false} UpdateHeld(proc: string -> Outcome, workers: seq<Worker>, w: nat, x: Worker, o: Outcome)
    requires w < |workers|
    ensures Held(proc, workers[w := x], o) + Hand(proc, workers[w], o) == Held(proc, workers, o) + Hand(proc, x, o)
  {
    if w == 0 {
      assert workers[w := x][1..] == workers[1..];
    } else {
      assert workers[w := x][1..] == workers[1..][w - 1 := x];
      UpdateHeld(proc, workers[1..], w - 1, x, o);
    }
  }

  lemma {:induction false} UpdatePotentials(workers: seq<Worker>, w: nat, x: Worker)
    requires w < |workers|
    ensures Potentials(workers[w := x]) + Potential(workers[w]) == Potentials(workers) + Potential(x)
  {
    if w == 0 {
      assert workers[w := x][1..] == workers[1..];
    } else {
      assert workers[w := x][1..] == workers[1..][w - 1 := x];
      UpdatePotentials(workers[1..], w - 1, x);
    }
  }

  /** With no live worker nothing is held. */
  lemma {:induction false} NoneLive(proc: string -> Outcome, workers: seq<Worker>)
    requires Live(workers) == 0
    ensures forall o :: Held(proc, workers, o) == 0
    ensures forall w :: 0 <= w < |workers| ==> workers[w].Unborn? || workers[w].Finished?
  {
    if workers != [] {
      NoneLive(proc, workers[1..]);
      assert forall w :: 0 < w < |workers| ==> workers[w] == workers[1..][w - 1];
    }
  }

  lemma {:induction false} AllUnborn(workers: seq<Worker>)
    requires forall w :: 0 <= w < |workers| ==> workers[w].Unborn?
    ensures Live(workers) == 0 && Potentials(workers) == 3 * |workers|
  {
    if workers != [] {
      AllUnborn(workers[1..]);
    }
  }

  // ---- what is left to walk, after one move ----

  lemma WalkOfTree(vs: seq<Visit>, roots: seq<Root>)
    ensures WalkedJars([Tree(vs)] + roots) == TreeJars(vs) + if TreeFault(vs).Some? then [] else WalkedJars(roots)
    ensures WalkFault([Tree(vs)] + roots) == if TreeFault(vs).Some? then TreeFault(vs) else WalkFault(roots)
  {
    assert ([Tree(vs)] + roots)[1..] == roots;
  }

  function Offered(todo: seq<Root>): seq<string> {
    if NextMove(todo).Offer? then [NextMove(todo).path] else []
  }

  lemma RestOfWalk(todo: seq<Root>)
    requires NextMove(todo).Silent? || NextMove(todo).Offer?
    ensures WalkFault(Rest(todo)) == WalkFault(todo)
    ensures WalkedJars(todo) == Offered(todo) + WalkedJars(Rest(todo))
    ensures NextMove(todo).Silent? ==> WalkedJars(todo) == WalkedJars(Rest(todo))
  {
    if todo[0].Tree? && todo[0].visits != [] {
      var vs, roots := todo[0].visits, todo[1..];
      assert todo == [Tree(vs)] + roots;
      WalkOfTree(vs, roots);
      WalkOfTree(vs[1..], roots);
      Associates(Offered(todo), TreeJars(vs[1..]), if TreeFault(vs).Some? then [] else WalkedJars(roots));
    }
    Associates(WalkedJars(Rest(todo)), [], []);
  }

  // ---- the invariant ----

  /** Who may be where: the spawner's count fixes which workers exist, the wait group counts
      the live ones, and the channels close only behind everybody who could still send. */
  ghost predicate Structured(s: State) {
    && |s.workers| == WORKERS
    && !s.panicked
    && (match s.spawner
        case Adding(k) => k <= WORKERS && forall j :: 0 <= j < WORKERS ==> (s.workers[j].Unborn? <==> k <= j)
        case Launching(k) => k < WORKERS && forall j :: 0 <= j < WORKERS ==> (s.workers[j].Unborn? <==> k <= j)
        case Closed => s.wg == 0 && forall j :: 0 <= j < WORKERS ==> s.workers[j].Finished?)
    && s.wg == Live(s.workers) + (if s.spawner.Launching? then 1 else 0)
    && (s.resultsClosed <==> s.spawner.Closed?)
    && (s.pathsClosed ==> s.producer.Stopped?)
    && (s.producer.Stopped? && !s.pathsClosed ==> s.main.Failed?)
    && (forall j :: 0 <= j < WORKERS && (s.workers[j].Leaving? || s.workers[j].Finished?) ==> s.pathsClosed)
    && (s.main.Listed? ==> s.resultsClosed)
  }

  function Pending(s: State): seq<string> {
    if s.producer.Walking? then WalkedJars(s.producer.todo) else []
  }

  function FaultOf(s: State): Option<Error> {
    if s.producer.Walking? then WalkFault(s.producer.todo) else None
  }

  /** How often o is still to be offered, in a worker's hands, or collected. */
  ghost function Tally(proc: string -> Outcome, s: State, o: Outcome): int
    requires !s.main.Failed?
  {
    multiset(Outcomes(proc, Pending(s)))[o] + Held(proc, s.workers, o) + multiset(Values(s.main.jars))[o]
  }

  /** Nothing is lost or invented until main fails, and main fails only for a reason. */
  ghost predicate Accounted(roots: seq<Root>, proc: string -> Outcome, s: State) {
    if s.main.Failed? then Culprit(roots, proc, s.main.err)
    else
      && (forall o :: Tally(proc, s, o) == multiset(Outcomes(proc, WalkedJars(roots)))[o])
      && FaultOf(s) == WalkFault(roots)
      && (s.main.Listed? ==> Sorted(s.main.jars))
  }

  lemma InitHolds(roots: seq<Root>, proc: string -> Outcome)
    ensures Structured(Init(roots)) && Accounted(roots, proc, Init(roots))
  {
    AllUnborn(Init(roots).workers);
    NoneLive(proc, Init(roots).workers);
  }

  lemma LiveOne(workers: seq<Worker>, w: nat)
    requires w < |workers| && !workers[w].Unborn? && !workers[w].Finished?
    ensures Live(workers) > 0
  {
    if w > 0 { LiveOne(workers[1..], w - 1); }
  }

  lemma NoMisuse(s: State)
    requires Structured(s)
    ensures !Misuse(s)
  {
    forall w: nat | w < |s.workers| && s.workers[w].Leaving?
      ensures s.wg > 0
    {
      LiveOne(s.workers, w);
    }
  }

  /** The worker an action moves, and where it moves it. */
  function Moved(proc: string -> Outcome, s: State, a: Action): Option<(nat, Worker)>
    requires Enabled(s, a)
  {
    match a
    case HandOff(w) => Some((w, Processing(NextMove(s.producer.todo).path)))
    case Launch => Some((s.spawner.k, Receiving))
    case Compute(w) => Some((w, Sending(proc(s.workers[w].path))))
    case Deliver(w) => Some((w, Receiving))
    case Leave(w) => Some((w, Leaving))
    case Done(w) => Some((w, Finished))
    case _ => None
  }

  lemma MovedIsNext(proc: string -> Outcome, s: State, a: Action)
    requires Enabled(s, a)
    ensures match Moved(proc, s, a)
      case None => Next(proc, s, a).workers == s.workers
      case Some((w, x)) => w < |s.workers| && Next(proc, s, a).workers == s.workers[w := x]
  {
  }

  lemma StructuredStep(proc: string -> Outcome, s: State, a: Action)
    requires Structured(s) && Enabled(s, a)
    ensures Structured(Next(proc, s, a))
  {
    if Moved(proc, s, a).Some? {
      var (w, x) := Moved(proc, s, a).value;
      MovedIsNext(proc, s, a);
      UpdateLive(s.workers, w, x);
      if a.Launch? { LaunchStep(proc, s); } else { WorkerStep(proc, s, a); }
    } else {
      NoMisuse(s);
      if a.CloseResults? { NoneLive(proc, s.workers); }
    }
  }

  lemma LaunchStep(proc: string -> Outcome, s: State)
    requires Structured(s) && Enabled(s, Launch)
    requires Live(s.workers[s.spawner.k := Receiving]) == Live(s.workers) + 1
    ensures Structured(Next(proc, s, Launch))
  {
  }

  lemma WorkerStep(proc: string -> Outcome, s: State, a: Action)
    requires Structured(s) && Enabled(s, a) && !a.Launch? && Moved(proc, s, a).Some?
    requires Live(Next(proc, s, a).workers) == Live(s.workers) - if a.Done? then 1 else 0
    ensures Structured(Next(proc, s, a))
  {
    var (w, x) := Moved(proc, s, a).value;
    var t := Next(proc, s, a);
    assert t.workers == s.workers[w := x] && t.spawner == s.spawner;
    assert !s.spawner.Closed?;
    assert forall j :: 0 <= j < WORKERS ==> (t.workers[j].Unborn? <==> s.workers[j].Unborn?);
    assert t.pathsClosed == s.pathsClosed;
  }

  /** 1 if action a passes o from the producer to a worker, or from a worker to main. */
  ghost function Given(proc: string -> Outcome, s: State, a: Action, o: Outcome): int
    requires Enabled(s, a)
  {
    if a.HandOff? && proc(NextMove(s.producer.todo).path) == o then 1 else 0
  }

  ghost function Taken(s: State, a: Action, o: Outcome): int
    requires Enabled(s, a)
  {
    if a.Deliver? && s.workers[a.w].res == o then 1 else 0
  }

  lemma PendingHandOff(proc: string -> Outcome, s: State, w: nat, o: Outcome)
    requires Enabled(s, HandOff(w))
    ensures multiset(Outcomes(proc, Pending(Next(proc, s, HandOff(w)))))[o]
         == multiset(Outcomes(proc, Pending(s)))[o] - Given(proc, s, HandOff(w), o)
  {
    var todo := s.producer.todo;
    assert Pending(s) == WalkedJars(todo) && Pending(Next(proc, s, HandOff(w))) == WalkedJars(Rest(todo));
    OfferedOnce(proc, todo, o);
  }

  lemma PendingOtherwise(proc: string -> Outcome, s: State, a: Action)
    requires Enabled(s, a) && !a.Report? && !a.HandOff?
    ensures Pending(Next(proc, s, a)) == Pending(s)
  {
    if a.Walk? { RestOfWalk(s.producer.todo); }
  }

  lemma PendingChange(proc: string -> Outcome, s: State, a: Action, o: Outcome)
    requires Enabled(s, a) && !a.Report?
    ensures multiset(Outcomes(proc, Pending(Next(proc, s, a))))[o]
         == multiset(Outcomes(proc, Pending(s)))[o] - Given(proc, s, a, o)
  {
    hide Pending, Next, Outcomes;
    if a.HandOff? { PendingHandOff(proc, s, a.w, o); } else { PendingOtherwise(proc, s, a); }
  }

  lemma HeldChange(proc: string -> Outcome, s: State, a: Action, o: Outcome)
    requires Structured(s) && Enabled(s, a)
    ensures Held(proc, Next(proc, s, a).workers, o)
         == Held(proc, s.workers, o) + Given(proc, s, a, o) - Taken(s, a, o)
  {
    MovedIsNext(proc, s, a);
    if Moved(proc, s, a).Some? {
      var (w, x) := Moved(proc, s, a).value;
      UpdateHeld(proc, s.workers, w, x, o);
    }
  }

  lemma ValuesChange(proc: string -> Outcome, s: State, a: Action, o: Outcome)
    requires Enabled(s, a) && !s.main.Failed? && !Next(proc, s, a).main.Failed?
    ensures multiset(Values(Next(proc, s, a).main.jars))[o] == multiset(Values(s.main.jars))[o] + Taken(s, a, o)
  {
    if a.Deliver? { ValuesSnoc(s.main.jars, s.workers[a.w].res.jar); }
    if a.Finish? { SameJarsSameValues(a.out, s.main.jars); }
  }

  /** Conservation: every action that main survives keeps every tally. */
  lemma TallyConserved(proc: string -> Outcome, s: State, a: Action, o: Outcome)
    requires Structured(s) && Enabled(s, a) && !s.main.Failed? && !Next(proc, s, a).main.Failed?
    ensures Tally(proc, Next(proc, s, a), o) == Tally(proc, s, o)
  {
    PendingChange(proc, s, a, o);
    HeldChange(proc, s, a, o);
    ValuesChange(proc, s, a, o);
  }

  lemma OfferedOnce(proc: string -> Outcome, todo: seq<Root>, o: Outcome)
    requires NextMove(todo).Offer?
    ensures multiset(Outcomes(proc, WalkedJars(todo)))[o]
         == multiset(Outcomes(proc, WalkedJars(Rest(todo))))[o] + if proc(NextMove(todo).path) == o then 1 else 0
  {
    RestOfWalk(todo);
    OutcomesCons(proc, NextMove(todo).path, WalkedJars(Rest(todo)));
  }

  lemma OutcomesCons(proc: string -> Outcome, p: string, rest: seq<string>)
    ensures multiset(Outcomes(proc, [p] + rest)) == multiset{proc(p)} + multiset(Outcomes(proc, rest))
  {
    assert ([p] + rest)[1..] == rest;
  }

  lemma ValuesSnoc(jars: seq<MavenJar>, jar: MavenJar)
    ensures multiset(Values(jars + [jar])) == multiset(Values(jars)) + multiset{Value(jar)}
  {
    assert (jars + [jar])[..|jars|] == jars;
    assert Values(jars + [jar]) == Values(jars) + [Value(jar)];
  }

  lemma HeldOne(proc: string -> Outcome, workers: seq<Worker>, w: nat, o: Outcome)
    requires w < |workers| && Hand(proc, workers[w], o) > 0
    ensures Held(proc, workers, o) > 0
  {
    UpdateHeld(proc, workers, w, Unborn, o);
  }

  /** The fault ahead of the producer is the fault of the whole walk. */
  lemma FaultAhead(proc: string -> Outcome, s: State, a: Action)
    requires Enabled(s, a) && !a.Report?
    ensures FaultOf(Next(proc, s, a)) == FaultOf(s)
  {
    if a.Walk? || a.HandOff? { RestOfWalk(s.producer.todo); }
  }

  lemma AccountedStep(roots: seq<Root>, proc: string -> Outcome, s: State, a: Action)
    requires Structured(s) && Accounted(roots, proc, s) && Enabled(s, a)
    ensures Accounted(roots, proc, Next(proc, s, a))
  {
    var t := Next(proc, s, a);
    if s.main.Failed? {
    } else if t.main.Failed? {
      if a.Deliver? {
        var o := s.workers[a.w].res;
        HeldOne(proc, s.workers, a.w, o);
        assert Tally(proc, s, o) > 0;
      }
    } else {
      forall o ensures Tally(proc, t, o) == multiset(Outcomes(proc, WalkedJars(roots)))[o] {
        TallyConserved(proc, s, a, o);
      }
      FaultAhead(proc, s, a);
    }
  }

  // ---- counting values and jars ----

  lemma {:induction false} ValuesCount(jars: seq<MavenJar>, o: Outcome)
    ensures multiset(Values(jars))[o] == if o.Value? then multiset(jars)[o.jar] else 0
  {
    if jars != [] {
      var front, last := jars[..|jars| - 1], jars[|jars| - 1];
      ValuesCount(front, o);
      assert jars == front + [last];
      assert multiset(jars) == multiset(front) + multiset{last};
      assert multiset(Values(jars)) == multiset(Values(front)) + multiset{Value(last)};
    }
  }

  lemma {:induction false} JarsCount(outcomes: seq<Outcome>, jar: MavenJar)
    ensures multiset(Jars(outcomes))[jar] == multiset(outcomes)[Value(jar)]
  {
    if outcomes != [] {
      JarsCount(outcomes[1..], jar);
      assert outcomes == [outcomes[0]] + outcomes[1..];
      assert multiset(outcomes) == multiset{outcomes[0]} + multiset(outcomes[1..]);
    }
  }

  lemma SameJarsSameValues(xs: seq<MavenJar>, ys: seq<MavenJar>)
    requires multiset(xs) == multiset(ys)
    ensures multiset(Values(xs)) == multiset(Values(ys))
  {
    forall o ensures multiset(Values(xs))[o] == multiset(Values(ys))[o] {
      ValuesCount(xs, o);
      ValuesCount(ys, o);
    }
  }

  lemma ValuesOfOutcomes(jars: seq<MavenJar>, outcomes: seq<Outcome>)
    requires multiset(Values(jars)) == multiset(outcomes)
    ensures multiset(jars) == multiset(Jars(outcomes))
    ensures forall o :: o in outcomes ==> o.Value?
  {
    forall jar ensures multiset(jars)[jar] == multiset(Jars(outcomes))[jar] {
      ValuesCount(jars, Value(jar));
      JarsCount(outcomes, jar);
    }
    forall o | o in outcomes ensures o.Value? {
      assert o in multiset(outcomes);
      ValuesCount(jars, o);
    }
  }

  // ---- what a listing consists of, visit by visit ----

  /** A visit of a file whose path ends in .jar. */
  predicate IsJarVisit(v: Visit) {
    v.Entry? && |v.path| >= 4 && v.path[|v.path| - 4..] == ".jar"
  }

  /** Visit j of root i exists. */
  predicate Visited(roots: seq<Root>, i: int, j: int) {
    0 <= i < |roots| && roots[i].Tree? && 0 <= j < |roots[i].visits|
  }

  /** The visits of JARs that are processed to a record. */
  ghost function Sources(roots: seq<Root>, proc: string -> Outcome, jar: MavenJar): set<(int, int)> {
    set i, j | 0 <= i < |roots| && roots[i].Tree? && 0 <= j < |roots[i].visits|
               && IsJarVisit(roots[i].visits[j]) && proc(roots[i].visits[j].path) == Value(jar) :: (i, j)
  }

  /** No root and no visit is at fault. */
  predicate Faultless(roots: seq<Root>) {
    forall i :: 0 <= i < |roots| ==>
      !roots[i].Unresolvable? && (roots[i].Tree? ==> VisitsFaultless(roots[i].visits))
  }

  predicate VisitsFaultless(visits: seq<Visit>) {
    forall j :: 0 <= j < |visits| ==> !visits[j].Fault?
  }

  lemma {:induction false} TreeFaultIsFirst(visits: seq<Visit>)
    ensures TreeFault(visits).None? <==> VisitsFaultless(visits)
    ensures TreeFault(visits).Some? ==>
      exists j :: 0 <= j < |visits| && visits[j] == Fault(TreeFault(visits).value) && VisitsFaultless(visits[..j])
  {
    if visits != [] {
      var rest := visits[1..];
      assert visits == [visits[0]] + rest;
      if visits[0].Fault? {
        assert VisitsFaultless(visits[..0]);
      } else {
        TreeFaultIsFirst(rest);
        if TreeFault(rest).Some? {
          var j :| 0 <= j < |rest| && rest[j] == Fault(TreeFault(rest).value) && VisitsFaultless(rest[..j]);
          assert visits[..j + 1] == [visits[0]] + rest[..j] && visits[j + 1] == rest[j];
        }
      }
    }
  }

  /** The fault of root i itself, if all of it is walked. */
  ghost predicate RootFault(root: Root, e: Error) {
    || root == Unresolvable(e)
    || (root.Tree?
        && exists j :: 0 <= j < |root.visits| && root.visits[j] == Fault(e) && VisitsFaultless(root.visits[..j]))
  }

  ghost predicate FirstFault(roots: seq<Root>, i: int, e: Error) {
    0 <= i < |roots| && RootFault(roots[i], e) && Faultless(roots[..i])
  }

  lemma FaultBehind(root: Root, rest: seq<Root>, i: int, e: Error)
    requires FirstFault(rest, i, e) && Faultless([root])
    ensures FirstFault([root] + rest, i + 1, e)
  {
    hide RootFault, VisitsFaultless;
    var roots := [root] + rest;
    assert roots[i + 1] == rest[i] && [root][0] == root;
    assert roots[..i + 1] == [root] + rest[..i];
    WalkFaultOfTwo(root, rest[..i]);
  }

  lemma RootFaults(root: Root)
    ensures var fault := WalkFault([root]);
      && (fault.None? <==> Faultless([root]))
      && (fault.Some? ==> RootFault(root, fault.value))
  {
    assert [root][0] == root && [root][1..] == [];
    if root.Tree? { TreeFaultIsFirst(root.visits); }
  }

  lemma WalkFaultOfTwo(root: Root, rest: seq<Root>)
    ensures WalkFault([root] + rest) == if WalkFault([root]).Some? then WalkFault([root]) else WalkFault(rest)
    ensures Faultless([root] + rest) <==> Faultless([root]) && Faultless(rest)
  {
    hide VisitsFaultless;
    var roots := [root] + rest;
    assert roots[0] == root && roots[1..] == rest && [root][0] == root && [root][1..] == [];
    assert forall k :: 0 <= k < |rest| ==> rest[k] == roots[k + 1];
  }

  /** The walk's fault is the first one: everything before it is in order. */
  lemma {:induction false} WalkFaultIsFirst(roots: seq<Root>)
    ensures WalkFault(roots).None? <==> Faultless(roots)
    ensures WalkFault(roots).Some? ==> exists i :: FirstFault(roots, i, WalkFault(roots).value)
  {
    if roots != [] {
      hide WalkFault, Faultless, RootFault;
      var root, rest := roots[0], roots[1..];
      assert roots == [root] + rest;
      RootFaults(root);
      WalkFaultOfTwo(root, rest);
      WalkFaultIsFirst(rest);
      if WalkFault([root]).Some? {
        NothingIsFaultless();
        assert roots[..0] == [];
        assert FirstFault(roots, 0, WalkFault(roots).value);
      } else if WalkFault(rest).Some? {
        var i :| FirstFault(rest, i, WalkFault(rest).value);
        FaultBehind(root, rest, i, WalkFault(rest).value);
      }
    }
  }

  lemma NothingIsFaultless()
    ensures Faultless([])
  {
  }

  lemma {:induction false} TreeJarsSnoc(visits: seq<Visit>, v: Visit)
    requires VisitsFaultless(visits + [v])
    ensures TreeJars(visits + [v]) == TreeJars(visits) + if IsJarVisit(v) then [v.path] else []
  {
    var tail := if IsJarVisit(v) then [v.path] else [];
    assert (visits + [v])[|visits|] == v;
    if visits == [] {
      assert visits + [v] == [v] && [v][1..] == [];
    } else {
      var rest := visits[1..];
      assert (visits + [v])[0] == visits[0] && (visits + [v])[1..] == rest + [v];
      assert VisitsFaultless(rest + [v]) by {
        assert forall j :: 0 <= j < |rest + [v]| ==> (rest + [v])[j] == (visits + [v])[j + 1];
      }
      TreeJarsSnoc(rest, v);
      Associates(if visits[0].Entry? && IsJar(visits[0].path) then [visits[0].path] else [], TreeJars(rest), tail);
    }
  }

  lemma {:induction false} WalkedJarsSnoc(roots: seq<Root>, root: Root)
    requires Faultless(roots + [root])
    ensures WalkedJars(roots + [root]) == WalkedJars(roots) + if root.Tree? then TreeJars(root.visits) else []
  {
    var tail := if root.Tree? then TreeJars(root.visits) else [];
    assert (roots + [root])[|roots|] == root;
    if root.Tree? { TreeFaultIsFirst(root.visits); }
    if roots == [] {
      assert roots + [root] == [root] && [root][1..] == [];
      Associates(tail, [], []);
    } else {
      var rest := roots[1..];
      assert (roots + [root])[0] == roots[0] && (roots + [root])[1..] == rest + [root];
      assert Faultless(rest + [root]) by {
        assert forall i :: 0 <= i < |rest + [root]| ==> (rest + [root])[i] == (roots + [root])[i + 1];
      }
      WalkedJarsSnoc(rest, root);
      if roots[0].Tree? {
        TreeFaultIsFirst(roots[0].visits);
        Associates(TreeJars(roots[0].visits), WalkedJars(rest), tail);
      }
    }
  }

  lemma {:induction false} OutcomesConcat(proc: string -> Outcome, a: seq<string>, b: seq<string>)
    ensures Outcomes(proc, a + b) == Outcomes(proc, a) + Outcomes(proc, b)
  {
    if a == [] {
      Associates(b, [], []);
      Associates(Outcomes(proc, b), [], []);
    } else {
      assert (a + b)[0] == a[0] && (a + b)[1..] == a[1..] + b;
      OutcomesConcat(proc, a[1..], b);
      Associates([proc(a[0])], Outcomes(proc, a[1..]), Outcomes(proc, b));
    }
  }

  /** How often a record is produced by a list of paths. */
  function Produced(proc: string -> Outcome, paths: seq<string>, jar: MavenJar): nat {
    multiset(Outcomes(proc, paths))[Value(jar)]
  }

  lemma ProducedConcat(proc: string -> Outcome, a: seq<string>, b: seq<string>, jar: MavenJar)
    ensures Produced(proc, a + b, jar) == Produced(proc, a, jar) + Produced(proc, b, jar)
    ensures Produced(proc, [], jar) == 0
    ensures forall p :: Produced(proc, [p], jar) == if proc(p) == Value(jar) then 1 else 0
  {
    OutcomesConcat(proc, a, b);
    forall p ensures Produced(proc, [p], jar) == if proc(p) == Value(jar) then 1 else 0 {
      assert Outcomes(proc, [p]) == [proc(p)];
    }
  }

  lemma WithoutLastVisit(roots: seq<Root>, proc: string -> Outcome, jar: MavenJar)
    requires roots != [] && roots[|roots| - 1].Tree? && roots[|roots| - 1].visits != []
    ensures var n := |roots| - 1;
      var m := |roots[n].visits| - 1;
      var v := roots[n].visits[m];
      var shorter := roots[..n] + [Tree(roots[n].visits[..m])];
      && Sources(roots, proc, jar)
         == Sources(shorter, proc, jar) + (if IsJarVisit(v) && proc(v.path) == Value(jar) then {(n, m)} else {})
      && (n, m) !in Sources(shorter, proc, jar)
  {
    var n := |roots| - 1;
    var m := |roots[n].visits| - 1;
    var shorter := roots[..n] + [Tree(roots[n].visits[..m])];
    assert forall i, j :: Visited(roots, i, j) && (i, j) != (n, m) ==>
      Visited(shorter, i, j) && shorter[i].visits[j] == roots[i].visits[j];
    assert forall i, j :: Visited(shorter, i, j) ==> Visited(roots, i, j) && shorter[i].visits[j] == roots[i].visits[j];
  }

  lemma WithoutLastRoot(roots: seq<Root>, proc: string -> Outcome, jar: MavenJar)
    requires roots != [] && (roots[|roots| - 1].Tree? ==> roots[|roots| - 1].visits == [])
    ensures Sources(roots, proc, jar) == Sources(roots[..|roots| - 1], proc, jar)
  {
  }

  lemma FaultlessParts(front: seq<Root>, root: Root)
    requires Faultless(front + [root])
    ensures Faultless(front) && !root.Unresolvable? && (root.Tree? ==> VisitsFaultless(root.visits))
  {
    assert (front + [root])[|front|] == root;
    assert forall i :: 0 <= i < |front| ==> (front + [root])[i] == front[i];
  }

  lemma FaultlessShorter(front: seq<Root>, visits: seq<Visit>, v: Visit)
    requires Faultless(front + [Tree(visits + [v])])
    ensures Faultless(front + [Tree(visits)])
  {
    FaultlessParts(front, Tree(visits + [v]));
    assert forall j :: 0 <= j < |visits| ==> (visits + [v])[j] == visits[j];
  }

  lemma ProducedByVisit(front: seq<Root>, visits: seq<Visit>, v: Visit, proc: string -> Outcome, jar: MavenJar)
    requires Faultless(front + [Tree(visits + [v])])
    ensures Produced(proc, WalkedJars(front + [Tree(visits + [v])]), jar)
         == Produced(proc, WalkedJars(front + [Tree(visits)]), jar)
            + if IsJarVisit(v) && proc(v.path) == Value(jar) then 1 else 0
  {
    FaultlessShorter(front, visits, v);
    FaultlessParts(front, Tree(visits + [v]));
    hide Produced, WalkedJars, TreeJars, Faultless;
    WalkedJarsSnoc(front, Tree(visits + [v]));
    WalkedJarsSnoc(front, Tree(visits));
    TreeJarsSnoc(visits, v);
    var last := if IsJarVisit(v) then [v.path] else [];
    Associates(WalkedJars(front), TreeJars(visits), last);
    ProducedConcat(proc, WalkedJars(front + [Tree(visits)]), last, jar);
  }

  /** Every visit of a JAR is walked once: a record is produced as often as a visit leads to it. */
  lemma {:induction false} ProducedFromSources(roots: seq<Root>, proc: string -> Outcome, jar: MavenJar)
    requires Faultless(roots)
    ensures Produced(proc, WalkedJars(roots), jar) == |Sources(roots, proc, jar)|
    decreases |roots|, if roots != [] && roots[|roots| - 1].Tree? then |roots[|roots| - 1].visits| else 0
  {
    if roots == [] {
      assert Sources(roots, proc, jar) == {};
    } else {
      hide Sources, Produced, WalkedJars, TreeJars, Faultless;
      var front, root := roots[..|roots| - 1], roots[|roots| - 1];
      assert roots == front + [root];
      FaultlessParts(front, root);
      if root.Tree? && root.visits != [] {
        var visits, v := root.visits[..|root.visits| - 1], root.visits[|root.visits| - 1];
        assert root.visits == visits + [v];
        FaultlessShorter(front, visits, v);
        WithoutLastVisit(roots, proc, jar);
        ProducedFromSources(front + [Tree(visits)], proc, jar);
        ProducedByVisit(front, visits, v, proc, jar);
      } else {
        WalkedJarsSnoc(front, root);
        WithoutLastRoot(roots, proc, jar);
        ProducedFromSources(front, proc, jar);
        NoTreeJars();
        Associates(WalkedJars(front), [], []);
      }
    }
  }

  lemma NoTreeJars()
    ensures TreeJars([]) == []
  {
  }

  /** The expected listing, without the functions that compute it: ascending, with each record as
      often as a visit of a JAR leads to it. */
  ghost predicate IsListing(roots: seq<Root>, proc: string -> Outcome, jars: seq<MavenJar>) {
    InOrder(jars) && forall jar :: multiset(jars)[jar] == |Sources(roots, proc, jar)|
  }

  lemma ListingIsListing(roots: seq<Root>, proc: string -> Outcome)
    requires WalkFault(roots).None?
    ensures IsListing(roots, proc, Listing(roots, proc))
  {
    var outcomes := Outcomes(proc, WalkedJars(roots));
    SortSorts(Jars(outcomes));
    SortedIsInOrder(Listing(roots, proc));
    WalkFaultIsFirst(roots);
    forall jar ensures multiset(Listing(roots, proc))[jar] == |Sources(roots, proc, jar)| {
      JarsCount(outcomes, jar);
      ProducedFromSources(roots, proc, jar);
    }
  }

  lemma {:induction false} OutcomeOf(proc: string -> Outcome, paths: seq<string>, o: Outcome)
    ensures o in Outcomes(proc, paths) <==> exists p :: p in paths && proc(p) == o
  {
    if paths != [] {
      OutcomeOf(proc, paths[1..], o);
      assert paths == [paths[0]] + paths[1..];
    }
  }

  lemma {:induction false} TreeJarsAre(visits: seq<Visit>, p: string)
    requires VisitsFaultless(visits)
    ensures p in TreeJars(visits) <==> exists j :: 0 <= j < |visits| && IsJarVisit(visits[j]) && visits[j].path == p
  {
    if visits != [] {
      var rest := visits[1..];
      assert visits == [visits[0]] + rest;
      assert forall j :: 0 <= j < |rest| ==> rest[j] == visits[j + 1];
      TreeJarsAre(rest, p);
      if j :| 0 <= j < |visits| && IsJarVisit(visits[j]) && visits[j].path == p && j > 0 {
        assert rest[j - 1] == visits[j];
      }
    }
  }

  /** The JARs of a walk without a fault are the paths of the JAR visits. */
  lemma {:induction false} WalkedJarsAre(roots: seq<Root>, p: string)
    requires Faultless(roots)
    ensures p in WalkedJars(roots) <==>
      exists i, j :: Visited(roots, i, j) && IsJarVisit(roots[i].visits[j]) && roots[i].visits[j].path == p
  {
    if roots != [] {
      var root, rest := roots[0], roots[1..];
      assert roots == [root] + rest;
      assert forall i :: 0 <= i < |rest| ==> rest[i] == roots[i + 1];
      WalkedJarsAre(rest, p);
      if root.Tree? {
        TreeFaultIsFirst(root.visits);
        TreeJarsAre(root.visits, p);
        if j :| 0 <= j < |root.visits| && IsJarVisit(root.visits[j]) && root.visits[j].path == p {
          assert Visited(roots, 0, j);
        }
      }
      if i, j :| Visited(rest, i, j) && IsJarVisit(rest[i].visits[j]) && rest[i].visits[j].path == p {
        assert Visited(roots, i + 1, j);
      }
      if i, j :| Visited(roots, i, j) && IsJarVisit(roots[i].visits[j]) && roots[i].visits[j].path == p && i > 0 {
        assert Visited(rest, i - 1, j);
      }
    }
  }

  lemma {:induction false} TreeJarsAreVisited(visits: seq<Visit>, p: string)
    requires p in TreeJars(visits)
    ensures exists j :: 0 <= j < |visits| && IsJarVisit(visits[j]) && visits[j].path == p
  {
    if p in TreeJars(visits[1..]) {
      TreeJarsAreVisited(visits[1..], p);
      var j :| 0 <= j < |visits[1..]| && IsJarVisit(visits[1..][j]) && visits[1..][j].path == p;
      assert visits[j + 1] == visits[1..][j];
    }
  }

  /** Whatever is walked, fault or not, is the path of a JAR visit. */
  lemma {:induction false} WalkedJarsAreVisited(roots: seq<Root>, p: string)
    requires p in WalkedJars(roots)
    ensures exists i, j :: Visited(roots, i, j) && IsJarVisit(roots[i].visits[j]) && roots[i].visits[j].path == p
  {
    if roots[0].Tree? && p in TreeJars(roots[0].visits) {
      TreeJarsAreVisited(roots[0].visits, p);
      var j :| 0 <= j < |roots[0].visits| && IsJarVisit(roots[0].visits[j]) && roots[0].visits[j].path == p;
      assert Visited(roots, 0, j);
    } else {
      var rest := roots[1..];
      WalkedJarsAreVisited(rest, p);
      var i, j :| Visited(rest, i, j) && IsJarVisit(rest[i].visits[j]) && rest[i].visits[j].path == p;
      assert Visited(roots, i + 1, j) && roots[i + 1] == rest[i];
    }
  }

  /** What a culprit is, visit by visit: the first fault of the walk, or the failure of a JAR. */
  ghost predicate IsCulprit(roots: seq<Root>, proc: string -> Outcome, e: Error) {
    || (exists i :: FirstFault(roots, i, e))
    || exists i, j ::
         Visited(roots, i, j) && IsJarVisit(roots[i].visits[j]) && proc(roots[i].visits[j].path) == Failure(e)
  }

  lemma CulpritIsCulprit(roots: seq<Root>, proc: string -> Outcome, e: Error)
    requires Culprit(roots, proc, e)
    ensures IsCulprit(roots, proc, e)
  {
    if WalkFault(roots) == Some(e) {
      WalkFaultIsFirst(roots);
    } else {
      OutcomeOf(proc, WalkedJars(roots), Failure(e));
      var p :| p in WalkedJars(roots) && proc(p) == Failure(e);
      WalkedJarsAreVisited(roots, p);
    }
  }

  lemma AllValuesIff(roots: seq<Root>, proc: string -> Outcome)
    requires Faultless(roots)
    ensures (forall o :: o in Outcomes(proc, WalkedJars(roots)) ==> o.Value?) <==>
      forall i, j :: Visited(roots, i, j) && IsJarVisit(roots[i].visits[j]) ==> proc(roots[i].visits[j].path).Value?
  {
    hide Outcomes, WalkedJars;
    forall o ensures o in Outcomes(proc, WalkedJars(roots)) <==> exists p :: p in WalkedJars(roots) && proc(p) == o {
      OutcomeOf(proc, WalkedJars(roots), o);
    }
    forall p
      ensures p in WalkedJars(roots) <==>
        exists i, j :: Visited(roots, i, j) && IsJarVisit(roots[i].visits[j]) && roots[i].visits[j].path == p
    {
      WalkedJarsAre(roots, p);
    }
  }

  /** Nothing goes wrong exactly when no root and no visit is at fault and every JAR is processed. */
  lemma CleanIff(roots: seq<Root>, proc: string -> Outcome)
    ensures Clean(roots, proc) <==>
      && Faultless(roots)
      && forall i, j :: Visited(roots, i, j) && IsJarVisit(roots[i].visits[j]) ==> proc(roots[i].visits[j].path).Value?
  {
    WalkFaultIsFirst(roots);
    if Faultless(roots) { AllValuesIff(roots, proc); }
  }

  // ---- every schedule ----

  lemma {:induction false} RunHolds(roots: seq<Root>, proc: string -> Outcome, s: State, acts: seq<Action>)
    requires Structured(s) && Accounted(roots, proc, s) && Schedulable(proc, s, acts)
    ensures Structured(Run(proc, s, acts)) && Accounted(roots, proc, Run(proc, s, acts))
    decreases |acts|
  {
    if acts != [] {
      StructuredStep(proc, s, acts[0]);
      AccountedStep(roots, proc, s, acts[0]);
      RunHolds(roots, proc, Next(proc, s, acts[0]), acts[1..]);
    }
  }

  lemma LeaversAreCounted(s: State)
    requires Structured(s)
    ensures forall w :: 0 <= w < |s.workers| && s.workers[w].Leaving? ==> s.wg > 0
  {
    forall w | 0 <= w < |s.workers| && s.workers[w].Leaving? ensures s.wg > 0 {
      LiveOne(s.workers, w);
    }
  }

  /** Channel safety. Whatever the scheduler does, no goroutine panics and no misuse is even
      possible next: once paths is closed its only sender has stopped, once results is closed all
      its senders have, each channel's closer then is done, and who calls Done is still counted. */
  lemma ChannelSafety(roots: seq<Root>, proc: string -> Outcome, acts: seq<Action>)
    requires Schedulable(proc, Init(roots), acts)
    ensures var s := Run(proc, Init(roots), acts);
      && !s.panicked && !Enabled(s, Crash)
      && |s.workers| == 128
      && (s.pathsClosed ==> s.producer.Stopped?)
      && (s.resultsClosed ==> s.pathsClosed && s.spawner.Closed? && forall w :: 0 <= w < 128 ==> s.workers[w].Finished?)
      && s.wg >= 0 && (forall w :: 0 <= w < 128 && s.workers[w].Leaving? ==> s.wg > 0)
  {
    InitHolds(roots, proc);
    RunHolds(roots, proc, Init(roots), acts);
    NoMisuse(Run(proc, Init(roots), acts));
    LeaversAreCounted(Run(proc, Init(roots), acts));
  }

  /** Determinism, and no lost error: a run that lists anything lists exactly the expected
      listing, and then nothing went wrong anywhere. */
  lemma ListedIsListing(roots: seq<Root>, proc: string -> Outcome, acts: seq<Action>)
    requires Schedulable(proc, Init(roots), acts)
    requires Run(proc, Init(roots), acts).main.Listed?
    ensures Run(proc, Init(roots), acts).main.jars == Listing(roots, proc)
    ensures IsListing(roots, proc, Run(proc, Init(roots), acts).main.jars)
    ensures Clean(roots, proc)
  {
    InitHolds(roots, proc);
    RunHolds(roots, proc, Init(roots), acts);
    var s := Run(proc, Init(roots), acts);
    var outcomes := Outcomes(proc, WalkedJars(roots));
    assert s.workers[0].Finished? && s.producer.Stopped?;
    NoneLive(proc, s.workers);
    forall o ensures multiset(Values(s.main.jars))[o] == multiset(outcomes)[o] {
      assert Tally(proc, s, o) == multiset(outcomes)[o];
    }
    ValuesOfOutcomes(s.main.jars, outcomes);
    SortSorts(Jars(outcomes));
    SortedIsUnique(s.main.jars, Listing(roots, proc));
    ListingIsListing(roots, proc);
  }

  /** A run that fails reports an error that really happened. */
  lemma FailedHasCulprit(roots: seq<Root>, proc: string -> Outcome, acts: seq<Action>)
    requires Schedulable(proc, Init(roots), acts)
    requires Run(proc, Init(roots), acts).main.Failed?
    ensures IsCulprit(roots, proc, Run(proc, Init(roots), acts).main.err)
    ensures !Clean(roots, proc)
  {
    InitHolds(roots, proc);
    RunHolds(roots, proc, Init(roots), acts);
    CulpritIsCulprit(roots, proc, Run(proc, Init(roots), acts).main.err);
  }

  // ---- deadlock freedom ----

  ghost predicate CanMove(s: State) {
    exists a :: Enabled(s, a)
  }

  lemma LiveWorker(workers: seq<Worker>) returns (w: nat)
    requires Live(workers) > 0
    ensures w < |workers| && !workers[w].Unborn? && !workers[w].Finished?
  {
    if !workers[0].Unborn? && !workers[0].Finished? {
      w := 0;
    } else {
      var v := LiveWorker(workers[1..]);
      w := v + 1;
    }
  }

  lemma CollectingCanMove(s: State)
    requires Structured(s) && s.main.Collecting?
    ensures CanMove(s)
  {
    if s.spawner.Closed? {
      SortSorts(s.main.jars);
      assert Enabled(s, Finish(Sort(s.main.jars)));
    } else if s.spawner.Launching? {
      assert Enabled(s, Launch);
    } else if s.spawner.k < WORKERS {
      assert Enabled(s, Add);
    } else if s.wg == 0 {
      assert Enabled(s, CloseResults);
    } else {
      var w := LiveWorker(s.workers);
      match s.workers[w]
      case Processing(_) => assert Enabled(s, Compute(w));
      case Sending(_) => assert Enabled(s, Deliver(w));
      case Leaving => assert Enabled(s, Done(w));
      case Receiving =>
        if s.pathsClosed {
          assert Enabled(s, Leave(w));
        } else {
          match NextMove(s.producer.todo)
          case Exhausted => assert Enabled(s, ClosePaths);
          case Silent => assert Enabled(s, Walk);
          case Offer(_) => assert Enabled(s, HandOff(w));
          case Abort(_) => assert Enabled(s, Report);
        }
    }
  }

  /** Until main returns, some goroutine can move. */
  lemma DeadlockFree(roots: seq<Root>, proc: string -> Outcome, acts: seq<Action>)
    requires Schedulable(proc, Init(roots), acts)
    ensures Run(proc, Init(roots), acts).main.Collecting? ==> CanMove(Run(proc, Init(roots), acts))
  {
    InitHolds(roots, proc);
    RunHolds(roots, proc, Init(roots), acts);
    if Run(proc, Init(roots), acts).main.Collecting? {
      CollectingCanMove(Run(proc, Init(roots), acts));
    }
  }

  // ---- termination ----

  function VisitWork(visits: seq<Visit>): nat {
    if visits == [] then 0 else 3 + VisitWork(visits[1..])
  }

  function Work(todo: seq<Root>): nat {
    if todo == [] then 0
    else 1 + (if todo[0].Tree? then VisitWork(todo[0].visits) else 0) + Work(todo[1..])
  }

  /** A bound on the actions still possible, however they are scheduled. */
  function Measure(s: State): int {
    (if s.producer.Walking? then 1 + Work(s.producer.todo) else 0)
    + (match s.spawner
       case Adding(k) => 2 * (WORKERS - k) + 1
       case Launching(k) => 2 * (WORKERS - k)
       case Closed => 0)
    + Potentials(s.workers)
    + (if s.main.Collecting? then 1 else 0)
  }

  lemma RestIsLess(todo: seq<Root>)
    requires NextMove(todo).Silent? || NextMove(todo).Offer?
    ensures Work(Rest(todo)) < Work(todo)
    ensures NextMove(todo).Offer? ==> Work(Rest(todo)) + 3 == Work(todo)
  {
    if todo[0].Tree? && todo[0].visits != [] {
      assert Rest(todo)[0] == Tree(todo[0].visits[1..]) && Rest(todo)[1..] == todo[1..];
    }
  }

  /** The spawner does not count too far and launches what is not yet born. */
  predicate SpawnerInRange(s: State) {
    match s.spawner
    case Adding(k) => k <= WORKERS
    case Launching(k) => k < WORKERS && k < |s.workers| && s.workers[k].Unborn?
    case Closed => true
  }

  lemma StructuredSpawner(s: State)
    requires Structured(s)
    ensures SpawnerInRange(s)
  {
  }

  lemma StepUsesUp(proc: string -> Outcome, s: State, a: Action)
    requires Enabled(s, a) && !Misuse(s) && SpawnerInRange(s)
    ensures Measure(Next(proc, s, a)) < Measure(s)
  {
    hide Misuse;
    MovedIsNext(proc, s, a);
    if Moved(proc, s, a).Some? {
      var (w, x) := Moved(proc, s, a).value;
      UpdatePotentials(s.workers, w, x);
    }
    if a.Walk? || a.HandOff? { RestIsLess(s.producer.todo); }
    hide NextMove, Rest, Work, Potentials;
  }

  /** Every action uses up some of the measure, which never runs below zero. */
  lemma MeasureDecreases(proc: string -> Outcome, s: State, a: Action)
    requires Structured(s) && Enabled(s, a)
    ensures 0 <= Measure(Next(proc, s, a)) < Measure(s)
  {
    hide Enabled, Structured, Next, Misuse;
    NoMisuse(s);
    StructuredSpawner(s);
    StepUsesUp(proc, s, a);
    StructuredStep(proc, s, a);
    StructuredSpawner(Next(proc, s, a));
  }

  lemma {:induction false} RunIsBounded(proc: string -> Outcome, s: State, acts: seq<Action>)
    requires Structured(s) && Schedulable(proc, s, acts)
    ensures |acts| + Measure(Run(proc, s, acts)) <= Measure(s) && Measure(Run(proc, s, acts)) >= 0
    decreases |acts|
  {
    if acts != [] {
      MeasureDecreases(proc, s, acts[0]);
      StructuredStep(proc, s, acts[0]);
      RunIsBounded(proc, Next(proc, s, acts[0]), acts[1..]);
    }
  }

  /** Termination: no schedule is longer than a bound known before the run starts. */
  lemma Terminates(roots: seq<Root>, proc: string -> Outcome, acts: seq<Action>)
    requires Schedulable(proc, Init(roots), acts)
    ensures |acts| <= Work(roots) + 643
  {
    InitHolds(roots, proc);
    AllUnborn(Init(roots).workers);
    RunIsBounded(proc, Init(roots), acts);
  }

  /** From every reachable state a run can be played to an end, so the ends spoken of below exist. */
  lemma {:induction false} RunsCanEnd(proc: string -> Outcome, s: State) returns (more: seq<Action>)
    requires Structured(s)
    ensures Schedulable(proc, s, more) && !CanMove(Run(proc, s, more))
    decreases Measure(s)
  {
    more := [];
    if CanMove(s) {
      var a :| Enabled(s, a);
      MeasureDecreases(proc, s, a);
      StructuredStep(proc, s, a);
      var rest := RunsCanEnd(proc, Next(proc, s, a));
      more := [a] + rest;
      assert more[1..] == rest;
    }
  }

  // ---- the outcome ----

  /** Every schedule that cannot be extended ends with main returned, and it returns the
      expected listing, in ascending order, exactly when nothing goes wrong; otherwise it returns a
      real error. */
  lemma EveryRunReturns(roots: seq<Root>, proc: string -> Outcome, acts: seq<Action>)
    requires Schedulable(proc, Init(roots), acts) && !CanMove(Run(proc, Init(roots), acts))
    ensures var main := Run(proc, Init(roots), acts).main;
      if Clean(roots, proc) then main == Listed(Listing(roots, proc)) && IsListing(roots, proc, main.jars)
      else main.Failed? && IsCulprit(roots, proc, main.err)
  {
    DeadlockFree(roots, proc, acts);
    if Run(proc, Init(roots), acts).main.Listed? {
      ListedIsListing(roots, proc, acts);
    } else {
      FailedHasCulprit(roots, proc, acts);
    }
  }

  /** Any two runs that list, list the same sequence. */
  lemma InterleavingsAgree(roots: seq<Root>, proc: string -> Outcome, acts: seq<Action>, acts': seq<Action>)
    requires Schedulable(proc, Init(roots), acts) && Run(proc, Init(roots), acts).main.Listed?
    requires Schedulable(proc, Init(roots), acts') && Run(proc, Init(roots), acts').main.Listed?
    ensures Run(proc, Init(roots), acts).main.jars == Run(proc, Init(roots), acts').main.jars
  {
    ListedIsListing(roots, proc, acts);
    ListedIsListing(roots, proc, acts');
  }
}
