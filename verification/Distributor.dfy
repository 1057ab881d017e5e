/** The distributed query collector: one worker per shard and a watcher, over every
    interleaving of their steps, and the collation of what was collected. */
module Distributing {
  import opened Wrappers
  import opened Sorting

  // score stands for the combined score
  datatype Result = Result(docId: int, url: string, title: string, score: int, shard: int)

  datatype Config = Config(needed: int, threshold: int)

  // where a worker stands in its result callback: waiting for the stream, past the first
  // look at the stop flag, past the push, past the count, out of the stream, gone
  datatype Phase = Listening | Holding(r: Result) | Pushed(r: Result) | Counted | Leaving | Gone

  // history: the results taken from the stream, and how many were pushed once stop was set
  datatype Worker = Worker(phase: Phase, taken: seq<Result>, late: nat)

  // the watcher: in its loop, having seen enough good results, past its loop, joining, done
  datatype Watcher = Watching | SawEnough | Broken | Joining | Joined

  // history: why the watcher left its loop
  datatype Reason = NoneYet | Enough | AllGone | Deadline

  datatype State = State(workers: seq<Worker>, watcher: Watcher, reason: Reason,
                         results: seq<Result>, good: int, stop: bool, alive: int)

  datatype Action =
    | Deliver(w: nat, r: Result) | Push(w: nat) | Count(w: nat) | Decide(w: nat) | EndStream(w: nat) | Leave(w: nat)
    | SeeEnough | SignalStop | SeeAllGone | PassDeadline | Stop | Join

  predicate IsGood(c: Config, r: Result) { r.score >= c.threshold }

  function Initial(shards: nat): State {
    State(seq(shards, _ => Worker(Listening, [], 0)), Watching, NoneYet, [], 0, false, shards)
  }

  function PhaseOf(s: State, w: nat): Phase
    requires w < |s.workers|
  {
    s.workers[w].phase
  }

  function WithWorker(s: State, w: nat, worker: Worker): State
    requires w < |s.workers|
  {
    s.(workers := s.workers[w := worker])
  }

  predicate Enabled(c: Config, s: State, a: Action) {
    match a
    case Deliver(w, r) => w < |s.workers| && PhaseOf(s, w).Listening?
    case Push(w) => w < |s.workers| && PhaseOf(s, w).Holding?
    case Count(w) => w < |s.workers| && PhaseOf(s, w).Pushed?
    case Decide(w) => w < |s.workers| && PhaseOf(s, w).Counted?
    case EndStream(w) => w < |s.workers| && PhaseOf(s, w).Listening?
    case Leave(w) => w < |s.workers| && PhaseOf(s, w).Leaving?
    case SeeEnough => s.watcher.Watching? && s.good >= c.needed
    case SignalStop => s.watcher.SawEnough?
    case SeeAllGone => s.watcher.Watching? && s.alive == 0
    case PassDeadline => s.watcher.Watching?
    case Stop => s.watcher.Broken?
    case Join => s.watcher.Joining? && forall w :: 0 <= w < |s.workers| ==> PhaseOf(s, w).Gone?
  }

  function Apply(c: Config, s: State, a: Action): State
    requires Enabled(c, s, a)
  {
    match a
    case Deliver(w, r) =>
      var worker := s.workers[w];
      if s.stop then WithWorker(s, w, worker.(phase := Leaving))
      else WithWorker(s, w, worker.(phase := Holding(r.(shard := w)), taken := worker.taken + [r.(shard := w)]))
    case Push(w) =>
      var worker := s.workers[w];
      WithWorker(s, w, worker.(phase := Pushed(worker.phase.r), late := worker.late + if s.stop then 1 else 0))
        .(results := s.results + [worker.phase.r])
    case Count(w) =>
      var worker := s.workers[w];
      WithWorker(s, w, worker.(phase := Counted))
        .(good := s.good + if IsGood(c, worker.phase.r) then 1 else 0)
    case Decide(w) => WithWorker(s, w, s.workers[w].(phase := if s.stop then Leaving else Listening))
    case EndStream(w) => WithWorker(s, w, s.workers[w].(phase := Leaving))
    case Leave(w) => WithWorker(s, w, s.workers[w].(phase := Gone)).(alive := s.alive - 1)
    case SeeEnough => s.(watcher := SawEnough, reason := Enough)
    case SignalStop => s.(watcher := Broken, stop := true)
    case SeeAllGone => s.(watcher := Broken, reason := AllGone)
    case PassDeadline => s.(watcher := Broken, reason := Deadline)
    case Stop => s.(watcher := Joining, stop := true)
    case Join => s.(watcher := Joined)
  }

  // ---- what every step keeps

  function CountIf<T>(s: seq<T>, p: T -> bool): nat {
    if s == [] then 0 else CountIf(s[..|s| - 1], p) + if p(s[|s| - 1]) then 1 else 0
  }

  lemma {:induction false} CountIfUpdate<T>(s: seq<T>, p: T -> bool, i: nat, x: T)
    requires i < |s|
    ensures CountIf(s[i := x], p) == CountIf(s, p) + (if p(x) then 1 else 0) - (if p(s[i]) then 1 else 0)
  {
    var n := |s| - 1;
    if i == n {
      assert s[i := x][..n] == s[..n];
    } else {
      CountIfUpdate(s[..n], p, i, x);
      assert s[i := x][..n] == s[..n][i := x];
    }
  }

  lemma CountIfAppend<T>(s: seq<T>, p: T -> bool, x: T)
    ensures CountIf(s + [x], p) == CountIf(s, p) + if p(x) then 1 else 0
  {
    assert (s + [x])[..|s|] == s;
  }

  lemma {:induction false} CountIfNone<T>(s: seq<T>, p: T -> bool)
    requires forall i :: 0 <= i < |s| ==> !p(s[i])
    ensures CountIf(s, p) == 0
  {
    if s != [] {
      CountIfNone(s[..|s| - 1], p);
    }
  }

  lemma {:induction false} CountIfAll<T>(s: seq<T>, p: T -> bool)
    requires forall i :: 0 <= i < |s| ==> p(s[i])
    ensures CountIf(s, p) == |s|
  {
    if s != [] {
      CountIfAll(s[..|s| - 1], p);
    }
  }

  // pushed but not counted yet
  function IsUncounted(c: Config): Worker -> bool {
    (worker: Worker) => worker.phase.Pushed? && IsGood(c, worker.phase.r)
  }

  function IsAlive(): Worker -> bool { (worker: Worker) => !worker.phase.Gone? }

  function GoodOnes(c: Config): Result -> bool { (r: Result) => IsGood(c, r) }

  function FromShard(results: seq<Result>, w: int): seq<Result> {
    if results == [] then []
    else
      var last := results[|results| - 1];
      FromShard(results[..|results| - 1], w) + if last.shard == w then [last] else []
  }

  lemma FromShardAppend(results: seq<Result>, r: Result, w: int)
    ensures FromShard(results + [r], w) == FromShard(results, w) + if r.shard == w then [r] else []
  {
    assert (results + [r])[..|results|] == results;
  }

  // at most one result goes in once stop is set, and none before the worker sees the flag again
  ghost predicate IsLateAtMostOnce(stop: bool, worker: Worker) {
    && (!stop ==> worker.late == 0)
    && worker.late <= 1
    && (worker.late == 1 ==> !worker.phase.Listening? && !worker.phase.Holding?)
  }

  // everything taken from the stream is collected, in order, but for the one result in hand
  ghost predicate IsCollected(results: seq<Result>, w: nat, worker: Worker) {
    match worker.phase
    case Holding(r) => worker.taken == FromShard(results, w) + [r] && r.shard == w
    case _ => worker.taken == FromShard(results, w)
  }

  ghost predicate CountsAgree(c: Config, s: State) {
    && s.good + CountIf(s.workers, IsUncounted(c)) == CountIf(s.results, GoodOnes(c))
    && s.alive == CountIf(s.workers, IsAlive())
  }

  ghost predicate WorkersAgree(s: State) {
    && (forall w :: 0 <= w < |s.workers| ==> IsLateAtMostOnce(s.stop, s.workers[w]))
    && (forall w :: 0 <= w < |s.workers| ==> IsCollected(s.results, w, s.workers[w]))
  }

  ghost predicate WatcherAgrees(c: Config, s: State) {
    && (s.watcher.Joining? || s.watcher.Joined? ==> s.stop)
    && (s.watcher.Watching? ==> s.reason.NoneYet?)
    && (s.watcher.SawEnough? ==> s.reason.Enough?)
    && (s.watcher.Watching? || s.watcher.SawEnough? ==> !s.stop)
    && (s.stop && !s.watcher.Joining? && !s.watcher.Joined? ==> s.reason.Enough?)
    && (s.reason.Enough? ==> s.good >= c.needed)
    && (s.reason.AllGone? || s.watcher.Joined? ==> forall w :: 0 <= w < |s.workers| ==> s.workers[w].phase.Gone?)
  }

  ghost predicate Inv(c: Config, s: State) {
    CountsAgree(c, s) && WorkersAgree(s) && WatcherAgrees(c, s)
  }

  lemma InitialInv(c: Config, shards: nat)
    ensures Inv(c, Initial(shards))
  {
    var s := Initial(shards);
    CountIfNone(s.workers, IsUncounted(c));
    CountIfAll(s.workers, IsAlive());
  }

  lemma StepKeepsCounts(c: Config, s: State, a: Action)
    requires Enabled(c, s, a) && CountsAgree(c, s)
    ensures CountsAgree(c, Apply(c, s, a))
  {
    hide CountIf;
    var s' := Apply(c, s, a);
    if a.Deliver? || a.Push? || a.Count? || a.Decide? || a.EndStream? || a.Leave? {
      CountIfUpdate(s.workers, IsUncounted(c), a.w, s'.workers[a.w]);
      CountIfUpdate(s.workers, IsAlive(), a.w, s'.workers[a.w]);
      if a.Push? {
        CountIfAppend(s.results, GoodOnes(c), s.workers[a.w].phase.r);
      }
    }
  }

  lemma StepKeepsWorkers(c: Config, s: State, a: Action)
    requires Enabled(c, s, a) && WorkersAgree(s)
    ensures WorkersAgree(Apply(c, s, a))
  {
    hide FromShard;
    var s' := Apply(c, s, a);
    forall w | 0 <= w < |s.workers|
      ensures IsLateAtMostOnce(s'.stop, s'.workers[w]) && IsCollected(s'.results, w, s'.workers[w])
    {
      assert IsLateAtMostOnce(s.stop, s.workers[w]) && IsCollected(s.results, w, s.workers[w]);
      if a.Push? {
        assert IsCollected(s.results, a.w, s.workers[a.w]);
        FromShardAppend(s.results, s.workers[a.w].phase.r, w);
      }
    }
  }

  lemma NoneLeftAlive(workers: seq<Worker>)
    requires CountIf(workers, IsAlive()) == 0
    ensures forall w :: 0 <= w < |workers| ==> workers[w].phase.Gone?
  {
    if workers != [] {
      var n := |workers| - 1;
      NoneLeftAlive(workers[..n]);
      forall w | 0 <= w < n ensures workers[w].phase.Gone? {
        assert workers[..n][w].phase.Gone?;
      }
    }
  }

  lemma StepKeepsWatcher(c: Config, s: State, a: Action)
    requires Enabled(c, s, a) && CountsAgree(c, s) && WatcherAgrees(c, s)
    ensures WatcherAgrees(c, Apply(c, s, a))
  {
    hide CountIf;
    if a.SeeAllGone? {
      NoneLeftAlive(s.workers);
    } else if a.Join? {
      forall w | 0 <= w < |s.workers| ensures s.workers[w].phase.Gone? {
        assert PhaseOf(s, w).Gone?;
      }
    }
  }

  lemma StepKeepsInv(c: Config, s: State, a: Action)
    requires Enabled(c, s, a) && Inv(c, s)
    ensures Inv(c, Apply(c, s, a)) && |Apply(c, s, a).workers| == |s.workers|
    ensures s.stop ==> Apply(c, s, a).stop
  {
    hide CountsAgree, WorkersAgree, WatcherAgrees;
    StepKeepsCounts(c, s, a);
    StepKeepsWorkers(c, s, a);
    StepKeepsWatcher(c, s, a);
  }

  // ---- whole runs

  predicate IsRun(c: Config, s: State, actions: seq<Action>)
    decreases |actions|
  {
    actions == [] || (Enabled(c, s, actions[0]) && IsRun(c, Apply(c, s, actions[0]), actions[1..]))
  }

  function After(c: Config, s: State, actions: seq<Action>): State
    requires IsRun(c, s, actions)
    decreases |actions|
  {
    if actions == [] then s else After(c, Apply(c, s, actions[0]), actions[1..])
  }

  lemma {:induction false} RunKeepsInv(c: Config, s: State, actions: seq<Action>)
    requires IsRun(c, s, actions) && Inv(c, s)
    ensures Inv(c, After(c, s, actions)) && |After(c, s, actions).workers| == |s.workers|
    ensures s.stop ==> After(c, s, actions).stop
    decreases |actions|
  {
    hide Inv, Enabled;
    if actions != [] {
      StepKeepsInv(c, s, actions[0]);
      RunKeepsInv(c, Apply(c, s, actions[0]), actions[1..]);
    }
  }

  // ---- a run by its actions alone

  predicate SetsStop(a: Action) { a == SignalStop || a == Stop }

  // the actions before the stop flag is set, and those from then on
  function BeforeStop(actions: seq<Action>): seq<Action> {
    if actions == [] || SetsStop(actions[0]) then [] else [actions[0]] + BeforeStop(actions[1..])
  }

  function SinceStop(actions: seq<Action>): seq<Action> {
    if actions == [] || SetsStop(actions[0]) then actions else SinceStop(actions[1..])
  }

  // the results that the stream of shard w delivers, marked with the shard
  function Delivered(actions: seq<Action>, w: nat): seq<Result> {
    if actions == [] then []
    else
      var a := actions[|actions| - 1];
      Delivered(actions[..|actions| - 1], w) +
      if a.Deliver? && a.w == w then [Result(a.r.docId, a.r.url, a.r.title, a.r.score, w)] else []
  }

  // how often worker w puts in a result or is handed one
  function Handled(actions: seq<Action>, w: nat): nat {
    if actions == [] then 0
    else
      var a := actions[|actions| - 1];
      Handled(actions[..|actions| - 1], w) + if (a.Push? || a.Deliver?) && a.w == w then 1 else 0
  }

  // worker w looks at the flag at the start or the end of a callback
  predicate LooksAtStop(a: Action, w: nat) { (a.Deliver? || a.Decide?) && a.w == w }

  ghost predicate SawStop(actions: seq<Action>, w: nat) {
    exists a :: a in SinceStop(actions) && LooksAtStop(a, w)
  }

  predicate IsOf(a: Action, w: nat) {
    (a.Deliver? || a.Push? || a.Count? || a.Decide? || a.EndStream? || a.Leave?) && a.w == w
  }

  // the last action of worker w
  function LastOf(actions: seq<Action>, w: nat): (last: Option<Action>)
    ensures last.Some? ==> IsOf(last.value, w)
  {
    if actions == [] then None
    else if IsOf(actions[|actions| - 1], w) then Some(actions[|actions| - 1])
    else LastOf(actions[..|actions| - 1], w)
  }

  // where that leaves it: it waits for its stream at first and after each callback, unless it
  // has seen the flag; a result in hand is pushed and then counted
  ghost predicate StandsAfter(actions: seq<Action>, w: nat, phase: Phase) {
    match LastOf(actions, w)
    case None => phase.Listening?
    case Some(Deliver(_, r)) =>
      phase == Holding(Result(r.docId, r.url, r.title, r.score, w)) || (phase.Leaving? && SawStop(actions, w))
    case Some(Push(_)) => phase.Pushed?
    case Some(Count(_)) => phase.Counted?
    case Some(Decide(_)) => phase.Listening? || (phase.Leaving? && SawStop(actions, w))
    case Some(EndStream(_)) => phase.Leaving?
    case Some(_) => phase.Gone?
  }

  lemma LastAppend(actions: seq<Action>, a: Action, w: nat)
    ensures LastOf(actions + [a], w) == if IsOf(a, w) then Some(a) else LastOf(actions, w)
  {
    assert (actions + [a])[..|actions|] == actions;
  }

  function NumberOver(results: seq<Result>, threshold: int): nat {
    if results == [] then 0
    else
      NumberOver(results[..|results| - 1], threshold) +
      if results[|results| - 1].score >= threshold then 1 else 0
  }

  lemma {:induction false} StopAppend(actions: seq<Action>, a: Action)
    ensures BeforeStop(actions + [a]) ==
            BeforeStop(actions) + if SinceStop(actions) == [] && !SetsStop(a) then [a] else []
    ensures SinceStop(actions + [a]) ==
            if SinceStop(actions) == [] && !SetsStop(a) then [] else SinceStop(actions) + [a]
  {
    if actions == [] {
      assert [] + [a] == [a] && [a][1..] == [];
    } else if !SetsStop(actions[0]) {
      assert (actions + [a])[1..] == actions[1..] + [a];
      StopAppend(actions[1..], a);
    }
  }

  lemma OneMoreAction(actions: seq<Action>, a: Action, w: nat)
    ensures Delivered(actions + [a], w) ==
            Delivered(actions, w) +
            if a.Deliver? && a.w == w then [Result(a.r.docId, a.r.url, a.r.title, a.r.score, w)] else []
    ensures Handled(actions + [a], w) == Handled(actions, w) + if (a.Push? || a.Deliver?) && a.w == w then 1 else 0
  {
    assert (actions + [a])[..|actions|] == actions;
  }

  // what the actions so far say of worker w
  ghost predicate WorkerHistory(done: seq<Action>, w: nat, worker: Worker) {
    && StandsAfter(done, w, worker.phase)
    && worker.taken == Delivered(BeforeStop(done), w)
    && (EndStream(w) in done ==> worker.phase.Leaving? || worker.phase.Gone?)
    && (worker.phase.Leaving? || worker.phase.Gone? ==> EndStream(w) in done || SawStop(done, w))
    && Handled(SinceStop(done), w) <= 1
    && (Handled(SinceStop(done), w) == 1 ==> !worker.phase.Listening? && !worker.phase.Holding?)
  }

  ghost predicate WatcherHistory(done: seq<Action>, s: State) {
    && (s.stop <==> SinceStop(done) != [])
    && (s.watcher.Watching? || s.watcher.SawEnough? ==> !s.stop)
    && (s.reason.Enough? <==> SeeEnough in done)
    && (s.reason.AllGone? <==> SeeAllGone in done)
    && (s.reason.Deadline? <==> PassDeadline in done)
    && (s.watcher.Watching? <==> s.reason.NoneYet?)
    && (s.reason.AllGone? ==> forall w :: 0 <= w < |s.workers| ==> EndStream(w) in done)
  }

  ghost predicate History(done: seq<Action>, s: State) {
    && WatcherHistory(done, s)
    && (forall w :: 0 <= w < |s.workers| ==> WorkerHistory(done, w, s.workers[w]))
    && (forall r :: r in s.results ==> 0 <= r.shard < |s.workers|)
    && (forall w :: 0 <= w < |s.workers| && s.workers[w].phase.Holding? ==> s.workers[w].phase.r.shard == w)
  }

  // what one more action adds
  lemma DeliveredGrows(done: seq<Action>, a: Action, w: nat)
    ensures Delivered(BeforeStop(done + [a]), w) ==
            Delivered(BeforeStop(done), w) +
            if SinceStop(done) == [] && a.Deliver? && a.w == w
            then [Result(a.r.docId, a.r.url, a.r.title, a.r.score, w)] else []
  {
    hide BeforeStop, SinceStop, Delivered;
    StopAppend(done, a);
    OneMoreAction(BeforeStop(done), a, w);
    assert BeforeStop(done) + [] == BeforeStop(done);
    assert Delivered(BeforeStop(done), w) + [] == Delivered(BeforeStop(done), w);
  }

  lemma HandledGrows(done: seq<Action>, a: Action, w: nat)
    ensures Handled(SinceStop(done + [a]), w) ==
            Handled(SinceStop(done), w) + if SinceStop(done) != [] && (a.Push? || a.Deliver?) && a.w == w then 1 else 0
    ensures SinceStop(done) == [] ==> Handled(SinceStop(done), w) == 0
  {
    hide BeforeStop, SinceStop, Handled;
    StopAppend(done, a);
    OneMoreAction(SinceStop(done), a, w);
    NoneHandled(w);
  }

  lemma NoneHandled(w: nat)
    ensures Handled([], w) == 0
  {
  }

  lemma SawStopGrows(done: seq<Action>, a: Action, w: nat)
    ensures SawStop(done + [a], w) <==> SawStop(done, w) || (SinceStop(done) != [] && LooksAtStop(a, w))
    ensures SinceStop(done) == [] ==> !SawStop(done, w)
  {
    hide BeforeStop, SinceStop;
    StopAppend(done, a);
    var since := SinceStop(done);
    assert forall x :: x in since + [a] <==> x in since || x == a;
  }

  lemma WorkerGoesOn(c: Config, s: State, done: seq<Action>, a: Action, w: nat)
    requires Enabled(c, s, a) && w < |s.workers| && WorkerHistory(done, w, s.workers[w])
    requires s.stop <==> SinceStop(done) != []
    ensures WorkerHistory(done + [a], w, Apply(c, s, a).workers[w])
  {
    hide BeforeStop, SinceStop, Delivered, Handled, SawStop, LastOf;
    LastAppend(done, a, w);
    DeliveredGrows(done, a, w);
    HandledGrows(done, a, w);
    SawStopGrows(done, a, w);
  }

  lemma StepKeepsHistory(c: Config, s: State, done: seq<Action>, a: Action)
    requires Enabled(c, s, a) && History(done, s) && WatcherAgrees(c, s) && CountsAgree(c, s)
    ensures History(done + [a], Apply(c, s, a))
  {
    hide BeforeStop, SinceStop, Delivered, Handled, StandsAfter, CountIf;
    var s' := Apply(c, s, a);
    StopAppend(done, a);
    forall w | 0 <= w < |s.workers| ensures WorkerHistory(done + [a], w, s'.workers[w]) {
      WorkerGoesOn(c, s, done, a, w);
    }
    if a.SeeAllGone? {
      NoneLeftAlive(s.workers);
      forall w | 0 <= w < |s.workers| ensures EndStream(w) in done {
        assert WorkerHistory(done, w, s.workers[w]);
      }
    }
  }

  lemma {:induction false} RunKeepsHistory(c: Config, s: State, done: seq<Action>, actions: seq<Action>)
    requires IsRun(c, s, actions) && Inv(c, s) && History(done, s)
    ensures History(done + actions, After(c, s, actions))
    decreases |actions|
  {
    hide Inv, Enabled, History;
    if actions == [] {
      assert done + actions == done;
    } else {
      InvParts(c, s);
      StepKeepsHistory(c, s, done, actions[0]);
      StepKeepsInv(c, s, actions[0]);
      RunKeepsHistory(c, Apply(c, s, actions[0]), done + [actions[0]], actions[1..]);
      assert done + [actions[0]] + actions[1..] == done + actions;
    }
  }

  lemma InvParts(c: Config, s: State)
    requires Inv(c, s)
    ensures WatcherAgrees(c, s) && CountsAgree(c, s)
  {
  }

  lemma {:induction false} NumberIsCount(c: Config, results: seq<Result>)
    ensures CountIf(results, GoodOnes(c)) == NumberOver(results, c.threshold)
  {
    if results != [] {
      NumberIsCount(c, results[..|results| - 1]);
    }
  }

  // any interleaving, at any point: what a worker has taken is what its stream delivered before
  // the stop flag was set; it leaves for the end of its stream, or having looked at the flag
  // since it was set; and since then it has handled at most one result
  lemma RunByActions(c: Config, shards: nat, actions: seq<Action>)
    requires IsRun(c, Initial(shards), actions)
    ensures var s := After(c, Initial(shards), actions);
            && |s.workers| == shards
            && (s.stop <==> exists a :: a in actions && SetsStop(a))
            && (s.reason.Enough? <==> SeeEnough in actions)
            && (s.reason.AllGone? <==> SeeAllGone in actions)
            && (s.reason.Deadline? <==> PassDeadline in actions)
            && (s.reason.AllGone? ==> forall w :: 0 <= w < shards ==> EndStream(w) in actions)
            && forall w :: 0 <= w < shards ==> WorkerHistory(actions, w, s.workers[w])
  {
    hide Enabled, Inv, BeforeStop, SinceStop, Delivered, Handled;
    InitialInv(c, shards);
    InitialHistory(shards);
    RunKeepsInv(c, Initial(shards), actions);
    RunKeepsHistory(c, Initial(shards), [], actions);
    assert [] + actions == actions;
    StopIsSet(actions);
  }

  // every run goes on: a worker that waits may be handed any result or lose its stream, one with a
  // result in hand pushes it, counts it, and looks at the flag, and one whose stream is over leaves
  lemma RunGoesOn(c: Config, shards: nat, actions: seq<Action>, w: nat, r: Result)
    requires IsRun(c, Initial(shards), actions) && w < shards
    ensures var s, last := After(c, Initial(shards), actions), LastOf(actions, w);
            && (last.None? || (last.value.Decide? && !SawStop(actions, w)) ==>
                  Enabled(c, s, Deliver(w, r)) && Enabled(c, s, EndStream(w)))
            && (last.Some? && last.value.Deliver? && !SawStop(actions, w) ==> Enabled(c, s, Push(w)))
            && (last.Some? && last.value.Deliver? && SawStop(actions, w) ==>
                  Enabled(c, s, Push(w)) || Enabled(c, s, Leave(w)))
            && (last.Some? && last.value.Push? ==> Enabled(c, s, Count(w)))
            && (last.Some? && last.value.Count? ==> Enabled(c, s, Decide(w)))
            && (last.Some? && last.value.EndStream? ==> Enabled(c, s, Leave(w)))
            && (SinceStop(actions) == [] &&
                SeeEnough !in actions && SeeAllGone !in actions && PassDeadline !in actions ==>
                  Enabled(c, s, PassDeadline))
  {
    hide Inv, BeforeStop, SinceStop, Delivered, Handled, SawStop, LastOf;
    InitialInv(c, shards);
    InitialHistory(shards);
    RunKeepsInv(c, Initial(shards), actions);
    RunKeepsHistory(c, Initial(shards), [], actions);
    assert [] + actions == actions;
    var s := After(c, Initial(shards), actions);
    hide IsRun, After;
    assert WorkerHistory(actions, w, s.workers[w]);
    assert PhaseOf(s, w) == s.workers[w].phase;
  }

  lemma InitialHistory(shards: nat)
    ensures History([], Initial(shards))
  {
  }

  lemma {:induction false} StopIsSet(actions: seq<Action>)
    ensures SinceStop(actions) != [] <==> exists a :: a in actions && SetsStop(a)
  {
    if actions != [] && !SetsStop(actions[0]) {
      StopIsSet(actions[1..]);
    }
  }

  // up to the join: what is collected of each shard is what its stream delivered before the stop
  // flag was set, in order, and nothing else is collected; the count is that of the results at or
  // over the threshold; every worker left for a reason; and an early stop means enough of them
  lemma JoinedRun(c: Config, shards: nat, actions: seq<Action>)
    requires IsRun(c, Initial(shards), actions) && After(c, Initial(shards), actions).watcher.Joined?
    ensures var s := After(c, Initial(shards), actions);
            && s.stop && |s.workers| == shards
            && s.good == NumberOver(s.results, c.threshold)
            && s.alive == 0
            && (SeeEnough in actions ==> NumberOver(s.results, c.threshold) >= c.needed)
            && (SeeEnough in actions || PassDeadline in actions ||
                forall w :: 0 <= w < shards ==> EndStream(w) in actions)
            && (forall r :: r in s.results ==> 0 <= r.shard < shards)
            && (forall w :: 0 <= w < shards ==>
                  && FromShard(s.results, w) == Delivered(BeforeStop(actions), w)
                  && (EndStream(w) in actions || SawStop(actions, w))
                  && Handled(SinceStop(actions), w) <= 1
                  && s.workers[w].late <= 1 && s.workers[w].taken == FromShard(s.results, w))
  {
    hide CountIf, FromShard, Enabled, BeforeStop, SinceStop, Delivered, Handled, NumberOver, SawStop;
    InitialInv(c, shards);
    InitialHistory(shards);
    RunKeepsInv(c, Initial(shards), actions);
    RunKeepsHistory(c, Initial(shards), [], actions);
    assert [] + actions == actions;
    var s := After(c, Initial(shards), actions);
    NumberIsCount(c, s.results);
    CountIfNone(s.workers, IsUncounted(c));
    CountIfNone(s.workers, IsAlive());
    forall w | 0 <= w < shards
      ensures s.workers[w].late <= 1 && s.workers[w].taken == FromShard(s.results, w)
      ensures WorkerHistory(actions, w, s.workers[w]) && s.workers[w].phase.Gone?
    {
      assert IsLateAtMostOnce(s.stop, s.workers[w]) && IsCollected(s.results, w, s.workers[w]);
    }
  }

  // the watcher may stop early exactly when so many results over the threshold are in, once they
  // are counted, and may end with the streams exactly when every worker has left
  lemma WatcherSees(c: Config, s: State)
    requires Inv(c, s) && s.watcher.Watching?
    requires forall w :: 0 <= w < |s.workers| ==> !s.workers[w].phase.Pushed?
    ensures Enabled(c, s, SeeEnough) <==> NumberOver(s.results, c.threshold) >= c.needed
    ensures Enabled(c, s, SeeAllGone) <==> forall w :: 0 <= w < |s.workers| ==> s.workers[w].phase.Gone?
  {
    hide CountIf, NumberOver;
    NumberIsCount(c, s.results);
    CountIfNone(s.workers, IsUncounted(c));
    if s.alive == 0 {
      NoneLeftAlive(s.workers);
    }
    if forall w :: 0 <= w < |s.workers| ==> s.workers[w].phase.Gone? {
      CountIfNone(s.workers, IsAlive());
    }
  }

  // ---- the join comes: once stop is set every step brings it nearer, and one can be taken

  function StepsLeft(phase: Phase): nat {
    match phase
    case Holding(_) => 5
    case Pushed(_) => 4
    case Counted => 3
    case Listening => 2
    case Leaving => 1
    case Gone => 0
  }

  function WorkerSteps(workers: seq<Worker>): nat {
    if workers == [] then 0 else WorkerSteps(workers[..|workers| - 1]) + StepsLeft(workers[|workers| - 1].phase)
  }

  function Distance(s: State): nat {
    WorkerSteps(s.workers) + match s.watcher
                             case Watching => 4
                             case SawEnough => 3
                             case Broken => 2
                             case Joining => 1
                             case Joined => 0
  }

  lemma {:induction false} WorkerStepsUpdate(workers: seq<Worker>, i: nat, x: Worker)
    requires i < |workers|
    ensures WorkerSteps(workers[i := x]) == WorkerSteps(workers) + StepsLeft(x.phase) - StepsLeft(workers[i].phase)
  {
    var n := |workers| - 1;
    if i == n {
      assert workers[i := x][..n] == workers[..n];
    } else {
      WorkerStepsUpdate(workers[..n], i, x);
      assert workers[i := x][..n] == workers[..n][i := x];
    }
  }

  lemma StopEndsSoon(c: Config, s: State, a: Action)
    requires s.stop && Inv(c, s) && Enabled(c, s, a)
    ensures Distance(Apply(c, s, a)) < Distance(s)
  {
    hide WorkerSteps, CountsAgree, WorkersAgree;
    if a.Deliver? || a.Push? || a.Count? || a.Decide? || a.EndStream? || a.Leave? {
      WorkerStepsUpdate(s.workers, a.w, Apply(c, s, a).workers[a.w]);
    }
  }

  // while the watcher has not joined, something can happen that is not one more result: a step
  // of the program, the end of a stream, or the deadline
  lemma NeverStuck(c: Config, s: State) returns (a: Action)
    requires !s.watcher.Joined?
    ensures Enabled(c, s, a) && !a.Deliver?
  {
    if s.watcher.Watching? {
      return PassDeadline;
    } else if s.watcher.SawEnough? {
      return SignalStop;
    } else if s.watcher.Broken? {
      return Stop;
    }
    for w := 0 to |s.workers|
      invariant forall v :: 0 <= v < w ==> PhaseOf(s, v).Gone?
    {
      match PhaseOf(s, w)
      case Listening => return EndStream(w);
      case Holding(_) => return Push(w);
      case Pushed(_) => return Count(w);
      case Counted => return Decide(w);
      case Leaving => return Leave(w);
      case Gone =>
    }
    return Join;
  }

  // ---- collation

  function Descending(r: Result): int { -r.score }

  // sorted, one entry for each URL, at the best score collected for it
  ghost predicate AreBest(list: seq<Result>, results: seq<Result>) {
    && (forall i, j :: 0 <= i < j < |list| ==> list[i].score >= list[j].score && list[i].url != list[j].url)
    && (forall r :: r in list ==> r in results && forall x :: x in results && x.url == r.url ==> x.score <= r.score)
  }

  ghost predicate HasUrl(list: seq<Result>, url: string) {
    exists r :: r in list && r.url == url
  }

  // a URL is left out only when the list is full and no entry scores lower
  ghost predicate IsTop(list: seq<Result>, results: seq<Result>, needed: int) {
    && AreBest(list, results)
    && (needed >= 0 ==> |list| <= needed)
    && (forall x :: x in results && !HasUrl(list, x.url) ==>
          |list| == needed && forall r :: r in list ==> x.score <= r.score)
  }

  // the first of each URL, in a list sorted by score
  method Dedup(sorted: seq<Result>) returns (deduped: seq<Result>)
    requires IsSorted(sorted, Descending)
    ensures AreBest(deduped, sorted)
    ensures forall x :: x in sorted ==> HasUrl(deduped, x.url)
  {
    hide AreBest;
    deduped := [];
    var seen: set<string> := {};
    NothingIsBest(sorted);
    for i := 0 to |sorted|
      invariant AreBest(deduped, sorted)
      invariant forall url :: url in seen <==> HasUrl(deduped, url)
      invariant forall k :: 0 <= k < i ==> sorted[k].url in seen
      invariant forall r :: r in deduped ==> exists k :: 0 <= k < i && sorted[k] == r
    {
      var r := sorted[i];
      if r.url !in seen {
        FirstIsBest(sorted, deduped, i);
        seen := seen + {r.url};
        MoreUrls(deduped, r);
        deduped := deduped + [r];
      }
    }
  }

  lemma NothingIsBest(sorted: seq<Result>)
    ensures AreBest([], sorted)
  {
  }

  lemma MoreUrls(list: seq<Result>, r: Result)
    ensures forall url :: HasUrl(list + [r], url) <==> HasUrl(list, url) || url == r.url
  {
    assert r in list + [r];
    forall url | HasUrl(list, url) ensures HasUrl(list + [r], url) {
      var x :| x in list && x.url == url;
      assert x in list + [r];
    }
  }

  lemma FirstIsBest(sorted: seq<Result>, deduped: seq<Result>, i: nat)
    requires IsSorted(sorted, Descending) && i < |sorted| && AreBest(deduped, sorted)
    requires !HasUrl(deduped, sorted[i].url) && forall k :: 0 <= k < i ==> HasUrl(deduped, sorted[k].url)
    requires forall r :: r in deduped ==> exists k :: 0 <= k < i && sorted[k] == r
    ensures AreBest(deduped + [sorted[i]], sorted)
  {
    hide HasUrl, IsSorted;
    var r := sorted[i];
    forall k | 0 <= k < |deduped| ensures deduped[k].score >= r.score && deduped[k].url != r.url {
      assert deduped[k] in deduped;
      UrlIsIn(deduped, deduped[k]);
      var j :| 0 <= j < i && sorted[j] == deduped[k];
      ScoresFall(sorted, j, i);
    }
    forall x | x in sorted && x.url == r.url ensures x.score <= r.score {
      assert forall k :: 0 <= k < i ==> sorted[k].url != r.url;
      var j :| 0 <= j < |sorted| && sorted[j] == x;
      ScoresFall(sorted, i, j);
    }
  }

  lemma UrlIsIn(list: seq<Result>, r: Result)
    requires r in list
    ensures HasUrl(list, r.url)
  {
  }

  lemma ScoresFall(sorted: seq<Result>, i: nat, j: nat)
    requires IsSorted(sorted, Descending) && i <= j < |sorted|
    ensures sorted[i].score >= sorted[j].score
  {
    assert i < j ==> Descending(sorted[i]) <= Descending(sorted[j]);
  }

  // sort by score, keep the best of each URL, cut to what was asked for
  method Collate(results: seq<Result>, needed: int) returns (top: seq<Result>)
    ensures IsTop(top, results, needed)
  {
    hide AreBest, IsSorted;
    var sorted := Sort(results, Descending);
    top := Dedup(sorted);
    forall x ensures x in sorted <==> x in results {
      SameElements(results, sorted, x);
    }
    SameResults(top, sorted, results);
    // a negative count converts to a huge unsigned one
    if needed >= 0 && |top| > needed {
      CutIsTop(top, results, needed);
      top := top[..needed];
    }
  }

  lemma SameResults(list: seq<Result>, sorted: seq<Result>, results: seq<Result>)
    requires AreBest(list, sorted) && forall x :: x in sorted <==> x in results
    ensures AreBest(list, results)
  {
  }

  lemma CutIsTop(list: seq<Result>, results: seq<Result>, needed: nat)
    requires AreBest(list, results) && needed < |list|
    requires forall x :: x in results ==> HasUrl(list, x.url)
    ensures IsTop(list[..needed], results, needed)
  {
    var cut := list[..needed];
    forall r | r in cut ensures r in list {}
    forall x, r | x in results && !HasUrl(cut, x.url) && r in cut ensures x.score <= r.score {
      assert HasUrl(list, x.url);
      BestIsAhead(list, results, needed, x, r);
    }
  }

  lemma BestIsAhead(list: seq<Result>, results: seq<Result>, needed: nat, x: Result, r: Result)
    requires AreBest(list, results) && needed < |list| && x in results
    requires HasUrl(list, x.url) && !HasUrl(list[..needed], x.url) && r in list[..needed]
    ensures x.score <= r.score
  {
    var y :| y in list && y.url == x.url;
    var j :| 0 <= j < |list| && list[j] == y;
    var i :| 0 <= i < needed && list[..needed][i] == r;
    forall k | 0 <= k < needed ensures list[k].url != x.url {
      assert list[..needed][k] in list[..needed];
    }
  }
}
