/** The goroutines of scanUserTree in internal/server/admin_jobs.go as a state machine: one walker,
    N workers, a closer and the consumer over two bounded channels, with cancellation at any moment. */
module ScanPipeline {

  datatype Walker<T> = Walking(left: seq<T>) | Ended

  datatype Worker<T> = Idle | Holding(item: T) | Exited

  /** Draining: a flush failed and the rest of the results is thrown away. */
  datatype Consumer = Receiving | Draining | Returned(ok: bool)

  datatype State<T> = State(
    ctxDone: bool,
    walker: Walker<T>,
    sent: seq<T>,
    walkErr: bool,
    walkCh: seq<T>,
    workers: seq<Worker<T>>,
    resultCh: seq<T>,
    resultClosed: bool,
    consumer: Consumer,
    consumed: seq<T>,
    dropped: seq<T>)

  function Init<T>(all: seq<T>, workers: nat): State<T> {
    State(false, Walking(all), [], false, [], seq(workers, i => Idle), [], false, Receiving, [], [])
  }

  // ---------------------------------------------------------------- steps

  datatype Action =
    | Cancel
    | WalkSend | WalkStop(err: bool) | WalkFail | WalkFinish
    | WorkerTake(i: nat) | WorkerExit(i: nat) | WorkerSend(i: nat) | WorkerDrop(i: nat)
    | CloseResults
    | Receive(flushOk: bool) | Break | Finish(flushOk: bool)
    | DrainOne | DrainEnd

  /** What the goroutines do by themselves; cancellation and walk errors come from outside. */
  predicate Internal(a: Action) { !a.Cancel? && !a.WalkFail? }

  predicate Enabled<T>(s: State<T>, a: Action, cap: nat) {
    match a
    case Cancel => !s.ctxDone
    case WalkSend => s.walker.Walking? && s.walker.left != [] && |s.walkCh| < cap
    case WalkStop(_) => s.walker.Walking? && s.ctxDone
    case WalkFail => s.walker.Walking?
    case WalkFinish => s.walker.Walking? && s.walker.left == []
    case WorkerTake(i) => i < |s.workers| && s.workers[i].Idle? && s.walkCh != []
    case WorkerExit(i) => i < |s.workers| && s.workers[i].Idle? && s.walkCh == [] && s.walker.Ended?
    case WorkerSend(i) => i < |s.workers| && s.workers[i].Holding? && |s.resultCh| < cap
    case WorkerDrop(i) => i < |s.workers| && s.workers[i].Holding? && s.ctxDone
    case CloseResults => !s.resultClosed && AllExited(s.workers)
    case Receive(_) => s.consumer.Receiving? && s.resultCh != [] && !s.ctxDone
    case Break => s.consumer.Receiving? && s.resultCh != [] && s.ctxDone
    case Finish(_) => s.consumer.Receiving? && s.resultCh == [] && s.resultClosed
    case DrainOne => s.consumer.Draining? && s.resultCh != []
    case DrainEnd => s.consumer.Draining? && s.resultCh == [] && s.resultClosed
  }

  function Apply<T>(s: State<T>, a: Action, cap: nat): State<T>
    requires Enabled(s, a, cap)
  {
    match a
    case Cancel => s.(ctxDone := true)
    case WalkSend =>
      s.(walker := Walking(s.walker.left[1..]), sent := s.sent + [s.walker.left[0]],
         walkCh := s.walkCh + [s.walker.left[0]])
    case WalkStop(err) => s.(walker := Ended, walkErr := err)
    case WalkFail => s.(walker := Ended, walkErr := true)
    case WalkFinish => s.(walker := Ended)
    case WorkerTake(i) => s.(workers := s.workers[i := Holding(s.walkCh[0])], walkCh := s.walkCh[1..])
    case WorkerExit(i) => s.(workers := s.workers[i := Exited])
    case WorkerSend(i) => s.(workers := s.workers[i := Idle], resultCh := s.resultCh + [s.workers[i].item])
    case WorkerDrop(i) =>
      s.(workers := s.workers[i := Exited], dropped := s.dropped + [s.workers[i].item])
    case CloseResults => s.(resultClosed := true)
    case Receive(flushOk) =>
      s.(resultCh := s.resultCh[1..], consumed := s.consumed + [s.resultCh[0]],
         consumer := if flushOk then Receiving else Draining)
    case Break =>
      s.(resultCh := s.resultCh[1..], dropped := s.dropped + [s.resultCh[0]], consumer := Returned(false))
    case Finish(flushOk) => s.(consumer := Returned(!s.ctxDone && !s.walkErr && flushOk))
    case DrainOne => s.(resultCh := s.resultCh[1..], dropped := s.dropped + [s.resultCh[0]])
    case DrainEnd => s.(consumer := Returned(false))
  }

  predicate Takes<T(==)>(s: State<T>, a: Action, t: State<T>, cap: nat) {
    Enabled(s, a, cap) && t == Apply(s, a, cap)
  }

  ghost predicate Step<T(!new)>(s: State<T>, t: State<T>, cap: nat) {
    exists a :: Takes(s, a, t, cap)
  }

  predicate AllExited<T>(ws: seq<Worker<T>>) {
    forall i :: 0 <= i < |ws| ==> ws[i].Exited?
  }

  // ---------------------------------------------------------------- the invariant

  function Count<T(==)>(s: seq<T>, x: T): nat {
    if s == [] then 0 else (if s[0] == x then 1 else 0) + Count(s[1..], x)
  }

  function InHand<T(==)>(w: Worker<T>, x: T): nat {
    if w.Holding? && w.item == x then 1 else 0
  }

  function Held<T(==)>(ws: seq<Worker<T>>, x: T): nat {
    if ws == [] then 0 else InHand(ws[0], x) + Held(ws[1..], x)
  }

  lemma {:induction false} CountConcat<T>(a: seq<T>, b: seq<T>, x: T)
    ensures Count(a + b, x) == Count(a, x) + Count(b, x)
  {
    if a == [] {
      assert a + b == b;
    } else {
      assert (a + b)[1..] == a[1..] + b;
      CountConcat(a[1..], b, x);
    }
  }

  lemma {:induction false} CountIsMultiset<T>(s: seq<T>, x: T)
    ensures Count(s, x) == multiset(s)[x]
  {
    if s != [] {
      assert s == [s[0]] + s[1..];
      CountIsMultiset(s[1..], x);
    }
  }

  lemma {:induction false} HeldUpdate<T>(ws: seq<Worker<T>>, i: nat, w: Worker<T>, x: T)
    requires i < |ws|
    ensures Held(ws[i := w], x) + InHand(ws[i], x) == Held(ws, x) + InHand(w, x)
  {
    if i > 0 {
      assert ws[i := w][1..] == ws[1..][i-1 := w];
      HeldUpdate(ws[1..], i - 1, w, x);
    } else {
      assert ws[i := w][1..] == ws[1..];
    }
  }

  lemma {:induction false} HeldNone<T>(ws: seq<Worker<T>>, x: T)
    requires AllExited(ws)
    ensures Held(ws, x) == 0
  {
    if ws != [] {
      HeldNone(ws[1..], x);
    }
  }

  /** Where every copy of x that was sent is: nothing is lost or duplicated. */
  ghost predicate ConservedAt<T>(s: State<T>, x: T) {
    Count(s.consumed, x) + Count(s.resultCh, x) + Held(s.workers, x) + Count(s.walkCh, x) + Count(s.dropped, x)
      == Count(s.sent, x)
  }

  ghost predicate Conserved<T(!new)>(s: State<T>) { forall x :: ConservedAt(s, x) }

  /** What the channels, the goroutines and their results are worth to each other. */
  ghost predicate Ordered<T(!new)>(s: State<T>, all: seq<T>, cap: nat) {
    && |s.workers| > 0
    && s.sent <= all
    && |s.walkCh| <= cap && |s.resultCh| <= cap
    && (s.walker.Walking? ==> s.sent + s.walker.left == all && !s.walkErr)
    && (s.walker.Ended? && !s.walkErr && !s.ctxDone ==> s.sent == all)
    && (forall i :: 0 <= i < |s.workers| && s.workers[i].Exited? && !s.ctxDone ==> s.walker.Ended? && s.walkCh == [])
    && (s.resultClosed ==> AllExited(s.workers))
    && (s.consumer.Receiving? && !s.ctxDone ==> s.dropped == [])
    && (s.consumer.Returned? ==> s.ctxDone || s.resultClosed)
    && (s.consumer == Returned(true) ==>
          s.resultClosed && s.walker.Ended? && !s.walkErr && ConsumedAll(s, all))
  }

  ghost predicate ConsumedAll<T(!new)>(s: State<T>, all: seq<T>) {
    forall x :: Count(s.consumed, x) == Count(all, x)
  }

  ghost predicate Inv<T(!new)>(s: State<T>, all: seq<T>, cap: nat) {
    Conserved(s) && Ordered(s, all, cap)
  }

  lemma InitInv<T(!new)>(all: seq<T>, workers: nat, cap: nat)
    requires workers > 0
    ensures Inv(Init(all, workers), all, cap)
  {
    forall x: T ensures ConservedAt(Init(all, workers), x) { HeldIdle(workers, x); }
    assert [] + all == all;
  }

  lemma {:induction false} HeldIdle<T>(n: nat, x: T)
    ensures Held(seq(n, i => Worker<T>.Idle), x) == 0
  {
    if n > 0 {
      assert seq(n, i => Worker<T>.Idle)[1..] == seq(n - 1, i => Worker<T>.Idle);
      HeldIdle(n - 1, x);
    }
  }

  lemma WorkerConserves<T(!new)>(s: State<T>, a: Action, cap: nat, x: T)
    requires ConservedAt(s, x) && Enabled(s, a, cap)
    requires a.WorkerTake? || a.WorkerExit? || a.WorkerSend? || a.WorkerDrop?
    ensures ConservedAt(Apply(s, a, cap), x)
  {
    match a {
      case WorkerTake(i) => HeldUpdate(s.workers, i, Holding(s.walkCh[0]), x);
      case WorkerExit(i) => HeldUpdate(s.workers, i, Exited, x);
      case WorkerSend(i) =>
        HeldUpdate(s.workers, i, Idle, x);
        CountConcat(s.resultCh, [s.workers[i].item], x);
      case WorkerDrop(i) =>
        HeldUpdate(s.workers, i, Exited, x);
        CountConcat(s.dropped, [s.workers[i].item], x);
    }
  }

  lemma StepConserves<T(!new)>(s: State<T>, a: Action, cap: nat, x: T)
    requires ConservedAt(s, x) && Enabled(s, a, cap)
    ensures ConservedAt(Apply(s, a, cap), x)
  {
    if a.WorkerTake? || a.WorkerExit? || a.WorkerSend? || a.WorkerDrop? {
      WorkerConserves(s, a, cap, x);
    } else if a.WalkSend? {
      CountConcat(s.sent, [s.walker.left[0]], x);
      CountConcat(s.walkCh, [s.walker.left[0]], x);
    } else if a.Receive? {
      CountConcat(s.consumed, [s.resultCh[0]], x);
    } else if a.Break? || a.DrainOne? {
      CountConcat(s.dropped, [s.resultCh[0]], x);
    }
  }

  lemma WalkerKeepsOrder<T(!new)>(s: State<T>, a: Action, all: seq<T>, cap: nat)
    requires Ordered(s, all, cap) && Enabled(s, a, cap)
    requires a.Cancel? || a.WalkSend? || a.WalkStop? || a.WalkFail? || a.WalkFinish?
    ensures Ordered(Apply(s, a, cap), all, cap)
  {
    if a.WalkSend? {
      var t := Apply(s, a, cap);
      assert t.sent + t.walker.left == s.sent + s.walker.left;
    } else if a.WalkFinish? {
      assert s.sent + [] == s.sent;
    }
  }

  lemma WorkerKeepsOrder<T(!new)>(s: State<T>, a: Action, all: seq<T>, cap: nat)
    requires Ordered(s, all, cap) && Enabled(s, a, cap)
    requires a.WorkerTake? || a.WorkerExit? || a.WorkerSend? || a.WorkerDrop?
    ensures Ordered(Apply(s, a, cap), all, cap)
  {
    assert !AllExited(s.workers);
  }

  lemma ConsumerKeepsOrder<T(!new)>(s: State<T>, a: Action, all: seq<T>, cap: nat)
    requires Inv(s, all, cap) && Enabled(s, a, cap)
    requires a.CloseResults? || a.Receive? || a.Break? || a.Finish? || a.DrainOne? || a.DrainEnd?
    ensures Ordered(Apply(s, a, cap), all, cap)
  {
    if a.Finish? {
      assert s.workers[0].Exited?;
      if Apply(s, a, cap).consumer.ok { FinishedConsumedAll(s, all, cap); }
    }
  }

  /** When the result channel is closed and drained, with no cancel and no walk error, all is consumed. */
  lemma FinishedConsumedAll<T(!new)>(s: State<T>, all: seq<T>, cap: nat)
    requires Inv(s, all, cap) && s.consumer.Receiving? && s.resultCh == [] && s.resultClosed
    requires !s.ctxDone && !s.walkErr
    ensures ConsumedAll(s, all)
  {
    assert s.workers[0].Exited?;
    forall x: T ensures Count(s.consumed, x) == Count(all, x) {
      assert ConservedAt(s, x);
      HeldNone(s.workers, x);
    }
  }

  /** Every step of every interleaving keeps the invariant. */
  lemma StepInv<T(!new)>(s: State<T>, a: Action, all: seq<T>, cap: nat)
    requires Inv(s, all, cap) && Enabled(s, a, cap)
    ensures Inv(Apply(s, a, cap), all, cap)
  {
    forall x: T ensures ConservedAt(Apply(s, a, cap), x) { StepConserves(s, a, cap, x); }
    if a.WorkerTake? || a.WorkerExit? || a.WorkerSend? || a.WorkerDrop? {
      WorkerKeepsOrder(s, a, all, cap);
    } else if a.Cancel? || a.WalkSend? || a.WalkStop? || a.WalkFail? || a.WalkFinish? {
      WalkerKeepsOrder(s, a, all, cap);
    } else {
      ConsumerKeepsOrder(s, a, all, cap);
    }
  }

  // ---------------------------------------------------------------- runs

  ghost predicate Steps<T(!new)>(run: seq<State<T>>, cap: nat) {
    |run| > 0 && forall i :: 0 <= i < |run| - 1 ==> Step(run[i], run[i+1], cap)
  }

  ghost predicate Run<T(!new)>(run: seq<State<T>>, all: seq<T>, workers: nat, cap: nat) {
    Steps(run, cap) && run[0] == Init(all, workers)
  }

  lemma {:induction false} RunInv<T(!new)>(run: seq<State<T>>, all: seq<T>, workers: nat, cap: nat, n: nat)
    requires workers > 0 && Run(run, all, workers, cap) && n < |run|
    ensures Inv(run[n], all, cap)
  {
    if n == 0 {
      InitInv(all, workers, cap);
    } else {
      RunInv(run, all, workers, cap, n - 1);
      assert Step(run[n-1], run[n-1+1], cap);
      var a :| Takes(run[n-1], a, run[n], cap);
      StepInv(run[n-1], a, all, cap);
    }
  }

  predicate NoDuplicates<T(==)>(s: seq<T>) {
    forall i, j :: 0 <= i < j < |s| ==> s[i] != s[j]
  }

  /** In every interleaving, success means: the walk ended without error, every worker is gone, and
      every walked item was consumed exactly once. */
  lemma SuccessConsumesAll<T(!new)>(run: seq<State<T>>, all: seq<T>, workers: nat, cap: nat, n: nat)
    requires workers > 0 && Run(run, all, workers, cap) && n < |run|
    requires run[n].consumer == Returned(true)
    ensures multiset(run[n].consumed) == multiset(all)
    ensures run[n].walker.Ended? && !run[n].walkErr && AllExited(run[n].workers)
    ensures NoDuplicates(all) ==> NoDuplicates(run[n].consumed) && forall x :: x in run[n].consumed <==> x in all
  {
    RunInv(run, all, workers, cap, n);
    var c := run[n].consumed;
    forall x ensures multiset(c)[x] == multiset(all)[x] {
      CountIsMultiset(c, x);
      CountIsMultiset(all, x);
    }
    forall x ensures x in c <==> x in all {
      assert x in c <==> x in multiset(c);
      assert x in all <==> x in multiset(all);
    }
    if NoDuplicates(all) {
      forall x: T ensures Count(c, x) <= 1 { AtMostOnce(all, x); }
      OnceIsDistinct(c);
    }
  }

  lemma {:induction false} AtMostOnce<T>(s: seq<T>, x: T)
    requires NoDuplicates(s)
    ensures Count(s, x) <= 1
    ensures x !in s ==> Count(s, x) == 0
  {
    if s != [] {
      AtMostOnce(s[1..], x);
      assert forall i :: 0 <= i < |s[1..]| ==> s[1..][i] == s[i+1] != s[0];
    }
  }

  lemma OnceIsDistinct<T(!new)>(s: seq<T>)
    requires forall x :: Count(s, x) <= 1
    ensures NoDuplicates(s)
  {
    forall i, j | 0 <= i < j < |s| ensures s[i] != s[j] {
      assert s == s[..i] + ([s[i]] + s[i+1..j]) + ([s[j]] + s[j+1..]);
      CountConcat(s[..i] + ([s[i]] + s[i+1..j]), [s[j]] + s[j+1..], s[j]);
      CountConcat(s[..i], [s[i]] + s[i+1..j], s[j]);
    }
  }

  // ---------------------------------------------------------------- termination

  function WorkerWeight<T>(w: Worker<T>): nat {
    match w case Idle => 1 case Holding(_) => 3 case Exited => 0
  }

  function WorkersWeight<T>(ws: seq<Worker<T>>): nat {
    if ws == [] then 0 else WorkerWeight(ws[0]) + WorkersWeight(ws[1..])
  }

  /** Steps still possible, at most: each item has four hops to make. */
  function Measure<T>(s: State<T>): nat {
    (if s.ctxDone then 0 else 1) +
    (match s.walker case Walking(left) => 1 + 4 * |left| case Ended => 0) +
    3 * |s.walkCh| + WorkersWeight(s.workers) + |s.resultCh| +
    (if s.resultClosed then 0 else 1) +
    (match s.consumer case Receiving => 2 case Draining => 1 case Returned(_) => 0)
  }

  lemma {:induction false} WeightUpdate<T>(ws: seq<Worker<T>>, i: nat, w: Worker<T>)
    requires i < |ws|
    ensures WorkersWeight(ws[i := w]) + WorkerWeight(ws[i]) == WorkersWeight(ws) + WorkerWeight(w)
  {
    if i > 0 {
      assert ws[i := w][1..] == ws[1..][i-1 := w];
      WeightUpdate(ws[1..], i - 1, w);
    } else {
      assert ws[i := w][1..] == ws[1..];
    }
  }

  lemma StepDecreases<T(!new)>(s: State<T>, a: Action, cap: nat)
    requires Enabled(s, a, cap)
    ensures Measure(Apply(s, a, cap)) < Measure(s)
  {
    match a {
      case WorkerTake(i) => WeightUpdate(s.workers, i, Holding(s.walkCh[0]));
      case WorkerExit(i) => WeightUpdate(s.workers, i, Exited);
      case WorkerSend(i) => WeightUpdate(s.workers, i, Idle);
      case WorkerDrop(i) => WeightUpdate(s.workers, i, Exited);
      case _ =>
    }
  }

  /** No run is longer than the measure of its first state, however it is scheduled. */
  lemma {:induction false} RunsAreBounded<T(!new)>(run: seq<State<T>>, cap: nat, n: nat)
    requires Steps(run, cap) && n < |run|
    ensures n + Measure(run[n]) <= Measure(run[0])
  {
    if n > 0 {
      RunsAreBounded(run, cap, n - 1);
      assert Step(run[n-1], run[n-1+1], cap);
      var a :| Takes(run[n-1], a, run[n], cap);
      StepDecreases(run[n-1], a, cap);
    }
  }

  predicate AllDone<T>(s: State<T>) {
    s.consumer.Returned? && s.walker.Ended? && AllExited(s.workers) && s.resultClosed
  }

  /** The consumer can take from a full result channel unless it has left because of the context. */
  lemma ConsumerMoves<T(!new)>(s: State<T>, all: seq<T>, cap: nat) returns (a: Action)
    requires Inv(s, all, cap) && s.resultCh != [] && !s.consumer.Returned?
    ensures Internal(a) && Enabled(s, a, cap)
  {
    a := if s.consumer.Draining? then DrainOne else if s.ctxDone then Break else Receive(true);
  }

  /** A worker that has not exited can move, or the consumer can. */
  lemma WorkerMoves<T(!new)>(s: State<T>, i: nat, all: seq<T>, cap: nat) returns (a: Action)
    requires Inv(s, all, cap) && cap > 0 && i < |s.workers| && !s.workers[i].Exited?
    requires s.walker.Ended? || s.walkCh != []
    ensures Internal(a) && Enabled(s, a, cap)
  {
    if s.workers[i].Idle? {
      a := if s.walkCh != [] then WorkerTake(i) else WorkerExit(i);
    } else if |s.resultCh| < cap {
      a := WorkerSend(i);
    } else if s.ctxDone {
      a := WorkerDrop(i);
    } else {
      a := ConsumerMoves(s, all, cap);
    }
  }

  /** No deadlock: until every goroutine is gone and the consumer has returned, some internal step
      is possible, without help from a cancel or a walk error. */
  lemma NoDeadlock<T(!new)>(s: State<T>, all: seq<T>, cap: nat) returns (a: Action)
    requires Inv(s, all, cap) && cap > 0 && !AllDone(s)
    ensures Internal(a) && Enabled(s, a, cap)
  {
    if s.walker.Walking? {
      if s.walker.left == [] {
        a := WalkFinish;
      } else if |s.walkCh| < cap {
        a := WalkSend;
      } else if s.ctxDone {
        a := WalkStop(false);
      } else {
        a := WorkerMoves(s, 0, all, cap);
      }
    } else if !AllExited(s.workers) {
      var i: nat :| i < |s.workers| && !s.workers[i].Exited?;
      a := WorkerMoves(s, i, all, cap);
    } else if !s.resultClosed {
      a := CloseResults;
    } else if s.resultCh != [] {
      a := ConsumerMoves(s, all, cap);
    } else {
      a := if s.consumer.Draining? then DrainEnd else Finish(true);
    }
  }

  /** No goroutine can move. */
  ghost predicate Stuck<T(!new)>(s: State<T>, cap: nat) {
    forall a :: Internal(a) ==> !Enabled(s, a, cap)
  }

  /** A run that can go no further has finished everywhere; with RunsAreBounded, the scan always ends. */
  lemma StuckMeansDone<T(!new)>(run: seq<State<T>>, all: seq<T>, workers: nat, cap: nat)
    requires workers > 0 && cap > 0 && Run(run, all, workers, cap)
    requires Stuck(run[|run|-1], cap)
    ensures AllDone(run[|run|-1])
  {
    RunInv(run, all, workers, cap, |run| - 1);
    if !AllDone(run[|run|-1]) {
      var a := NoDeadlock(run[|run|-1], all, cap);
    }
  }

  /** From a cancel on the consumer takes nothing more into account. */
  lemma CancelStopsConsuming<T>(s: State<T>, a: Action, t: State<T>, cap: nat)
    requires Takes(s, a, t, cap) && s.ctxDone
    ensures t.ctxDone && t.consumed == s.consumed
  {}

  /** A consumer that has returned without a cancel has emptied the result channel. */
  predicate Emptied<T>(s: State<T>) { s.consumer.Returned? && !s.ctxDone ==> |s.resultCh| == 0 }

  lemma StepEmptied<T(!new)>(s: State<T>, a: Action, t: State<T>, all: seq<T>, cap: nat)
    requires Inv(s, all, cap) && Takes(s, a, t, cap) && Emptied(s)
    ensures Emptied(t)
  {}

  lemma {:induction false} NothingLeftBehind<T(!new)>(run: seq<State<T>>, all: seq<T>, workers: nat, cap: nat, n: nat)
    requires workers > 0 && Run(run, all, workers, cap) && n < |run|
    ensures Emptied(run[n])
  {
    if n > 0 {
      var m := n - 1;
      NothingLeftBehind(run, all, workers, cap, m);
      RunInv(run, all, workers, cap, m);
      assert Step(run[m], run[m+1], cap);
      var a :| Takes(run[m], a, run[m+1], cap);
      StepEmptied(run[m], a, run[m+1], all, cap);
    }
  }

  // ---------------------------------------------------------------- when a scan succeeds

  /** A run together with the actions it took. */
  ghost predicate Trace<T(!new)>(run: seq<State<T>>, acts: seq<Action>, all: seq<T>, workers: nat, cap: nat) {
    && |run| == |acts| + 1 && run[0] == Init(all, workers)
    && forall i :: 0 <= i < |acts| ==> Takes(run[i], acts[i], run[i+1], cap)
  }

  /** What makes a scan fail: the walk fails, a flush fails, or a cancel comes while the consumer still
      receives. */
  predicate Spoils<T>(s: State<T>, a: Action) {
    a == WalkFail || a == Receive(false) || a == Finish(false) || (a == Cancel && s.consumer == Receiving)
  }

  ghost predicate Spoiled<T(!new)>(run: seq<State<T>>, acts: seq<Action>, n: nat)
    requires n <= |acts| < |run|
  {
    exists i :: 0 <= i < n && Spoils(run[i], acts[i])
  }

  /** The consumer's part in a scan that nothing has spoiled, and in one that something has. */
  predicate OnCourse<T>(s: State<T>, spoiled: bool) {
    if spoiled then s.consumer != Returned(true) && (s.consumer == Receiving ==> s.ctxDone || s.walkErr)
    else (s.consumer == Receiving && !s.ctxDone && !s.walkErr) || s.consumer == Returned(true)
  }

  lemma StepOnCourse<T(!new)>(s: State<T>, a: Action, t: State<T>, all: seq<T>, cap: nat, spoiled: bool)
    requires Inv(s, all, cap) && Takes(s, a, t, cap) && OnCourse(s, spoiled)
    ensures OnCourse(t, spoiled || Spoils(s, a))
  {}

  lemma SpoiledNext<T(!new)>(run: seq<State<T>>, acts: seq<Action>, n: nat)
    requires n < |acts| < |run|
    ensures Spoiled(run, acts, n + 1) <==> Spoiled(run, acts, n) || Spoils(run[n], acts[n])
  {}

  lemma {:induction false} StaysOnCourse<T(!new)>(run: seq<State<T>>, acts: seq<Action>, all: seq<T>, workers: nat,
                                                  cap: nat, n: nat)
    requires workers > 0 && Trace(run, acts, all, workers, cap) && n <= |acts|
    ensures OnCourse(run[n], Spoiled(run, acts, n))
  {
    if n > 0 {
      var m := n - 1;
      StaysOnCourse(run, acts, all, workers, cap, m);
      TraceIsRun(run, acts, all, workers, cap);
      RunInv(run, all, workers, cap, m);
      assert Takes(run[m], acts[m], run[m+1], cap);
      StepOnCourse(run[m], acts[m], run[m+1], all, cap, Spoiled(run, acts, m));
      SpoiledNext(run, acts, m);
    }
  }

  lemma TraceIsRun<T(!new)>(run: seq<State<T>>, acts: seq<Action>, all: seq<T>, workers: nat, cap: nat)
    requires Trace(run, acts, all, workers, cap)
    ensures Run(run, all, workers, cap)
  {
    forall i | 0 <= i < |run| - 1 ensures Step(run[i], run[i+1], cap) {
      assert Takes(run[i], acts[i], run[i+1], cap);
    }
  }

  /** Every run is some trace. */
  lemma RunIsTrace<T(!new)>(run: seq<State<T>>, all: seq<T>, workers: nat, cap: nat) returns (acts: seq<Action>)
    requires Run(run, all, workers, cap)
    ensures Trace(run, acts, all, workers, cap)
  {
    acts := [];
    while |acts| < |run| - 1
      invariant |acts| < |run|
      invariant forall i :: 0 <= i < |acts| ==> Takes(run[i], acts[i], run[i+1], cap)
    {
      var i := |acts|;
      assert Step(run[i], run[i+1], cap);
      var a :| Takes(run[i], a, run[i+1], cap);
      acts := acts + [a];
    }
  }

  /** In every interleaving that has come to rest, the scan has succeeded exactly when no walk error, no
      failed flush and no cancel during receiving happened; then every walked item was consumed once. */
  lemma SucceedsIff<T(!new)>(run: seq<State<T>>, acts: seq<Action>, all: seq<T>, workers: nat, cap: nat)
    requires workers > 0 && cap > 0 && Trace(run, acts, all, workers, cap)
    requires Stuck(run[|acts|], cap)
    ensures run[|acts|].consumer == Returned(true) <==> forall i :: 0 <= i < |acts| ==> !Spoils(run[i], acts[i])
    ensures run[|acts|].consumer == Returned(true) ==> multiset(run[|acts|].consumed) == multiset(all)
    ensures run[|acts|].consumer.Returned? && run[|acts|].walker.Ended? && AllExited(run[|acts|].workers)
  {
    TraceIsRun(run, acts, all, workers, cap);
    StuckMeansDone(run, all, workers, cap);
    StaysOnCourse(run, acts, all, workers, cap, |acts|);
    if run[|acts|].consumer == Returned(true) {
      SuccessConsumesAll(run, all, workers, cap, |acts|);
    }
  }

  // ---------------------------------------------------------------- why the snapshot must load

  function HeldLength<T>(ws: seq<Worker<T>>): (n: nat)
    ensures n <= |ws|
  {
    if ws == [] then 0 else (if ws[0].Holding? then 1 else 0) + HeldLength(ws[1..])
  }

  lemma {:induction false} HeldLengthUpdate<T>(ws: seq<Worker<T>>, i: nat, w: Worker<T>)
    requires i < |ws|
    ensures HeldLength(ws[i := w]) + (if ws[i].Holding? then 1 else 0) == HeldLength(ws) + (if w.Holding? then 1 else 0)
  {
    if i > 0 {
      assert ws[i := w][1..] == ws[1..][i-1 := w];
      HeldLengthUpdate(ws[1..], i - 1, w);
    } else {
      assert ws[i := w][1..] == ws[1..];
    }
  }

  /** All of them hold an item. */
  lemma {:induction false} AllHolding<T>(ws: seq<Worker<T>>)
    ensures (forall i :: 0 <= i < |ws| ==> ws[i].Holding?) ==> HeldLength(ws) == |ws|
    ensures (forall i :: 0 <= i < |ws| ==> !ws[i].Holding?) <==> HeldLength(ws) == 0
  {
    if ws != [] {
      AllHolding(ws[1..]);
      assert forall i :: 0 < i < |ws| ==> ws[i] == ws[1..][i-1];
    }
  }

  /** scanUserTree returned early because the snapshot failed to load: nobody receives any more. */
  function AbandonedInit<T>(all: seq<T>, workers: nat): State<T> {
    Init(all, workers).(consumer := Returned(false))
  }

  ghost predicate InternalStep<T(!new)>(s: State<T>, t: State<T>, cap: nat) {
    exists a :: Internal(a) && Takes(s, a, t, cap)
  }

  /** A run after that, without a cancel or a walk error. */
  ghost predicate AbandonedRun<T(!new)>(run: seq<State<T>>, all: seq<T>, workers: nat, cap: nat) {
    && |run| > 0 && run[0] == AbandonedInit(all, workers)
    && forall i :: 0 <= i < |run| - 1 ==> InternalStep(run[i], run[i+1], cap)
  }

  predicate Abandoned<T(==)>(s: State<T>, all: seq<T>, cap: nat) {
    && !s.ctxDone && s.consumer == Returned(false) && !s.walkErr
    && |s.walkCh| <= cap && |s.resultCh| <= cap
    && |s.resultCh| + HeldLength(s.workers) + |s.walkCh| == |s.sent|
    && (if s.walker.Walking? then s.sent + s.walker.left == all else s.sent == all)
    && (forall i :: 0 <= i < |s.workers| && s.workers[i].Exited? ==> s.walker.Ended? && s.walkCh == [])
  }

  lemma AbandonedStarts<T(!new)>(all: seq<T>, workers: nat, cap: nat)
    ensures Abandoned(AbandonedInit(all, workers), all, cap)
  {
    AllHolding(AbandonedInit(all, workers).workers);
    assert [] + all == all;
  }

  lemma AbandonedStep<T(!new)>(s: State<T>, a: Action, all: seq<T>, cap: nat)
    requires Abandoned(s, all, cap) && Internal(a) && Enabled(s, a, cap)
    ensures Abandoned(Apply(s, a, cap), all, cap) && |Apply(s, a, cap).workers| == |s.workers|
  {
    match a {
      case WalkSend => assert Apply(s, a, cap).sent + Apply(s, a, cap).walker.left == s.sent + s.walker.left;
      case WalkFinish => assert s.sent + [] == s.sent;
      case WorkerTake(i) => HeldLengthUpdate(s.workers, i, Holding(s.walkCh[0]));
      case WorkerExit(i) => HeldLengthUpdate(s.workers, i, Exited);
      case WorkerSend(i) => HeldLengthUpdate(s.workers, i, Idle);
      case _ =>
    }
  }

  lemma {:induction false} AbandonedStays<T(!new)>(run: seq<State<T>>, all: seq<T>, workers: nat, cap: nat, n: nat)
    requires AbandonedRun(run, all, workers, cap) && n < |run|
    ensures Abandoned(run[n], all, cap) && |run[n].workers| == workers
  {
    if n == 0 {
      AbandonedStarts(all, workers, cap);
    } else {
      AbandonedStays(run, all, workers, cap, n - 1);
      assert InternalStep(run[n-1], run[n-1+1], cap);
      var a :| Internal(a) && Takes(run[n-1], a, run[n], cap);
      AbandonedStep(run[n-1], a, all, cap);
    }
  }

  /** Where an abandoned scan comes to rest, by the size of the tree. */
  lemma AbandonedAtRest<T(!new)>(s: State<T>, all: seq<T>, cap: nat)
    requires Abandoned(s, all, cap) && cap > 0 && |s.workers| > 0 && Stuck(s, cap)
    ensures s.walker.Ended? && AllExited(s.workers) <==> |all| <= cap
    ensures s.walker.Walking? <==> |all| > 2 * cap + |s.workers|
  {
    assert !Enabled(s, WalkFinish, cap) && !Enabled(s, WalkSend, cap);
    forall i: nat | i < |s.workers|
      ensures !s.workers[i].Idle?
      ensures s.workers[i].Holding? ==> |s.resultCh| == cap
    {
      assert !Enabled(s, WorkerTake(i), cap) && !Enabled(s, WorkerExit(i), cap) && !Enabled(s, WorkerSend(i), cap);
    }
    assert s.workers[0].Holding? || s.workers[0].Exited?;
    AllHolding(s.workers);
  }

  /** After a failed snapshot load, with no cancel, every schedule ends in the same way: all goroutines
      are gone exactly when the tree fits the result channel, and beyond that workers stay blocked for
      good; the walker stays blocked as well exactly when the tree exceeds both channels and the workers. */
  lemma AbandonedScanEndsIff<T(!new)>(run: seq<State<T>>, all: seq<T>, workers: nat, cap: nat)
    requires AbandonedRun(run, all, workers, cap) && workers > 0 && cap > 0
    requires Stuck(run[|run|-1], cap)
    ensures run[|run|-1].walker.Ended? && AllExited(run[|run|-1].workers) <==> |all| <= cap
    ensures run[|run|-1].walker.Walking? <==> |all| > 2 * cap + workers
    ensures |run| - 1 <= Measure(run[0])
  {
    AbandonedStays(run, all, workers, cap, |run| - 1);
    AbandonedAtRest(run[|run|-1], all, cap);
    forall i | 0 <= i < |run| - 1 ensures Step(run[i], run[i+1], cap) {
      assert InternalStep(run[i], run[i+1], cap);
    }
    RunsAreBounded(run, cap, |run| - 1);
  }
}
