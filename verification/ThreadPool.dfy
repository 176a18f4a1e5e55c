/**
 spdlog's blocking queue with its two condition variables, driven by the posting threads, the
 workers and the destructor of the thread pool. A critical section is one step; a notification is
 sent after the lock is released and is a step of its own; sleepers may wake for no reason and a
 worker's wait may time out.
 */
module ThreadPool {
  import opened CircularQueue

  datatype Msg = Work(id: nat) | Terminate

  /** How a message left the queue. */
  datatype Fate = Overrun | Taken(w: nat)

  /** The thread that runs the destructor, as a poster. */
  const DTOR: nat := 0

  datatype State = State(
    cap: nat, workers: set<nat>,
    // the queue, everything ever pushed, the fate of everything that left, and the messages handled
    q: seq<Msg>, posted: seq<Msg>, fates: seq<Fate>, handled: multiset<nat>,
    // posters: asleep on pop_cv, woken but not yet holding the lock, about to notify push_cv
    asleep: set<nat>, woken: set<nat>, notifying: set<nat>, item: map<nat, Msg>,
    // workers: about to dequeue, asleep on push_cv, woken, about to notify pop_cv, handling, gone
    ready: set<nat>, asleepW: set<nat>, wokenW: set<nat>, popped: set<nat>, handling: set<nat>, exited: set<nat>,
    took: map<nat, nat>,
    // the destructor: terminate messages still to post, messages posted before it started
    started: bool, toPost: nat, works: nat)

  datatype Action =
    | Post(t: nat, msg: Msg)
    | PostNowait(t: nat, msg: Msg)
    | WakePoster(t: nat)
    | ResumePoster(t: nat)
    | NotifyPush(t: nat, target: nat)
    | Dequeue(w: nat)
    | WakeWorker(w: nat)
    | ResumeWorker(w: nat, timedOut: bool)
    | NotifyPop(w: nat, target: nat)
    | Handle(w: nat)
    | StartDestruction

  ghost predicate Init(s: State) {
    && s.workers != {}
    && s.q == [] && s.posted == [] && s.fates == [] && s.handled == multiset{}
    && s.asleep == {} && s.woken == {} && s.notifying == {}
    && s.ready == s.workers && s.asleepW == {} && s.wokenW == {} && s.popped == {} && s.handling == {} && s.exited == {}
    && !s.started && s.toPost == 0 && s.works == 0
  }

  predicate Idle(s: State, t: nat) {
    t !in s.asleep && t !in s.woken && t !in s.notifying
  }

  predicate Full(s: State) { |s.q| >= s.cap }

  /** Once destruction has started only the destructor posts, and it posts terminate messages. */
  predicate Enabled(s: State, a: Action) {
    match a
    case Post(t, msg) =>
      Idle(s, t) && (if t == DTOR then s.started && s.toPost > 0 && msg == Terminate else !s.started && msg.Work?)
    case PostNowait(t, msg) => Idle(s, t) && t != DTOR && !s.started && msg.Work?
    case WakePoster(t) => t in s.asleep
    case ResumePoster(t) => t in s.woken && t in s.item
    case NotifyPush(t, target) => t in s.notifying && (s.asleepW == {} || target in s.asleepW)
    case Dequeue(w) => w in s.ready
    case WakeWorker(w) => w in s.asleepW
    case ResumeWorker(w, _) => w in s.wokenW
    case NotifyPop(w, target) => w in s.popped && (s.asleep == {} || target in s.asleep)
    case Handle(w) => w in s.handling && w in s.took && s.took[w] < |s.posted|
    case StartDestruction => !s.started && s.asleep == {} && s.woken == {} && s.notifying == {}
  }

  /** push_back under the lock, after which the poster is to notify push_cv. */
  function Push(s: State, t: nat, msg: Msg): State
    requires |s.q| <= s.cap
  {
    s.(q := Pushed(s.q, s.cap, msg), posted := s.posted + [msg],
       fates := if |s.q| == s.cap then s.fates + [Overrun] else s.fates,
       notifying := s.notifying + {t},
       toPost := if t == DTOR && s.toPost > 0 then s.toPost - 1 else s.toPost)
  }

  /** front and pop_front under the lock, after which the worker is to notify pop_cv. */
  function Take(s: State, w: nat): State
    requires s.q != []
  {
    s.(q := s.q[1..], fates := s.fates + [Taken(w)], popped := s.popped + {w}, took := s.took[w := |s.fates|])
  }

  /** enqueue under the lock: pushes if there is room, and otherwise sleeps on. */
  function PushOrWait(s: State, t: nat, msg: Msg): State
    requires |s.q| <= s.cap
  {
    if Full(s) then s.(asleep := s.asleep + {t}, item := s.item[t := msg]) else Push(s, t, msg)
  }

  /** dequeue_for under the lock: takes a message if there is one, and otherwise sleeps on or gives up. */
  function TakeOrWait(s: State, w: nat, timedOut: bool): State {
    if s.q != [] then Take(s, w)
    else if timedOut then s.(ready := s.ready + {w})
    else s.(asleepW := s.asleepW + {w})
  }

  function Apply(s: State, a: Action): State
    requires Enabled(s, a) && |s.q| <= s.cap
  {
    match a
    case Post(t, msg) => PushOrWait(s, t, msg)
    case PostNowait(t, msg) => Push(s, t, msg)
    case WakePoster(t) => s.(asleep := s.asleep - {t}, woken := s.woken + {t})
    case ResumePoster(t) => PushOrWait(s.(woken := s.woken - {t}), t, s.item[t])
    case NotifyPush(t, target) =>
      var r := s.(notifying := s.notifying - {t});
      if s.asleepW == {} then r else r.(asleepW := s.asleepW - {target}, wokenW := s.wokenW + {target})
    case Dequeue(w) => TakeOrWait(s.(ready := s.ready - {w}), w, false)
    case WakeWorker(w) => s.(asleepW := s.asleepW - {w}, wokenW := s.wokenW + {w})
    case ResumeWorker(w, timedOut) => TakeOrWait(s.(wokenW := s.wokenW - {w}), w, timedOut)
    case NotifyPop(w, target) =>
      var r := s.(popped := s.popped - {w}, handling := s.handling + {w});
      if s.asleep == {} then r else r.(asleep := s.asleep - {target}, woken := s.woken + {target})
    case Handle(w) =>
      var r := s.(handling := s.handling - {w});
      var k := s.took[w];
      if s.posted[k].Work? then r.(handled := s.handled + multiset{k}, ready := s.ready + {w})
      else r.(exited := s.exited + {w})
    case StartDestruction => s.(started := true, toPost := |s.workers|, works := |s.posted|)
  }

  // ---- invariants ----

  predicate Shape(s: State) {
    && |s.q| <= s.cap && |s.fates| <= |s.posted| && s.q == s.posted[|s.fates|..]
    && s.ready + s.asleepW + s.wokenW + s.popped + s.handling + s.exited == s.workers
    && s.ready !! s.asleepW !! s.wokenW !! s.popped !! s.handling !! s.exited
    && s.asleep !! s.woken !! s.notifying
    && s.asleep + s.woken <= s.item.Keys
    && s.popped + s.handling + s.exited <= s.took.Keys
    && s.workers != {}
  }

  /**
   No wakeup is lost. While a poster sleeps, every free slot is matched by a notification still to
   come or a poster already woken; and likewise for workers and queued messages.
   */
  predicate NoLostWakeup(s: State) {
    && (s.asleep != {} ==> s.cap - |s.q| <= |s.popped| + |s.woken|)
    && (s.asleepW != {} ==> |s.q| <= |s.notifying| + |s.wokenW|)
  }

  predicate Holds(s: State, w: nat, k: nat) {
    (w in s.popped || w in s.handling) && w in s.took && s.took[w] == k
  }

  predicate FateKept(s: State, k: nat)
    requires k < |s.fates| <= |s.posted|
  {
    match s.fates[k]
    case Overrun => s.handled[k] == 0
    case Taken(w) =>
      if s.posted[k].Work? then s.handled[k] + (if Holds(s, w, k) then 1 else 0) == 1
      else s.handled[k] == 0 && (Holds(s, w, k) || (w in s.exited && w in s.took && s.took[w] == k))
  }

  predicate FatesKept(s: State)
    requires |s.fates| <= |s.posted|
  {
    && (forall k :: 0 <= k < |s.fates| ==> FateKept(s, k))
    && (forall k :: k in s.handled ==> k < |s.fates|)
  }

  /** A worker past the queue holds a message that it took, and one that has exited took a terminate message. */
  predicate TookKept(s: State) {
    && (forall w :: w in s.popped + s.handling + s.exited ==>
          w in s.took && s.took[w] < |s.fates| && s.fates[s.took[w]] == Taken(w))
    && (forall w :: w in s.exited ==> w in s.took && s.took[w] < |s.posted| && s.posted[s.took[w]].Terminate?)
  }

  /** Every message that left is accounted for exactly once. */
  predicate History(s: State) {
    |s.fates| <= |s.posted| && FatesKept(s) && TookKept(s)
  }

  /** First there is only work; then one terminate message per worker is posted, and none is overrun. */
  predicate Shutdown(s: State) {
    if !s.started then
      && (forall k :: 0 <= k < |s.posted| ==> s.posted[k].Work?)
      && s.toPost == 0 && DTOR !in s.asleep && DTOR !in s.woken && DTOR !in s.notifying
      && (forall t :: t in s.asleep + s.woken ==> t in s.item && s.item[t].Work?)
    else
      && s.works <= |s.posted|
      && (forall k :: 0 <= k < s.works ==> s.posted[k].Work?)
      && (forall k :: s.works <= k < |s.posted| ==> s.posted[k].Terminate?)
      && (forall k :: s.works <= k < |s.fates| ==> s.fates[k].Taken?)
      && |s.posted| - s.works + s.toPost == |s.workers|
      && s.asleep + s.woken + s.notifying <= {DTOR}
      && (DTOR in s.asleep + s.woken ==> DTOR in s.item && s.item[DTOR] == Terminate && s.toPost > 0)
  }

  predicate Inv(s: State) {
    Shape(s) && NoLostWakeup(s) && History(s) && Shutdown(s)
  }

  lemma InitInv(s: State)
    requires Init(s)
    ensures Inv(s)
  {
  }

  // ---- the four kinds of steps ----

  predicate Posting(a: Action) { a.Post? || a.PostNowait? || a.ResumePoster? }
  predicate Taking(a: Action) { a.Dequeue? || a.ResumeWorker? }
  predicate Waking(a: Action) { a.WakePoster? || a.WakeWorker? || a.NotifyPush? || a.NotifyPop? }

  /** The state of the queue once worker w has left the place it waited in. */
  function Leave(s: State, a: Action): State
    requires Taking(a)
  {
    if a.Dequeue? then s.(ready := s.ready - {a.w}) else s.(wokenW := s.wokenW - {a.w})
  }

  lemma TakingIs(s: State, a: Action)
    requires |s.q| <= s.cap && Enabled(s, a) && Taking(a)
    ensures Apply(s, a) == TakeOrWait(Leave(s, a), a.w, a.ResumeWorker? && a.timedOut)
  {
  }

  /** The state once a woken poster has left the sleepers, and what it is to push. */
  function Awake(s: State, a: Action): State
    requires Posting(a)
  {
    if a.ResumePoster? then s.(woken := s.woken - {a.t}) else s
  }

  function Posted(s: State, a: Action): Msg
    requires Posting(a) && Enabled(s, a)
  {
    if a.ResumePoster? then s.item[a.t] else a.msg
  }

  lemma PostingIs(s: State, a: Action)
    requires |s.q| <= s.cap && Enabled(s, a) && Posting(a)
    ensures |Awake(s, a).q| <= Awake(s, a).cap
    ensures Apply(s, a) == if a.PostNowait? then Push(s, a.t, a.msg) else PushOrWait(Awake(s, a), a.t, Posted(s, a))
  {
  }

  /** Handling a message touches neither the queue nor the posters. */
  lemma HandleFrame(s: State, w: nat)
    requires |s.q| <= s.cap && Enabled(s, Handle(w))
    ensures var r := Apply(s, Handle(w));
            && r.cap == s.cap && r.workers == s.workers && r.q == s.q && r.posted == s.posted && r.fates == s.fates
            && r.asleep == s.asleep && r.woken == s.woken && r.notifying == s.notifying && r.item == s.item
            && r.asleepW == s.asleepW && r.wokenW == s.wokenW && r.popped == s.popped && r.took == s.took
            && r.started == s.started && r.toPost == s.toPost && r.works == s.works
            && r.handling + r.exited <= s.handling + s.exited && r.handling == s.handling - {w}
            && r.ready == if s.posted[s.took[w]].Work? then s.ready + {w} else s.ready
  {
    if s.posted[s.took[w]].Work? {} else {}
  }

  lemma PushedSuffix(posted: seq<Msg>, n: nat, cap: nat, msg: Msg)
    requires n <= |posted| && |posted| - n <= cap
    ensures Pushed(posted[n..], cap, msg) == (posted + [msg])[(if |posted| - n == cap then n + 1 else n)..]
  {
  }

  lemma ShapePosting(s: State, a: Action)
    requires Shape(s) && Enabled(s, a) && Posting(a)
    ensures Shape(Apply(s, a))
  {
    hide Pushed;
    var msg := if a.ResumePoster? then s.item[a.t] else a.msg;
    PushedSuffix(s.posted, |s.fates|, s.cap, msg);
  }

  /** The shape of a state in which worker w holds the lock. */
  predicate Holding(s: State, w: nat) {
    && |s.q| <= s.cap && |s.fates| <= |s.posted| && s.q == s.posted[|s.fates|..]
    && w in s.workers && s.ready + s.asleepW + s.wokenW + s.popped + s.handling + s.exited == s.workers - {w}
    && s.ready !! s.asleepW !! s.wokenW !! s.popped !! s.handling !! s.exited
    && s.asleep !! s.woken !! s.notifying
    && s.asleep + s.woken <= s.item.Keys
    && s.popped + s.handling + s.exited <= s.took.Keys
  }

  lemma ShapeLeave(s: State, a: Action)
    requires Shape(s) && Enabled(s, a) && Taking(a)
    ensures Holding(Leave(s, a), a.w)
  {
  }

  lemma ShapeTake(s: State, w: nat, timedOut: bool)
    requires Holding(s, w)
    ensures Shape(TakeOrWait(s, w, timedOut))
  {
    if s.q != [] { assert s.q[1..] == s.posted[|s.fates| + 1..]; }
  }

  lemma ShapeTaking(s: State, a: Action)
    requires Shape(s) && Enabled(s, a) && Taking(a)
    ensures Shape(Apply(s, a))
  {
    CapacityKept(s);
    hide Shape, Apply, TakeOrWait, Leave, Holding;
    TakingIs(s, a);
    ShapeLeave(s, a);
    ShapeTake(Leave(s, a), a.w, a.ResumeWorker? && a.timedOut);
  }

  lemma ShapeWakePoster(s: State, t: nat)
    requires Shape(s) && Enabled(s, WakePoster(t))
    ensures Shape(Apply(s, WakePoster(t)))
  {
  }

  lemma ShapeWakeWorker(s: State, w: nat)
    requires Shape(s) && Enabled(s, WakeWorker(w))
    ensures Shape(Apply(s, WakeWorker(w)))
  {
  }

  lemma ShapeNotifyPush(s: State, t: nat, target: nat)
    requires Shape(s) && Enabled(s, NotifyPush(t, target))
    ensures Shape(Apply(s, NotifyPush(t, target)))
  {
  }

  lemma ShapeNotifyPop(s: State, w: nat, target: nat)
    requires Shape(s) && Enabled(s, NotifyPop(w, target))
    ensures Shape(Apply(s, NotifyPop(w, target)))
  {
  }

  lemma ShapeWaking(s: State, a: Action)
    requires Shape(s) && Enabled(s, a) && Waking(a)
    ensures |s.q| <= s.cap && Shape(Apply(s, a))
  {
    CapacityKept(s);
    hide Shape, Apply, Enabled;
    match a {
      case WakePoster(t) => ShapeWakePoster(s, t);
      case WakeWorker(w) => ShapeWakeWorker(s, w);
      case NotifyPush(t, target) => ShapeNotifyPush(s, t, target);
      case NotifyPop(w, target) => ShapeNotifyPop(s, w, target);
    }
  }

  lemma ShapeEnding(s: State, a: Action)
    requires Shape(s) && History(s) && Enabled(s, a) && (a.Handle? || a.StartDestruction?)
    ensures Shape(Apply(s, a))
  {
    hide History;
  }

  lemma Grow(a: set<nat>, x: nat)
    ensures |a + {x}| == if x in a then |a| else |a| + 1
    ensures |a - {x}| == if x in a then |a| - 1 else |a|
  {
    if x in a { assert a + {x} == a; } else { assert a - {x} == a; }
  }

  lemma PosterApart(s: State, t: nat)
    requires Shape(s)
    ensures t in s.woken ==> t !in s.asleep && t !in s.notifying
    ensures |s.q| <= s.cap
  {
  }

  lemma WorkerApart(s: State, w: nat)
    requires Shape(s) && (w in s.ready || w in s.wokenW)
    ensures w !in s.popped && w !in s.asleepW && w !in s.handling && w !in s.exited
    ensures |s.q| <= s.cap
  {
  }

  lemma SleeperApart(s: State, t: nat)
    requires Shape(s)
    ensures (t in s.asleep ==> t !in s.woken) && (t in s.asleepW ==> t !in s.wokenW)
  {
  }

  /** The queue holds what was posted and has no fate yet. */
  lemma QueueIsRest(s: State)
    requires Shape(s)
    ensures |s.fates| + |s.q| == |s.posted|
  {
  }

  lemma WorkerInOnePlace(s: State, w: nat)
    requires Shape(s)
    ensures w in s.popped ==> w !in s.handling && w !in s.exited
    ensures w in s.handling ==> w !in s.popped && w !in s.exited
  {
  }

  lemma WakeupPush(s: State, t: nat, msg: Msg)
    requires |s.q| <= s.cap && t !in s.notifying
    requires s.asleep != {} ==> s.cap - |s.q| <= |s.popped| + |s.woken| + 1
    requires s.asleepW != {} ==> |s.q| <= |s.notifying| + |s.wokenW|
    ensures NoLostWakeup(Push(s, t, msg))
  {
    Grow(s.notifying, t);
  }

  lemma WakeupPosting(s: State, a: Action)
    requires Shape(s) && NoLostWakeup(s) && Enabled(s, a) && Posting(a)
    ensures |s.q| <= s.cap && NoLostWakeup(Apply(s, a))
  {
    hide Shape, Apply, Push;
    PosterApart(s, a.t);
    PostingIs(s, a);
    Grow(s.woken, a.t);
    WakeupPush(Awake(s, a), a.t, Posted(s, a));
  }

  lemma WakeupTake(s: State, w: nat, timedOut: bool)
    requires |s.q| <= s.cap && w !in s.popped
    requires s.asleep != {} ==> s.cap - |s.q| <= |s.popped| + |s.woken|
    requires s.asleepW != {} ==> |s.q| <= |s.notifying| + |s.wokenW| + 1
    ensures NoLostWakeup(TakeOrWait(s, w, timedOut))
  {
    Grow(s.popped, w);
  }

  lemma WakeupTaking(s: State, a: Action)
    requires Shape(s) && NoLostWakeup(s) && Enabled(s, a) && Taking(a)
    ensures |s.q| <= s.cap && NoLostWakeup(Apply(s, a))
  {
    hide Shape, Apply, TakeOrWait;
    WorkerApart(s, a.w);
    TakingIs(s, a);
    Grow(s.wokenW, a.w);
    WakeupTake(Leave(s, a), a.w, a.ResumeWorker? && a.timedOut);
  }

  lemma WakeupWake(s: State, x: nat)
    requires |s.q| <= s.cap && NoLostWakeup(s)
    ensures x in s.asleep && x !in s.woken ==> NoLostWakeup(Apply(s, WakePoster(x)))
    ensures x in s.asleepW && x !in s.wokenW ==> NoLostWakeup(Apply(s, WakeWorker(x)))
  {
    Grow(s.woken, x);
    Grow(s.wokenW, x);
  }

  lemma WakeupNotifyPush(s: State, t: nat, target: nat)
    requires |s.q| <= s.cap && NoLostWakeup(s) && Enabled(s, NotifyPush(t, target))
    requires target in s.asleepW ==> target !in s.wokenW
    ensures NoLostWakeup(Apply(s, NotifyPush(t, target)))
  {
    Grow(s.notifying, t);
    Grow(s.wokenW, target);
  }

  lemma WakeupNotifyPop(s: State, w: nat, target: nat)
    requires |s.q| <= s.cap && NoLostWakeup(s) && Enabled(s, NotifyPop(w, target))
    requires target in s.asleep ==> target !in s.woken
    ensures NoLostWakeup(Apply(s, NotifyPop(w, target)))
  {
    Grow(s.popped, w);
    Grow(s.woken, target);
  }

  lemma WakeupWaking(s: State, a: Action)
    requires Shape(s) && NoLostWakeup(s) && Enabled(s, a) && Waking(a)
    ensures |s.q| <= s.cap && NoLostWakeup(Apply(s, a))
  {
    hide Shape, Apply, NoLostWakeup;
    CapacityKept(s);
    match a {
      case WakePoster(t) => SleeperApart(s, t); WakeupWake(s, t);
      case WakeWorker(w) => SleeperApart(s, w); WakeupWake(s, w);
      case NotifyPush(t, target) => SleeperApart(s, target); WakeupNotifyPush(s, t, target);
      case NotifyPop(w, target) => SleeperApart(s, target); WakeupNotifyPop(s, w, target);
    }
  }

  lemma FatesPosting(s: State, a: Action)
    requires Shape(s) && FatesKept(s) && Enabled(s, a) && Posting(a)
    ensures var r := Apply(s, a); |r.fates| <= |r.posted| && FatesKept(r)
  {
    hide Pushed;
    var r := Apply(s, a);
    forall k | 0 <= k < |r.fates| ensures FateKept(r, k) {
      if k < |s.fates| { assert FateKept(s, k); } else { assert k !in s.handled; }
    }
  }

  /** What becomes of messages does not depend on where the workers wait. */
  lemma FatesLeave(s: State, a: Action)
    requires |s.fates| <= |s.posted| && FatesKept(s) && Taking(a)
    ensures FatesKept(Leave(s, a))
  {
    forall k | 0 <= k < |s.fates| ensures FateKept(Leave(s, a), k) { assert FateKept(s, k); }
  }

  lemma FatesTake(s: State, w: nat, timedOut: bool)
    requires |s.fates| + |s.q| == |s.posted| && FatesKept(s)
    requires w !in s.popped && w !in s.handling && w !in s.exited
    ensures var r := TakeOrWait(s, w, timedOut); |r.fates| <= |r.posted| && FatesKept(r)
  {
    var r := TakeOrWait(s, w, timedOut);
    forall k | 0 <= k < |r.fates| ensures FateKept(r, k) {
      if k < |s.fates| { assert FateKept(s, k); } else { assert k !in s.handled; }
    }
  }

  lemma FatesTaking(s: State, a: Action)
    requires Shape(s) && FatesKept(s) && Enabled(s, a) && Taking(a)
    ensures var r := Apply(s, a); |r.fates| <= |r.posted| && FatesKept(r)
  {
    hide Shape, Apply, FatesKept;
    WorkerApart(s, a.w);
    QueueIsRest(s);
    TakingIs(s, a);
    FatesLeave(s, a);
    FatesTake(Leave(s, a), a.w, a.ResumeWorker? && a.timedOut);
  }

  /** A wakeup or a notification moves threads about and touches nothing else. */
  lemma WakingFrame(s: State, a: Action)
    requires |s.q| <= s.cap && Enabled(s, a) && Waking(a)
    ensures var r := Apply(s, a);
            && r.posted == s.posted && r.fates == s.fates && r.handled == s.handled && r.took == s.took
            && r.item == s.item && r.exited == s.exited && r.workers == s.workers && r.cap == s.cap
            && r.started == s.started && r.toPost == s.toPost && r.works == s.works
            && r.popped + r.handling == s.popped + s.handling
            && r.asleep + r.woken == s.asleep + s.woken
            && r.notifying <= s.notifying
  {
    match a {
      case WakePoster(t) =>
      case WakeWorker(w) =>
      case NotifyPush(t, target) =>
      case NotifyPop(w, target) =>
    }
  }

  lemma FatesWaking(s: State, a: Action)
    requires |s.q| <= s.cap && |s.fates| <= |s.posted| && FatesKept(s) && Enabled(s, a) && Waking(a)
    ensures |Apply(s, a).fates| <= |Apply(s, a).posted| && FatesKept(Apply(s, a))
  {
    hide Apply, Enabled;
    WakingFrame(s, a);
    var r := Apply(s, a);
    forall k | 0 <= k < |s.fates| ensures FateKept(r, k) {
      assert FateKept(s, k);
      assert forall w :: w in r.popped + r.handling <==> w in s.popped + s.handling;
    }
  }

  lemma FatesHandle(s: State, w: nat)
    requires |s.q| <= s.cap && |s.fates| <= |s.posted| && FatesKept(s) && Enabled(s, Handle(w))
    requires w !in s.popped && w !in s.exited && s.took[w] < |s.fates| && s.fates[s.took[w]] == Taken(w)
    ensures |Apply(s, Handle(w)).fates| <= |Apply(s, Handle(w)).posted| && FatesKept(Apply(s, Handle(w)))
  {
    hide Apply, FateKept;
    HandledAfter(s, w);
    forall k | 0 <= k < |s.fates| ensures FateKept(Apply(s, Handle(w)), k) { HandleKeeps(s, w, k); }
  }

  lemma FatesStart(s: State)
    requires |s.q| <= s.cap && |s.fates| <= |s.posted| && FatesKept(s) && Enabled(s, StartDestruction)
    ensures |Apply(s, StartDestruction).fates| <= |Apply(s, StartDestruction).posted|
    ensures FatesKept(Apply(s, StartDestruction))
  {
    forall k | 0 <= k < |s.fates| ensures FateKept(Apply(s, StartDestruction), k) { assert FateKept(s, k); }
  }

  lemma FatesEnding(s: State, a: Action)
    requires Shape(s) && |s.fates| <= |s.posted| && FatesKept(s) && TookKept(s)
    requires Enabled(s, a) && (a.Handle? || a.StartDestruction?)
    ensures |s.q| <= s.cap && |Apply(s, a).fates| <= |Apply(s, a).posted| && FatesKept(Apply(s, a))
  {
    hide Apply, FatesKept;
    CapacityKept(s);
    if a.Handle? {
      WorkerInOnePlace(s, a.w);
      assert a.w in s.popped + s.handling + s.exited;
      FatesHandle(s, a.w);
    } else {
      FatesStart(s);
    }
  }

  lemma HandledAfter(s: State, w: nat)
    requires |s.q| <= s.cap && Enabled(s, Handle(w)) && s.took[w] < |s.fates|
    ensures var r := Apply(s, Handle(w));
            && r.fates == s.fates && r.posted == s.posted
            && forall k :: k in r.handled ==> k in s.handled || k == s.took[w]
  {
  }

  lemma HandleKeeps(s: State, w: nat, k: nat)
    requires |s.q| <= s.cap && k < |s.fates| <= |s.posted| && FateKept(s, k) && Enabled(s, Handle(w))
    requires w !in s.popped && w !in s.exited && s.took[w] < |s.fates| && s.fates[s.took[w]] == Taken(w)
    ensures FateKept(Apply(s, Handle(w)), k)
  {
    var r, mine := Apply(s, Handle(w)), s.took[w];
    if k == mine {
      assert Holds(s, w, k);
    } else {
      assert r.handled[k] == s.handled[k];
    }
  }

  lemma TookTake(s: State, w: nat, timedOut: bool)
    requires TookKept(s) && |s.fates| + |s.q| == |s.posted|
    requires w !in s.popped && w !in s.handling && w !in s.exited
    ensures TookKept(TakeOrWait(s, w, timedOut))
  {
    var r := TakeOrWait(s, w, timedOut);
    forall v | v in r.popped + r.handling + r.exited
      ensures v in r.took && r.took[v] < |r.fates| && r.fates[r.took[v]] == Taken(v)
    {
      if v != w { assert v in s.popped + s.handling + s.exited; }
    }
  }

  lemma TookTaking(s: State, a: Action)
    requires Shape(s) && TookKept(s) && Enabled(s, a) && Taking(a)
    ensures |s.q| <= s.cap && TookKept(Apply(s, a))
  {
    hide Shape, Apply, TakeOrWait;
    WorkerApart(s, a.w);
    QueueIsRest(s);
    TakingIs(s, a);
    TookTake(Leave(s, a), a.w, a.ResumeWorker? && a.timedOut);
  }

  lemma TookPush(s: State, t: nat, msg: Msg)
    requires |s.q| <= s.cap && |s.fates| + |s.q| == |s.posted| && TookKept(s)
    ensures TookKept(Push(s, t, msg))
  {
    hide Pushed;
    forall w | w in s.popped + s.handling + s.exited
      ensures w in s.took && s.took[w] < |s.fates| && s.fates[s.took[w]] == Taken(w)
    {
    }
  }

  lemma TookAwake(s: State, a: Action)
    requires TookKept(s) && Posting(a)
    ensures TookKept(Awake(s, a))
  {
  }

  lemma TookWait(s: State, t: nat, msg: Msg)
    requires |s.q| <= s.cap && TookKept(s) && Full(s)
    ensures TookKept(PushOrWait(s, t, msg))
  {
  }

  lemma TookPosting(s: State, a: Action)
    requires Shape(s) && TookKept(s) && Enabled(s, a) && Posting(a)
    ensures |s.q| <= s.cap && TookKept(Apply(s, a))
  {
    hide Shape, TookKept, Push, Apply;
    QueueIsRest(s);
    CapacityKept(s);
    PostingIs(s, a);
    TookAwake(s, a);
    TookPush(Awake(s, a), a.t, Posted(s, a));
    if Full(s) { TookWait(Awake(s, a), a.t, Posted(s, a)); }
  }

  lemma TookOther(s: State, a: Action)
    requires |s.q| <= s.cap && TookKept(s) && Enabled(s, a) && !Posting(a) && !Taking(a)
    ensures TookKept(Apply(s, a))
  {
    if Waking(a) { TookWaking(s, a); } else if a.Handle? { TookHandle(s, a.w); } else { TookStart(s); }
  }

  lemma TookWaking(s: State, a: Action)
    requires |s.q| <= s.cap && TookKept(s) && Enabled(s, a) && Waking(a)
    ensures TookKept(Apply(s, a))
  {
    hide Apply, Enabled;
    WakingFrame(s, a);
  }

  lemma TookHandle(s: State, w: nat)
    requires |s.q| <= s.cap && TookKept(s) && Enabled(s, Handle(w))
    ensures TookKept(Apply(s, Handle(w)))
  {
    assert w in s.popped + s.handling + s.exited;
    var r := Apply(s, Handle(w));
    assert forall v :: v in r.popped + r.handling + r.exited ==> v in s.popped + s.handling + s.exited;
  }

  lemma TookStart(s: State)
    requires |s.q| <= s.cap && TookKept(s) && Enabled(s, StartDestruction)
    ensures TookKept(Apply(s, StartDestruction))
  {
  }

  lemma HistoryStep(s: State, a: Action)
    requires Shape(s) && History(s) && Enabled(s, a)
    ensures |s.q| <= s.cap && History(Apply(s, a))
  {
    hide Shape, FatesKept, TookKept, Pushed;
    CapacityKept(s);
    if Posting(a) {
      FatesPosting(s, a);
      TookPosting(s, a);
    } else if Taking(a) {
      FatesTaking(s, a);
      TookTaking(s, a);
    } else {
      if Waking(a) { FatesWaking(s, a); } else { FatesEnding(s, a); }
      TookOther(s, a);
    }
  }

  lemma ShutdownPosting(s: State, a: Action)
    requires Shape(s) && Shutdown(s) && Enabled(s, a) && Posting(a)
    ensures |s.q| <= s.cap && Shutdown(Apply(s, a))
  {
    hide Pushed, Shape;
    PosterApart(s, a.t);
    if s.started { ShutdownPostingLate(s, a); } else { ShutdownPostingEarly(s, a); }
  }

  lemma ShutdownPostingEarly(s: State, a: Action)
    requires |s.q| <= s.cap && Shutdown(s) && Enabled(s, a) && Posting(a) && !s.started
    ensures Shutdown(Apply(s, a))
  {
    hide Pushed;
    assert a.ResumePoster? ==> a.t in s.asleep + s.woken;
  }

  lemma ShutdownPostingLate(s: State, a: Action)
    requires |s.q| <= s.cap && Shutdown(s) && Enabled(s, a) && Posting(a) && s.started
    requires a.ResumePoster? ==> a.t !in s.asleep
    ensures Shutdown(Apply(s, a))
  {
    hide Pushed;
    var r := Apply(s, a);
    assert a.ResumePoster? ==> a.t in s.asleep + s.woken;
    assert a.t == DTOR;
    assert r.asleep + r.woken + r.notifying <= s.asleep + s.woken + s.notifying + {DTOR};
  }

  lemma ShutdownLeave(s: State, a: Action)
    requires Shutdown(s) && Taking(a)
    ensures Shutdown(Leave(s, a))
  {
  }

  lemma ShutdownTake(s: State, w: nat, timedOut: bool)
    requires Shutdown(s)
    ensures Shutdown(TakeOrWait(s, w, timedOut))
  {
  }

  lemma ShutdownTaking(s: State, a: Action)
    requires Shape(s) && Shutdown(s) && Enabled(s, a) && Taking(a)
    ensures |s.q| <= s.cap && Shutdown(Apply(s, a))
  {
    hide Shape, Apply, TakeOrWait, Shutdown, Leave;
    CapacityKept(s);
    TakingIs(s, a);
    ShutdownLeave(s, a);
    ShutdownTake(Leave(s, a), a.w, a.ResumeWorker? && a.timedOut);
  }

  lemma ShutdownWaking(s: State, a: Action)
    requires |s.q| <= s.cap && Shutdown(s) && Enabled(s, a) && Waking(a)
    ensures Shutdown(Apply(s, a))
  {
    hide Apply, Enabled;
    WakingFrame(s, a);
    var r := Apply(s, a);
    assert forall t :: t in r.asleep + r.woken <==> t in s.asleep + s.woken;
  }

  lemma ShutdownStart(s: State)
    requires |s.q| <= s.cap && |s.fates| <= |s.posted| && Shutdown(s) && Enabled(s, StartDestruction)
    ensures Shutdown(Apply(s, StartDestruction))
  {
  }

  lemma ShutdownHandle(s: State, w: nat)
    requires |s.q| <= s.cap && Shutdown(s) && Enabled(s, Handle(w))
    ensures Shutdown(Apply(s, Handle(w)))
  {
    hide Apply;
    HandleFrame(s, w);
  }

  lemma ShutdownEnding(s: State, a: Action)
    requires Shape(s) && Shutdown(s) && Enabled(s, a) && (a.Handle? || a.StartDestruction?)
    ensures |s.q| <= s.cap && Shutdown(Apply(s, a))
  {
    hide Shape, Shutdown, Apply, Enabled;
    CapacityKept(s);
    QueueIsRest(s);
    if a.Handle? { ShutdownHandle(s, a.w); } else { ShutdownStart(s); }
  }

  /** Every step keeps the invariant. */
  lemma StepKeepsInv(s: State, a: Action)
    requires Inv(s) && Enabled(s, a)
    ensures |s.q| <= s.cap && Inv(Apply(s, a))
  {
    hide Shape, NoLostWakeup, History, Shutdown, Apply;
    CapacityKept(s);
    HistoryStep(s, a);
    if Posting(a) {
      ShapePosting(s, a);
      WakeupPosting(s, a);
      ShutdownPosting(s, a);
    } else if Taking(a) {
      ShapeTaking(s, a);
      WakeupTaking(s, a);
      ShutdownTaking(s, a);
    } else if Waking(a) {
      ShapeWaking(s, a);
      WakeupWaking(s, a);
      ShutdownWaking(s, a);
    } else {
      ShapeEnding(s, a);
      WakeupEnding(s, a);
      ShutdownEnding(s, a);
    }
  }

  lemma CapacityKept(s: State)
    requires Shape(s)
    ensures |s.q| <= s.cap
  {
  }

  lemma WakeupEnding(s: State, a: Action)
    requires Shape(s) && NoLostWakeup(s) && Enabled(s, a) && (a.Handle? || a.StartDestruction?)
    ensures |s.q| <= s.cap && NoLostWakeup(Apply(s, a))
  {
    hide Shape;
    CapacityKept(s);
  }

  // ---- whole runs ----

  ghost predicate Run(s: State, actions: seq<Action>, r: State)
    decreases |actions|
  {
    if actions == [] then r == s
    else Enabled(s, actions[0]) && |s.q| <= s.cap && Run(Apply(s, actions[0]), actions[1..], r)
  }

  lemma {:induction false} RunKeepsInv(s: State, actions: seq<Action>, r: State)
    requires Inv(s) && Run(s, actions, r)
    ensures Inv(r)
    decreases |actions|
  {
    hide Inv, Apply, Enabled;
    if actions != [] {
      StepKeepsInv(s, actions[0]);
      RunKeepsInv(Apply(s, actions[0]), actions[1..], r);
    }
  }

  /** In every reachable state, room in the queue or a queued message never coexists with a stranded sleeper. */
  lemma NoStrandedSleeper(s: State, actions: seq<Action>, r: State)
    requires Init(s) && Run(s, actions, r)
    ensures r.asleep != {} && |r.q| < r.cap ==> r.popped != {} || r.woken != {}
    ensures r.asleepW != {} && r.q != [] ==> r.notifying != {} || r.wokenW != {}
  {
    hide Init, Run;
    InitInv(s);
    RunKeepsInv(s, actions, r);
  }

  /** All joins have returned. */
  predicate Joined(s: State) {
    s.started && s.toPost == 0 && Idle(s, DTOR) && s.exited == s.workers
  }

  /** Exactly one terminate message per worker, an empty queue, and all other messages handled once unless overrun. */
  ghost predicate CleanExit(s: State) {
    && s.q == [] && |s.fates| == |s.posted|
    && (forall w :: w in s.workers ==>
          w in s.took && s.took[w] < |s.posted| && s.posted[s.took[w]].Terminate? && s.fates[s.took[w]] == Taken(w))
    && (forall k :: 0 <= k < |s.posted| && s.posted[k].Terminate? ==>
          s.fates[k].Taken? && s.fates[k].w in s.workers && s.took[s.fates[k].w] == k)
    && (forall k :: 0 <= k < |s.posted| && s.posted[k].Work? ==>
          s.handled[k] == if s.fates[k] == Overrun then 0 else 1)
  }

  lemma {:induction false} InjectiveBound(ws: set<nat>, f: map<nat, nat>, range: set<nat>)
    requires forall w :: w in ws ==> w in f && f[w] in range
    requires forall w, x :: w in ws && x in ws && w != x ==> f[w] != f[x]
    ensures |ws| <= |range|
    decreases |ws|
  {
    if ws != {} {
      var w :| w in ws;
      InjectiveBound(ws - {w}, f, range - {f[w]});
      Grow(range, f[w]);
    }
  }

  function Range(lo: nat, hi: nat): (r: set<nat>)
    requires lo <= hi
    ensures forall k :: k in r <==> lo <= k < hi
    ensures |r| == hi - lo
    decreases hi - lo
  {
    if lo == hi then {} else Range(lo + 1, hi) + {lo}
  }

  /** Workers that have exited took different terminate messages. */
  lemma ExitedTook(s: State, w: nat)
    requires |s.fates| <= |s.posted| && TookKept(s) && w in s.exited
    ensures w in s.took && s.took[w] < |s.fates| && s.fates[s.took[w]] == Taken(w) && s.posted[s.took[w]].Terminate?
  {
    assert w in s.popped + s.handling + s.exited;
  }

  lemma ExitedBound(s: State)
    requires Shape(s) && History(s) && Shutdown(s) && s.started
    ensures s.works <= |s.fates| || s.exited == {}
    ensures |s.exited| <= (if s.works <= |s.fates| then |s.fates| - s.works else 0)
  {
    hide Range, FatesKept, TookKept, Shape;
    forall w | w in s.exited
      ensures w in s.took && s.works <= s.took[w] < |s.fates| && s.fates[s.took[w]] == Taken(w)
    {
      ExitedTook(s, w);
    }
    hide Shutdown;
    if s.exited != {} {
      var w :| w in s.exited;
      InjectiveBound(s.exited, s.took, Range(s.works, |s.fates|));
    }
  }

  lemma JoinedIsClean(s: State)
    requires Inv(s) && Joined(s)
    ensures CleanExit(s)
  {
    ExitedBound(s);
    assert s.popped == {} && s.handling == {} by { WorkersGone(s); }
    assert |s.fates| == |s.posted|;
    forall k | 0 <= k < |s.posted|
      ensures s.posted[k].Terminate? ==> s.fates[k].Taken? && s.fates[k].w in s.workers && s.took[s.fates[k].w] == k
      ensures s.posted[k].Work? ==> s.handled[k] == if s.fates[k] == Overrun then 0 else 1
    {
      assert FateKept(s, k);
      if s.posted[k].Terminate? { assert s.works <= k; }
    }
  }

  lemma WorkersGone(s: State)
    requires Shape(s) && s.exited == s.workers
    ensures s.ready == {} && s.asleepW == {} && s.wokenW == {} && s.popped == {} && s.handling == {}
  {
    var others := s.ready + s.asleepW + s.wokenW + s.popped + s.handling;
    assert others * s.exited == {} && others <= s.exited;
    assert others == {};
  }

  // ---- no message is lost on its way into the queue ----

  /** A post that does not wait always gets its message in; a full queue loses its oldest message for it. */
  lemma NowaitPosts(s: State, t: nat, msg: Msg)
    requires |s.q| <= s.cap && Enabled(s, PostNowait(t, msg))
    ensures var r := Apply(s, PostNowait(t, msg));
            && r.posted == s.posted + [msg] && t in r.notifying
            && r.fates == (if |s.q| == s.cap then s.fates + [Overrun] else s.fates)
            && (s.cap >= 1 ==> r.q != [] && r.q[|r.q| - 1] == msg)
            && (|s.q| < s.cap ==> r.q == s.q + [msg])
            && (1 <= s.cap == |s.q| ==> r.q == s.q[1..] + [msg])
            && r.asleep == s.asleep && r.woken == s.woken && r.item == s.item
  {
  }

  /** A post that waits gets its message in when there is room, and otherwise sleeps with it. */
  lemma WaitingPosts(s: State, a: Action)
    requires |s.q| <= s.cap && Enabled(s, a) && (a.Post? || a.ResumePoster?)
    ensures var r, t, msg := Apply(s, a), a.t, Posted(s, a);
            && r.fates == s.fates
            && (|s.q| < s.cap ==>
                  && r.posted == s.posted + [msg] && r.q == s.q + [msg] && t in r.notifying
                  && r.asleep == s.asleep && r.woken == s.woken - {t} && r.item == s.item)
            && (|s.q| == s.cap ==>
                  && r.posted == s.posted && r.q == s.q && r.notifying == s.notifying
                  && r.asleep == s.asleep + {t} && r.woken == s.woken - {t} && r.item == s.item[t := msg])
  {
    assert a.Post? ==> s.woken == s.woken - {a.t};
  }

  /** Every other step leaves what was posted and the waiting posts alone; only a dequeue takes a message. */
  lemma OthersDoNotPost(s: State, a: Action)
    requires |s.q| <= s.cap && Enabled(s, a) && !Posting(a)
    ensures var r := Apply(s, a);
            && r.posted == s.posted && r.asleep + r.woken == s.asleep + s.woken && r.item == s.item
            && (Taking(a) && s.q != [] ==> r.q == s.q[1..] && r.fates == s.fates + [Taken(a.w)])
            && (!(Taking(a) && s.q != []) ==> r.q == s.q && r.fates == s.fates)
  {
    hide Apply;
    if Taking(a) { TakingIs(s, a); }
    else if Waking(a) { QueueWaking(s, a); }
    else if a.Handle? { HandleFrame(s, a.w); }
    else { StartFrame(s); }
  }

  lemma QueueWaking(s: State, a: Action)
    requires |s.q| <= s.cap && Enabled(s, a) && Waking(a)
    ensures var r := Apply(s, a);
            r.q == s.q && r.posted == s.posted && r.fates == s.fates && r.item == s.item
            && r.asleep + r.woken == s.asleep + s.woken
  {
    WakingFrame(s, a);
  }

  /** The messages that have been handed to the queue by a run, in order. */
  function Submitted(actions: seq<Action>): seq<Msg> {
    if actions == [] then []
    else (if actions[0].Post? || actions[0].PostNowait? then [actions[0].msg] else []) + Submitted(actions[1..])
  }

  /** The messages of the posters that wait. */
  ghost function Pending(waiting: set<nat>, item: map<nat, Msg>): multiset<Msg>
    requires waiting <= item.Keys
  {
    if waiting == {} then multiset{}
    else
      var t :| t in waiting;
      multiset{item[t]} + Pending(waiting - {t}, item)
  }

  lemma NonePending(item: map<nat, Msg>)
    ensures Pending({}, item) == multiset{}
  {
  }

  lemma PendingOne(waiting: set<nat>, item: map<nat, Msg>) returns (t: nat)
    requires waiting != {} && waiting <= item.Keys
    ensures t in waiting && Pending(waiting, item) == multiset{item[t]} + Pending(waiting - {t}, item)
  {
    t :| t in waiting && Pending(waiting, item) == multiset{item[t]} + Pending(waiting - {t}, item);
  }

  lemma {:induction false} PendingMore(waiting: set<nat>, item: map<nat, Msg>, t: nat)
    requires t !in waiting && waiting + {t} <= item.Keys
    ensures Pending(waiting + {t}, item) == Pending(waiting, item) + multiset{item[t]}
    decreases |waiting|
  {
    hide Pending;
    var more := waiting + {t};
    var x := PendingOne(more, item);
    if x == t {
      assert more - {t} == waiting;
    } else {
      var fewer := waiting - {x};
      assert more - {x} == fewer + {t} && waiting == fewer + {x};
      PendingMore(fewer, item, t);
      PendingMore(fewer, item, x);
    }
  }

  lemma {:induction false} PendingSame(waiting: set<nat>, item: map<nat, Msg>, t: nat, msg: Msg)
    requires waiting <= item.Keys && t !in waiting
    ensures Pending(waiting, item[t := msg]) == Pending(waiting, item)
    decreases |waiting|
  {
    hide Pending;
    if waiting == {} {
      NonePending(item);
      NonePending(item[t := msg]);
    } else {
      var x := PendingOne(waiting, item);
      PendingSame(waiting - {x}, item, t, msg);
      PendingMore(waiting - {x}, item[t := msg], x);
      assert waiting - {x} + {x} == waiting;
    }
  }

  /** Everything handed over is posted or waits with its poster. */
  ghost function InOrWaiting(s: State): multiset<Msg>
    requires s.asleep + s.woken <= s.item.Keys
  {
    multiset(s.posted) + Pending(s.asleep + s.woken, s.item)
  }

  /** A poster that starts to wait, or goes on waiting, adds its message to those of the others. */
  lemma PendingSleep(others: set<nat>, item: map<nat, Msg>, t: nat, msg: Msg)
    requires others <= item.Keys && t !in others
    ensures others + {t} <= item[t := msg].Keys
    ensures Pending(others + {t}, item[t := msg]) == Pending(others, item) + multiset{msg}
  {
    hide Pending;
    PendingMore(others, item[t := msg], t);
    PendingSame(others, item, t, msg);
  }

  lemma OneSubmitted(a: Action)
    ensures Submitted([a]) == if a.Post? || a.PostNowait? then [a.msg] else []
  {
    assert [a][1..] == [];
  }

  /** The posters that wait besides t. */
  function Others(s: State, t: nat): set<nat> { s.asleep + s.woken - {t} }

  lemma OthersOf(s: State, a: Action)
    requires Shape(s) && Enabled(s, a) && (a.Post? || a.ResumePoster?)
    ensures Others(s, a.t) <= s.item.Keys && s.asleep + s.woken <= s.item.Keys
    ensures s.asleep + s.woken == if a.Post? then Others(s, a.t) else Others(s, a.t) + {a.t}
    ensures s.asleep + (s.woken - {a.t}) == Others(s, a.t) && a.t !in Others(s, a.t)
    ensures (s.asleep + {a.t}) + (s.woken - {a.t}) == Others(s, a.t) + {a.t}
    ensures a.ResumePoster? ==> a.t in s.item && Posted(s, a) == s.item[a.t] && s.item[a.t := s.item[a.t]] == s.item
    ensures |s.q| <= s.cap
  {
  }

  /** Into the queue: the message is posted, and is no longer waited with if it was. */
  lemma ConservesRoom(s: State, a: Action)
    requires Shape(s) && Enabled(s, a) && (a.Post? || a.ResumePoster?) && |s.q| < s.cap
    ensures var r := Apply(s, a);
            && r.asleep + r.woken <= r.item.Keys && s.asleep + s.woken <= s.item.Keys
            && InOrWaiting(r) == InOrWaiting(s) + multiset(Submitted([a]))
  {
    hide Pending, Apply, Shape, Others, Submitted, Enabled;
    OthersOf(s, a);
    WaitingPosts(s, a);
    OneSubmitted(a);
    if a.ResumePoster? { PendingMore(Others(s, a.t), s.item, a.t); }
  }

  /** Into a full queue: the message waits with its poster. */
  lemma ConservesFull(s: State, a: Action)
    requires Shape(s) && Enabled(s, a) && (a.Post? || a.ResumePoster?) && |s.q| == s.cap
    ensures var r := Apply(s, a);
            && r.asleep + r.woken <= r.item.Keys && s.asleep + s.woken <= s.item.Keys
            && InOrWaiting(r) == InOrWaiting(s) + multiset(Submitted([a]))
  {
    hide Pending, Apply, Shape, Others, Submitted, Enabled;
    OthersOf(s, a);
    WaitingPosts(s, a);
    OneSubmitted(a);
    PendingSleep(Others(s, a.t), s.item, a.t, Posted(s, a));
  }

  lemma StepConserves(s: State, a: Action)
    requires Shape(s) && Enabled(s, a)
    ensures |s.q| <= s.cap
    ensures var r := Apply(s, a);
            && r.asleep + r.woken <= r.item.Keys && s.asleep + s.woken <= s.item.Keys
            && InOrWaiting(r) == InOrWaiting(s) + multiset(Submitted([a]))
  {
    CapacityKept(s);
    hide Pending, Apply, Enabled, Submitted;
    OneSubmitted(a);
    if a.PostNowait? {
      NowaitPosts(s, a.t, a.msg);
    } else if Posting(a) {
      if |s.q| < s.cap { ConservesRoom(s, a); } else { ConservesFull(s, a); }
    } else {
      OthersDoNotPost(s, a);
    }
  }

  lemma WaitersHaveItems(s: State)
    requires Shape(s)
    ensures s.asleep + s.woken <= s.item.Keys
  {
  }

  /** Over every run: what was handed over has been posted or still waits, nothing more and nothing less. */
  lemma {:induction false} RunConserves(s: State, actions: seq<Action>, r: State)
    requires Inv(s) && Run(s, actions, r)
    ensures Inv(r) && s.asleep + s.woken <= s.item.Keys && r.asleep + r.woken <= r.item.Keys
    ensures InOrWaiting(r) == InOrWaiting(s) + multiset(Submitted(actions))
    decreases |actions|
  {
    hide InOrWaiting, Apply, Enabled, NoLostWakeup, History, Shutdown, Shape;
    WaitersHaveItems(s);
    if actions != [] {
      var a := actions[0];
      StepKeepsInv(s, a);
      StepConserves(s, a);
      RunConserves(Apply(s, a), actions[1..], r);
      OneSubmitted(a);
    }
  }

  /** Whether a step gets a message into the queue. */
  predicate Succeeds(s: State, a: Action) { a.PostNowait? || ((a.Post? || a.ResumePoster?) && |s.q| < s.cap) }

  /** The messages of the successful posts of a run, in order. */
  function Successes(s: State, actions: seq<Action>): seq<Msg>
    decreases |actions|
  {
    if actions == [] || !Enabled(s, actions[0]) || |s.q| > s.cap then []
    else
      (if Succeeds(s, actions[0]) then [Posted(s, actions[0])] else [])
      + Successes(Apply(s, actions[0]), actions[1..])
  }

  /** What has been posted is what the successful posts brought, in their order. */
  lemma {:induction false} PostedInOrder(s: State, actions: seq<Action>, r: State)
    requires Run(s, actions, r)
    ensures r.posted == s.posted + Successes(s, actions)
    decreases |actions|
  {
    hide Apply, Enabled;
    if actions != [] {
      var a := actions[0];
      if a.PostNowait? { NowaitPosts(s, a.t, a.msg); }
      else if Posting(a) { WaitingPosts(s, a); }
      else { OthersDoNotPost(s, a); }
      PostedInOrder(Apply(s, a), actions[1..], r);
      var one := if Succeeds(s, a) then [Posted(s, a)] else [];
      var rest := Successes(Apply(s, a), actions[1..]);
      assert s.posted + (one + rest) == (s.posted + one) + rest;
    }
  }

  /** After a graceful shutdown every message that was ever handed over has been posted. */
  lemma AllSubmittedPosted(s: State, actions: seq<Action>, r: State)
    requires Init(s) && Run(s, actions, r) && Joined(r)
    ensures multiset(r.posted) == multiset(Submitted(actions))
  {
    hide Run, Inv, Submitted, InOrWaiting;
    InitInv(s);
    RunConserves(s, actions, r);
    NobodyWaits(s);
    NobodyWaits(r);
  }

  lemma NobodyWaits(s: State)
    requires Inv(s) && (Init(s) || Joined(s))
    ensures s.asleep + s.woken <= s.item.Keys && InOrWaiting(s) == multiset(s.posted)
  {
    hide Shape, NoLostWakeup, History;
    assert s.asleep + s.woken == {} by {
      if Joined(s) { assert s.asleep + s.woken <= {DTOR}; }
    }
  }

  /**
   Whatever the interleaving, once all joins have returned the pool has shut down gracefully, and every
   message that was ever handed over had been posted.
   */
  lemma GracefulShutdown(s: State, actions: seq<Action>, r: State)
    requires Init(s) && Run(s, actions, r) && Joined(r)
    ensures CleanExit(r) && multiset(r.posted) == multiset(Submitted(actions))
  {
    hide Run, CleanExit, Submitted;
    InitInv(s);
    RunKeepsInv(s, actions, r);
    JoinedIsClean(r);
    AllSubmittedPosted(s, actions, r);
  }

  // ---- shutdown completes ----

  /** Steps other than spurious wakeups and timeouts. */
  predicate Productive(a: Action) {
    !a.WakePoster? && !a.WakeWorker? && (a.ResumeWorker? ==> !a.timedOut)
  }

  /** Bounds the productive steps left once destruction has started. */
  function Measure(s: State): nat {
    9 * s.toPost + 5 * |s.q|
    + |s.asleep| + 3 * |s.woken| + 5 * |s.notifying| + (if Idle(s, DTOR) then 2 else 0)
    + 2 * |s.ready| + |s.asleepW| + 3 * |s.wokenW| + 6 * |s.popped| + 3 * |s.handling|
  }

  /** A woken poster has its message, and a worker that handles one knows which. */
  lemma ReadyToGoOn(s: State)
    requires Inv(s)
    ensures forall t :: t in s.woken ==> t in s.item
    ensures forall w :: w in s.handling ==> w in s.took && s.took[w] < |s.posted|
  {
    hide NoLostWakeup, Shutdown, FatesKept;
    assert forall t :: t in s.woken ==> t in s.asleep + s.woken;
    assert forall w :: w in s.handling ==> w in s.popped + s.handling + s.exited;
  }

  /** Until all workers are joined some productive step is possible: the shutdown never deadlocks. */
  lemma Progress(s: State) returns (a: Action)
    requires Inv(s) && s.started && !Joined(s) && s.cap >= 1
    ensures Enabled(s, a) && Productive(a)
  {
    hide Inv;
    ReadyToGoOn(s);
    if t :| t in s.notifying {
      if v :| v in s.asleepW { a := NotifyPush(t, v); } else { a := NotifyPush(t, 0); }
    } else if t :| t in s.woken {
      a := ResumePoster(t);
    } else if w :| w in s.ready {
      a := Dequeue(w);
    } else if w :| w in s.wokenW {
      a := ResumeWorker(w, false);
    } else if w :| w in s.popped {
      if t :| t in s.asleep { a := NotifyPop(w, t); } else { a := NotifyPop(w, 0); }
    } else if w :| w in s.handling {
      a := Handle(w);
    } else if Idle(s, DTOR) && s.toPost > 0 {
      a := Post(DTOR, Terminate);
    } else {
      NoDeadlock(s);
      assert false;
    }
  }

  /** With everyone asleep or gone, the wakeup invariant and the message counts leave only the joined state. */
  lemma NoDeadlock(s: State)
    requires Inv(s) && s.started && s.cap >= 1
    requires s.notifying == {} && s.woken == {} && s.ready == {} && s.wokenW == {} && s.popped == {} && s.handling == {}
    requires !(Idle(s, DTOR) && s.toPost > 0)
    ensures Joined(s)
  {
    ExitedBound(s);
    assert s.workers == s.asleepW + s.exited;
    if s.asleepW == {} {
      assert s.exited == s.workers;
      assert s.toPost == 0;
      assert DTOR !in s.asleep + s.woken;
    } else {
      assert |s.q| == 0;
      assert DTOR !in s.asleep;
      assert s.toPost == 0 && |s.fates| == |s.posted|;
      AllTerminatesTaken(s);
      SubsetSize(s.exited, s.workers);
    }
  }

  /** Every terminate message that is not being held has ended its worker. */
  lemma AllTerminatesTaken(s: State)
    requires Shape(s) && History(s) && Shutdown(s) && s.started
    requires s.popped == {} && s.handling == {} && |s.fates| == |s.posted|
    ensures |s.posted| - s.works <= |s.exited|
  {
    hide Range;
    var r := Range(s.works, |s.posted|);
    var owner := map k | k in r :: s.fates[k].w;
    forall k | k in r ensures k in owner && owner[k] in s.exited && s.took[owner[k]] == k {
      assert FateKept(s, k);
    }
    InjectiveBound(r, owner, s.exited);
  }

  lemma SubsetSize(a: set<nat>, b: set<nat>)
    requires a <= b && |a| >= |b|
    ensures a == b
  {
    if x :| x in b - a {
      assert a <= b - {x};
      SizeMonotone(a, b - {x});
      Grow(b, x);
    } else {
      forall x | x in b ensures x in a { assert x !in b - a; }
    }
  }

  lemma {:induction false} SizeMonotone(a: set<nat>, b: set<nat>)
    requires a <= b
    ensures |a| <= |b|
    decreases |a|
  {
    if x :| x in a {
      SizeMonotone(a - {x}, b - {x});
      Grow(a, x);
      Grow(b, x);
    }
  }

  /** A worker is in one place only. */
  lemma WorkerPlace(s: State, w: nat)
    requires Shape(s)
    ensures w in s.ready ==> w !in s.asleepW && w !in s.popped
    ensures w in s.wokenW ==> w !in s.asleepW && w !in s.popped
    ensures w in s.asleepW ==> w !in s.wokenW
    ensures w in s.popped ==> w !in s.handling
    ensures w in s.handling ==> w !in s.ready
    ensures |s.q| <= s.cap
  {
  }

  lemma DecreasesPosting(s: State, a: Action)
    requires Shape(s) && Shutdown(s) && s.started && Enabled(s, a) && Posting(a)
    ensures |s.q| <= s.cap && Apply(s, a).started && Measure(Apply(s, a)) < Measure(s)
  {
    hide Shape;
    PosterApart(s, DTOR);
    assert a.ResumePoster? ==> a.t in s.asleep + s.woken;
    assert a.t == DTOR;
    Grow(s.asleep, DTOR);
    Grow(s.woken, DTOR);
    Grow(s.notifying, DTOR);
  }

  lemma TakeCosts(s: State, w: nat)
    requires s.q != [] && w !in s.popped
    ensures Measure(Take(s, w)) == Measure(s) + 1
  {
    Grow(s.popped, w);
  }

  lemma SleepCosts(s: State, w: nat)
    requires w !in s.asleepW
    ensures Measure(s.(asleepW := s.asleepW + {w})) == Measure(s) + 1
  {
    Grow(s.asleepW, w);
  }

  lemma LeaveSaves(s: State, w: nat)
    ensures w in s.ready ==> Measure(s.(ready := s.ready - {w})) == Measure(s) - 2
    ensures w in s.wokenW ==> Measure(s.(wokenW := s.wokenW - {w})) == Measure(s) - 3
  {
    Grow(s.ready, w);
    Grow(s.wokenW, w);
  }

  lemma DecreasesTaking(s: State, a: Action)
    requires Shape(s) && s.started && Enabled(s, a) && Taking(a) && Productive(a)
    ensures |s.q| <= s.cap && Apply(s, a).started && Measure(Apply(s, a)) < Measure(s)
  {
    hide Shape, Measure;
    var w := a.w;
    WorkerPlace(s, w);
    LeaveSaves(s, w);
    var r := if a.Dequeue? then s.(ready := s.ready - {w}) else s.(wokenW := s.wokenW - {w});
    if s.q == [] { SleepCosts(r, w); } else { TakeCosts(r, w); }
  }

  lemma DecreasesNotifyPush(s: State, t: nat, target: nat)
    requires |s.q| <= s.cap && Enabled(s, NotifyPush(t, target)) && t == DTOR
    requires DTOR !in s.asleep && DTOR !in s.woken && (target in s.asleepW ==> target !in s.wokenW)
    ensures Measure(Apply(s, NotifyPush(t, target))) < Measure(s)
  {
    Grow(s.notifying, t);
    Grow(s.asleepW, target);
    Grow(s.wokenW, target);
  }

  lemma DecreasesNotifyPop(s: State, w: nat, target: nat)
    requires |s.q| <= s.cap && Enabled(s, NotifyPop(w, target)) && w !in s.handling
    requires target in s.asleep ==> target !in s.woken && target == DTOR
    ensures Measure(Apply(s, NotifyPop(w, target))) < Measure(s)
  {
    Grow(s.popped, w);
    Grow(s.handling, w);
    Grow(s.asleep, target);
    Grow(s.woken, target);
  }

  lemma DecreasesNotifying(s: State, a: Action)
    requires Shape(s) && Shutdown(s) && s.started && Enabled(s, a) && (a.NotifyPush? || a.NotifyPop?)
    ensures |s.q| <= s.cap && Apply(s, a).started && Measure(Apply(s, a)) < Measure(s)
  {
    hide Shape, Measure, Apply;
    PosterApart(s, DTOR);
    WakingFrame(s, a);
    if a.NotifyPush? {
      assert a.t in s.asleep + s.woken + s.notifying;
      PosterInOnePlace(s, DTOR);
      WorkerPlace(s, a.target);
      DecreasesNotifyPush(s, a.t, a.target);
    } else {
      assert a.target in s.asleep ==> a.target in s.asleep + s.woken + s.notifying;
      SleeperApart(s, a.target);
      WorkerPlace(s, a.w);
      DecreasesNotifyPop(s, a.w, a.target);
    }
  }

  lemma PosterInOnePlace(s: State, t: nat)
    requires Shape(s)
    ensures t in s.notifying ==> t !in s.asleep && t !in s.woken
  {
  }

  lemma DecreasesHandle(s: State, w: nat)
    requires |s.q| <= s.cap && Enabled(s, Handle(w)) && w !in s.ready
    ensures Measure(Apply(s, Handle(w))) < Measure(s)
  {
    hide Apply;
    HandleFrame(s, w);
    Grow(s.handling, w);
    Grow(s.ready, w);
  }

  lemma DecreasesHandling(s: State, a: Action)
    requires Shape(s) && s.started && Enabled(s, a) && a.Handle?
    ensures |s.q| <= s.cap && Apply(s, a).started && Measure(Apply(s, a)) < Measure(s)
  {
    hide Shape, Apply, Measure;
    WorkerPlace(s, a.w);
    HandleFrame(s, a.w);
    DecreasesHandle(s, a.w);
  }

  /** Every productive step after destruction has started lowers the measure. */
  lemma StepDecreases(s: State, a: Action)
    requires Inv(s) && s.started && Enabled(s, a) && Productive(a)
    ensures |s.q| <= s.cap && Apply(s, a).started && Measure(Apply(s, a)) < Measure(s)
  {
    hide Measure, Apply, Shape, Shutdown;
    if Posting(a) { DecreasesPosting(s, a); }
    else if Taking(a) { DecreasesTaking(s, a); }
    else if a.Handle? { DecreasesHandling(s, a); }
    else { DecreasesNotifying(s, a); }
  }

  ghost predicate AllProductive(actions: seq<Action>) {
    forall i :: 0 <= i < |actions| ==> Productive(actions[i])
  }

  /** Without spurious wakeups a shutdown takes a bounded number of steps, whatever the scheduler does. */
  lemma {:induction false} ShutdownIsBounded(s: State, actions: seq<Action>, r: State)
    requires Inv(s) && s.started && Run(s, actions, r) && AllProductive(actions)
    ensures Inv(r) && r.started && |actions| <= Measure(s) - Measure(r)
    decreases |actions|
  {
    hide Inv, Measure, Apply, Enabled;
    if actions != [] {
      StepKeepsInv(s, actions[0]);
      StepDecreases(s, actions[0]);
      ShutdownIsBounded(Apply(s, actions[0]), actions[1..], r);
    }
  }

  /** With room for one message every shutdown can be completed, from any state it has reached. */
  lemma {:induction false} ShutdownCompletes(s: State) returns (actions: seq<Action>, r: State)
    requires Inv(s) && s.started && s.cap >= 1
    ensures Run(s, actions, r) && AllProductive(actions) && Joined(r) && CleanExit(r)
    decreases Measure(s)
  {
    hide Inv, Measure, Joined, CleanExit, Enabled, Productive;
    if Joined(s) {
      JoinedIsClean(s);
      actions, r := [], s;
    } else {
      var a := Progress(s);
      StepKeepsInv(s, a);
      StepDecreases(s, a);
      CapUnchanged(s, a);
      var rest;
      rest, r := ShutdownCompletes(Apply(s, a));
      actions := [a] + rest;
      assert actions[1..] == rest;
    }
  }

  lemma CapUnchanged(s: State, a: Action)
    requires Enabled(s, a) && |s.q| <= s.cap
    ensures Apply(s, a).cap == s.cap && Apply(s, a).workers == s.workers
  {
    hide Enabled, Apply, Pushed;
    if Posting(a) { PostingIs(s, a); }
    else if Taking(a) { TakingIs(s, a); }
    else if Waking(a) { WakingFrame(s, a); }
    else if a.Handle? { HandleFrame(s, a.w); }
    else { StartFrame(s); }
  }

  lemma StartFrame(s: State)
    requires |s.q| <= s.cap && Enabled(s, StartDestruction)
    ensures Apply(s, StartDestruction) == s.(started := true, toPost := |s.workers|, works := |s.posted|)
  {
  }

  /** A queue without capacity never has room for a terminate message. */
  lemma {:induction false} NoRoom(s: State, actions: seq<Action>, r: State)
    requires Run(s, actions, r) && s.cap == 0 && s.workers != {} && (s.started ==> s.toPost == |s.workers|)
    ensures r.started ==> r.toPost == |r.workers| > 0
    decreases |actions|
  {
    if actions != [] {
      NoRoomStep(s, actions[0]);
      NoRoom(Apply(s, actions[0]), actions[1..], r);
    }
  }

  lemma NoRoomStep(s: State, a: Action)
    requires Enabled(s, a) && |s.q| <= s.cap && s.cap == 0 && (s.started ==> s.toPost == |s.workers|)
    ensures var r := Apply(s, a); r.cap == 0 && r.workers == s.workers && (r.started ==> r.toPost == |r.workers|)
  {
    CapUnchanged(s, a);
    if Posting(a) { PostingIs(s, a); }
    hide Apply, Pushed;
    if Taking(a) { TakingIs(s, a); }
    else if Waking(a) { WakingFrame(s, a); }
    else if a.Handle? { HandleFrame(s, a.w); }
    else if a.StartDestruction? { StartFrame(s); }
  }

  /** The destructor can return if and only if the pool was built with room for at least one message. */
  lemma ShutdownPossibleIff(s: State, actions: seq<Action>, r: State)
    requires Init(s) && Run(s, actions, r) && r.started
    ensures (exists more, j :: Run(r, more, j) && Joined(j)) <==> s.cap >= 1
  {
    hide Measure, Joined, CleanExit;
    InitInv(s);
    RunKeepsInv(s, actions, r);
    CapKept(s, actions, r);
    if s.cap >= 1 {
      var more, j := ShutdownCompletes(r);
    } else if more, j :| Run(r, more, j) && Joined(j) {
      NoRoom(s, actions, r);
      NoRoom(r, more, j);
      NotJoined(j);
    }
  }

  lemma NotJoined(s: State)
    requires s.started ==> s.toPost > 0
    ensures !Joined(s)
  {
  }

  lemma {:induction false} CapKept(s: State, actions: seq<Action>, r: State)
    requires Run(s, actions, r)
    ensures r.cap == s.cap && r.workers == s.workers
    decreases |actions|
  {
    hide Enabled, Apply;
    if actions != [] {
      CapUnchanged(s, actions[0]);
      CapKept(Apply(s, actions[0]), actions[1..], r);
    }
  }

  /** Only a post that does not wait overruns a message. */
  lemma BlockingNeverOverruns(s: State, a: Action)
    requires Inv(s) && Enabled(s, a) && !a.PostNowait?
    ensures |s.q| <= s.cap && s.fates <= Apply(s, a).fates
    ensures forall k :: |s.fates| <= k < |Apply(s, a).fates| ==> Apply(s, a).fates[k].Taken?
  {
    hide Inv;
    CapacityOfInv(s);
    var r := Apply(s, a);
    assert r.fates == s.fates || exists w :: r.fates == s.fates + [Taken(w)];
  }

  lemma CapacityOfInv(s: State)
    requires Inv(s)
    ensures |s.q| <= s.cap
  {
  }
}
