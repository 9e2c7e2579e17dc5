/** The parallel test run (specs/support/spec.cpp): workers sharing one atomic counter, as
    a state machine over their steps in any order. */
module WorkSharing {
  import opened Strings

  // ------------------------------------------------------------- dividing the examples

  datatype Group = Group(serial: bool, parent: Option<Group>)

  predicate InheritsSerial(group: Option<Group>)
    decreases group
  {
    group.Some? && (group.value.serial || InheritsSerial(group.value.parent))
  }

  method AsksSerial(group: Option<Group>) returns (serial: bool)
    ensures serial == InheritsSerial(group)
  {
    var walk := group;
    while walk.Some?
      invariant InheritsSerial(walk) == InheritsSerial(group)
      decreases walk
    {
      if walk.value.serial { return true; }
      walk := walk.value.parent;
    }
    return false;
  }

  /** The group that encloses another `k` steps out. */
  function Enclosing(group: Option<Group>, k: nat): Option<Group> {
    if k == 0 || group.None? then group else Enclosing(group.value.parent, k - 1)
  }

  predicate SerialAt(group: Option<Group>, k: nat) { Enclosing(group, k).Some? && Enclosing(group, k).value.serial }

  /** An example is serial when its own group says so or any that encloses it. */
  lemma {:induction false} SerialExactly(group: Option<Group>)
    ensures InheritsSerial(group) <==> exists k: nat :: SerialAt(group, k)
    decreases group
  {
    if group.Some? {
      SerialExactly(group.value.parent);
      forall k: nat ensures SerialAt(group, k + 1) == SerialAt(group.value.parent, k) {}
      if group.value.serial {
        assert SerialAt(group, 0);
      } else if InheritsSerial(group.value.parent) {
        var k: nat :| SerialAt(group.value.parent, k);
        assert SerialAt(group, k + 1);
      } else {
        forall k: nat ensures !SerialAt(group, k) {
          if k > 0 { assert SerialAt(group, k) == SerialAt(group.value.parent, k - 1); }
        }
      }
    }
  }

  /** The examples that may run together and those that run alone, by their indices. */
  datatype Suite = Suite(size: nat, concurrent: seq<nat>, exclusive: seq<nat>)

  ghost predicate Distinct(s: seq<nat>) { forall i, j | 0 <= i < j < |s| :: s[i] != s[j] }

  /** Every example is in one of the two lists, once. */
  ghost predicate Divided(suite: Suite) {
    && Distinct(suite.concurrent) && Distinct(suite.exclusive)
    && (forall i | 0 <= i < suite.size :: (i in suite.concurrent) != (i in suite.exclusive))
    && (forall i | i in suite.concurrent :: i < suite.size)
    && (forall i | i in suite.exclusive :: i < suite.size)
  }

  lemma DividedGrows(suite: Suite, serial: bool)
    requires Divided(suite)
    ensures var n := suite.size;
            Divided(if serial then Suite(n + 1, suite.concurrent, suite.exclusive + [n])
                    else Suite(n + 1, suite.concurrent + [n], suite.exclusive))
  {
    var n := suite.size;
    assert n !in suite.concurrent && n !in suite.exclusive;
    var grown := if serial then Suite(n + 1, suite.concurrent, suite.exclusive + [n])
                 else Suite(n + 1, suite.concurrent + [n], suite.exclusive);
    assert forall i :: (i in grown.concurrent) == (i in suite.concurrent || (!serial && i == n));
    assert forall i :: (i in grown.exclusive) == (i in suite.exclusive || (serial && i == n));
  }

  method Divide(groups: seq<Option<Group>>) returns (suite: Suite)
    ensures suite.size == |groups| && Divided(suite)
    ensures forall i | 0 <= i < |groups| :: i in suite.exclusive <==> InheritsSerial(groups[i])
  {
    var concurrent: seq<nat>, exclusive: seq<nat> := [], [];
    for index := 0 to |groups|
      invariant Divided(Suite(index, concurrent, exclusive))
      invariant forall i | 0 <= i < index :: i in exclusive <==> InheritsSerial(groups[i])
    {
      var serial := AsksSerial(groups[index]);
      DividedGrows(Suite(index, concurrent, exclusive), serial);
      if serial {
        exclusive := exclusive + [index];
      } else {
        concurrent := concurrent + [index];
      }
    }
    return Suite(|groups|, concurrent, exclusive);
  }

  // ------------------------------------------------------------- the steps

  /** Where a worker is: about to take the counter, holding a position of the concurrent
      list, running the example there, or returned. */
  datatype Phase = Asking | Claimed(position: nat) | Running(position: nat) | Returned

  /** Workers sharing the concurrent examples, then the exclusive ones one at a time, from
      where the log stood when the workers were joined. */
  datatype Stage = Sharing | Alone(start: nat, at: nat, running: bool)

  datatype Event = Began(example: nat) | Ended(example: nat)

  datatype State<R> = State(next: nat, workers: seq<Phase>, stage: Stage, results: seq<Option<R>>, log: seq<Event>)

  datatype Action<R> =
    | Ask(worker: nat) | Begin(worker: nat) | End(worker: nat, outcome: R)
    | Join | BeginAlone | EndAlone(outcome: R)

  /** How many run the task: the threads the system started, or the caller when a single
      job was asked for or none was started. */
  function WorkersOf(jobs: nat, started: nat): (n: nat)
    requires started <= jobs
    ensures n >= 1
  {
    if jobs <= 1 || started == 0 then 1 else started
  }

  function Initial<R>(suite: Suite, workers: nat): State<R> {
    State(0, seq(workers, i => Asking), Sharing, seq(suite.size, i => None), [])
  }

  predicate AllReturned(workers: seq<Phase>) { forall w | 0 <= w < |workers| :: workers[w].Returned? }

  /** What an action does, or none when it is not one that can be taken now. Taking the
      counter and adding to it is one step. */
  function Do<R>(suite: Suite, s: State<R>, a: Action<R>): Option<State<R>> {
    match a
    case Ask(w) =>
      if w < |s.workers| && s.workers[w].Asking? then
        Some(s.(next := s.next + 1,
                workers := s.workers[w := if s.next < |suite.concurrent| then Claimed(s.next) else Returned]))
      else None
    case Begin(w) =>
      if w < |s.workers| && s.workers[w].Claimed? && s.workers[w].position < |suite.concurrent| then
        var p := s.workers[w].position;
        Some(s.(workers := s.workers[w := Running(p)], log := s.log + [Began(suite.concurrent[p])]))
      else None
    case End(w, outcome) =>
      if w < |s.workers| && s.workers[w].Running? && s.workers[w].position < |suite.concurrent|
         && suite.concurrent[s.workers[w].position] < |s.results| then
        var i := suite.concurrent[s.workers[w].position];
        Some(s.(workers := s.workers[w := Asking], results := s.results[i := Some(outcome)], log := s.log + [Ended(i)]))
      else None
    case Join =>
      if s.stage.Sharing? && AllReturned(s.workers) then Some(s.(stage := Alone(|s.log|, 0, false))) else None
    case BeginAlone =>
      if s.stage.Alone? && !s.stage.running && s.stage.at < |suite.exclusive| then
        Some(s.(stage := s.stage.(running := true), log := s.log + [Began(suite.exclusive[s.stage.at])]))
      else None
    case EndAlone(outcome) =>
      if s.stage.Alone? && s.stage.running && s.stage.at < |suite.exclusive|
         && suite.exclusive[s.stage.at] < |s.results| then
        var i := suite.exclusive[s.stage.at];
        Some(s.(stage := s.stage.(running := false, at := s.stage.at + 1),
                results := s.results[i := Some(outcome)], log := s.log + [Ended(i)]))
      else None
  }

  function Perform<R>(suite: Suite, s: State<R>, actions: seq<Action<R>>): Option<State<R>>
    decreases actions
  {
    if actions == [] then Some(s)
    else
      var t := Do(suite, s, actions[0]);
      if t.None? then None else Perform(suite, t.value, actions[1..])
  }

  predicate Finished<R>(suite: Suite, s: State<R>) {
    s.stage.Alone? && !s.stage.running && s.stage.at == |suite.exclusive|
  }

  // ------------------------------------------------------------- what every step keeps

  function Count(log: seq<Event>, e: Event): nat {
    if log == [] then 0 else (if log[|log| - 1] == e then 1 else 0) + Count(log[..|log| - 1], e)
  }

  /** How often an example has begun and ended. */
  predicate Ran(log: seq<Event>, example: nat, began: nat, ended: nat) {
    Count(log, Began(example)) == began && Count(log, Ended(example)) == ended
  }

  lemma Logged(log: seq<Event>, e: Event, f: Event)
    ensures Count(log + [e], f) == Count(log, f) + (if e == f then 1 else 0)
  {
    assert (log + [e])[..|log + [e]| - 1] == log;
  }

  predicate Holds(w: Phase, p: nat) { (w.Claimed? || w.Running?) && w.position == p }

  predicate Held(workers: seq<Phase>, p: nat) { exists w | 0 <= w < |workers| :: Holds(workers[w], p) }

  /** Each position handed out is held by one worker or is done with. */
  ghost predicate Shared<R>(suite: Suite, s: State<R>) {
    var n := |suite.concurrent|;
    && |s.results| == suite.size
    && (forall w | 0 <= w < |s.workers| ::
          match s.workers[w]
          case Asking => true
          case Returned => s.next >= n
          case Claimed(p) => p < s.next && p < n && Ran(s.log, suite.concurrent[p], 0, 0)
          case Running(p) => p < s.next && p < n && Ran(s.log, suite.concurrent[p], 1, 0))
    && (forall v, w | 0 <= v < w < |s.workers| && (s.workers[v].Claimed? || s.workers[v].Running?) ::
          !Holds(s.workers[w], s.workers[v].position))
    && (forall p | s.next <= p < n :: Ran(s.log, suite.concurrent[p], 0, 0))
    && (forall p | 0 <= p < n && p < s.next && !Held(s.workers, p) :: Ran(s.log, suite.concurrent[p], 1, 1))
  }

  /** The exclusive examples run in order, once the workers have all returned. */
  ghost predicate OneByOne<R>(suite: Suite, s: State<R>) {
    && (s.stage.Alone? ==> AllReturned(s.workers) && s.stage.at <= |suite.exclusive|
                           && (s.stage.running ==> s.stage.at < |suite.exclusive|))
    && (forall k | 0 <= k < |suite.exclusive| ::
          if s.stage.Sharing? || s.stage.at < k || (s.stage.at == k && !s.stage.running) then
            Ran(s.log, suite.exclusive[k], 0, 0)
          else if s.stage.at == k then Ran(s.log, suite.exclusive[k], 1, 0)
          else Ran(s.log, suite.exclusive[k], 1, 1))
  }

  /** Concurrent examples before the join and exclusive ones after it. */
  ghost predicate InOrder<R>(suite: Suite, s: State<R>) {
    if s.stage.Sharing? then forall k | 0 <= k < |s.log| :: s.log[k].example in suite.concurrent
    else
      && s.stage.start <= |s.log|
      && (forall k | 0 <= k < s.stage.start :: s.log[k].example in suite.concurrent)
      && (forall k | s.stage.start <= k < |s.log| :: s.log[k].example in suite.exclusive)
  }

  /** A slot is filled exactly when its example has ended. */
  ghost predicate Slots<R>(s: State<R>) {
    forall i | 0 <= i < |s.results| :: s.results[i].Some? <==> Count(s.log, Ended(i)) > 0
  }

  ghost predicate Sound<R>(suite: Suite, s: State<R>) {
    Shared(suite, s) && OneByOne(suite, s) && InOrder(suite, s) && Slots(s)
  }

  lemma InitiallySound<R>(suite: Suite, workers: nat)
    ensures Sound(suite, Initial<R>(suite, workers))
  {
  }

  lemma HeldElsewhere(workers: seq<Phase>, w: nat, phase: Phase, p: nat)
    requires w < |workers| && Held(workers, p) && !Holds(workers[w], p)
    ensures Held(workers[w := phase], p)
  {
    var v :| 0 <= v < |workers| && Holds(workers[v], p);
    assert Holds(workers[w := phase][v], p);
  }

  lemma HeldHere(workers: seq<Phase>, w: nat, phase: Phase, p: nat)
    requires w < |workers| && Holds(phase, p)
    ensures Held(workers[w := phase], p)
  {
    assert Holds(workers[w := phase][w], p);
  }

  lemma AskSound<R>(suite: Suite, s: State<R>, w: nat)
    requires Divided(suite) && Sound(suite, s) && Do(suite, s, Ask(w)).Some?
    ensures Sound(suite, Do(suite, s, Ask(w)).value)
  {
    hide Ran, Count;
    var t := Do(suite, s, Ask(w)).value;
    if s.next < |suite.concurrent| { HeldHere(s.workers, w, Claimed(s.next), s.next); }
    forall p | 0 <= p < |suite.concurrent| && Held(s.workers, p) ensures Held(t.workers, p) {
      HeldElsewhere(s.workers, w, t.workers[w], p);
    }
  }

  /** What logging an event about one example leaves of the others. */
  lemma OthersRan(log: seq<Event>, e: Event, example: nat, began: nat, ended: nat)
    requires e.example != example
    ensures Ran(log + [e], example, began, ended) == Ran(log, example, began, ended)
  {
    Logged(log, e, Began(example));
    Logged(log, e, Ended(example));
  }

  lemma NextRan(log: seq<Event>, e: Event, began: nat, ended: nat)
    requires Ran(log, e.example, began, ended)
    ensures Ran(log + [e], e.example, if e.Began? then began + 1 else began, if e.Ended? then ended + 1 else ended)
  {
    Logged(log, e, Began(e.example));
    Logged(log, e, Ended(e.example));
  }

  lemma Apart(suite: Suite, p: nat, k: nat)
    requires Divided(suite) && p < |suite.concurrent| && k < |suite.exclusive|
    ensures suite.concurrent[p] != suite.exclusive[k]
  {
    assert suite.concurrent[p] in suite.concurrent && suite.exclusive[k] in suite.exclusive;
  }

  lemma BeginSound<R>(suite: Suite, s: State<R>, w: nat)
    requires Divided(suite) && Sound(suite, s) && Do(suite, s, Begin(w)).Some?
    ensures Sound(suite, Do(suite, s, Begin(w)).value)
  {
    var t := Do(suite, s, Begin(w)).value;
    var p := s.workers[w].position;
    BeginShared(suite, s, w);
    WorkerOthers(suite, s, w, Began(suite.concurrent[p]));
    SlotsKept(s, Began(suite.concurrent[p]));
    assert !AllReturned(s.workers);
  }

  /** A worker's event touches no exclusive example, and comes before the join. */
  lemma WorkerOthers<R>(suite: Suite, s: State<R>, w: nat, e: Event)
    requires Divided(suite) && Sound(suite, s)
    requires w < |s.workers| && (s.workers[w].Claimed? || s.workers[w].Running?)
    requires e.example == suite.concurrent[s.workers[w].position]
    ensures s.stage.Sharing?
    ensures forall k | 0 <= k < |suite.exclusive| :: Ran(s.log + [e], suite.exclusive[k], 0, 0)
    ensures forall k | 0 <= k < |s.log + [e]| :: (s.log + [e])[k].example in suite.concurrent
  {
    hide Ran;
    assert !AllReturned(s.workers);
    forall k | 0 <= k < |suite.exclusive| ensures Ran(s.log + [e], suite.exclusive[k], 0, 0) {
      Apart(suite, s.workers[w].position, k);
      OthersRan(s.log, e, suite.exclusive[k], 0, 0);
    }
  }

  lemma SlotsKept<R>(s: State<R>, e: Event)
    requires Slots(s) && e.Began?
    ensures forall i | 0 <= i < |s.results| :: s.results[i].Some? <==> Count(s.log + [e], Ended(i)) > 0
  {
    hide Count;
    forall i | 0 <= i < |s.results| ensures Count(s.log + [e], Ended(i)) == Count(s.log, Ended(i)) {
      Logged(s.log, e, Ended(i));
    }
  }

  lemma BeginShared<R>(suite: Suite, s: State<R>, w: nat)
    requires Divided(suite) && Shared(suite, s) && Do(suite, s, Begin(w)).Some?
    ensures Shared(suite, Do(suite, s, Begin(w)).value)
  {
    hide Ran;
    var t := Do(suite, s, Begin(w)).value;
    var p := s.workers[w].position;
    var e := Began(suite.concurrent[p]);
    NextRan(s.log, e, 0, 0);
    OtherPositions(suite, s, w, e);
    HeldHere(s.workers, w, Running(p), p);
    forall q | 0 <= q < |suite.concurrent| && q != p && Held(s.workers, q) ensures Held(t.workers, q) {
      HeldElsewhere(s.workers, w, Running(p), q);
    }
  }

  /** Logging the event of one position leaves what is known of the others. */
  lemma OtherPositions<R>(suite: Suite, s: State<R>, w: nat, e: Event)
    requires Divided(suite) && Shared(suite, s) && w < |s.workers| && (s.workers[w].Claimed? || s.workers[w].Running?)
    requires e.example == suite.concurrent[s.workers[w].position]
    ensures forall q, began, ended | 0 <= q < |suite.concurrent| && q != s.workers[w].position ::
              Ran(s.log + [e], suite.concurrent[q], began, ended) == Ran(s.log, suite.concurrent[q], began, ended)
  {
    hide Ran;
    forall q, began, ended | 0 <= q < |suite.concurrent| && q != s.workers[w].position
      ensures Ran(s.log + [e], suite.concurrent[q], began, ended) == Ran(s.log, suite.concurrent[q], began, ended)
    {
      OthersRan(s.log, e, suite.concurrent[q], began, ended);
    }
  }

  lemma EndShared<R>(suite: Suite, s: State<R>, w: nat, outcome: R)
    requires Divided(suite) && Shared(suite, s) && Do(suite, s, End(w, outcome)).Some?
    ensures Shared(suite, Do(suite, s, End(w, outcome)).value)
  {
    hide Ran;
    var t := Do(suite, s, End(w, outcome)).value;
    var p := s.workers[w].position;
    var e := Ended(suite.concurrent[p]);
    NextRan(s.log, e, 1, 0);
    OtherPositions(suite, s, w, e);
    forall q | 0 <= q < |suite.concurrent| && q != p && Held(s.workers, q) ensures Held(t.workers, q) {
      HeldElsewhere(s.workers, w, Asking, q);
    }
  }

  lemma SlotFilled<R>(s: State<R>, i: nat, outcome: R)
    requires Slots(s) && i < |s.results|
    ensures forall j | 0 <= j < |s.results| ::
              s.results[i := Some(outcome)][j].Some? <==> Count(s.log + [Ended(i)], Ended(j)) > 0
  {
    hide Count;
    forall j | 0 <= j < |s.results|
      ensures s.results[i := Some(outcome)][j].Some? <==> Count(s.log + [Ended(i)], Ended(j)) > 0
    {
      Logged(s.log, Ended(i), Ended(j));
    }
  }

  lemma EndSound<R>(suite: Suite, s: State<R>, w: nat, outcome: R)
    requires Divided(suite) && Sound(suite, s) && Do(suite, s, End(w, outcome)).Some?
    ensures Sound(suite, Do(suite, s, End(w, outcome)).value)
  {
    hide Ran, Count;
    var i := suite.concurrent[s.workers[w].position];
    EndShared(suite, s, w, outcome);
    WorkerOthers(suite, s, w, Ended(i));
    SlotFilled(s, i, outcome);
  }

  lemma JoinSound<R>(suite: Suite, s: State<R>)
    requires Divided(suite) && Sound(suite, s) && Do(suite, s, Join).Some?
    ensures Sound(suite, Do(suite, s, Join).value)
  {
    hide Ran, Count;
  }

  /** The event of an exclusive example: concurrent ones are as they were. */
  lemma AloneOthers<R>(suite: Suite, s: State<R>, e: Event)
    requires Divided(suite) && Sound(suite, s) && s.stage.Alone? && s.stage.at < |suite.exclusive|
    requires e.example == suite.exclusive[s.stage.at]
    ensures forall p, began, ended | 0 <= p < |suite.concurrent| ::
              Ran(s.log + [e], suite.concurrent[p], began, ended) == Ran(s.log, suite.concurrent[p], began, ended)
    ensures forall k, began, ended | 0 <= k < |suite.exclusive| && k != s.stage.at ::
              Ran(s.log + [e], suite.exclusive[k], began, ended) == Ran(s.log, suite.exclusive[k], began, ended)
    ensures forall k | s.stage.start <= k < |s.log + [e]| :: (s.log + [e])[k].example in suite.exclusive
  {
    hide Ran;
    forall p, began, ended | 0 <= p < |suite.concurrent|
      ensures Ran(s.log + [e], suite.concurrent[p], began, ended) == Ran(s.log, suite.concurrent[p], began, ended)
    {
      Apart(suite, p, s.stage.at);
      OthersRan(s.log, e, suite.concurrent[p], began, ended);
    }
    forall k, began, ended | 0 <= k < |suite.exclusive| && k != s.stage.at
      ensures Ran(s.log + [e], suite.exclusive[k], began, ended) == Ran(s.log, suite.exclusive[k], began, ended)
    {
      OthersRan(s.log, e, suite.exclusive[k], began, ended);
    }
  }

  lemma BeginAloneSound<R>(suite: Suite, s: State<R>)
    requires Divided(suite) && Sound(suite, s) && Do(suite, s, BeginAlone).Some?
    ensures Sound(suite, Do(suite, s, BeginAlone).value)
  {
    hide Ran, Count;
    var e := Began(suite.exclusive[s.stage.at]);
    AloneOthers(suite, s, e);
    NextRan(s.log, e, 0, 0);
    SlotsKept(s, e);
  }

  lemma EndAloneSound<R>(suite: Suite, s: State<R>, outcome: R)
    requires Divided(suite) && Sound(suite, s) && Do(suite, s, EndAlone(outcome)).Some?
    ensures Sound(suite, Do(suite, s, EndAlone(outcome)).value)
  {
    hide Ran, Count;
    var e := Ended(suite.exclusive[s.stage.at]);
    AloneOthers(suite, s, e);
    NextRan(s.log, e, 1, 0);
    SlotFilled(s, suite.exclusive[s.stage.at], outcome);
  }

  lemma StepSound<R>(suite: Suite, s: State<R>, a: Action<R>)
    requires Divided(suite) && Sound(suite, s) && Do(suite, s, a).Some?
    ensures Sound(suite, Do(suite, s, a).value)
  {
    hide Do, Sound;
    match a
    case Ask(w) => AskSound(suite, s, w);
    case Begin(w) => BeginSound(suite, s, w);
    case End(w, outcome) => EndSound(suite, s, w, outcome);
    case Join => JoinSound(suite, s);
    case BeginAlone => BeginAloneSound(suite, s);
    case EndAlone(outcome) => EndAloneSound(suite, s, outcome);
  }

  lemma {:induction false} RunSound<R>(suite: Suite, s: State<R>, actions: seq<Action<R>>)
    requires Divided(suite) && Sound(suite, s) && Perform(suite, s, actions).Some?
    ensures Sound(suite, Perform(suite, s, actions).value)
    decreases actions
  {
    hide Do, Sound;
    if actions != [] {
      StepSound(suite, s, actions[0]);
      RunSound(suite, Do(suite, s, actions[0]).value, actions[1..]);
    }
  }

  // ------------------------------------------------------------- over whole runs

  /** However the workers' steps are interleaved, a run that finishes has begun and ended
      every example exactly once and filled every slot. */
  lemma EveryExampleOnce<R>(suite: Suite, workers: nat, actions: seq<Action<R>>)
    requires Divided(suite) && workers >= 1
    requires Perform(suite, Initial<R>(suite, workers), actions).Some?
    ensures var s := Perform(suite, Initial<R>(suite, workers), actions).value;
            Finished(suite, s) ==>
              |s.results| == suite.size
              && forall i | 0 <= i < suite.size :: Ran(s.log, i, 1, 1) && s.results[i].Some?
  {
    hide Ran, Count, Perform;
    var s := Perform(suite, Initial<R>(suite, workers), actions).value;
    InitiallySound<R>(suite, workers);
    RunSound(suite, Initial<R>(suite, workers), actions);
    WorkersStay(suite, Initial<R>(suite, workers), actions);
    if Finished(suite, s) {
      assert s.workers[0].Returned?;
      forall i | 0 <= i < suite.size ensures Ran(s.log, i, 1, 1) && s.results[i].Some? {
        OneRan(suite, s, i);
      }
    }
  }

  /** So it is whatever number of jobs is asked for and however many threads start. */
  lemma EveryExampleOnceWith<R>(suite: Suite, jobs: nat, started: nat, actions: seq<Action<R>>)
    requires Divided(suite) && started <= jobs
    requires Perform(suite, Initial<R>(suite, WorkersOf(jobs, started)), actions).Some?
    requires Finished(suite, Perform(suite, Initial<R>(suite, WorkersOf(jobs, started)), actions).value)
    ensures var s := Perform(suite, Initial<R>(suite, WorkersOf(jobs, started)), actions).value;
            |s.results| == suite.size && forall i | 0 <= i < suite.size :: Ran(s.log, i, 1, 1) && s.results[i].Some?
  {
    hide Ran, Perform, Finished;
    EveryExampleOnce(suite, WorkersOf(jobs, started), actions);
  }

  lemma OneRan<R>(suite: Suite, s: State<R>, i: nat)
    requires Divided(suite) && Sound(suite, s) && Finished(suite, s) && i < suite.size
    requires |s.workers| > 0 && s.next >= |suite.concurrent|
    ensures Ran(s.log, i, 1, 1) && s.results[i].Some?
  {
    hide Count;
    if i in suite.concurrent {
      var p :| 0 <= p < |suite.concurrent| && suite.concurrent[p] == i;
      assert !Held(s.workers, p);
    } else {
      var k :| 0 <= k < |suite.exclusive| && suite.exclusive[k] == i;
    }
  }

  lemma {:induction false} WorkersStay<R>(suite: Suite, s: State<R>, actions: seq<Action<R>>)
    requires Perform(suite, s, actions).Some?
    ensures |Perform(suite, s, actions).value.workers| == |s.workers|
    decreases actions
  {
    if actions != [] { WorkersStay(suite, Do(suite, s, actions[0]).value, actions[1..]); }
  }

  /** At every moment of every run, no exclusive example has begun before the last event of
      a concurrent one. */
  lemma ExclusiveAfterConcurrent<R>(suite: Suite, workers: nat, actions: seq<Action<R>>)
    requires Divided(suite) && Perform(suite, Initial<R>(suite, workers), actions).Some?
    ensures var s := Perform(suite, Initial<R>(suite, workers), actions).value;
            forall a, b | 0 <= a < b < |s.log| :: s.log[a].example in suite.exclusive ==> s.log[b].example in suite.exclusive
    ensures var s := Perform(suite, Initial<R>(suite, workers), actions).value;
            s.stage.Alone? ==> forall p | 0 <= p < |suite.concurrent| && workers >= 1 :: Ran(s.log, suite.concurrent[p], 1, 1)
  {
    hide Ran, Count, Perform;
    var s := Perform(suite, Initial<R>(suite, workers), actions).value;
    InitiallySound<R>(suite, workers);
    RunSound(suite, Initial<R>(suite, workers), actions);
    WorkersStay(suite, Initial<R>(suite, workers), actions);
    forall a, b | 0 <= a < b < |s.log| && s.log[a].example in suite.exclusive ensures s.log[b].example in suite.exclusive {
      assert s.log[a].example !in suite.concurrent;
    }
    if s.stage.Alone? && workers >= 1 {
      assert s.workers[0].Returned?;
      forall p | 0 <= p < |suite.concurrent| ensures Ran(s.log, suite.concurrent[p], 1, 1) {
        assert !Held(s.workers, p);
      }
    }
  }

  /** The example whose slot an action writes, if it writes one. */
  function Writes<R>(suite: Suite, s: State<R>, a: Action<R>): Option<(nat, R)> {
    match a
    case End(w, outcome) =>
      if w < |s.workers| && s.workers[w].Running? && s.workers[w].position < |suite.concurrent| then
        Some((suite.concurrent[s.workers[w].position], outcome))
      else None
    case EndAlone(outcome) =>
      if s.stage.Alone? && s.stage.at < |suite.exclusive| then Some((suite.exclusive[s.stage.at], outcome)) else None
    case _ => None
  }

  /** An action writes only the slot of the example it ends, which was empty, so what an
      example's run gave is never written over. */
  lemma WritesOwnSlot<R>(suite: Suite, s: State<R>, a: Action<R>)
    requires Divided(suite) && Sound(suite, s) && Do(suite, s, a).Some?
    ensures var t := Do(suite, s, a).value;
            var written := Writes(suite, s, a);
            && |t.results| == |s.results|
            && (written.Some? ==> written.value.0 < |s.results| && s.results[written.value.0] == None
                                  && t.results == s.results[written.value.0 := Some(written.value.1)])
            && (written.None? ==> t.results == s.results)
  {
    hide Count;
  }

  // ------------------------------------------------------------- every schedule ends

  /** What is left to do, in steps. */
  function Left<R>(suite: Suite, s: State<R>): nat {
    3 * (if s.next < |suite.concurrent| then |suite.concurrent| - s.next else 0) + Steps(s.workers)
      + match s.stage
        case Sharing => 2 * |suite.exclusive| + 1
        case Alone(_, at, running) =>
          if at < |suite.exclusive| then 2 * (|suite.exclusive| - at) - (if running then 1 else 0) else 0
  }

  function Steps(workers: seq<Phase>): nat {
    if workers == [] then 0
    else
      (match workers[0] case Asking => 1 case Claimed(_) => 3 case Running(_) => 2 case Returned => 0) + Steps(workers[1..])
  }

  lemma {:induction false} StepsUpdate(workers: seq<Phase>, w: nat, phase: Phase)
    requires w < |workers|
    ensures Steps(workers[w := phase]) == Steps(workers) - Steps([workers[w]]) + Steps([phase])
    decreases |workers|
  {
    assert [workers[w]][1..] == [] && [phase][1..] == [];
    if w == 0 {
      assert workers[0 := phase][1..] == workers[1..];
    } else {
      assert workers[w := phase][1..] == workers[1..][w - 1 := phase];
      StepsUpdate(workers[1..], w - 1, phase);
    }
  }

  /** Every action leaves less to do, so no schedule goes on for ever. */
  lemma EveryActionProgresses<R>(suite: Suite, s: State<R>, a: Action<R>)
    requires Divided(suite) && Sound(suite, s) && Do(suite, s, a).Some?
    ensures Left(suite, Do(suite, s, a).value) < Left(suite, s)
  {
    hide Ran, Count, Slots, InOrder, Steps;
    PhaseSteps();
    match a
    case Ask(w) =>
      StepsUpdate(s.workers, w, if s.next < |suite.concurrent| then Claimed(s.next) else Returned);
    case Begin(w) => StepsUpdate(s.workers, w, Running(s.workers[w].position));
    case End(w, _) => StepsUpdate(s.workers, w, Asking);
    case _ =>
  }

  lemma PhaseSteps()
    ensures Steps([Asking]) == 1 && Steps([Returned]) == 0
    ensures forall p :: Steps([Claimed(p)]) == 3 && Steps([Running(p)]) == 2
  {
    forall p ensures Steps([Claimed(p)]) == 3 && Steps([Running(p)]) == 2 {
      assert [Claimed(p)][1..] == [] && [Running(p)][1..] == [];
    }
    assert [Asking][1..] == [] && [Returned][1..] == [];
  }

  /** And until the run is finished some action can be taken. */
  lemma SomeActionCanBeTaken<R>(suite: Suite, s: State<R>, outcome: R)
    requires Divided(suite) && Sound(suite, s) && !Finished(suite, s)
    ensures exists a: Action<R> :: Do(suite, s, a).Some?
  {
    hide Ran, Count;
    if s.stage.Sharing? {
      if AllReturned(s.workers) {
        assert Do(suite, s, Join).Some?;
      } else {
        var w :| 0 <= w < |s.workers| && !s.workers[w].Returned?;
        match s.workers[w]
        case Asking => assert Do(suite, s, Ask(w)).Some?;
        case Claimed(p) => assert Do(suite, s, Begin(w)).Some?;
        case Running(p) =>
          assert suite.concurrent[p] in suite.concurrent;
          assert Do(suite, s, End(w, outcome)).Some?;
      }
    } else if s.stage.running {
      assert suite.exclusive[s.stage.at] in suite.exclusive;
      assert Do(suite, s, EndAlone(outcome)).Some?;
    } else {
      assert Do(suite, s, BeginAlone).Some?;
    }
  }
}
