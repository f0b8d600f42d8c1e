/**
 The indexing server's pipeline as interleaved steps: one receiver feeds a bounded channel that N
 worker threads drain into the index; the receiver doubles the reserved capacity under the write
 lock that excludes workers in the middle of an add.
 */
module Workers {
  import opened Basics
  import opened Wire

  const CHANNEL_BOUND: nat := 2000

  datatype Receiver = Reading | Got(row: Row) | Sending(row: Row) | Finished
  datatype Worker = WantLock | InRecv | HasRow(row: Row) | Adding(row: Row) | Done
  datatype Holder = Nobody | By(worker: nat)

  datatype State = State(
    unread: seq<Row>,
    receiver: Receiver,
    received: nat,
    capacity: nat,
    channel: seq<Row>,
    mutex: Holder,
    workers: seq<Worker>,
    index: multiset<Row>,
    lost: multiset<Row>)

  datatype Step =
    | Read | Admit | Send | Finish
    | Lock(w: nat) | Recv(w: nat) | Hangup(w: nat) | Begin(w: nat) | Add(w: nat) | AddFails(w: nat)

  function Initial(rows: seq<Row>, capacity: nat, workers: nat): State {
    State(rows, Reading, 0, capacity, [], Nobody, seq(workers, i => WantLock), multiset{}, multiset{})
  }

  predicate AnyAdding(workers: seq<Worker>) {
    exists i :: 0 <= i < |workers| && workers[i].Adding?
  }

  predicate Enabled(s: State, a: Step) {
    match a
    case Read => s.receiver.Reading? && s.unread != []
    case Admit => s.receiver.Got? && (s.received == s.capacity ==> !AnyAdding(s.workers))
    case Send => s.receiver.Sending? && |s.channel| < CHANNEL_BOUND
    case Finish => s.receiver.Reading? && s.unread == []
    case Lock(w) => w < |s.workers| && s.workers[w].WantLock? && s.mutex == Nobody
    case Recv(w) => w < |s.workers| && s.workers[w].InRecv? && s.channel != []
    case Hangup(w) => w < |s.workers| && s.workers[w].InRecv? && s.channel == [] && s.receiver.Finished?
    case Begin(w) => w < |s.workers| && s.workers[w].HasRow?
    case Add(w) => w < |s.workers| && s.workers[w].Adding?
    case AddFails(w) => w < |s.workers| && s.workers[w].Adding?
  }

  /** One step. A failed add loses its row and ends its worker: the thread returns an error that
      nobody looks at, as join only reports panics. */
  function Apply(s: State, a: Step): State
    requires Enabled(s, a)
  {
    match a
    case Read => s.(unread := s.unread[1..], receiver := Got(s.unread[0]))
    case Admit => s.(receiver := Sending(s.receiver.row), received := s.received + 1,
                     capacity := if s.received == s.capacity then 2 * s.capacity else s.capacity)
    case Send => s.(receiver := Reading, channel := s.channel + [s.receiver.row])
    case Finish => s.(receiver := Finished)
    case Lock(w) => s.(workers := s.workers[w := InRecv], mutex := By(w))
    case Recv(w) => s.(workers := s.workers[w := HasRow(s.channel[0])], channel := s.channel[1..], mutex := Nobody)
    case Hangup(w) => s.(workers := s.workers[w := Done], mutex := Nobody)
    case Begin(w) => s.(workers := s.workers[w := Adding(s.workers[w].row)])
    case Add(w) => s.(workers := s.workers[w := WantLock], index := s.index + multiset{s.workers[w].row})
    case AddFails(w) => s.(workers := s.workers[w := Done], lost := s.lost + multiset{s.workers[w].row})
  }

  // ----- where the rows are

  predicate Holds(w: Worker, x: Row) {
    (w.HasRow? || w.Adding?) && w.row == x
  }

  predicate Carries(r: Receiver, x: Row) {
    (r.Got? || r.Sending?) && r.row == x
  }

  /** How many workers hold the row `x`. */
  ghost function HeldOf(workers: seq<Worker>, x: Row): nat {
    if workers == [] then 0 else One(Holds(workers[0], x)) + HeldOf(workers[1..], x)
  }

  /** How many workers hold a row at all. */
  ghost function Busy(workers: seq<Worker>): nat {
    if workers == [] then 0 else One(workers[0].HasRow? || workers[0].Adding?) + Busy(workers[1..])
  }

  lemma {:induction false} HeldUpdate(workers: seq<Worker>, w: nat, v: Worker, x: Row)
    requires w < |workers|
    ensures HeldOf(workers[w := v], x) + One(Holds(workers[w], x)) == HeldOf(workers, x) + One(Holds(v, x))
    decreases |workers|
  {
    var after := workers[w := v];
    if w == 0 {
      assert after[1..] == workers[1..];
    } else {
      HeldUpdate(workers[1..], w - 1, v, x);
      assert after[1..] == workers[1..][w - 1 := v];
    }
  }

  lemma {:induction false} BusyUpdate(workers: seq<Worker>, w: nat, v: Worker)
    requires w < |workers|
    ensures Busy(workers[w := v]) + One(workers[w].HasRow? || workers[w].Adding?)
         == Busy(workers) + One(v.HasRow? || v.Adding?)
    decreases |workers|
  {
    var after := workers[w := v];
    if w == 0 {
      assert after[1..] == workers[1..];
    } else {
      BusyUpdate(workers[1..], w - 1, v);
      assert after[1..] == workers[1..][w - 1 := v];
    }
  }

  lemma {:induction false} IdleWorkers(workers: seq<Worker>, x: Row)
    requires forall i :: 0 <= i < |workers| ==> workers[i].WantLock? || workers[i].Done?
    ensures HeldOf(workers, x) == 0 && Busy(workers) == 0
    decreases |workers|
  {
    if workers != [] {
      IdleWorkers(workers[1..], x);
    }
  }

  lemma {:induction false} CountHead(s: seq<Row>, x: Row)
    requires s != []
    ensures multiset(s)[x] == One(s[0] == x) + multiset(s[1..])[x]
  {
    assert s == [s[0]] + s[1..];
  }

  lemma {:induction false} CountSnoc(s: seq<Row>, y: Row, x: Row)
    ensures multiset(s + [y])[x] == multiset(s)[x] + One(y == x)
  {
  }

  // ----- the invariant

  /** Copies of `x` unread, in the receiver, in the channel, in workers, in the index and lost. */
  ghost function Copies(s: State, x: Row): nat {
    multiset(s.unread)[x] + One(Carries(s.receiver, x)) + multiset(s.channel)[x]
    + HeldOf(s.workers, x) + s.index[x] + s.lost[x]
  }

  /** All of them together are the rows sent. */
  ghost predicate Conserved(s: State, rows: seq<Row>) {
    forall x: Row :: Copies(s, x) == multiset(rows)[x]
  }

  /** Only the worker named by the mutex is inside recv. */
  ghost predicate Exclusive(s: State) {
    && (s.mutex.By? ==> s.mutex.worker < |s.workers| && s.workers[s.mutex.worker].InRecv?)
    && forall i :: 0 <= i < |s.workers| && s.workers[i].InRecv? ==> s.mutex == By(i)
  }

  /** Rows counted by the receiver, and the space reserved for them. */
  ghost predicate Counted(s: State, rows: seq<Row>) {
    && s.received + |s.unread| + One(s.receiver.Got?) == |rows|
    && s.received == One(s.receiver.Sending?) + |s.channel| + Busy(s.workers) + |s.index| + |s.lost|
    && 1 <= s.capacity && s.received <= s.capacity
  }

  /** Without a lost row workers end only after the stream has ended and the channel is drained. */
  ghost predicate EndsInOrder(s: State) {
    s.lost == multiset{} ==>
      forall i :: 0 <= i < |s.workers| && s.workers[i].Done? ==> s.receiver.Finished? && s.channel == []
  }

  ghost predicate Inv(s: State, rows: seq<Row>) {
    Conserved(s, rows) && Exclusive(s) && Counted(s, rows) && EndsInOrder(s) && (s.receiver.Finished? ==> s.unread == [])
  }

  lemma {:induction false} InitialInv(rows: seq<Row>, capacity: nat, workers: nat)
    requires capacity >= 1
    ensures Inv(Initial(rows, capacity, workers), rows)
  {
    forall x: Row ensures Copies(Initial(rows, capacity, workers), x) == multiset(rows)[x] {
      IdleWorkers(seq(workers, i => WantLock), x);
    }
    IdleWorkers(seq(workers, i => WantLock), Row(0, []));
  }

  lemma {:induction false} ReceiverKeepsCopies(s: State, a: Step, x: Row)
    requires Enabled(s, a) && (a.Read? || a.Admit? || a.Send? || a.Finish?)
    ensures Copies(Apply(s, a), x) == Copies(s, x)
  {
    hide HeldOf;
    if a.Read? {
      CountHead(s.unread, x);
    } else if a.Send? {
      CountSnoc(s.channel, s.receiver.row, x);
    }
  }

  lemma {:induction false} WorkerKeepsCopies(s: State, a: Step, x: Row)
    requires Enabled(s, a) && !(a.Read? || a.Admit? || a.Send? || a.Finish?)
    ensures Copies(Apply(s, a), x) == Copies(s, x)
  {
    hide HeldOf;
    HeldUpdate(s.workers, a.w, Apply(s, a).workers[a.w], x);
    if a.Recv? {
      CountHead(s.channel, x);
    }
  }

  lemma {:induction false} StepConserves(s: State, a: Step, rows: seq<Row>)
    requires Conserved(s, rows) && Enabled(s, a)
    ensures Conserved(Apply(s, a), rows)
  {
    hide Copies, Apply, Enabled;
    forall x: Row ensures Copies(Apply(s, a), x) == multiset(rows)[x] {
      if a.Read? || a.Admit? || a.Send? || a.Finish? {
        ReceiverKeepsCopies(s, a, x);
      } else {
        WorkerKeepsCopies(s, a, x);
      }
    }
  }

  lemma {:induction false} StepCounts(s: State, a: Step, rows: seq<Row>)
    requires Counted(s, rows) && Enabled(s, a)
    ensures Counted(Apply(s, a), rows)
  {
    hide Busy;
    match a
    case Recv(w) => BusyUpdate(s.workers, w, HasRow(s.channel[0]));
    case Lock(w) => BusyUpdate(s.workers, w, InRecv);
    case Hangup(w) => BusyUpdate(s.workers, w, Done);
    case Begin(w) => BusyUpdate(s.workers, w, Adding(s.workers[w].row));
    case Add(w) => BusyUpdate(s.workers, w, WantLock);
    case AddFails(w) => BusyUpdate(s.workers, w, Done);
    case _ =>
  }

  lemma {:induction false} StepKeepsInv(s: State, a: Step, rows: seq<Row>)
    requires Inv(s, rows) && Enabled(s, a)
    ensures Inv(Apply(s, a), rows)
  {
    hide Conserved, Exclusive, EndsInOrder, Counted;
    StepConserves(s, a, rows);
    StepCounts(s, a, rows);
    StepKeepsExclusive(s, a);
    StepEndsInOrder(s, a);
  }

  lemma {:induction false} StepKeepsExclusive(s: State, a: Step)
    requires Exclusive(s) && Enabled(s, a)
    ensures Exclusive(Apply(s, a))
  {
  }

  lemma {:induction false} StepEndsInOrder(s: State, a: Step)
    requires EndsInOrder(s) && Enabled(s, a)
    ensures EndsInOrder(Apply(s, a))
  {
    if a.AddFails? {
      assert s.workers[a.w].row in Apply(s, a).lost;
    }
  }

  // ----- runs

  ghost predicate IsRun(states: seq<State>, steps: seq<Step>) {
    && |states| == |steps| + 1
    && forall i {:trigger steps[i]} :: 0 <= i < |steps| ==>
         Enabled(states[i], steps[i]) && states[i + 1] == Apply(states[i], steps[i])
  }

  lemma {:induction false} RunKeepsInv(states: seq<State>, steps: seq<Step>, rows: seq<Row>, n: nat)
    requires IsRun(states, steps) && Inv(states[0], rows) && n < |states|
    ensures Inv(states[n], rows)
    decreases n
  {
    hide Inv, Enabled, Apply;
    if n > 0 {
      RunKeepsInv(states, steps, rows, n - 1);
      StepKeepsInv(states[n - 1], steps[n - 1], rows);
    }
  }

  lemma {:induction false} AddingIsBusy(workers: seq<Worker>, w: nat)
    requires w < |workers| && workers[w].Adding?
    ensures Busy(workers) >= 1
    decreases |workers|
  {
    if w > 0 {
      AddingIsBusy(workers[1..], w - 1);
    }
  }

  /** Safety of every interleaving: rows are conserved, what is in flight and indexed fits the reserved
      capacity, and in particular a row about to be added always finds room. */
  lemma {:induction false} RunIsSafe(states: seq<State>, steps: seq<Step>, rows: seq<Row>, capacity: nat, workers: nat, n: nat)
    requires IsRun(states, steps) && states[0] == Initial(rows, capacity, workers) && capacity >= 1 && n < |states|
    ensures var s := states[n];
      && Conserved(s, rows)
      && |s.channel| + Busy(s.workers) + |s.index| + |s.lost| <= s.received <= s.capacity
      && (AnyAdding(s.workers) ==> |s.index| < s.capacity)
  {
    hide Conserved, Exclusive, EndsInOrder;
    InitialInv(rows, capacity, workers);
    RunKeepsInv(states, steps, rows, n);
    var s := states[n];
    if AnyAdding(s.workers) {
      var w :| 0 <= w < |s.workers| && s.workers[w].Adding?;
      AddingIsBusy(s.workers, w);
    }
  }

  /** The rows the workers have taken from the channel so far, in order. */
  ghost function Taken(states: seq<State>, steps: seq<Step>, n: nat): seq<Row>
    requires IsRun(states, steps) && n <= |steps|
  {
    if n == 0 then []
    else
      var s, a := states[n - 1], steps[n - 1];
      Taken(states, steps, n - 1) + if a.Recv? && s.channel != [] then [s.channel[0]] else []
  }

  ghost function Carried(r: Receiver): seq<Row> {
    if r.Got? || r.Sending? then [r.row] else []
  }

  /** Rows are taken in the order in which they were sent, and none is skipped. */
  lemma {:induction false} TakenInOrder(states: seq<State>, steps: seq<Step>, rows: seq<Row>, capacity: nat, workers: nat, n: nat)
    requires IsRun(states, steps) && states[0] == Initial(rows, capacity, workers) && n <= |steps|
    ensures var s := states[n];
      Taken(states, steps, n) + s.channel + Carried(s.receiver) + s.unread == rows
    decreases n
  {
    if n > 0 {
      TakenInOrder(states, steps, rows, capacity, workers, n - 1);
      assert Enabled(states[n - 1], steps[n - 1]) && states[n] == Apply(states[n - 1], steps[n - 1]);
      OrderKept(Taken(states, steps, n - 1), states[n - 1], steps[n - 1]);
    } else {
      assert [] + [] + [] + rows == rows;
    }
  }

  lemma {:induction false} OrderKept(before: seq<Row>, s: State, a: Step)
    requires Enabled(s, a)
    ensures var t, now := Apply(s, a), before + if a.Recv? && s.channel != [] then [s.channel[0]] else [];
      now + t.channel + Carried(t.receiver) + t.unread == before + s.channel + Carried(s.receiver) + s.unread
  {
    if a.Read? {
      assert s.unread == [s.unread[0]] + s.unread[1..];
    } else if a.Recv? {
      assert s.channel == [s.channel[0]] + s.channel[1..];
    }
  }

  /** Growing the index excludes adds: a step that changes the capacity finds no worker adding. */
  lemma {:induction false} GrowthExcludesAdds(s: State, a: Step)
    requires Enabled(s, a)
    ensures Apply(s, a).capacity != s.capacity ==> a.Admit? && s.received == s.capacity && !AnyAdding(s.workers)
  {
  }

  /** So the capacity stays what it is from the moment a worker begins an add to the moment it is done. */
  lemma {:induction false} CapacityFixedDuringAdd(states: seq<State>, steps: seq<Step>, w: nat, i: nat, j: nat)
    requires IsRun(states, steps) && i <= j < |states|
    requires forall k :: i <= k <= j ==> AddingBy(states[k], w)
    ensures states[j].capacity == states[i].capacity
    decreases j
  {
    hide Apply, Enabled;
    if i < j {
      CapacityFixedDuringAdd(states, steps, w, i, j - 1);
      assert Enabled(states[j - 1], steps[j - 1]) && AddingBy(states[j - 1], w);
      assert AnyAdding(states[j - 1].workers);
      GrowthExcludesAdds(states[j - 1], steps[j - 1]);
    }
  }

  predicate AddingBy(s: State, w: nat) {
    w < |s.workers| && s.workers[w].Adding?
  }

  function Doubled(capacity: nat, k: nat): nat {
    if k == 0 then capacity else 2 * Doubled(capacity, k - 1)
  }

  /** The capacity is the initial one doubled just often enough for the rows received. */
  lemma {:induction false} CapacityIsLeastDoubling(states: seq<State>, steps: seq<Step>, rows: seq<Row>, capacity: nat,
                                                   workers: nat, n: nat) returns (k: nat)
    requires IsRun(states, steps) && states[0] == Initial(rows, capacity, workers) && n < |states|
    requires capacity >= 1
    ensures states[n].capacity == Doubled(capacity, k) && (k > 0 ==> states[n].received > Doubled(capacity, k - 1))
    decreases n
  {
    if n == 0 {
      k := 0;
    } else {
      k := CapacityIsLeastDoubling(states, steps, rows, capacity, workers, n - 1);
      var s, a := states[n - 1], steps[n - 1];
      if a.Admit? && s.received == s.capacity {
        k := k + 1;
      }
    }
  }

  // ----- every run ends, and how

  function WorkerWork(w: Worker): nat {
    match w
    case Done => 0
    case InRecv => 1
    case WantLock => 2
    case Adding(_) => 3
    case HasRow(_) => 4
  }

  function TotalWork(workers: seq<Worker>): nat {
    if workers == [] then 0 else WorkerWork(workers[0]) + TotalWork(workers[1..])
  }

  /** Steps still to come, bounded from above. */
  function Work(s: State): nat {
    7 * |s.unread| + 4 * |s.channel| + TotalWork(s.workers)
    + match s.receiver
      case Finished => 0
      case Reading => 1
      case Sending(_) => 6
      case Got(_) => 7
  }

  lemma {:induction false} TotalWorkUpdate(workers: seq<Worker>, w: nat, x: Worker)
    requires w < |workers|
    ensures TotalWork(workers[w := x]) + WorkerWork(workers[w]) == TotalWork(workers) + WorkerWork(x)
    decreases |workers|
  {
    var after := workers[w := x];
    if w == 0 {
      assert after[1..] == workers[1..];
    } else {
      TotalWorkUpdate(workers[1..], w - 1, x);
      assert after[1..] == workers[1..][w - 1 := x];
    }
  }

  lemma {:induction false} StepDecreasesWork(s: State, a: Step)
    requires Enabled(s, a)
    ensures Work(Apply(s, a)) < Work(s)
  {
    match a
    case Lock(w) => TotalWorkUpdate(s.workers, w, InRecv);
    case Recv(w) => TotalWorkUpdate(s.workers, w, HasRow(s.channel[0]));
    case Hangup(w) => TotalWorkUpdate(s.workers, w, Done);
    case Begin(w) => TotalWorkUpdate(s.workers, w, Adding(s.workers[w].row));
    case Add(w) => TotalWorkUpdate(s.workers, w, WantLock);
    case AddFails(w) => TotalWorkUpdate(s.workers, w, Done);
    case _ =>
  }

  /** No schedule goes on for ever. */
  lemma {:induction false} RunsAreFinite(states: seq<State>, steps: seq<Step>, n: nat)
    requires IsRun(states, steps) && n <= |steps|
    ensures n + Work(states[n]) <= Work(states[0])
    decreases n
  {
    hide Work, Enabled, Apply;
    if n > 0 {
      RunsAreFinite(states, steps, n - 1);
      StepDecreasesWork(states[n - 1], steps[n - 1]);
    }
  }

  predicate AllDone(s: State) {
    forall i :: 0 <= i < |s.workers| ==> s.workers[i].Done?
  }

  ghost predicate Stuck(s: State) {
    forall a :: !Enabled(s, a)
  }

  /** The pipeline comes to rest in exactly two ways: the stream has ended and every worker is done, or
      every worker is gone while the receiver waits on a full channel. */
  lemma {:induction false} StuckExactly(s: State, rows: seq<Row>)
    requires Inv(s, rows)
    ensures Stuck(s) <==> AllDone(s) && (s.receiver.Finished? || (s.receiver.Sending? && |s.channel| >= CHANNEL_BOUND))
  {
    hide Conserved, Counted;
    if Stuck(s) {
      if !AllDone(s) {
        WorkingIsNotStuck(s, rows);
      }
      assert !Enabled(s, Read) && !Enabled(s, Admit) && !Enabled(s, Send) && !Enabled(s, Finish);
    }
  }

  lemma {:induction false} WorkingIsNotStuck(s: State, rows: seq<Row>)
    requires Inv(s, rows) && !AllDone(s)
    ensures exists a :: Enabled(s, a)
  {
    hide Conserved, Counted;
    var i :| 0 <= i < |s.workers| && !s.workers[i].Done?;
    match s.workers[i]
    case HasRow(_) => assert Enabled(s, Begin(i));
    case Adding(_) => assert Enabled(s, Add(i));
    case WantLock =>
      if s.mutex == Nobody {
        assert Enabled(s, Lock(i));
      } else {
        RecvIsNotStuck(s, s.mutex.worker);
      }
    case InRecv => RecvIsNotStuck(s, i);
  }

  lemma {:induction false} RecvIsNotStuck(s: State, w: nat)
    requires w < |s.workers| && s.workers[w].InRecv?
    ensures exists a :: Enabled(s, a)
  {
    if s.channel != [] {
      assert Enabled(s, Recv(w));
    } else {
      match s.receiver
      case Finished => assert Enabled(s, Hangup(w));
      case Reading => assert Enabled(s, if s.unread == [] then Finish else Read);
      case Sending(_) => assert Enabled(s, Send);
      case Got(_) =>
        if AnyAdding(s.workers) {
          var i :| 0 <= i < |s.workers| && s.workers[i].Adding?;
          assert Enabled(s, Add(i));
        } else {
          assert Enabled(s, Admit);
        }
    }
  }

  /** Every run that loses no row and cannot go on has ended properly: all workers are done and the
      index holds exactly the rows sent, each as often as it was sent. */
  lemma {:induction false} CompletedRun(states: seq<State>, steps: seq<Step>, rows: seq<Row>, capacity: nat, workers: nat)
    requires IsRun(states, steps) && states[0] == Initial(rows, capacity, workers)
    requires capacity >= 1 && workers >= 1
    ensures |states[|steps|].workers| == workers
    ensures var s := states[|steps|];
      Stuck(s) && s.lost == multiset{} ==> s.receiver.Finished? && AllDone(s) && s.index == multiset(rows)
    ensures var s := states[|steps|];
      s.receiver.Finished? && AllDone(s) ==> s.index + s.lost + multiset(s.channel) == multiset(rows)
  {
    InitialInv(rows, capacity, workers);
    RunKeepsInv(states, steps, rows, |steps|);
    WorkersStay(states, steps, |steps|);
    var s := states[|steps|];
    StuckExactly(s, rows);
    if AllDone(s) {
      assert s.workers[0].Done?;
      if s.receiver.Finished? {
        AtRest(s, rows);
      }
    }
  }

  lemma {:induction false} AtRest(s: State, rows: seq<Row>)
    requires Inv(s, rows) && AllDone(s) && s.receiver.Finished?
    ensures s.index + s.lost + multiset(s.channel) == multiset(rows)
  {
    forall x: Row ensures (s.index + s.lost + multiset(s.channel))[x] == multiset(rows)[x] {
      IdleWorkers(s.workers, x);
      assert Copies(s, x) == multiset(rows)[x];
    }
  }

  lemma {:induction false} WorkersStay(states: seq<State>, steps: seq<Step>, n: nat)
    requires IsRun(states, steps) && n < |states|
    ensures |states[n].workers| == |states[0].workers|
    decreases n
  {
    if n > 0 {
      WorkersStay(states, steps, n - 1);
      assert states[n] == Apply(states[n - 1], steps[n - 1]);
    }
  }

  // ----- the two hypotheses are needed

  /** With an initial capacity of 0 doubling never reserves anything: already the first row exceeds it. */
  lemma {:induction false} ZeroCapacityOverflows(row: Row, workers: nat)
    ensures var s := Initial([row], 0, workers);
      && Enabled(s, Read) && Enabled(Apply(s, Read), Admit)
      && Apply(Apply(s, Read), Admit).received > Apply(Apply(s, Read), Admit).capacity
  {
  }

  ghost predicate CanReach(s: State, t: State, n: nat)
    decreases n
  {
    if n == 0 then s == t else exists a :: Enabled(s, a) && CanReach(Apply(s, a), t, n - 1)
  }

  lemma {:induction false} StepThenReach(s: State, a: Step, t: State, n: nat)
    requires Enabled(s, a) && CanReach(Apply(s, a), t, n)
    ensures CanReach(s, t, n + 1)
  {
  }

  /** With every worker gone the receiver fills the channel and then waits for room. */
  lemma {:induction false} FillsUp(s: State, room: nat) returns (t: State, n: nat)
    requires AllDone(s) && s.receiver.Reading? && |s.channel| + room == CHANNEL_BOUND && |s.unread| > room
    ensures CanReach(s, t, n) && AllDone(t) && t.receiver.Sending? && |t.channel| == CHANNEL_BOUND && t.lost == s.lost
    decreases room
  {
    hide CanReach;
    var s1 := Apply(s, Read);
    var s2 := Apply(s1, Admit);
    if room == 0 {
      t, n := s2, 2;
      StandStill(t);
    } else {
      var s3 := Apply(s2, Send);
      var m;
      t, m := FillsUp(s3, room - 1);
      n := m + 3;
      StepThenReach(s2, Send, t, m);
    }
    StepThenReach(s1, Admit, t, n - 2);
    StepThenReach(s, Read, t, n - 1);
  }

  lemma {:induction false} StandStill(s: State)
    ensures CanReach(s, s, 0)
  {
  }

  /** One failing add can leave the server waiting for ever: the only worker ends, nobody empties the
      channel, and the receiver blocks on its 2001st further row. */
  lemma {:induction false} FailedAddCanHang(rows: seq<Row>, capacity: nat) returns (t: State, n: nat)
    requires |rows| >= CHANNEL_BOUND + 2 && capacity >= 1
    ensures CanReach(Initial(rows, capacity, 1), t, n)
    ensures Stuck(t) && t.receiver.Sending? && t.lost == multiset{rows[0]}
  {
    hide CanReach;
    var s0 := Initial(rows, capacity, 1);
    var s1 := Apply(s0, Read);
    var s2 := Apply(s1, Admit);
    var s3 := Apply(s2, Send);
    var m;
    t, m := WorkerFailsThenFills(s3);
    n := m + 3;
    StepThenReach(s2, Send, t, m);
    StepThenReach(s1, Admit, t, m + 1);
    StepThenReach(s0, Read, t, m + 2);
  }

  lemma {:induction false} WorkerFailsThenFills(s: State) returns (t: State, n: nat)
    requires s.workers == [WantLock] && s.mutex == Nobody && |s.channel| == 1
    requires s.receiver.Reading? && |s.unread| > CHANNEL_BOUND
    ensures CanReach(s, t, n) && t.lost == s.lost + multiset{s.channel[0]}
    ensures AllDone(t) && t.receiver.Sending? && |t.channel| == CHANNEL_BOUND
  {
    hide CanReach;
    var s1 := Apply(s, Lock(0));
    var s2 := Apply(s1, Recv(0));
    var s3 := Apply(s2, Begin(0));
    var s4 := Apply(s3, AddFails(0));
    var m;
    t, m := FillsUp(s4, CHANNEL_BOUND);
    n := m + 4;
    StepThenReach(s3, AddFails(0), t, m);
    StepThenReach(s2, Begin(0), t, m + 1);
    StepThenReach(s1, Recv(0), t, m + 2);
    StepThenReach(s, Lock(0), t, m + 3);
  }
}
