/**
 Embedding daemons sharing one lock table: a notified row is locked, batched, drained, split, queued,
 worked on and unlocked, by any number of daemons whose tasks interleave.
 */
module Daemon {
  import opened Basics

  type Job = int
  type RowId = string
  datatype Key = Key(job: Job, row: RowId)

  /** Rows of one job on their way to a worker. */
  datatype Batch = Batch(job: Job, rows: seq<RowId>)
  datatype Busy = Idle | Working(batch: Batch)

  datatype Instance = Instance(
    acquired: seq<Key>,              // locked by a spawned task, not yet in the batching map
    batching: map<Job, seq<RowId>>,  // the shared batching map
    drained: seq<Batch>,             // the collector's local list
    sending: seq<Batch>,             // spawned send tasks
    queue: seq<Batch>,               // the job queue
    worker: Busy)

  datatype State = State(locks: set<Key>, daemons: seq<Instance>, leaked: multiset<Key>)

  /** The batch size of the model each job uses. */
  type Limits = Job -> nat

  datatype Step =
    | Notify(d: nat, key: Key)                // lock_row
    | Collect(d: nat, i: nat)                 // push into the batching map
    | Drain(d: nat, order: seq<Job>)          // the collector empties the map, in the map's order
    | Skip(d: nat)                            // job not found, cancelled or not readable
    | Cancel(d: nat, job: Job)                // a cancelled job is removed from the batching map
    | Submit(d: nat)                          // split and spawn the send
    | Enqueue(d: nat, i: nat)
    | Take(d: nat)
    | Finish(d: nat)                          // success: unlock_rows
    | Fail(d: nat)                            // failure: schedule a retry, and unlock_rows all the same

  const NEW_INSTANCE: Instance := Instance([], map[], [], [], [], Idle)

  function Initial(n: nat): State {
    State({}, seq(n, i => NEW_INSTANCE), multiset{})
  }

  // ----- splitting

  /** The rows a batch keeps and the rows that go back to the map. */
  function Kept(rows: seq<RowId>, max: nat): seq<RowId>
    requires max >= 1
  {
    if |rows| > max then rows[..max - 1] else rows
  }

  function Extra(rows: seq<RowId>, max: nat): seq<RowId>
    requires max >= 1
  {
    if |rows| > max then rows[max - 1..] else []
  }

  /** Splitting loses and duplicates no row and respects the model's maximum. It keeps at least one row
      of every non-empty list exactly if the maximum is at least 2, as every model's is. */
  lemma {:induction false} SplitIsExact(rows: seq<RowId>, max: nat)
    requires max >= 1
    ensures Kept(rows, max) + Extra(rows, max) == rows
    ensures |Kept(rows, max)| == if |rows| > max then max - 1 else |rows|
    ensures rows != [] ==> (Kept(rows, max) == [] <==> max == 1 && |rows| > 1)
  {
  }

  function Removed<T>(s: seq<T>, i: nat): seq<T>
    requires i < |s|
  {
    s[..i] + s[i + 1..]
  }

  function Appended(m: map<Job, seq<RowId>>, job: Job, rows: seq<RowId>): map<Job, seq<RowId>> {
    m[job := RowsOf(m, job) + rows]
  }

  function RowsOf(m: map<Job, seq<RowId>>, job: Job): seq<RowId> {
    if job in m then m[job] else []
  }

  // ----- steps

  ghost predicate Lists(order: seq<Job>, m: map<Job, seq<RowId>>) {
    && (forall i, j :: 0 <= i < j < |order| ==> order[i] != order[j])
    && (forall i :: 0 <= i < |order| ==> order[i] in m)
    && (forall job :: job in m ==> job in order)
  }

  ghost function Entries(order: seq<Job>, m: map<Job, seq<RowId>>): seq<Batch>
    requires forall i :: 0 <= i < |order| ==> order[i] in m
  {
    seq(|order|, i requires 0 <= i < |order| => Batch(order[i], m[order[i]]))
  }

  ghost predicate Enabled(max: Limits, s: State, a: Step) {
    && a.d < |s.daemons|
    && var x := s.daemons[a.d];
       match a
       case Notify(_, _) => true
       case Collect(_, i) => i < |x.acquired|
       case Drain(_, order) => x.drained == [] && Lists(order, x.batching)
       case Skip(_) => x.drained != []
       case Cancel(_, _) => true
       case Submit(_) => x.drained != [] && max(x.drained[0].job) >= 1
       case Enqueue(_, i) => i < |x.sending|
       case Take(_) => x.worker.Idle? && x.queue != []
       case Finish(_) => x.worker.Working?
       case Fail(_) => x.worker.Working?
  }

  ghost function Keys(b: Batch): multiset<Key> {
    KeysOf(b.job, b.rows)
  }

  ghost function KeysOf(job: Job, rows: seq<RowId>): multiset<Key> {
    if rows == [] then multiset{} else KeysOf(job, rows[..|rows| - 1]) + multiset{Key(job, rows[|rows| - 1])}
  }

  /** What the step does to the daemon that takes it. */
  ghost function ApplyLocal(max: Limits, x: Instance, a: Step, locks: set<Key>): Instance
    requires Enabled(max, State(locks, [x], multiset{}), a.(d := 0))
  {
    match a
    case Notify(_, key) => if key in locks then x else x.(acquired := x.acquired + [key])
    case Collect(_, i) =>
      x.(acquired := Removed(x.acquired, i), batching := Appended(x.batching, x.acquired[i].job, [x.acquired[i].row]))
    case Drain(_, order) => x.(drained := Entries(order, x.batching), batching := map[])
    case Skip(_) => x.(drained := x.drained[1..])
    case Cancel(_, job) => x.(batching := x.batching - {job})
    case Submit(_) =>
      var b := x.drained[0];
      var extra := Extra(b.rows, max(b.job));
      x.(drained := x.drained[1..],
         sending := x.sending + [Batch(b.job, Kept(b.rows, max(b.job)))],
         batching := if extra == [] then x.batching else Appended(x.batching, b.job, extra))
    case Enqueue(_, i) => x.(sending := Removed(x.sending, i), queue := x.queue + [x.sending[i]])
    case Take(_) => x.(queue := x.queue[1..], worker := Working(x.queue[0]))
    case Finish(_) => x.(worker := Idle)
    case Fail(_) => x.(worker := Idle, sending := x.sending + [x.worker.batch])
  }

  ghost function Apply(max: Limits, s: State, a: Step): State
    requires Enabled(max, s, a)
  {
    var x := s.daemons[a.d];
    var daemons := s.daemons[a.d := ApplyLocal(max, x, a, s.locks)];
    match a
    case Notify(_, key) => State(s.locks + {key}, daemons, s.leaked)
    case Skip(_) => State(s.locks, daemons, s.leaked + Keys(x.drained[0]))
    case Cancel(_, job) => State(s.locks, daemons, s.leaked + KeysOf(job, RowsOf(x.batching, job)))
    case Finish(_) => State(Unlocked(s.locks, x.worker.batch), daemons, s.leaked)
    case Fail(_) => State(Unlocked(s.locks, x.worker.batch), daemons, s.leaked)
    case _ => s.(daemons := daemons)
  }

  ghost function Unlocked(locks: set<Key>, b: Batch): set<Key> {
    set k | k in locks && !(k.job == b.job && k.row in b.rows)
  }

  // ----- counting the places of a key

  ghost function InRows(job: Job, rows: seq<RowId>, k: Key): nat {
    if job == k.job then multiset(rows)[k.row] else 0
  }

  ghost function InBatches(bs: seq<Batch>, k: Key): nat {
    if bs == [] then 0 else InRows(bs[0].job, bs[0].rows, k) + InBatches(bs[1..], k)
  }

  ghost function InMap(m: map<Job, seq<RowId>>, k: Key): nat {
    if k.job in m then multiset(m[k.job])[k.row] else 0
  }

  ghost function InWorker(w: Busy, k: Key): nat {
    if w.Working? then InRows(w.batch.job, w.batch.rows, k) else 0
  }

  ghost function Places(x: Instance, k: Key): nat {
    multiset(x.acquired)[k] + InMap(x.batching, k) + InBatches(x.drained, k)
    + InBatches(x.sending, k) + InBatches(x.queue, k) + InWorker(x.worker, k)
  }

  ghost function AllPlaces(daemons: seq<Instance>, k: Key): nat {
    if daemons == [] then 0 else Places(daemons[0], k) + AllPlaces(daemons[1..], k)
  }

  lemma {:induction false} AllPlacesUpdate(daemons: seq<Instance>, d: nat, x: Instance, k: Key)
    requires d < |daemons|
    ensures AllPlaces(daemons[d := x], k) + Places(daemons[d], k) == AllPlaces(daemons, k) + Places(x, k)
    decreases |daemons|
  {
    hide Places;
    var after := daemons[d := x];
    if d == 0 {
      assert after[1..] == daemons[1..];
    } else {
      AllPlacesUpdate(daemons[1..], d - 1, x, k);
      assert after[1..] == daemons[1..][d - 1 := x];
    }
  }

  lemma {:induction false} PlaceOfOne(daemons: seq<Instance>, d: nat, k: Key)
    requires d < |daemons|
    ensures Places(daemons[d], k) <= AllPlaces(daemons, k)
    decreases |daemons|
  {
    hide Places;
    if d > 0 {
      PlaceOfOne(daemons[1..], d - 1, k);
    }
  }

  lemma {:induction false} PlaceOfTwo(daemons: seq<Instance>, d: nat, e: nat, k: Key)
    requires d < e < |daemons|
    ensures Places(daemons[d], k) + Places(daemons[e], k) <= AllPlaces(daemons, k)
    decreases |daemons|
  {
    hide Places;
    if d > 0 {
      PlaceOfTwo(daemons[1..], d - 1, e - 1, k);
    } else {
      PlaceOfOne(daemons[1..], e - 1, k);
    }
  }

  lemma {:induction false} RowsConcat(job: Job, a: seq<RowId>, b: seq<RowId>, k: Key)
    ensures InRows(job, a + b, k) == InRows(job, a, k) + InRows(job, b, k)
  {
  }

  lemma {:induction false} BatchesSnoc(bs: seq<Batch>, b: Batch, k: Key)
    ensures InBatches(bs + [b], k) == InBatches(bs, k) + InRows(b.job, b.rows, k)
    decreases |bs|
  {
    hide InRows;
    if bs == [] {
      assert ([] + [b])[1..] == [];
    } else {
      BatchesSnoc(bs[1..], b, k);
      assert (bs + [b])[1..] == bs[1..] + [b];
    }
  }

  lemma {:induction false} BatchesRemove(bs: seq<Batch>, i: nat, k: Key)
    requires i < |bs|
    ensures InBatches(bs, k) == InBatches(Removed(bs, i), k) + InRows(bs[i].job, bs[i].rows, k)
    decreases |bs|
  {
    hide InRows;
    if i == 0 {
      assert Removed(bs, 0) == bs[1..];
    } else {
      BatchesRemove(bs[1..], i - 1, k);
      assert Removed(bs, i)[1..] == Removed(bs[1..], i - 1);
    }
  }

  lemma {:induction false} KeysRemove(s: seq<Key>, i: nat, k: Key)
    requires i < |s|
    ensures multiset(s)[k] == multiset(Removed(s, i))[k] + One(s[i] == k)
  {
    assert s == s[..i] + [s[i]] + s[i + 1..];
  }

  lemma {:induction false} AppendedPlaces(m: map<Job, seq<RowId>>, job: Job, rows: seq<RowId>, k: Key)
    ensures InMap(Appended(m, job, rows), k) == InMap(m, k) + InRows(job, rows, k)
  {
  }

  /** Draining moves every row of the map to the list, whatever order the map yields. */
  lemma {:induction false} DrainPlaces(order: seq<Job>, m: map<Job, seq<RowId>>, k: Key)
    requires (forall i, j :: 0 <= i < j < |order| ==> order[i] != order[j]) && (forall i :: 0 <= i < |order| ==> order[i] in m)
    ensures InBatches(Entries(order, m), k) == if k.job in order then InMap(m, k) else 0
    decreases |order|
  {
    var bs := Entries(order, m);
    if order != [] {
      DrainPlaces(order[1..], m, k);
      assert bs[1..] == Entries(order[1..], m);
      assert order == [order[0]] + order[1..];
    }
  }

  lemma {:induction false} KeysOfCount(job: Job, rows: seq<RowId>, k: Key)
    ensures KeysOf(job, rows)[k] == InRows(job, rows, k)
    decreases |rows|
  {
    if rows != [] {
      var n := |rows| - 1;
      KeysOfCount(job, rows[..n], k);
      assert rows == rows[..n] + [rows[n]];
    }
  }

  // ----- the invariant

  /** Every key is at as many places, over all daemons together and counting the rows of skipped jobs,
      as the lock table has entries for it: one or none. */
  ghost predicate Exact(s: State) {
    forall k: Key :: AllPlaces(s.daemons, k) + s.leaked[k] == One(k in s.locks)
  }

  lemma {:induction false} InitialExact(n: nat)
    ensures Exact(Initial(n))
  {
    var daemons := Initial(n).daemons;
    forall k: Key ensures AllPlaces(daemons, k) == 0 {
      NoPlaces(n, k);
    }
  }

  lemma {:induction false} NoPlaces(n: nat, k: Key)
    ensures AllPlaces(seq(n, i => NEW_INSTANCE), k) == 0
    decreases n
  {
    if n > 0 {
      NoPlaces(n - 1, k);
      assert seq(n, i => NEW_INSTANCE)[1..] == seq(n - 1, i => NEW_INSTANCE);
    }
  }

  /** How a step changes the places of a key within its daemon. */
  lemma {:induction false} LocalPlaces(max: Limits, x: Instance, a: Step, locks: set<Key>, k: Key)
    requires Enabled(max, State(locks, [x], multiset{}), a.(d := 0))
    ensures var y := ApplyLocal(max, x, a, locks);
      Places(y, k) + (if a.Skip? then InRows(x.drained[0].job, x.drained[0].rows, k) else 0)
                   + (if a.Cancel? then InRows(a.job, RowsOf(x.batching, a.job), k) else 0)
                   + (if a.Finish? then InWorker(x.worker, k) else 0)
      == Places(x, k) + (if a.Notify? then One(a.key == k && k !in locks) else 0)
  {
    hide InBatches, InRows, InMap;
    match a
    case Notify(_, key) =>
      assert multiset(x.acquired + [key])[k] == multiset(x.acquired)[k] + One(key == k);
    case Collect(_, i) =>
      KeysRemove(x.acquired, i, k);
      AppendedPlaces(x.batching, x.acquired[i].job, [x.acquired[i].row], k);
      OneRow(x.acquired[i], k);
    case Drain(_, order) =>
      DrainPlaces(order, x.batching, k);
      EmptyPlaces(order, x.batching, k);
    case Skip(_) => BatchesHead(x.drained, k);
    case Cancel(_, job) => CancelPlaces(x.batching, job, k);
    case Submit(_) => SubmitPlaces(x, max(x.drained[0].job), k);
    case Enqueue(_, i) =>
      BatchesRemove(x.sending, i, k);
      BatchesSnoc(x.queue, x.sending[i], k);
    case Take(_) => BatchesHead(x.queue, k);
    case Finish(_) =>
    case Fail(_) => BatchesSnoc(x.sending, x.worker.batch, k);
  }

  lemma {:induction false} OneRow(key: Key, k: Key)
    ensures InRows(key.job, [key.row], k) == One(key == k)
  {
  }

  lemma {:induction false} BatchesHead(bs: seq<Batch>, k: Key)
    requires bs != []
    ensures InBatches(bs, k) == InRows(bs[0].job, bs[0].rows, k) + InBatches(bs[1..], k)
  {
  }

  lemma {:induction false} EmptyPlaces(order: seq<Job>, m: map<Job, seq<RowId>>, k: Key)
    requires Lists(order, m)
    ensures InMap(map[], k) == 0 && InBatches([], k) == 0
    ensures k.job in order <==> k.job in m
    ensures k.job !in m ==> InMap(m, k) == 0
  {
  }

  lemma {:induction false} CancelPlaces(m: map<Job, seq<RowId>>, job: Job, k: Key)
    ensures InMap(m - {job}, k) + InRows(job, RowsOf(m, job), k) == InMap(m, k)
  {
  }

  lemma {:induction false} SubmitPlaces(x: Instance, max: nat, k: Key)
    requires x.drained != [] && max >= 1
    ensures var b := x.drained[0]; var extra := Extra(b.rows, max);
      InBatches(x.drained[1..], k) + InBatches(x.sending + [Batch(b.job, Kept(b.rows, max))], k)
      + InMap(if extra == [] then x.batching else Appended(x.batching, b.job, extra), k)
      == InBatches(x.drained, k) + InBatches(x.sending, k) + InMap(x.batching, k)
  {
    hide InBatches, InMap;
    var b := x.drained[0];
    var kept, extra := Kept(b.rows, max), Extra(b.rows, max);
    BatchesHead(x.drained, k);
    BatchesSnoc(x.sending, Batch(b.job, kept), k);
    SplitIsExact(b.rows, max);
    RowsConcat(b.job, kept, extra, k);
    AppendedPlaces(x.batching, b.job, extra, k);
  }

  /** Every step but a failed batch keeps the count exact. */
  lemma {:induction false} StepKeepsExact(max: Limits, s: State, a: Step)
    requires Exact(s) && Enabled(max, s, a) && !a.Fail?
    ensures Exact(Apply(max, s, a))
  {
    hide AllPlaces, Places, InRows, InWorker, ApplyLocal, KeysOf;
    var x, t := s.daemons[a.d], Apply(max, s, a);
    forall k: Key ensures AllPlaces(t.daemons, k) + t.leaked[k] == One(k in t.locks) {
      AllPlacesUpdate(s.daemons, a.d, ApplyLocal(max, x, a, s.locks), k);
      LocalPlaces(max, x, a, s.locks, k);
      assert AllPlaces(s.daemons, k) + s.leaked[k] == One(k in s.locks);
      if a.Skip? {
        KeysOfCount(x.drained[0].job, x.drained[0].rows, k);
      } else if a.Cancel? {
        KeysOfCount(a.job, RowsOf(x.batching, a.job), k);
      } else if a.Finish? {
        WorkerPlaces(x, k);
        PlaceOfOne(s.daemons, a.d, k);
      }
    }
  }

  /** A worker's rows are the keys unlock_rows deletes. */
  lemma {:induction false} WorkerPlaces(x: Instance, k: Key)
    requires x.worker.Working?
    ensures InWorker(x.worker, k) <= Places(x, k)
    ensures InWorker(x.worker, k) > 0 <==> k.job == x.worker.batch.job && k.row in x.worker.batch.rows
  {
    hide InBatches, InMap;
  }

  // ----- runs

  ghost predicate IsRun(max: Limits, states: seq<State>, steps: seq<Step>) {
    && |states| == |steps| + 1
    && forall i {:trigger steps[i]} :: 0 <= i < |steps| ==>
         Enabled(max, states[i], steps[i]) && states[i + 1] == Apply(max, states[i], steps[i])
  }

  /** In every run of any number of daemons in which no batch fails, each notified row is at one place at
      most, over all maps, lists, queues and workers of all daemons, and it is locked while it is there;
      a locked row that is nowhere belongs to a job whose lookup failed. */
  lemma {:induction false} RunKeepsExact(max: Limits, states: seq<State>, steps: seq<Step>, n: nat, i: nat)
    requires IsRun(max, states, steps) && states[0] == Initial(n) && i < |states|
    requires forall j :: 0 <= j < |steps| ==> !steps[j].Fail?
    ensures Exact(states[i])
    decreases i
  {
    hide Exact, Enabled, Apply;
    if i == 0 {
      InitialExact(n);
    } else {
      RunKeepsExact(max, states, steps, n, i - 1);
      assert !steps[i - 1].Fail?;
      StepKeepsExact(max, states[i - 1], steps[i - 1]);
    }
  }

  /** So a row is at one place at most, with one daemon at most, and it is locked while it is there. */
  lemma {:induction false} MutualExclusion(s: State, d: nat, e: nat, k: Key)
    requires Exact(s) && d < |s.daemons| && e < |s.daemons|
    ensures Places(s.daemons[d], k) <= One(k in s.locks)
    ensures d != e ==> Places(s.daemons[d], k) + Places(s.daemons[e], k) <= One(k in s.locks)
  {
    hide Places, AllPlaces;
    PlaceOfOne(s.daemons, d, k);
    if d < e {
      PlaceOfTwo(s.daemons, d, e, k);
    }
    if e < d {
      PlaceOfTwo(s.daemons, e, d, k);
    }
    assert AllPlaces(s.daemons, k) + s.leaked[k] == One(k in s.locks);
  }

  /** A row dropped by a failed lookup or a cancelled job keeps its lock for the rest of the run: no daemon ever holds it
      again, however often it is notified. */
  lemma {:induction false} SkippedRowIsNeverTakenAgain(max: Limits, states: seq<State>, steps: seq<Step>, n: nat, i: nat, j: nat, k: Key)
    requires IsRun(max, states, steps) && states[0] == Initial(n) && i <= j < |states|
    requires forall m :: 0 <= m < |steps| ==> !steps[m].Fail?
    requires states[i].leaked[k] > 0
    ensures states[j].leaked[k] > 0 && k in states[j].locks && AllPlaces(states[j].daemons, k) == 0
    decreases j
  {
    hide AllPlaces, Places, ApplyLocal, KeysOf;
    RunKeepsExact(max, states, steps, n, j);
    assert AllPlaces(states[j].daemons, k) + states[j].leaked[k] == One(k in states[j].locks);
    if i < j {
      SkippedRowIsNeverTakenAgain(max, states, steps, n, i, j - 1, k);
      assert states[j] == Apply(max, states[j - 1], steps[j - 1]);
    }
  }

  /** A failed batch does break it: its rows are unlocked while their retry is pending, so the next
      notification gives the row to a second holder. */
  lemma {:induction false} RetryBreaksExclusion(max: Limits, s: State, d: nat, e: nat, k: Key)
    requires Exact(s) && d < |s.daemons| && e < |s.daemons|
    requires s.daemons[d].worker.Working? && InWorker(s.daemons[d].worker, k) > 0
    ensures Enabled(max, s, Fail(d)) && Enabled(max, Apply(max, s, Fail(d)), Notify(e, k))
    ensures AllPlaces(Apply(max, Apply(max, s, Fail(d)), Notify(e, k)).daemons, k) == 2
  {
    hide AllPlaces, Places, InWorker, ApplyLocal;
    WorkerPlaces(s.daemons[d], k);
    PlaceOfOne(s.daemons, d, k);
    assert AllPlaces(s.daemons, k) + s.leaked[k] == One(k in s.locks);
    var x := s.daemons[d];
    AllPlacesUpdate(s.daemons, d, ApplyLocal(max, x, Fail(d), s.locks), k);
    LocalPlaces(max, x, Fail(d), s.locks, k);
    var t := Apply(max, s, Fail(d));
    assert k !in t.locks;
    AllPlacesUpdate(t.daemons, e, ApplyLocal(max, t.daemons[e], Notify(e, k), t.locks), k);
    LocalPlaces(max, t.daemons[e], Notify(e, k), t.locks, k);
  }

  // ----- batch sizes

  ghost predicate BatchesBounded(max: Limits, bs: seq<Batch>) {
    forall i :: 0 <= i < |bs| ==> |bs[i].rows| <= max(bs[i].job)
  }

  ghost predicate InstanceBounded(max: Limits, x: Instance) {
    && BatchesBounded(max, x.sending) && BatchesBounded(max, x.queue)
    && (x.worker.Working? ==> |x.worker.batch.rows| <= max(x.worker.batch.job))
  }

  /** Every batch on its way to a worker, or with one, is within its model's batch size. */
  ghost predicate Bounded(max: Limits, s: State) {
    forall d :: 0 <= d < |s.daemons| ==> InstanceBounded(max, s.daemons[d])
  }

  lemma {:induction false} LocalBounded(max: Limits, x: Instance, a: Step, locks: set<Key>)
    requires Enabled(max, State(locks, [x], multiset{}), a.(d := 0)) && InstanceBounded(max, x)
    ensures InstanceBounded(max, ApplyLocal(max, x, a, locks))
  {
    if a.Submit? {
      SplitIsExact(x.drained[0].rows, max(x.drained[0].job));
    }
  }

  lemma {:induction false} StepKeepsBounded(max: Limits, s: State, a: Step)
    requires Bounded(max, s) && Enabled(max, s, a)
    ensures Bounded(max, Apply(max, s, a))
  {
    hide InstanceBounded, ApplyLocal;
    LocalBounded(max, s.daemons[a.d], a, s.locks);
  }

  /** In every run, failures, retries and cancels included, no batch exceeds its model's batch size. */
  lemma {:induction false} RunKeepsBounded(max: Limits, states: seq<State>, steps: seq<Step>, n: nat, i: nat)
    requires IsRun(max, states, steps) && states[0] == Initial(n) && i < |states|
    ensures Bounded(max, states[i])
    decreases i
  {
    hide Bounded, Enabled, Apply;
    if i == 0 {
      InitialBounded(max, n);
    } else {
      RunKeepsBounded(max, states, steps, n, i - 1);
      assert Enabled(max, states[i - 1], steps[i - 1]);
      StepKeepsBounded(max, states[i - 1], steps[i - 1]);
    }
  }

  lemma {:induction false} InitialBounded(max: Limits, n: nat)
    ensures Bounded(max, Initial(n))
  {
  }
}
