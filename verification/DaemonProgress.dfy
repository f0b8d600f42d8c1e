/**
 Progress of a daemon: from every state, every row that is somewhere in a daemon can be worked on and unlocked by
 steps of that daemon alone.
 */
module DaemonProgress {
  import opened Daemon

  /** The steps of a daemon left to itself: no notification, no failure, no cancel. */
  predicate IsWork(a: Step) {
    a.Collect? || a.Drain? || a.Submit? || a.Enqueue? || a.Take? || a.Finish?
  }

  ghost predicate CanStep(max: Limits, x: Instance, a: Step) {
    IsWork(a) && a.d == 0 && Enabled(max, State({}, [x], multiset{}), a)
  }

  ghost function Stepped(max: Limits, x: Instance, a: Step): Instance
    requires CanStep(max, x, a)
  {
    ApplyLocal(max, x, a, {})
  }

  /** The daemon can come from x to y in n such steps. */
  ghost predicate Leads(max: Limits, x: Instance, y: Instance, n: nat)
    decreases n
  {
    if n == 0 then x == y
    else exists a :: CanStep(max, x, a) && Leads(max, Stepped(max, x, a), y, n - 1)
  }

  lemma {:induction false} OneStep(max: Limits, x: Instance, a: Step, y: Instance, n: nat)
    requires CanStep(max, x, a) && Leads(max, Stepped(max, x, a), y, n)
    ensures Leads(max, x, y, n + 1)
  {
  }

  lemma {:induction false} Still(max: Limits, x: Instance)
    ensures Leads(max, x, x, 0)
  {
  }

  lemma {:induction false} Joined(max: Limits, x: Instance, y: Instance, z: Instance, n: nat, m: nat)
    requires Leads(max, x, y, n) && Leads(max, y, z, m)
    ensures Leads(max, x, z, n + m)
    decreases n
  {
    hide CanStep, Stepped;
    if n > 0 {
      var a :| CanStep(max, x, a) && Leads(max, Stepped(max, x, a), y, n - 1);
      Joined(max, Stepped(max, x, a), y, z, n - 1, m);
      OneStep(max, x, a, z, n - 1 + m);
    }
  }

  // ----- from the queue to the worker

  /** The worker gets to every batch of the queue. */
  lemma {:induction false} FromQueue(max: Limits, x: Instance, p: nat) returns (y: Instance, n: nat)
    requires p < |x.queue|
    ensures Leads(max, x, y, n) && y.worker == Working(x.queue[p])
    decreases p, x.worker.Working?
  {
    hide Leads;
    if x.worker.Working? {
      var a := Finish(0);
      y, n := FromQueue(max, Stepped(max, x, a), p);
      OneStep(max, x, a, y, n);
      n := n + 1;
    } else {
      var a := Take(0);
      var z := Stepped(max, x, a);
      if p == 0 {
        y, n := z, 0;
        Still(max, z);
      } else {
        y, n := FromQueue(max, z, p - 1);
      }
      OneStep(max, x, a, y, n);
      n := n + 1;
    }
  }

  lemma {:induction false} FromSending(max: Limits, x: Instance, i: nat) returns (y: Instance, n: nat)
    requires i < |x.sending|
    ensures Leads(max, x, y, n) && y.worker == Working(x.sending[i])
  {
    hide Leads;
    var a := Enqueue(0, i);
    var z := Stepped(max, x, a);
    assert z.queue[|x.queue|] == x.sending[i];
    y, n := FromQueue(max, z, |x.queue|);
    OneStep(max, x, a, y, n);
    n := n + 1;
  }

  // ----- through the collector

  ghost predicate Fair(max: Limits) {
    forall job: Job :: max(job) >= 2
  }

  ghost predicate WorksOn(x: Instance, k: Key) {
    x.worker.Working? && x.worker.batch.job == k.job && k.row in x.worker.batch.rows
  }

  /** Row k is at place q of its job's list in the batching map. */
  ghost predicate Waits(x: Instance, k: Key, q: nat) {
    k.job in x.batching && q < |x.batching[k.job]| && x.batching[k.job][q] == k.row
  }

  /** The send task after the first n holds row k. */
  ghost predicate JustSent(x: Instance, n: nat, k: Key) {
    |x.sending| == n + 1 && x.sending[n].job == k.job && k.row in x.sending[n].rows
  }

  /** Submitting a batch: a row of it is sent, or waits again, nearer to the front. */
  lemma {:induction false} SubmitHead(max: Limits, x: Instance, k: Key, q: nat)
    requires Fair(max) && x.drained != [] && x.drained[0].job == k.job
    requires q < |x.drained[0].rows| && x.drained[0].rows[q] == k.row
    ensures CanStep(max, x, Submit(0))
    ensures var y := Stepped(max, x, Submit(0)); var n := |x.sending|;
      && y.drained == x.drained[1..]
      && (JustSent(y, n, k) || (q + 1 >= max(k.job) && Waits(y, k, |RowsOf(x.batching, k.job)| + q + 1 - max(k.job))))
  {
    var b, m := x.drained[0], max(k.job);
    if |b.rows| > m && q >= m - 1 {
      assert Extra(b.rows, m)[q - (m - 1)] == k.row;
    } else {
      assert Kept(b.rows, m)[q] == k.row;
    }
  }

  /** Submitting another batch leaves a waiting row where it is. */
  lemma {:induction false} SubmitOther(max: Limits, x: Instance, k: Key, q: nat)
    requires Fair(max) && x.drained != [] && Waits(x, k, q)
    ensures CanStep(max, x, Submit(0))
    ensures var y := Stepped(max, x, Submit(0)); y.drained == x.drained[1..] && Waits(y, k, q)
  {
  }

  /** The collector can finish its list while a row waits. */
  lemma {:induction false} EmptyList(max: Limits, x: Instance, k: Key, q: nat) returns (y: Instance, n: nat)
    requires Fair(max) && Waits(x, k, q)
    ensures Leads(max, x, y, n) && y.drained == [] && Waits(y, k, q)
    decreases |x.drained|
  {
    hide Leads, Waits, Fair, CanStep, Stepped;
    if x.drained == [] {
      y, n := x, 0;
      Still(max, x);
    } else {
      SubmitOther(max, x, k, q);
      y, n := EmptyList(max, Stepped(max, x, Submit(0)), k, q);
      OneStep(max, x, Submit(0), y, n);
      n := n + 1;
    }
  }

  /** A row of the collector's list, its job not in the map: it is sent, or waits nearer to the front. */
  lemma {:induction false} FromList(max: Limits, x: Instance, k: Key, p: nat, q: nat)
    returns (y: Instance, n: nat, q': nat, sent: bool)
    requires Fair(max) && p < |x.drained| && x.drained[p].job == k.job
    requires q < |x.drained[p].rows| && x.drained[p].rows[q] == k.row
    requires k.job !in x.batching && forall i :: 0 <= i < p ==> x.drained[i].job != k.job
    ensures Leads(max, x, y, n)
    ensures sent ==> WorksOn(y, k)
    ensures !sent ==> q' < q && Waits(y, k, q')
    decreases p
  {
    hide Leads;
    var a := Submit(0);
    if p == 0 {
      SubmitHead(max, x, k, q);
      var z := Stepped(max, x, a);
      var m := |x.sending|;
      sent := JustSent(z, m, k);
      q' := 0;
      if sent {
        y, n := FromSending(max, z, m);
      } else {
        y, n, q' := z, 0, q + 1 - max(k.job);
        Still(max, z);
      }
      OneStep(max, x, a, y, n);
      n := n + 1;
    } else {
      var z := Stepped(max, x, a);
      assert forall i :: 0 <= i < |z.drained| ==> z.drained[i] == x.drained[i + 1];
      y, n, q', sent := FromList(max, z, k, p - 1, q);
      OneStep(max, x, a, y, n);
      n := n + 1;
    }
  }

  /** Some order of the keys of a map. */
  lemma {:induction false} SomeOrder(m: map<Job, seq<RowId>>, jobs: set<Job>) returns (order: seq<Job>)
    requires jobs <= m.Keys
    ensures forall i, j :: 0 <= i < j < |order| ==> order[i] != order[j]
    ensures forall job :: job in jobs <==> job in order
    decreases |jobs|
  {
    order := [];
    if job :| job in jobs {
      var rest := SomeOrder(m, jobs - {job});
      order := [job] + rest;
    }
  }

  /** A waiting row is worked on after finitely many rounds of the collector. */
  lemma {:induction false} FromMap(max: Limits, x: Instance, k: Key, q: nat) returns (y: Instance, n: nat)
    requires Fair(max) && Waits(x, k, q)
    ensures Leads(max, x, y, n) && WorksOn(y, k)
    decreases q
  {
    hide Leads, WorksOn;
    var z, n0 := EmptyList(max, x, k, q);
    var order := SomeOrder(z.batching, z.batching.Keys);
    var a := Drain(0, order);
    assert k.job in order;
    var p :| 0 <= p < |order| && order[p] == k.job;
    var w := Stepped(max, z, a);
    assert w.drained[p] == Batch(k.job, z.batching[k.job]);
    var v, n1, q', sent := FromList(max, w, k, p, q);
    OneStep(max, z, a, v, n1);
    Joined(max, x, z, v, n0, n1 + 1);
    y, n := v, n0 + (n1 + 1);
    if !sent {
      var n2;
      y, n2 := FromMap(max, v, k, q');
      Joined(max, x, v, y, n, n2);
      n := n + n2;
    }
  }

  /** The collector's list as it is: each of its rows is worked on. */
  lemma {:induction false} FromDrained(max: Limits, x: Instance, k: Key, p: nat) returns (y: Instance, n: nat)
    requires Fair(max) && p < |x.drained| && x.drained[p].job == k.job && k.row in x.drained[p].rows
    ensures Leads(max, x, y, n) && WorksOn(y, k)
    decreases p
  {
    hide Leads;
    var a := Submit(0);
    var z := Stepped(max, x, a);
    if p == 0 {
      var q :| 0 <= q < |x.drained[0].rows| && x.drained[0].rows[q] == k.row;
      SubmitHead(max, x, k, q);
      var m := |x.sending|;
      if JustSent(z, m, k) {
        y, n := FromSending(max, z, m);
      } else {
        y, n := FromMap(max, z, k, |RowsOf(x.batching, k.job)| + q + 1 - max(k.job));
      }
    } else {
      assert z.drained[p - 1] == x.drained[p];
      y, n := FromDrained(max, z, k, p - 1);
    }
    OneStep(max, x, a, y, n);
    n := n + 1;
  }

  // ----- from anywhere

  lemma {:induction false} InSomeBatch(bs: seq<Batch>, k: Key) returns (i: nat)
    requires InBatches(bs, k) > 0
    ensures i < |bs| && bs[i].job == k.job && k.row in bs[i].rows
    decreases |bs|
  {
    if InRows(bs[0].job, bs[0].rows, k) > 0 {
      i := 0;
    } else {
      i := InSomeBatch(bs[1..], k);
      i := i + 1;
    }
  }

  /** Wherever a row is in a daemon, the daemon can come to work on it. */
  lemma {:induction false} CanWorkOn(max: Limits, x: Instance, k: Key) returns (y: Instance, n: nat)
    requires Fair(max) && Places(x, k) > 0
    ensures Leads(max, x, y, n) && WorksOn(y, k)
  {
    hide Leads, InBatches, Fair;
    if InWorker(x.worker, k) > 0 {
      y, n := x, 0;
      Still(max, x);
    } else if InBatches(x.queue, k) > 0 {
      var i := InSomeBatch(x.queue, k);
      y, n := FromQueue(max, x, i);
    } else if InBatches(x.sending, k) > 0 {
      var i := InSomeBatch(x.sending, k);
      y, n := FromSending(max, x, i);
    } else if InBatches(x.drained, k) > 0 {
      var i := InSomeBatch(x.drained, k);
      y, n := FromDrained(max, x, k, i);
    } else if InMap(x.batching, k) > 0 {
      assert k.row in x.batching[k.job];
      var q :| 0 <= q < |x.batching[k.job]| && x.batching[k.job][q] == k.row;
      y, n := FromMap(max, x, k, q);
    } else {
      assert k in x.acquired;
      var i :| 0 <= i < |x.acquired| && x.acquired[i] == k;
      var a := Collect(0, i);
      var z := Stepped(max, x, a);
      var q := |RowsOf(x.batching, k.job)|;
      assert z.batching[k.job][q] == k.row;
      y, n := FromMap(max, z, k, q);
      OneStep(max, x, a, y, n);
      n := n + 1;
    }
  }

  // ----- in the whole system

  /** The system can come from s to t in n steps. */
  ghost predicate Reaches(max: Limits, s: State, t: State, n: nat)
    decreases n
  {
    if n == 0 then s == t
    else exists a :: Enabled(max, s, a) && IsWork(a) && Reaches(max, Apply(max, s, a), t, n - 1)
  }

  lemma {:induction false} Lift(max: Limits, s: State, d: nat, y: Instance, n: nat) returns (t: State)
    requires d < |s.daemons| && Leads(max, s.daemons[d], y, n)
    ensures Reaches(max, s, t, n) && t.daemons == s.daemons[d := y]
    decreases n
  {
    hide CanStep, Stepped, Apply, Enabled;
    if n == 0 {
      t := s;
    } else {
      var x := s.daemons[d];
      var a :| CanStep(max, x, a) && Leads(max, Stepped(max, x, a), y, n - 1);
      LocalAsGlobal(max, s, d, a);
      var u := Apply(max, s, At(a, d));
      t := Lift(max, u, d, y, n - 1);
      assert u.daemons[d := y] == s.daemons[d := y];
    }
  }

  /** The step as daemon d takes it. */
  function At(a: Step, d: nat): Step {
    match a
    case Collect(_, i) => Collect(d, i)
    case Drain(_, order) => Drain(d, order)
    case Submit(_) => Submit(d)
    case Enqueue(_, i) => Enqueue(d, i)
    case Take(_) => Take(d)
    case _ => Finish(d)
  }

  lemma {:induction false} LocalAsGlobal(max: Limits, s: State, d: nat, a: Step)
    requires d < |s.daemons| && CanStep(max, s.daemons[d], a)
    ensures Enabled(max, s, At(a, d)) && IsWork(At(a, d))
    ensures Apply(max, s, At(a, d)).daemons == s.daemons[d := Stepped(max, s.daemons[d], a)]
  {
  }

  /** From every state, a row that is somewhere in a daemon can be worked on by that daemon and then unlocked, if
      every model takes at least two rows at a time. */
  lemma {:induction false} RowCanFinish(max: Limits, s: State, d: nat, k: Key) returns (t: State, n: nat)
    requires Fair(max) && d < |s.daemons| && Places(s.daemons[d], k) > 0
    ensures Reaches(max, s, t, n) && d < |t.daemons| && WorksOn(t.daemons[d], k)
    ensures Enabled(max, t, Finish(d)) && k !in Apply(max, t, Finish(d)).locks
  {
    hide Reaches, Leads, Places;
    var y;
    y, n := CanWorkOn(max, s.daemons[d], k);
    t := Lift(max, s, d, y, n);
  }
}
