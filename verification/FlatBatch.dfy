/** Whole combining sessions over a fixed batch: permutation, conservation and the progress
    that elimination passes make. */
module FlatBatch {
  import opened Arith
  import opened Options
  import opened FlatCombining

  /* ----- a session ----- */

  /** fc_process after `n` rounds of its loop over the publication list. */
  function Visited<S, O, R>(c: Container<S, O, R>, st: State<S, O, R>, n: nat): (t: State<S, O, R>)
    requires st.combiner.Passing? && n <= |st.records|
    ensures t.combiner.Passing? && |t.records| == |st.records|
  {
    if n == 0 then st else Visit(c, Visited(c, st, n - 1), n - 1)
  }

  lemma VisitedStep<S, O, R>(c: Container<S, O, R>, st: State<S, O, R>, n: nat)
    requires st.combiner.Passing? && n < |st.records|
    ensures Visited(c, st, n + 1) == Visit(c, Visited(c, st, n), n)
  {}

  /** One call of fc_process. */
  function Pass<S, O, R>(c: Container<S, O, R>, st: State<S, O, R>): (t: State<S, O, R>)
    ensures |t.records| == |st.records|
  {
    Visited(c, st.(combiner := Passing(None)), |st.records|).(combiner := Holding)
  }

  lemma PassIs<S, O, R>(c: Container<S, O, R>, st: State<S, O, R>)
    ensures var t := st.(combiner := Passing(None));
      Visited(c, t, 0) == t && Pass(c, st).records == Visited(c, t, |st.records|).records
  {}

  function Passes<S, O, R>(c: Container<S, O, R>, st: State<S, O, R>, k: nat): (t: State<S, O, R>)
    ensures |t.records| == |st.records|
  {
    if k == 0 then st else Pass(c, Passes(c, st, k - 1))
  }

  /** combining_pass over the first `n` records. */
  function Applied<S, O, R>(c: Container<S, O, R>, st: State<S, O, R>, n: nat): (t: State<S, O, R>)
    requires n <= |st.records|
    ensures |t.records| == |st.records|
  {
    if n == 0 then st
    else
      var t := Applied(c, st, n - 1);
      if IsPending(t, n - 1) then Commit(c, t, n - 1) else t
  }

  lemma AppliedStep<S, O, R>(c: Container<S, O, R>, st: State<S, O, R>, n: nat)
    requires n < |st.records|
    ensures var t := Applied(c, st, n); Applied(c, st, n + 1) == if IsPending(t, n) then Commit(c, t, n) else t
  {}

  lemma NoneApplied<S, O, R>(c: Container<S, O, R>, st: State<S, O, R>)
    ensures Applied(c, st, 0) == st
  {}

  function Published<S, O, R>(s: S, ops: seq<O>): State<S, O, R> {
    State(s, seq(|ops|, k requires 0 <= k < |ops| => Record(ops[k], Pending)), Holding, [])
  }

  /** batch_combining over the published operations `ops`, with `k` elimination passes. */
  function Batch<S, O, R>(c: Container<S, O, R>, s: S, ops: seq<O>, k: nat): (t: State<S, O, R>)
    ensures |t.records| == |ops|
  {
    Applied(c, Passes(c, Published(s, ops), k), |ops|)
  }

  /* ----- a session is part of a run ----- */

  lemma {:induction false} RunConcat<S, O, R>(
      c: Container<S, O, R>, st: State<S, O, R>, a: seq<Event<O>>, b: seq<Event<O>>)
    requires Run(c, st, a).Some?
    ensures Run(c, st, a + b) == Run(c, Run(c, st, a).value, b)
    decreases |b|
  {
    if b == [] {
      assert a + b == a;
    } else {
      var n := |b| - 1;
      assert (a + b)[..|a + b| - 1] == a + b[..n] && (a + b)[|a + b| - 1] == b[n];
      RunConcat(c, st, a, b[..n]);
      hide Step;
    }
  }

  lemma RunOne<S, O, R>(c: Container<S, O, R>, st: State<S, O, R>, e: Event<O>)
    ensures Run(c, st, [e]) == Step(c, st, e)
  {
    assert Run(c, st, [e][..0]) == Some(st);
    hide Step;
  }

  lemma {:induction false} VisitsRun<S, O, R>(c: Container<S, O, R>, st: State<S, O, R>, n: nat)
      returns (es: seq<Event<O>>)
    requires st.combiner.Passing? && n <= |st.records|
    ensures Run(c, st, es) == Some(Visited(c, st, n))
  {
    es := [];
    if n > 0 {
      es := VisitsRun(c, st, n - 1);
      RunConcat(c, st, es, [VisitRecord(n - 1)]);
      RunOne(c, Visited(c, st, n - 1), VisitRecord(n - 1));
      es := es + [VisitRecord(n - 1)];
      hide Visit, Run;
    }
  }

  lemma PassRun<S, O, R>(c: Container<S, O, R>, st: State<S, O, R>) returns (es: seq<Event<O>>)
    requires st.combiner.Holding?
    ensures Run(c, st, es) == Some(Pass(c, st))
  {
    var t := st.(combiner := Passing(None));
    es := VisitsRun(c, t, |st.records|);
    RunOne(c, st, BeginPass);
    RunConcat(c, st, [BeginPass], es);
    RunOne(c, Visited(c, t, |st.records|), EndPass);
    RunConcat(c, st, [BeginPass] + es, [EndPass]);
    es := [BeginPass] + es + [EndPass];
    hide Run, Visited;
  }

  lemma {:induction false} PassesRun<S, O, R>(c: Container<S, O, R>, st: State<S, O, R>, k: nat)
      returns (es: seq<Event<O>>)
    requires st.combiner.Holding?
    ensures Run(c, st, es) == Some(Passes(c, st, k)) && Passes(c, st, k).combiner.Holding?
  {
    es := [];
    if k > 0 {
      es := PassesRun(c, st, k - 1);
      var more := PassRun(c, Passes(c, st, k - 1));
      RunConcat(c, st, es, more);
      es := es + more;
      hide Run;
    }
  }

  lemma {:induction false} ApplyRun<S, O, R>(c: Container<S, O, R>, st: State<S, O, R>, n: nat)
      returns (es: seq<Event<O>>)
    requires st.combiner.Applying? && n <= |st.records|
    ensures Run(c, st, es) == Some(Applied(c, st, n)) && Applied(c, st, n).combiner.Applying?
  {
    es := [];
    if n > 0 {
      es := ApplyRun(c, st, n - 1);
      var t := Applied(c, st, n - 1);
      AppliedStep(c, st, n - 1);
      if IsPending(t, n - 1) {
        RunOne(c, t, ApplyRecord(n - 1));
        RunConcat(c, st, es, [ApplyRecord(n - 1)]);
        es := es + [ApplyRecord(n - 1)];
      }
      hide Run, Applied;
    }
  }

  lemma {:induction false} AppliedUnder<S, O, R>(c: Container<S, O, R>, st: State<S, O, R>, how: Combiner, n: nat)
    requires n <= |st.records|
    ensures Applied(c, st.(combiner := how), n) == Applied(c, st, n).(combiner := how)
  {
    if n > 0 { AppliedUnder(c, st, how, n - 1); }
  }

  /** What batch_combining does between lock and unlock is a sequence of steps of the state
      machine, so FlatCombining.Linearizable speaks about it. */
  lemma SessionIsRun<S, O, R>(c: Container<S, O, R>, st: State<S, O, R>, k: nat) returns (es: seq<Event<O>>)
    requires st.combiner.Holding?
    ensures Run(c, st, es) == Some(Applied(c, Passes(c, st, k), |st.records|).(combiner := Idle))
  {
    es := PassesRun(c, st, k);
    var t := Passes(c, st, k);
    var u := t.(combiner := Applying);
    RunOne(c, t, BeginApply);
    RunConcat(c, st, es, [BeginApply]);
    es := es + [BeginApply];
    var more := ApplyRun(c, u, |st.records|);
    RunConcat(c, st, es, more);
    es := es + more;
    AppliedUnder(c, t, Applying, |st.records|);
    RunOne(c, Applied(c, u, |st.records|), Unlock);
    RunConcat(c, st, es, [Unlock]);
    es := es + [Unlock];
    hide Run, Applied, Passes;
  }

  lemma {:induction false} AppliedLeavesNone<S, O, R>(c: Container<S, O, R>, st: State<S, O, R>, n: nat)
    requires n <= |st.records|
    ensures forall k :: 0 <= k < n ==> !IsPending(Applied(c, st, n), k)
  {
    hide Commit;
    if n > 0 {
      AppliedLeavesNone(c, st, n - 1);
      var t := Applied(c, st, n - 1);
      AppliedStep(c, st, n - 1);
      if IsPending(t, n - 1) { CommitFinishes(c, t, n - 1); }
      forall k | 0 <= k < n ensures !IsPending(Applied(c, st, n), k) {
        if k < n - 1 { assert !IsPending(t, k); }
      }
    }
  }

  /** What is left after the passes takes effect in the order of the publication list. */
  lemma {:induction false} AppliedInOrder<S, O, R>(c: Container<S, O, R>, st: State<S, O, R>, n: nat)
    requires n <= |st.records|
    ensures var log, start := Applied(c, st, n).log, |st.log|;
      && st.log <= log
      && (forall k :: start <= k < |log| ==> log[k].id < n)
      && (forall j, k :: start <= j < k < |log| ==> log[j].id < log[k].id)
  {
    if n > 0 {
      AppliedInOrder(c, st, n - 1);
      AppliedStep(c, st, n - 1);
      hide Applied;
    }
  }

  /** No operation is stuck: whenever nobody combines, a published operation can be carried out
      and responded to, by a session of any number of passes. */
  lemma CanRespond<S, O, R>(c: Container<S, O, R>, st: State<S, O, R>, id: nat, k: nat) returns (es: seq<Event<O>>)
    requires st.combiner.Idle? && id < |st.records|
    ensures Run(c, st, es).Some? && id < |Run(c, st, es).value.records|
    ensures Run(c, st, es).value.records[id].status.Responded?
  {
    var t := st.(combiner := Holding);
    RunOne(c, st, Lock);
    var session := SessionIsRun(c, t, k);
    RunConcat(c, st, [Lock], session);
    es := [Lock] + session;
    var u := Passes(c, t, k);
    AppliedLeavesNone(c, u, |t.records|);
    var v := Applied(c, u, |t.records|).(combiner := Idle);
    assert !IsPending(Applied(c, u, |t.records|), id);
    hide Run, Applied, Passes;
    if v.records[id].status.Done? {
      RunOne(c, v, Respond(id));
      RunConcat(c, st, es, [Respond(id)]);
      es := es + [Respond(id)];
    }
  }

  /* ----- a session is a permutation of its batch ----- */

  lemma {:induction false} VisitedKeepsInv<S(!new), O(!new), R(!new)>(
      c: Container<S, O, R>, s0: S, st: State<S, O, R>, n: nat)
    requires Legal(c) && Inv(c, s0, st) && st.combiner.Passing? && n <= |st.records|
    ensures Inv(c, s0, Visited(c, st, n)) && Visited(c, st, n).contents == st.contents
  {
    hide Inv, Visit, Legal;
    if n > 0 {
      VisitedKeepsInv(c, s0, st, n - 1);
      VisitKeepsInv(c, s0, Visited(c, st, n - 1), n - 1);
    }
  }

  /** The container never changes during elimination. */
  lemma {:induction false} PassesKeepInv<S(!new), O(!new), R(!new)>(
      c: Container<S, O, R>, s0: S, st: State<S, O, R>, k: nat)
    requires Legal(c) && Inv(c, s0, st)
    ensures Inv(c, s0, Passes(c, st, k)) && Passes(c, st, k).contents == st.contents
  {
    if k > 0 {
      PassesKeepInv(c, s0, st, k - 1);
      var t := Passes(c, st, k - 1);
      VisitedKeepsInv(c, s0, t.(combiner := Passing(None)), |t.records|);
    }
  }

  lemma VisitKeepsOps<S, O, R>(c: Container<S, O, R>, st: State<S, O, R>, id: nat)
    requires st.combiner.Passing? && id < |st.records|
    ensures var t := Visit(c, st, id);
      forall k :: 0 <= k < |st.records| ==> t.records[k].op == st.records[k].op
  {}

  lemma {:induction false} VisitedKeepsOps<S, O, R>(c: Container<S, O, R>, st: State<S, O, R>, n: nat)
    requires st.combiner.Passing? && n <= |st.records|
    ensures forall k :: 0 <= k < |st.records| ==> Visited(c, st, n).records[k].op == st.records[k].op
  {
    if n > 0 {
      VisitedKeepsOps(c, st, n - 1);
      VisitKeepsOps(c, Visited(c, st, n - 1), n - 1);
    }
  }

  lemma {:induction false} PassesKeepOps<S, O, R>(c: Container<S, O, R>, st: State<S, O, R>, n: nat)
    ensures forall k :: 0 <= k < |st.records| ==> Passes(c, st, n).records[k].op == st.records[k].op
  {
    if n > 0 {
      PassesKeepOps(c, st, n - 1);
      var t := Passes(c, st, n - 1);
      VisitedKeepsOps(c, t.(combiner := Passing(None)), |t.records|);
    }
  }

  lemma CommitFinishes<S, O, R>(c: Container<S, O, R>, st: State<S, O, R>, id: nat)
    requires IsPending(st, id)
    ensures var t := Commit(c, st, id);
      && |t.records| == |st.records| && !IsPending(t, id)
      && (forall k :: 0 <= k < |st.records| ==> t.records[k].op == st.records[k].op)
      && (forall k :: 0 <= k < |st.records| && k != id ==> t.records[k] == st.records[k])
  {}

  lemma {:induction false} AppliedFinishes<S(!new), O(!new), R(!new)>(
      c: Container<S, O, R>, s0: S, st: State<S, O, R>, n: nat)
    requires Inv(c, s0, st) && n <= |st.records|
    ensures var t := Applied(c, st, n);
      && Inv(c, s0, t)
      && (forall k :: 0 <= k < n ==> !IsPending(t, k))
      && (forall k :: 0 <= k < |st.records| ==> t.records[k].op == st.records[k].op)
  {
    hide Inv, Commit;
    if n > 0 {
      AppliedFinishes(c, s0, st, n - 1);
      var t := Applied(c, st, n - 1);
      if IsPending(t, n - 1) {
        CommitKeepsInv(c, s0, t, n - 1);
        CommitFinishes(c, t, n - 1);
      }
      forall k | 0 <= k < n ensures !IsPending(Applied(c, st, n), k) {
        if k < n - 1 { assert !IsPending(t, k); }
      }
    }
  }

  function Ids<O, R>(log: seq<Entry<O, R>>): (ids: seq<nat>)
    ensures |ids| == |log| && forall k :: 0 <= k < |log| ==> ids[k] == log[k].id
  {
    seq(|log|, k requires 0 <= k < |log| => log[k].id)
  }

  /** `ids` lists each number below `n` exactly once. */
  ghost predicate IsPermutation(ids: seq<nat>, n: nat) {
    && |ids| == n
    && (forall k :: 0 <= k < n ==> ids[k] < n)
    && (forall j, k :: 0 <= j < k < n ==> ids[j] != ids[k])
    && (forall id :: 0 <= id < n ==> id in ids)
  }

  function Below(n: nat): set<nat> { if n == 0 then {} else Below(n - 1) + {n - 1} }

  lemma {:induction false} BelowSize(n: nat)
    ensures forall x: nat :: x in Below(n) <==> x < n
    ensures |Below(n)| == n
  {
    if n > 0 {
      BelowSize(n - 1);
      assert n - 1 !in Below(n - 1);
    }
  }

  function Elements(ids: seq<nat>): set<nat> {
    if ids == [] then {} else Elements(ids[..|ids| - 1]) + {ids[|ids| - 1]}
  }

  lemma {:induction false} DistinctSize(ids: seq<nat>)
    requires forall j, k :: 0 <= j < k < |ids| ==> ids[j] != ids[k]
    ensures forall x :: x in Elements(ids) <==> x in ids
    ensures |Elements(ids)| == |ids|
  {
    if ids != [] {
      var rest, last := ids[..|ids| - 1], ids[|ids| - 1];
      DistinctSize(rest);
      LastOrBefore(ids);
      hide Elements;
      assert last !in rest;
      assert |Elements(rest) + {last}| == |Elements(rest)| + 1;
    }
  }

  lemma LastOrBefore(ids: seq<nat>)
    requires ids != []
    ensures Elements(ids) == Elements(ids[..|ids| - 1]) + {ids[|ids| - 1]}
    ensures forall x :: x in ids <==> x in ids[..|ids| - 1] || x == ids[|ids| - 1]
  {
    assert ids == ids[..|ids| - 1] + [ids[|ids| - 1]];
  }

  lemma CoverIsPermutation(ids: seq<nat>, n: nat)
    requires forall k :: 0 <= k < |ids| ==> ids[k] < n
    requires forall j, k :: 0 <= j < k < |ids| ==> ids[j] != ids[k]
    requires forall id :: 0 <= id < n ==> id in ids
    ensures IsPermutation(ids, n)
  {
    BelowSize(n);
    DistinctSize(ids);
    assert Elements(ids) == Below(n);
  }

  lemma PublishedInv<S(!new), O(!new), R(!new)>(c: Container<S, O, R>, s0: S, ops: seq<O>)
    ensures Inv(c, s0, Published(s0, ops))
  {
    var st: State<S, O, R> := Published(s0, ops);
    assert forall id :: !InLog(st.log, id);
  }

  /** An operation left pending by nobody is in the log. */
  lemma AllLogged<S(!new), O(!new), R(!new)>(c: Container<S, O, R>, s0: S, t: State<S, O, R>)
    requires Inv(c, s0, t) && forall k :: 0 <= k < |t.records| ==> !IsPending(t, k)
    ensures IsPermutation(Ids(t.log), |t.records|)
  {
    forall id: nat | 0 <= id < |t.records| ensures id in Ids(t.log) {
      assert !IsPending(t, id);
      assert InLog(t.log, id);
      var m :| 0 <= m < |t.log| && t.log[m].id == id;
      assert Ids(t.log)[m] == id;
    }
    CoverIsPermutation(Ids(t.log), |t.records|);
  }

  /** A batch run as any number of elimination passes and then fc_apply on the rest gives the
      results and the final contents of some permutation of the batch, run one operation at a
      time on the plain container. */
  lemma BatchIsPermutation<S(!new), O(!new), R(!new)>(c: Container<S, O, R>, s0: S, ops: seq<O>, k: nat)
    requires Legal(c)
    ensures var t := Batch(c, s0, ops, k);
      && IsPermutation(Ids(t.log), |ops|)
      && Replay(c, s0, t.log) == Some(t.contents)
      && (forall m :: 0 <= m < |t.log| ==>
            var x := t.log[m];
            && x.id < |ops| && x.op == ops[x.id] && t.records[x.id].op == x.op
            && !t.records[x.id].status.Pending? && t.records[x.id].status.result == x.result)
  {
    var p: State<S, O, R> := Published(s0, ops);
    PublishedInv(c, s0, ops);
    PassesKeepInv(c, s0, p, k);
    PassesKeepOps(c, p, k);
    var q := Passes(c, p, k);
    AppliedFinishes(c, s0, q, |ops|);
    hide Applied, Passes;
    AllLogged(c, s0, Applied(c, q, |ops|));
  }

  /* ----- conservation ----- */

  /** Where values go: put in by an operation, handed out by a result, or thrown away. */
  datatype Flow<!S, !O, !R, !V> = Flow(
    stored: S -> multiset<V>,
    added: O -> multiset<V>,
    taken: R -> multiset<V>,
    dropped: (S, O) -> multiset<V>)

  ghost predicate Conserves<S(!new), O(!new), R(!new), V>(c: Container<S, O, R>, f: Flow<S, O, R, V>) {
    forall s, o ::
      f.stored(s) + f.added(o) == f.stored(c.apply(s, o).0) + f.taken(c.apply(s, o).1) + f.dropped(s, o)
  }

  lemma WithElement<V>(s: seq<V>, x: V)
    ensures multiset([x] + s) == multiset(s) + multiset{x} && multiset(s + [x]) == multiset(s) + multiset{x}
  {
    assert multiset([x]) == multiset{x};
  }

  function Added<S, O, R, V>(f: Flow<S, O, R, V>, log: seq<Entry<O, R>>): multiset<V> {
    if log == [] then multiset{} else Added(f, log[..|log| - 1]) + f.added(log[|log| - 1].op)
  }

  function Taken<S, O, R, V>(f: Flow<S, O, R, V>, log: seq<Entry<O, R>>): multiset<V> {
    if log == [] then multiset{} else Taken(f, log[..|log| - 1]) + f.taken(log[|log| - 1].result)
  }

  function Dropped<S, O, R(==), V>(c: Container<S, O, R>, f: Flow<S, O, R, V>, s: S, log: seq<Entry<O, R>>): multiset<V>
    requires Replay(c, s, log).Some?
  {
    if log == [] then multiset{}
    else
      var before := log[..|log| - 1];
      Dropped(c, f, s, before) + f.dropped(Replay(c, s, before).value, log[|log| - 1].op)
  }

  /** Along any legal history every value pushed is popped, cleared or still stored, once. */
  lemma {:induction false} Conservation<S(!new), O(!new), R(!new), V>(
      c: Container<S, O, R>, f: Flow<S, O, R, V>, s: S, log: seq<Entry<O, R>>)
    requires Conserves(c, f) && Replay(c, s, log).Some?
    ensures f.stored(s) + Added(f, log) ==
      f.stored(Replay(c, s, log).value) + Taken(f, log) + Dropped(c, f, s, log)
    decreases |log|
  {
    if log != [] {
      var before, x := log[..|log| - 1], log[|log| - 1];
      Conservation(c, f, s, before);
      var t, u := Replay(c, s, before).value, Replay(c, s, log).value;
      assert c.apply(t, x.op) == (u, x.result);
      assert f.stored(t) + f.added(x.op) == f.stored(u) + f.taken(x.result) + f.dropped(t, x.op);
      Rebalance(f.stored(s), Added(f, before), f.stored(t), Taken(f, before), Dropped(c, f, s, before),
        f.added(x.op), f.stored(u), f.taken(x.result), f.dropped(t, x.op));
    }
  }

  lemma Rebalance<V>(a: multiset<V>, b: multiset<V>, c: multiset<V>, d: multiset<V>, e: multiset<V>,
      p: multiset<V>, x: multiset<V>, y: multiset<V>, z: multiset<V>)
    requires a + b == c + d + e && c + p == x + y + z
    ensures a + (b + p) == x + (d + y) + (e + z)
  {
    forall v ensures (a + (b + p))[v] == (x + (d + y) + (e + z))[v] {
      assert (a + b)[v] == (c + d + e)[v] && (c + p)[v] == (x + y + z)[v];
    }
  }

  /* ----- first in, first out ----- */

  /** The values that a container holds, oldest first, and those that an operation puts in and
      a result hands out; for the operations `among`. */
  datatype Order<!S, !O, !R, !V> = Order(
    held: S -> seq<V>,
    put: O -> seq<V>,
    got: R -> seq<V>,
    among: O -> bool)

  ghost predicate InOrder<S(!new), O(!new), R(!new), V>(c: Container<S, O, R>, f: Order<S, O, R, V>) {
    forall s, o :: f.among(o) ==> f.held(s) + f.put(o) == f.got(c.apply(s, o).1) + f.held(c.apply(s, o).0)
  }

  function Puts<S, O, R, V>(f: Order<S, O, R, V>, log: seq<Entry<O, R>>): seq<V> {
    if log == [] then [] else Puts(f, log[..|log| - 1]) + f.put(log[|log| - 1].op)
  }

  function Gots<S, O, R, V>(f: Order<S, O, R, V>, log: seq<Entry<O, R>>): seq<V> {
    if log == [] then [] else Gots(f, log[..|log| - 1]) + f.got(log[|log| - 1].result)
  }

  /** Along any legal history of these operations the values come out in the order in which
      they went in: those handed out, then those still held. */
  lemma {:induction false} FirstInFirstOut<S(!new), O(!new), R(!new), V>(
      c: Container<S, O, R>, f: Order<S, O, R, V>, s: S, log: seq<Entry<O, R>>)
    requires InOrder(c, f) && Replay(c, s, log).Some? && forall k :: 0 <= k < |log| ==> f.among(log[k].op)
    ensures f.held(s) + Puts(f, log) == Gots(f, log) + f.held(Replay(c, s, log).value)
    decreases |log|
  {
    if log == [] {
      assert f.held(s) + [] == [] + f.held(s);
    } else {
      var before, x := log[..|log| - 1], log[|log| - 1];
      FirstInFirstOut(c, f, s, before);
      var t := Replay(c, s, before).value;
      assert f.among(x.op);
      assert c.apply(t, x.op) == (Replay(c, s, log).value, x.result);
      MoveOn(f.held(s), Puts(f, before), f.put(x.op), Gots(f, before), f.held(t), f.got(x.result),
        f.held(Replay(c, s, log).value));
    }
  }

  lemma MoveOn<V>(a: seq<V>, puts: seq<V>, put: seq<V>, gots: seq<V>, h: seq<V>, got: seq<V>, rest: seq<V>)
    requires a + puts == gots + h && h + put == got + rest
    ensures a + (puts + put) == (gots + got) + rest
  {
    assert a + (puts + put) == (a + puts) + put;
    assert (gots + h) + put == gots + (h + put);
    assert gots + (got + rest) == (gots + got) + rest;
  }

  /* ----- progress ----- */

  /** In state `s` a pass looks at exactly the pushes and pops, and any push next to any pop
      collides. */
  ghost predicate Eliminates<S, O(!new), R>(c: Container<S, O, R>, s: S, push: O -> bool, pop: O -> bool) {
    && (forall o :: c.joins(s, o) <==> push(o) || pop(o))
    && (forall o :: !(push(o) && pop(o)))
    && (forall o, p :: c.collide(s, o, p) != NoPair <==> (push(o) && pop(p)) || (pop(o) && push(p)))
  }

  /** Pending operations of one kind among the first `n` records. */
  function Count<O, R>(records: seq<Record<O, R>>, kind: O -> bool, n: nat): nat
    requires n <= |records|
  {
    if n == 0 then 0
    else Count(records, kind, n - 1) + if records[n - 1].status.Pending? && kind(records[n - 1].op) then 1 else 0
  }

  function Total<S, O, R>(st: State<S, O, R>, kind: O -> bool): nat { Count(st.records, kind, |st.records|) }

  lemma {:induction false} CountFinish<O, R>(records: seq<Record<O, R>>, kind: O -> bool, n: nat, id: nat, r: R)
    requires n <= |records| && id < |records| && records[id].status.Pending?
    ensures var after := records[id := records[id].(status := Done(r))];
      Count(after, kind, n) == Count(records, kind, n) - (if id < n && kind(records[id].op) then 1 else 0)
  {
    if n > 0 { CountFinish(records, kind, n - 1, id, r); }
  }

  lemma {:induction false} CountPositive<O, R>(records: seq<Record<O, R>>, kind: O -> bool, n: nat, id: nat)
    requires id < n <= |records| && records[id].status.Pending? && kind(records[id].op)
    ensures Count(records, kind, n) > 0
  {
    if n - 1 > id { CountPositive(records, kind, n - 1, id); }
  }

  /** A round either leaves the records alone or finishes one push and one pop. */
  lemma VisitCounts<S, O(!new), R>(c: Container<S, O, R>, st: State<S, O, R>, id: nat, push: O -> bool, pop: O -> bool)
    requires Eliminates(c, st.contents, push, pop) && st.combiner.Passing? && id < |st.records|
    ensures var t := Visit(c, st, id);
      && t.contents == st.contents
      && (t.records == st.records ||
          (Total(t, push) == Total(st, push) - 1 && Total(t, pop) == Total(st, pop) - 1 && |t.log| == |st.log| + 2))
      && (t.records == st.records ==> t.log == st.log)
  {
    var t := Visit(c, st, id);
    if t.records != st.records {
      var p := st.combiner.prev.value;
      match c.collide(st.contents, st.records[p].op, st.records[id].op)
      case PrevFirst(a, b) => PairCounts(st, p, id, a, b, push, pop);
      case CurFirst(a, b) => PairCounts(st, id, p, a, b, push, pop);
    }
  }

  lemma PairCounts<S, O(!new), R>(st: State<S, O, R>, x: nat, y: nat, a: R, b: R, push: O -> bool, pop: O -> bool)
    requires IsPending(st, x) && IsPending(st, y) && x != y
    requires forall o :: !(push(o) && pop(o))
    requires var o, p := st.records[x].op, st.records[y].op; (push(o) && pop(p)) || (pop(o) && push(p))
    ensures var t := Finish(Finish(st, x, a), y, b);
      Total(t, push) == Total(st, push) - 1 && Total(t, pop) == Total(st, pop) - 1
  {
    var u := Finish(st, x, a);
    CountFinish(st.records, push, |st.records|, x, a);
    CountFinish(st.records, pop, |st.records|, x, a);
    CountFinish(u.records, push, |u.records|, y, b);
    CountFinish(u.records, pop, |u.records|, y, b);
  }

  /** While a pass has not collided, everything it has looked at is of one kind, that of the
      remembered record. */
  ghost predicate OneKind<S, O, R>(st: State<S, O, R>, n: nat, push: O -> bool, pop: O -> bool)
    requires n <= |st.records| && st.combiner.Passing?
  {
    match st.combiner.prev
    case None => Count(st.records, push, n) == 0 && Count(st.records, pop, n) == 0
    case Some(p) =>
      && p < n && IsPending(st, p)
      && (push(st.records[p].op) || pop(st.records[p].op))
      && (push(st.records[p].op) ==> Count(st.records, pop, n) == 0)
      && (pop(st.records[p].op) ==> Count(st.records, push, n) == 0)
  }

  lemma VisitOneKind<S, O(!new), R>(c: Container<S, O, R>, st: State<S, O, R>, n: nat, push: O -> bool, pop: O -> bool)
    requires Eliminates(c, st.contents, push, pop) && st.combiner.Passing? && n < |st.records|
    requires OneKind(st, n, push, pop) && Visit(c, st, n).records == st.records
    ensures OneKind(Visit(c, st, n), n + 1, push, pop)
  {}

  lemma {:induction false} VisitedCounts<S, O(!new), R>(
      c: Container<S, O, R>, st: State<S, O, R>, n: nat, push: O -> bool, pop: O -> bool)
    requires Eliminates(c, st.contents, push, pop) && st.combiner == Passing(None) && n <= |st.records|
    ensures var t := Visited(c, st, n);
      && t.contents == st.contents
      && Total(st, push) - Total(t, push) == Total(st, pop) - Total(t, pop) >= 0
      && |t.log| == |st.log| + 2 * (Total(st, push) - Total(t, push))
      && (Total(t, push) == Total(st, push) ==> t.records == st.records && OneKind(t, n, push, pop))
  {
    hide Eliminates, Visit, Visited, OneKind, Total, Count;
    if n == 0 {
      NothingVisited(c, st, push, pop);
    } else {
      VisitedCounts(c, st, n - 1, push, pop);
      VisitedStep(c, st, n - 1);
      var t := Visited(c, st, n - 1);
      VisitCounts(c, t, n - 1, push, pop);
      if Visit(c, t, n - 1).records == t.records {
        SameTotals(Visit(c, t, n - 1), t, push, pop);
        if t.records == st.records {
          SameTotals(t, st, push, pop);
          VisitOneKind(c, t, n - 1, push, pop);
        }
      }
    }
  }

  lemma NothingVisited<S, O(!new), R>(c: Container<S, O, R>, st: State<S, O, R>, push: O -> bool, pop: O -> bool)
    requires st.combiner == Passing(None)
    ensures Visited(c, st, 0) == st && OneKind(st, 0, push, pop)
  {}

  lemma SameTotals<S, O(!new), R>(a: State<S, O, R>, b: State<S, O, R>, push: O -> bool, pop: O -> bool)
    requires a.records == b.records
    ensures Total(a, push) == Total(b, push) && Total(a, pop) == Total(b, pop)
  {}

  /** One pass over a batch with a pending push and a pending pop eliminates a pair. */
  lemma PassEliminates<S, O(!new), R>(c: Container<S, O, R>, st: State<S, O, R>, push: O -> bool, pop: O -> bool)
    requires Eliminates(c, st.contents, push, pop)
    ensures var t := Pass(c, st); var gone := Total(st, push) - Total(t, push);
      && t.contents == st.contents
      && gone == Total(st, pop) - Total(t, pop) >= 0 && |t.log| == |st.log| + 2 * gone
      && (Total(st, push) > 0 && Total(st, pop) > 0 ==> gone > 0)
  {
    VisitedCounts(c, st.(combiner := Passing(None)), |st.records|, push, pop);
  }

  lemma {:induction false} PassesProgress<S, O(!new), R>(
      c: Container<S, O, R>, st: State<S, O, R>, k: nat, push: O -> bool, pop: O -> bool)
    requires Eliminates(c, st.contents, push, pop)
    ensures var t := Passes(c, st, k); var gone := Total(st, push) - Total(t, push);
      && t.contents == st.contents
      && gone == Total(st, pop) - Total(t, pop) >= 0 && |t.log| == |st.log| + 2 * gone
      && gone >= Min(k, Min(Total(st, push), Total(st, pop)))
  {
    if k > 0 {
      PassesProgress(c, st, k - 1, push, pop);
      PassEliminates(c, Passes(c, st, k - 1), push, pop);
    }
  }

  /** After min(pushes, pops) passes exactly that many pairs are gone, and one of the two
      kinds is used up. */
  lemma PassesExhaust<S, O(!new), R>(c: Container<S, O, R>, st: State<S, O, R>, push: O -> bool, pop: O -> bool)
    requires Eliminates(c, st.contents, push, pop)
    ensures var m := Min(Total(st, push), Total(st, pop)); var t := Passes(c, st, m);
      && Total(t, push) == Total(st, push) - m && Total(t, pop) == Total(st, pop) - m
      && (Total(t, push) == 0 || Total(t, pop) == 0)
      && |t.log| == |st.log| + 2 * m
  {
    PassesProgress(c, st, Min(Total(st, push), Total(st, pop)), push, pop);
  }
}
