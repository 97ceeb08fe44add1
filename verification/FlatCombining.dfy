/** Flat combining with elimination, for any sequential container. Threads publish records;
    the thread holding the combiner lock makes elimination passes over the publication list
    and then applies what is left. */
module FlatCombining {
  import opened Options

  /** What a pass does with the remembered record and the current one: nothing, or pair
      them, one taking effect immediately before the other. */
  datatype Pairing<+R> = NoPair | PrevFirst(first: R, second: R) | CurFirst(first: R, second: R)

  /** A sequential container as its flat-combining wrapper sees it: `apply` is fc_apply,
      `joins` the operations that a pass looks at, `collide` when and how it pairs two. */
  datatype Container<!S, !O, !R> = Container(
    apply: (S, O) -> (S, R),
    joins: (S, O) -> bool,
    collide: (S, O, O) -> Pairing<R>)

  datatype Status<+R> = Pending | Done(result: R) | Responded(result: R)

  datatype Record<+O, +R> = Record(op: O, status: Status<R>)

  /** `Passing(prev)` is inside fc_process, with the iterator `itPrev`. */
  datatype Combiner = Idle | Holding | Passing(prev: Option<nat>) | Applying

  datatype Entry<+O, +R> = Entry(id: nat, op: O, result: R)

  /** `log` is the history: operations in the order in which they take effect. */
  datatype State<+S, +O, +R> = State(
    contents: S, records: seq<Record<O, R>>, combiner: Combiner, log: seq<Entry<O, R>>)

  datatype Event<+O> =
    | Publish(op: O) | Lock | BeginPass | VisitRecord(id: nat) | EndPass
    | BeginApply | ApplyRecord(id: nat) | Unlock | Respond(id: nat)

  predicate IsPending<S, O, R>(st: State<S, O, R>, id: nat) {
    id < |st.records| && st.records[id].status.Pending?
  }

  /** operation_done */
  function Finish<S, O, R>(st: State<S, O, R>, id: nat, r: R): State<S, O, R>
    requires id < |st.records|
  {
    st.(records := st.records[id := st.records[id].(status := Done(r))],
        log := st.log + [Entry(id, st.records[id].op, r)])
  }

  /** fc_apply followed by operation_done */
  function Commit<S, O, R>(c: Container<S, O, R>, st: State<S, O, R>, id: nat): State<S, O, R>
    requires id < |st.records|
  {
    var (s, r) := c.apply(st.contents, st.records[id].op);
    Finish(st, id, r).(contents := s)
  }

  /** One round of the loop in fc_process: the record `id` comes under the iterator. */
  function Visit<S, O, R>(c: Container<S, O, R>, st: State<S, O, R>, id: nat): State<S, O, R>
    requires st.combiner.Passing? && id < |st.records|
  {
    var op := st.records[id].op;
    if !IsPending(st, id) || !c.joins(st.contents, op) then st
    else
      match st.combiner.prev
      case None => st.(combiner := Passing(Some(id)))
      case Some(p) =>
        if p == id || !IsPending(st, p) then st.(combiner := Passing(Some(id)))
        else
          match c.collide(st.contents, st.records[p].op, op)
          case NoPair => st.(combiner := Passing(Some(id)))
          case PrevFirst(a, b) => Finish(Finish(st, p, a), id, b).(combiner := Passing(None))
          case CurFirst(a, b) => Finish(Finish(st, id, a), p, b).(combiner := Passing(None))
  }

  function Step<S, O, R>(c: Container<S, O, R>, st: State<S, O, R>, e: Event<O>): Option<State<S, O, R>> {
    match e
    case Publish(op) => Some(st.(records := st.records + [Record(op, Pending)]))
    case Lock => if st.combiner.Idle? then Some(st.(combiner := Holding)) else None
    case BeginPass => if st.combiner.Holding? then Some(st.(combiner := Passing(None))) else None
    case VisitRecord(id) =>
      if st.combiner.Passing? && id < |st.records| then Some(Visit(c, st, id)) else None
    case EndPass => if st.combiner.Passing? then Some(st.(combiner := Holding)) else None
    case BeginApply => if st.combiner.Holding? then Some(st.(combiner := Applying)) else None
    case ApplyRecord(id) =>
      if st.combiner.Applying? && IsPending(st, id) then Some(Commit(c, st, id)) else None
    case Unlock => if st.combiner.Holding? || st.combiner.Applying? then Some(st.(combiner := Idle)) else None
    case Respond(id) =>
      if id < |st.records| && st.records[id].status.Done? then
        Some(st.(records := st.records[id := st.records[id].(status := Responded(st.records[id].status.result))]))
      else None
  }

  function Run<S, O, R>(c: Container<S, O, R>, st: State<S, O, R>, es: seq<Event<O>>): Option<State<S, O, R>> {
    if es == [] then Some(st)
    else
      match Run(c, st, es[..|es| - 1])
      case None => None
      case Some(t) => Step(c, t, es[|es| - 1])
  }

  function Start<S, O, R>(s: S): State<S, O, R> { State(s, [], Idle, []) }

  /** The contents after the operations of `log` one by one on the plain container, if each
      gives the result recorded for it. */
  function Replay<S, O, R(==)>(c: Container<S, O, R>, s: S, log: seq<Entry<O, R>>): Option<S> {
    if log == [] then Some(s)
    else
      var x := log[|log| - 1];
      match Replay(c, s, log[..|log| - 1])
      case None => None
      case Some(t) => var (u, r) := c.apply(t, x.op); if r == x.result then Some(u) else None
  }

  /** A pair is legal when running its two operations back to back on the container gives
      the results that the pair writes and leaves the container as it was. */
  ghost predicate Legal<S(!new), O(!new), R(!new)>(c: Container<S, O, R>) {
    forall s, p, q ::
      match c.collide(s, p, q)
      case NoPair => true
      case PrevFirst(a, b) => c.apply(s, p).1 == a && c.apply(c.apply(s, p).0, q) == (s, b)
      case CurFirst(a, b) => c.apply(s, q).1 == a && c.apply(c.apply(s, q).0, p) == (s, b)
  }

  ghost predicate InLog<O(!new), R(!new)>(log: seq<Entry<O, R>>, id: nat) {
    exists k :: 0 <= k < |log| && log[k].id == id
  }

  /** The log is a legal sequential history, and lists exactly the finished operations, each
      once and with the result its record holds. */
  ghost predicate Inv<S(!new), O(!new), R(!new)>(c: Container<S, O, R>, s0: S, st: State<S, O, R>) {
    && Replay(c, s0, st.log) == Some(st.contents)
    && (forall k :: 0 <= k < |st.log| ==>
          var x := st.log[k];
          && x.id < |st.records| && st.records[x.id].op == x.op
          && !st.records[x.id].status.Pending? && st.records[x.id].status.result == x.result)
    && (forall j, k :: 0 <= j < k < |st.log| ==> st.log[j].id != st.log[k].id)
    && (forall id :: 0 <= id < |st.records| ==> (InLog(st.log, id) <==> !st.records[id].status.Pending?))
  }

  lemma CommitKeepsInv<S(!new), O(!new), R(!new)>(c: Container<S, O, R>, s0: S, st: State<S, O, R>, id: nat)
    requires Inv(c, s0, st) && IsPending(st, id)
    ensures Inv(c, s0, Commit(c, st, id))
  {
    var t := Commit(c, st, id);
    assert t.log[..|t.log| - 1] == st.log;
    assert !InLog(st.log, id);
    forall other | 0 <= other < |t.records| ensures InLog(t.log, other) <==> !t.records[other].status.Pending? {
      if InLog(st.log, other) {
        var k :| 0 <= k < |st.log| && st.log[k].id == other;
        assert t.log[k].id == other;
      }
      if other == id { assert t.log[|st.log|].id == id; }
    }
  }

  /** A collision is two ordinary operations, push and pop, back to back. */
  lemma CollisionIsTwoCommits<S(!new), O(!new), R(!new)>(
      c: Container<S, O, R>, st: State<S, O, R>, x: nat, y: nat, a: R, b: R)
    requires IsPending(st, x) && IsPending(st, y) && x != y
    requires c.apply(st.contents, st.records[x].op).1 == a
    requires c.apply(c.apply(st.contents, st.records[x].op).0, st.records[y].op) == (st.contents, b)
    ensures Finish(Finish(st, x, a), y, b) == Commit(c, Commit(c, st, x), y)
  {}

  lemma VisitKeepsInv<S(!new), O(!new), R(!new)>(c: Container<S, O, R>, s0: S, st: State<S, O, R>, id: nat)
    requires Legal(c) && Inv(c, s0, st) && st.combiner.Passing? && id < |st.records|
    ensures Inv(c, s0, Visit(c, st, id))
    ensures Visit(c, st, id).contents == st.contents
  {
    var t := Visit(c, st, id);
    if t.log != st.log {
      var p := st.combiner.prev.value;
      match c.collide(st.contents, st.records[p].op, st.records[id].op)
      case PrevFirst(a, b) => PairKeepsInv(c, s0, st, p, id, a, b);
      case CurFirst(a, b) => PairKeepsInv(c, s0, st, id, p, a, b);
    }
  }

  lemma PairKeepsInv<S(!new), O(!new), R(!new)>(c: Container<S, O, R>, s0: S, st: State<S, O, R>, x: nat, y: nat,
      a: R, b: R)
    requires Inv(c, s0, st) && IsPending(st, x) && IsPending(st, y) && x != y
    requires c.apply(st.contents, st.records[x].op).1 == a
    requires c.apply(c.apply(st.contents, st.records[x].op).0, st.records[y].op) == (st.contents, b)
    ensures Inv(c, s0, Finish(Finish(st, x, a), y, b))
    ensures Inv(c, s0, Finish(Finish(st, x, a), y, b).(combiner := Passing(None)))
  {
    CollisionIsTwoCommits(c, st, x, y, a, b);
    CommitKeepsInv(c, s0, st, x);
    CommitKeepsInv(c, s0, Commit(c, st, x), y);
  }

  lemma StepKeepsInv<S(!new), O(!new), R(!new)>(c: Container<S, O, R>, s0: S, st: State<S, O, R>, e: Event<O>)
    requires Legal(c) && Inv(c, s0, st) && Step(c, st, e).Some?
    ensures Inv(c, s0, Step(c, st, e).value)
  {
    var t := Step(c, st, e).value;
    match e
    case VisitRecord(id) => VisitKeepsInv(c, s0, st, id);
    case ApplyRecord(id) => CommitKeepsInv(c, s0, st, id);
    case Publish(op) =>
      assert !InLog(st.log, |st.records|);
    case _ =>
  }

  lemma {:induction false} RunKeepsInv<S(!new), O(!new), R(!new)>(c: Container<S, O, R>, s0: S, es: seq<Event<O>>)
    requires Legal(c) && Run(c, Start(s0), es).Some?
    ensures Inv(c, s0, Run(c, Start(s0), es).value)
    decreases |es|
  {
    if es != [] {
      var before := es[..|es| - 1];
      RunKeepsInv(c, s0, before);
      StepKeepsInv(c, s0, Run(c, Start(s0), before).value, es[|es| - 1]);
    }
  }

  /** A step only appends to the log and to the publication list. */
  lemma StepGrows<S(!new), O(!new), R(!new)>(c: Container<S, O, R>, st: State<S, O, R>, e: Event<O>)
    requires Step(c, st, e).Some?
    ensures var t := Step(c, st, e).value; st.log <= t.log && |st.records| <= |t.records|
  {}

  lemma {:induction false} RunGrows<S(!new), O(!new), R(!new)>(
      c: Container<S, O, R>, st: State<S, O, R>, es: seq<Event<O>>, n: nat)
    requires n <= |es| && Run(c, st, es).Some?
    ensures Run(c, st, es[..n]).Some?
    ensures Run(c, st, es[..n]).value.log <= Run(c, st, es).value.log
    decreases |es|
  {
    if n == |es| {
      assert es[..n] == es;
    } else {
      var before := es[..|es| - 1];
      assert before[..n] == es[..n];
      RunGrows(c, st, before, n);
      StepGrows(c, Run(c, st, before).value, es[|es| - 1]);
    }
  }

  /** Every occurrence of `a` in the log comes before every occurrence of `b`. */
  predicate Precedes<O, R>(log: seq<Entry<O, R>>, a: nat, b: nat) {
    forall j, k :: 0 <= j < |log| && 0 <= k < |log| && log[j].id == a && log[k].id == b ==> j < k
  }

  /** Flat combining with legal elimination is linearizable. In every run the log, in which
      each collided pair stands as two adjacent operations, is a history of the plain
      container: it reproduces every result handed out and ends in the actual contents; it
      lists each finished operation once; and an operation that had responded before another
      was published stands before it. */
  lemma Linearizable<S(!new), O(!new), R(!new)>(c: Container<S, O, R>, s0: S, es: seq<Event<O>>)
    requires Legal(c) && Run(c, Start(s0), es).Some?
    ensures Inv(c, s0, Run(c, Start(s0), es).value)
    ensures forall i, j :: 0 <= i < j < |es| && es[i].Respond? && es[j].Publish? ==>
      Run(c, Start(s0), es[..j]).Some? &&
      InLog(Run(c, Start(s0), es).value.log, es[i].id) &&
      Precedes(Run(c, Start(s0), es).value.log, es[i].id, |Run(c, Start(s0), es[..j]).value.records|)
  {
    RunKeepsInv(c, s0, es);
    forall i, j | 0 <= i < j < |es| && es[i].Respond? && es[j].Publish?
      ensures Run(c, Start(s0), es[..j]).Some?
      ensures InLog(Run(c, Start(s0), es).value.log, es[i].id)
      ensures Precedes(Run(c, Start(s0), es).value.log, es[i].id, |Run(c, Start(s0), es[..j]).value.records|)
    {
      RealTimeOrder(c, s0, es, i, j);
    }
  }

  lemma RespondedIsLogged<S(!new), O(!new), R(!new)>(c: Container<S, O, R>, s0: S, es: seq<Event<O>>, i: nat)
    requires Legal(c) && Run(c, Start(s0), es).Some? && i < |es| && es[i].Respond?
    ensures Run(c, Start(s0), es[..i]).Some? && InLog(Run(c, Start(s0), es[..i]).value.log, es[i].id)
  {
    RunGrows(c, Start(s0), es, i);
    RunGrows(c, Start(s0), es, i + 1);
    RunKeepsInv(c, s0, es[..i]);
    assert es[..i + 1][..i] == es[..i] && es[..i + 1][i] == es[i];
    assert Step(c, Run(c, Start(s0), es[..i]).value, es[i]).Some?;
  }

  lemma LoggedBefore<O(!new), R(!new)>(early: seq<Entry<O, R>>, at: seq<Entry<O, R>>, last: seq<Entry<O, R>>, a: nat,
      b: nat)
    requires early <= at <= last && InLog(early, a) && !InLog(at, b)
    requires forall j, k :: 0 <= j < k < |last| ==> last[j].id != last[k].id
    ensures InLog(last, a) && Precedes(last, a, b)
  {
    var k :| 0 <= k < |early| && early[k].id == a;
    assert last[k].id == a;
    assert forall z :: 0 <= z < |at| ==> last[z].id == at[z].id != b;
    forall x, y | 0 <= x < |last| && 0 <= y < |last| && last[x].id == a && last[y].id == b ensures x < y {
      assert x == k;
    }
  }

  lemma RealTimeOrder<S(!new), O(!new), R(!new)>(c: Container<S, O, R>, s0: S, es: seq<Event<O>>, i: nat, j: nat)
    requires Legal(c) && Run(c, Start(s0), es).Some?
    requires i < j < |es| && es[i].Respond? && es[j].Publish?
    ensures Run(c, Start(s0), es[..j]).Some?
    ensures InLog(Run(c, Start(s0), es).value.log, es[i].id)
    ensures Precedes(Run(c, Start(s0), es).value.log, es[i].id, |Run(c, Start(s0), es[..j]).value.records|)
  {
    RunGrows(c, Start(s0), es, j);
    RespondedIsLogged(c, s0, es, i);
    assert es[..j][..i] == es[..i];
    RunGrows(c, Start(s0), es[..j], i);
    RunKeepsInv(c, s0, es);
    RunKeepsInv(c, s0, es[..j]);
    hide Run;
    var early, at, last := Run(c, Start(s0), es[..i]).value, Run(c, Start(s0), es[..j]).value,
      Run(c, Start(s0), es).value;
    assert !InLog(at.log, |at.records|);
    LoggedBefore(early.log, at.log, last.log, es[i].id, |at.records|);
  }
}
