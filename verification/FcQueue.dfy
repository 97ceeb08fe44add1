/** The flat-combining queue: fc_apply, fc_process and collide, elimination only while the
    queue is empty, and what a batch and a pass achieve. */
module FlatQueue {
  import opened Arith
  import opened Options
  import opened FlatCombining
  import opened FlatBatch
  import opened FlatNeighbours
  import opened FlatRecords

  datatype Op<+T> = Enq(x: T) | EnqMove(x: T) | Deq | Clear

  datatype Result<+T> = Pushed | Popped(value: T) | NothingToPop | Cleared

  /** Each operation on a plain queue; the front is the first element. */
  function Apply<T>(s: seq<T>, op: Op<T>): (seq<T>, Result<T>) {
    match op
    case Enq(x) => (s + [x], Pushed)
    case EnqMove(x) => (s + [x], Pushed)
    case Deq => if s == [] then (s, NothingToPop) else (s[1..], Popped(s[0]))
    case Clear => ([], Cleared)
  }

  predicate IsPush<T>(op: Op<T>) { op.Enq? || op.EnqMove? }

  predicate IsPop<T>(op: Op<T>) { op.Deq? }

  function Put<T>(o: Op<T>): seq<T> { if IsPush(o) then [o.x] else [] }

  function Got<T>(r: Result<T>): seq<T> { if r.Popped? then [r.value] else [] }

  function FrontOut<T(==)>(): Order<seq<T>, Op<T>, Result<T>, T> {
    Order((s: seq<T>) => s, (o: Op<T>) => Put(o), (r: Result<T>) => Got(r), (o: Op<T>) => IsPush(o) || IsPop(o))
  }

  lemma StepInOrder<T>(s: seq<T>, o: Op<T>)
    requires IsPush(o) || IsPop(o)
    ensures s + Put(o) == Got(Apply(s, o).1) + Apply(s, o).0
  {}

  /** In every history of enqueues, moving or not, and dequeues the values leave in the order in
      which they came. */
  lemma QueueOrder<T(!new)>(s: seq<T>, log: seq<Entry<Op<T>, Result<T>>>)
    requires Replay(Queue(), s, log).Some? && forall k :: 0 <= k < |log| ==> IsPush(log[k].op) || IsPop(log[k].op)
    ensures s + Puts(FrontOut(), log) == Gots(FrontOut(), log) + Replay(Queue(), s, log).value
  {
    forall t: seq<T>, o: Op<T> | IsPush(o) || IsPop(o) { StepInOrder(t, o); }
    hide Apply, Puts, Gots, Replay;
    assert InOrder(Queue<T>(), FrontOut<T>());
    FirstInFirstOut(Queue(), FrontOut(), s, log);
  }

  /** Exactly an empty queue gives nothing, and a cleared one is empty. */
  lemma NothingInside<T(!new)>(s: seq<T>)
    ensures (Apply(s, Deq) == (s, NothingToPop)) <==> s == []
    ensures Apply(s, Clear) == ([], Cleared)
  {}

  /** An enqueue and a dequeue collide in either order, but only on an empty queue. */
  function Collide<T>(s: seq<T>, p: Op<T>, q: Op<T>): Pairing<Result<T>> {
    if s != [] then NoPair
    else if IsPush(p) && q == Deq then PrevFirst(Pushed, Popped(p.x))
    else if p == Deq && IsPush(q) then CurFirst(Pushed, Popped(q.x))
    else NoPair
  }

  /** With the queue not empty the loop in fc_process passes every record by. */
  predicate Joins<T>(s: seq<T>, o: Op<T>) { |s| == 0 && (IsPush(o) || IsPop(o)) }

  function Queue<T(==)>(): Container<seq<T>, Op<T>, Result<T>> {
    Container((s: seq<T>, o: Op<T>) => Apply(s, o), (s: seq<T>, o: Op<T>) => Joins(s, o),
      (s: seq<T>, p: Op<T>, q: Op<T>) => Collide(s, p, q))
  }

  /** Every collision is a push and a pop that undo each other where they stand. */
  lemma CollisionsUndo<T>(s: seq<T>, p: Op<T>, q: Op<T>)
    ensures match Collide(s, p, q)
      case NoPair => true
      case PrevFirst(a, b) => Apply(s, p).1 == a && Apply(Apply(s, p).0, q) == (s, b)
      case CurFirst(a, b) => Apply(s, q).1 == a && Apply(Apply(s, q).0, p) == (s, b)
  {
    if IsPush(p) && s == [] { assert (s + [p.x])[1..] == s; }
    if IsPush(q) && s == [] { assert (s + [q.x])[1..] == s; }
  }

  lemma QueueIsLegal<T(!new)>()
    ensures Legal(Queue<T>())
  {
    forall s: seq<T>, p: Op<T>, q: Op<T> { CollisionsUndo(s, p, q); }
  }

  /** Queue runs are linearizable: see FlatCombining.Linearizable for the three parts. */
  lemma QueueLinearizable<T(!new)>(s0: seq<T>, es: seq<Event<Op<T>>>)
    requires Run(Queue(), Start(s0), es).Some?
    ensures Inv(Queue(), s0, Run(Queue(), Start(s0), es).value)
    ensures forall i, j :: 0 <= i < j < |es| && es[i].Respond? && es[j].Publish? ==>
      Run(Queue(), Start(s0), es[..j]).Some? &&
      InLog(Run(Queue(), Start(s0), es).value.log, es[i].id) &&
      Precedes(Run(Queue(), Start(s0), es).value.log, es[i].id, |Run(Queue(), Start(s0), es[..j]).value.records|)
  {
    QueueIsLegal<T>();
    Linearizable(Queue<T>(), s0, es);
  }

  function QueueFlow<T(==)>(): Flow<seq<T>, Op<T>, Result<T>, T> {
    Flow((s: seq<T>) => multiset(s),
      (o: Op<T>) => if IsPush(o) then multiset{o.x} else multiset{},
      (r: Result<T>) => if r.Popped? then multiset{r.value} else multiset{},
      (s: seq<T>, o: Op<T>) => if o.Clear? then multiset(s) else multiset{})
  }

  lemma OperationConserves<T>(s: seq<T>, o: Op<T>)
    ensures var f := QueueFlow<T>(); var r := Apply(s, o);
      f.stored(s) + f.added(o) == f.stored(r.0) + f.taken(r.1) + f.dropped(s, o)
  {
    var none: multiset<T> := multiset{};
    if IsPush(o) {
      WithElement(s, o.x);
      assert multiset(s) + multiset{o.x} + none + none == multiset(s) + multiset{o.x};
    } else if o == Clear {
      assert multiset(s) + none == none + none + multiset(s);
    } else if o == Deq && s != [] {
      WithElement(s[1..], s[0]);
      assert s == [s[0]] + s[1..];
    } else {
      assert multiset(s) + none == multiset(s) + none + none;
    }
  }

  lemma QueueConserves<T(!new)>()
    ensures Conserves(Queue<T>(), QueueFlow<T>())
  {
    forall s: seq<T>, o: Op<T> { OperationConserves(s, o); }
    hide Apply, QueueFlow;
  }

  /** A batch run as elimination passes, which collide only while the queue is empty, and then
      fc_apply gives the results and contents of some permutation of the batch on the plain
      container, and every value pushed is popped, cleared or still stored, once. */
  lemma QueueBatch<T(!new)>(s0: seq<T>, ops: seq<Op<T>>, k: nat)
    ensures var t := Batch(Queue(), s0, ops, k); var f := QueueFlow<T>();
      && IsPermutation(Ids(t.log), |ops|)
      && Replay(Queue(), s0, t.log) == Some(t.contents)
      && (forall m :: 0 <= m < |t.log| ==>
            var x := t.log[m];
            && x.id < |ops| && x.op == ops[x.id] && t.records[x.id].op == x.op
            && !t.records[x.id].status.Pending? && t.records[x.id].status.result == x.result)
      && multiset(s0) + Added(f, t.log) == multiset(t.contents) + Taken(f, t.log) + Dropped(Queue(), f, s0, t.log)
  {
    QueueIsLegal<T>();
    QueueConserves<T>();
    BatchIsPermutation(Queue(), s0, ops, k);
    Conservation(Queue(), QueueFlow<T>(), s0, Batch(Queue(), s0, ops, k).log);
  }

  /** The guard is needed: on a nonempty queue an enqueue followed by a dequeue hands out the
      old front, not the value just pushed, unless the two are equal throughout. */
  lemma CollisionNeedsEmpty<T(!new)>(s: seq<T>, p: Op<T>)
    requires IsPush(p)
    ensures Apply(Apply(s, p).0, Deq) == (s, Popped(p.x)) <==> forall k :: 0 <= k < |s| ==> s[k] == p.x
  {
    var x, t := p.x, Apply(s, p).0;
    if s != [] {
      if t[1..] == s && t[0] == x { AllSame(s, x); }
      if forall k :: 0 <= k < |s| ==> s[k] == x { assert t[1..] == s; }
    } else {
      assert t[1..] == s;
    }
  }

  lemma {:induction false} AllSame<T>(s: seq<T>, x: T)
    requires s != [] && s[0] == x && (s + [x])[1..] == s
    ensures forall k :: 0 <= k < |s| ==> s[k] == x
  {
    var t := (s + [x])[1..];
    assert forall k :: 0 <= k < |s| - 1 ==> t[k] == s[k + 1];
    var k := 1;
    while k < |s|
      invariant 1 <= k <= |s| && forall j :: 0 <= j < k ==> s[j] == x
    {
      assert t[k - 1] == s[k];
      k := k + 1;
    }
  }

  lemma QueueEliminates<T(!new)>()
    ensures Eliminates(Queue<T>(), [], o => IsPush(o), o => IsPop(o))
  {}

  /** On an empty queue every pass over a batch with a pending enqueue and a pending dequeue
      removes at least one pair, and min(enqueues, dequeues) passes remove exactly that many. */
  lemma QueueProgress<T(!new)>(st: State<seq<T>, Op<T>, Result<T>>)
    requires st.contents == []
    ensures var push, pop := (o: Op<T>) => IsPush(o), (o: Op<T>) => IsPop(o);
      var one, m := Pass(Queue(), st), Min(Total(st, push), Total(st, pop));
      var all := Passes(Queue(), st, m);
      && (Total(st, push) > 0 && Total(st, pop) > 0 ==> Total(one, push) < Total(st, push))
      && Total(st, push) - Total(one, push) == Total(st, pop) - Total(one, pop)
      && Total(all, push) == Total(st, push) - m && Total(all, pop) == Total(st, pop) - m
      && (Total(all, push) == 0 || Total(all, pop) == 0)
  {
    QueueEliminates<T>();
    PassEliminates(Queue(), st, (o: Op<T>) => IsPush(o), (o: Op<T>) => IsPop(o));
    PassesExhaust(Queue(), st, (o: Op<T>) => IsPush(o), (o: Op<T>) => IsPop(o));
  }

  /** While the queue holds anything, passes leave every request as it was. */
  lemma QueueIdle<T>(st: State<seq<T>, Op<T>, Result<T>>, k: nat)
    requires st.contents != []
    ensures Passes(Queue(), st, k).records == st.records && Passes(Queue(), st, k).contents == st.contents
    ensures Pass(Queue(), st).records == st.records
  {
    PassesIdle(Queue(), st, k);
    PassActs(Queue(), st);
  }

  /* ----- the code ----- */

  type Request<T(==)> = FcRecord<Op<T>, T>

  /** What the publishing thread reads off its record. */
  function Outcome<T>(op: Op<T>, empty: bool, dest: Option<T>): Result<T> {
    match op
    case Deq => if empty || dest.None? then NothingToPop else Popped(dest.value)
    case Clear => Cleared
    case _ => Pushed
  }

  class FcQueue<T(==)> {
    var queue: seq<T>

    constructor ()
      ensures queue == []
    {
      queue := [];
    }

    method FcApply(rec: Request<T>)
      requires !rec.done
      modifies this, rec
      ensures (queue, Outcome(rec.op, rec.empty, rec.dest)) == Apply(old(queue), rec.op)
      ensures !rec.done && (rec.empty && rec.op == Deq ==> rec.dest == old(rec.dest))
    {
      match rec.op {
        case Enq(x) => queue := queue + [x];
        case EnqMove(x) => queue := queue + [x];
        case Deq =>
          rec.empty := queue == [];
          if !rec.empty {
            rec.dest := Some(queue[0]);
            queue := queue[1..];
          }
        case Clear =>
          while queue != []
            invariant !rec.done && rec.op == Clear
            decreases |queue|
          {
            queue := queue[1..];
          }
      }
    }

    /** `collide`: two requests in either order. */
    method CollideRecords(rec1: Request<T>, rec2: Request<T>) returns (collided: bool)
      requires rec1 != rec2 && !rec1.done && !rec2.done && queue == []
      modifies rec1, rec2
      ensures match Collide(queue, rec1.op, rec2.op)
        case NoPair =>
          && !collided && rec1.View(Outcome) == old(rec1.View(Outcome))
          && rec2.View(Outcome) == old(rec2.View(Outcome))
        case PrevFirst(a, b) =>
          && collided && rec1.View(Outcome) == Record(rec1.op, Done(a))
          && rec2.View(Outcome) == Record(rec2.op, Done(b))
        case CurFirst(a, b) =>
          && collided && rec2.View(Outcome) == Record(rec2.op, Done(a))
          && rec1.View(Outcome) == Record(rec1.op, Done(b))
      decreases rec1.op.Deq?
    {
      match rec1.op {
        case Enq(x) =>
          if rec2.op == Deq {
            rec2.dest, rec2.empty := Some(x), false;
            rec1.done, rec2.done := true, true;
            return true;
          }
        case EnqMove(x) =>
          if rec2.op == Deq {
            rec2.dest, rec2.empty := Some(x), false;
            rec1.done, rec2.done := true, true;
            return true;
          }
        case Deq =>
          if rec2.op.Enq? || rec2.op.EnqMove? {
            collided := CollideRecords(rec2, rec1);
            return;
          }
        case _ =>
      }
      return false;
    }

    /** The elimination pass: the code's loop computes Pass, and never touches the queue. */
    method FcProcess(list: seq<Request<T>>)
      requires Distinct(list)
      modifies list
      ensures Views(list, Outcome) == Pass(Queue(), State(queue, old(Views(list, Outcome)), Holding, [])).records
      ensures queue != [] ==> Views(list, Outcome) == old(Views(list, Outcome))
    {
      hide Visit, Visited, Pass, Collide, Apply, Outcome, Views, Queue;
      ghost var st0 := State(queue, Views(list, Outcome), Passing(None), []);
      PassIs(Queue(), State(queue, Views(list, Outcome), Holding, []));
      if queue != [] { QueueIdle(State(queue, Views(list, Outcome), Holding, []), 1); }
      var it, prev: Option<nat> := 0, None;
      while it < |list|
        invariant it <= |list|
        invariant var st := Visited(Queue(), st0, it);
          st.contents == queue && st.records == Views(list, Outcome) && st.combiner == Passing(prev)
        invariant prev.Some? ==> prev.value < it && !list[prev.value].done
      {
        ghost var st := Visited(Queue(), st0, it);
        VisitedStep(Queue(), st0, it);
        prev := Round(list, it, prev, st);
        it := it + 1;
      }
    }

    /** The body of that loop. */
    method Round(list: seq<Request<T>>, it: nat, prev: Option<nat>, ghost st: State<seq<T>, Op<T>, Result<T>>)
      returns (next: Option<nat>)
      requires Distinct(list) && it < |list| && (prev.Some? ==> prev.value < it && !list[prev.value].done)
      requires st.contents == queue && st.records == Views(list, Outcome) && st.combiner == Passing(prev)
      modifies list
      ensures var t := Visit(Queue(), st, it);
        t.contents == queue && t.records == Views(list, Outcome) && t.combiner == Passing(next)
      ensures next.Some? ==> next.value <= it && !list[next.value].done
    {
      hide Visit, Collide;
      ghost var before := Views(list, Outcome);
      var cur := list[it];
      if cur.done || !Joins(queue, cur.op) {
        VisitSkips(Queue(), st, it);
        return prev;
      }
      if prev.None? {
        VisitFirst(Queue(), st, it);
        return Some(it);
      }
      var p := prev.value;
      VisitCollides(Queue(), st, p, it);
      var collided := CollideRecords(list[p], cur);
      Refresh(list, Outcome, before, p, it);
      next := if collided then None else Some(it);
    }

    /** combining_pass of the kernel over this queue. */
    method CombiningPass(list: seq<Request<T>>)
      requires Distinct(list)
      modifies this, list
      ensures var st := Applied(Queue(), State(old(queue), old(Views(list, Outcome)), Holding, []), |list|);
        queue == st.contents && Views(list, Outcome) == st.records
    {
      hide Applied, Commit, Outcome, Views, Apply, Queue;
      ghost var st0 := State(queue, Views(list, Outcome), Holding, []);
      NoneApplied(Queue(), st0);
      for it := 0 to |list|
        invariant var st := Applied(Queue(), st0, it); st.contents == queue && st.records == Views(list, Outcome)
      {
        ghost var st := Applied(Queue(), st0, it);
        AppliedStep(Queue(), st0, it);
        if !list[it].done { Serve(list, it, st); }
      }
    }

    /** batch_combining of the kernel over this queue: the elimination passes, then fc_apply
        on what is left. */
    method BatchCombining(list: seq<Request<T>>, passCount: nat)
      requires Distinct(list)
      modifies this, list
      ensures var st0 := State(old(queue), old(Views(list, Outcome)), Holding, []);
        var st := Applied(Queue(), Passes(Queue(), st0, passCount), |list|);
        queue == st.contents && Views(list, Outcome) == st.records
    {
      hide Pass, Passes, Applied, Outcome, Apply, Collide, Views, Queue;
      ghost var st0 := State(queue, Views(list, Outcome), Holding, []);
      NoPasses(Queue(), st0);
      for pass := 0 to passCount
        invariant SameButLog(State(queue, Views(list, Outcome), Holding, []), Passes(Queue(), st0, pass))
      {
        NextPass(Queue(), State(queue, Views(list, Outcome), Holding, []), st0, pass);
        FcProcess(list);
      }
      AppliedLog(Queue(), State(queue, Views(list, Outcome), Holding, []), Passes(Queue(), st0, passCount), |list|);
      CombiningPass(list);
    }

    method Serve(list: seq<Request<T>>, it: nat, ghost st: State<seq<T>, Op<T>, Result<T>>)
      requires Distinct(list) && it < |list| && !list[it].done
      requires st.contents == queue && st.records == Views(list, Outcome)
      modifies this, list
      ensures var t := Commit(Queue(), st, it); t.contents == queue && t.records == Views(list, Outcome)
    {
      hide Commit, Apply;
      ghost var before := Views(list, Outcome);
      FcApply(list[it]);
      list[it].done := true;
      CommitIs(Queue(), st, it);
      assert Views(list, Outcome) == before[it := list[it].View(Outcome)];
    }
  }
}
