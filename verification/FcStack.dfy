/** The flat-combining stack: fc_apply, fc_process and collide, elimination in every state,
    and what a batch and a pass achieve. */
module FlatStack {
  import opened Arith
  import opened Options
  import opened FlatCombining
  import opened FlatBatch
  import opened FlatRecords

  datatype Op<+T> = Push(x: T) | PushMove(x: T) | Pop | Clear | Empty

  datatype Result<+T> = Pushed | Popped(value: T) | NothingToPop | Cleared | IsEmpty(empty: bool)

  /** Each operation on a plain stack; the top is the last element. */
  function Apply<T>(s: seq<T>, op: Op<T>): (seq<T>, Result<T>) {
    match op
    case Push(x) => (s + [x], Pushed)
    case PushMove(x) => (s + [x], Pushed)
    case Pop => if s == [] then (s, NothingToPop) else (s[..|s| - 1], Popped(s[|s| - 1]))
    case Clear => ([], Cleared)
    case Empty => (s, IsEmpty(|s| == 0))
  }

  predicate IsPush<T>(op: Op<T>) { op.Push? || op.PushMove? }

  predicate IsPop<T>(op: Op<T>) { op.Pop? }

  /** The last value pushed, moved or not, is the next one popped. */
  lemma LastOut<T>(s: seq<T>, p: Op<T>)
    requires IsPush(p)
    ensures Apply(Apply(s, p).0, Pop) == (s, Popped(p.x))
  {
    assert (s + [p.x])[..|s|] == s;
  }

  /** Exactly an empty stack gives nothing; `empty` says whether it would, and changes nothing;
      a cleared stack is empty. */
  lemma NothingInside<T(!new)>(s: seq<T>)
    ensures (Apply(s, Pop) == (s, NothingToPop)) <==> s == []
    ensures Apply(s, Empty) == (s, IsEmpty(Apply(s, Pop).1.NothingToPop?))
    ensures Apply(s, Clear) == ([], Cleared)
  {}

  /** A push and a pop collide in either order, whatever the stack holds. */
  function Collide<T>(s: seq<T>, p: Op<T>, q: Op<T>): Pairing<Result<T>> {
    if IsPush(p) && q == Pop then PrevFirst(Pushed, Popped(p.x))
    else if p == Pop && IsPush(q) then CurFirst(Pushed, Popped(q.x))
    else NoPair
  }

  predicate Joins<T>(s: seq<T>, o: Op<T>) { IsPush(o) || IsPop(o) }

  function Stack<T(==)>(): Container<seq<T>, Op<T>, Result<T>> {
    Container((s: seq<T>, o: Op<T>) => Apply(s, o), (s: seq<T>, o: Op<T>) => Joins(s, o),
      (s: seq<T>, p: Op<T>, q: Op<T>) => Collide(s, p, q))
  }

  /** Every collision is a push and a pop that undo each other where they stand. */
  lemma CollisionsUndo<T>(s: seq<T>, p: Op<T>, q: Op<T>)
    ensures match Collide(s, p, q)
      case NoPair => true
      case PrevFirst(a, b) => Apply(s, p).1 == a && Apply(Apply(s, p).0, q) == (s, b)
      case CurFirst(a, b) => Apply(s, q).1 == a && Apply(Apply(s, q).0, p) == (s, b)
  {
    if IsPush(p) { assert (s + [p.x])[..|s|] == s; }
    if IsPush(q) { assert (s + [q.x])[..|s|] == s; }
  }

  lemma StackIsLegal<T(!new)>()
    ensures Legal(Stack<T>())
  {
    forall s: seq<T>, p: Op<T>, q: Op<T> { CollisionsUndo(s, p, q); }
  }

  /** Stack runs are linearizable: see FlatCombining.Linearizable for the three parts. */
  lemma StackLinearizable<T(!new)>(s0: seq<T>, es: seq<Event<Op<T>>>)
    requires Run(Stack(), Start(s0), es).Some?
    ensures Inv(Stack(), s0, Run(Stack(), Start(s0), es).value)
    ensures forall i, j :: 0 <= i < j < |es| && es[i].Respond? && es[j].Publish? ==>
      Run(Stack(), Start(s0), es[..j]).Some? &&
      InLog(Run(Stack(), Start(s0), es).value.log, es[i].id) &&
      Precedes(Run(Stack(), Start(s0), es).value.log, es[i].id, |Run(Stack(), Start(s0), es[..j]).value.records|)
  {
    StackIsLegal<T>();
    Linearizable(Stack<T>(), s0, es);
  }

  function StackFlow<T(==)>(): Flow<seq<T>, Op<T>, Result<T>, T> {
    Flow((s: seq<T>) => multiset(s),
      (o: Op<T>) => if IsPush(o) then multiset{o.x} else multiset{},
      (r: Result<T>) => if r.Popped? then multiset{r.value} else multiset{},
      (s: seq<T>, o: Op<T>) => if o.Clear? then multiset(s) else multiset{})
  }

  lemma OperationConserves<T>(s: seq<T>, o: Op<T>)
    ensures var f := StackFlow<T>(); var r := Apply(s, o);
      f.stored(s) + f.added(o) == f.stored(r.0) + f.taken(r.1) + f.dropped(s, o)
  {
    var none: multiset<T> := multiset{};
    if IsPush(o) {
      WithElement(s, o.x);
      assert multiset(s) + multiset{o.x} + none + none == multiset(s) + multiset{o.x};
    } else if o == Clear {
      assert multiset(s) + none == none + none + multiset(s);
    } else if o == Pop && s != [] {
      WithElement(s[..|s| - 1], s[|s| - 1]);
      assert s == s[..|s| - 1] + [s[|s| - 1]];
    } else {
      assert multiset(s) + none == multiset(s) + none + none;
    }
  }

  lemma StackConserves<T(!new)>()
    ensures Conserves(Stack<T>(), StackFlow<T>())
  {
    forall s: seq<T>, o: Op<T> { OperationConserves(s, o); }
    hide Apply, StackFlow;
  }

  /** From any state of the stack, a batch run as elimination passes and then fc_apply gives the
      results and contents of some permutation of the batch on the plain container, and every
      value pushed is popped, cleared or still stored, once. */
  lemma StackBatch<T(!new)>(s0: seq<T>, ops: seq<Op<T>>, k: nat)
    ensures var t := Batch(Stack(), s0, ops, k); var f := StackFlow<T>();
      && IsPermutation(Ids(t.log), |ops|)
      && Replay(Stack(), s0, t.log) == Some(t.contents)
      && (forall m :: 0 <= m < |t.log| ==>
            var x := t.log[m];
            && x.id < |ops| && x.op == ops[x.id] && t.records[x.id].op == x.op
            && !t.records[x.id].status.Pending? && t.records[x.id].status.result == x.result)
      && multiset(s0) + Added(f, t.log) == multiset(t.contents) + Taken(f, t.log) + Dropped(Stack(), f, s0, t.log)
  {
    StackIsLegal<T>();
    StackConserves<T>();
    BatchIsPermutation(Stack(), s0, ops, k);
    Conservation(Stack(), StackFlow<T>(), s0, Batch(Stack(), s0, ops, k).log);
  }

  lemma StackEliminates<T(!new)>(s: seq<T>)
    ensures Eliminates(Stack<T>(), s, o => IsPush(o), o => IsPop(o))
  {}

  /** Every pass over a batch with a pending push and a pending pop removes at least one pair,
      and min(pushes, pops) passes remove exactly that many: in any state of the stack. */
  lemma StackProgress<T(!new)>(st: State<seq<T>, Op<T>, Result<T>>)
    ensures var push, pop := (o: Op<T>) => IsPush(o), (o: Op<T>) => IsPop(o);
      var one, m := Pass(Stack(), st), Min(Total(st, push), Total(st, pop));
      var all := Passes(Stack(), st, m);
      && (Total(st, push) > 0 && Total(st, pop) > 0 ==> Total(one, push) < Total(st, push))
      && Total(st, push) - Total(one, push) == Total(st, pop) - Total(one, pop)
      && Total(all, push) == Total(st, push) - m && Total(all, pop) == Total(st, pop) - m
      && (Total(all, push) == 0 || Total(all, pop) == 0)
  {
    StackEliminates(st.contents);
    PassEliminates(Stack(), st, (o: Op<T>) => IsPush(o), (o: Op<T>) => IsPop(o));
    PassesExhaust(Stack(), st, (o: Op<T>) => IsPush(o), (o: Op<T>) => IsPop(o));
  }

  /* ----- the code ----- */

  type Request<T(==)> = FcRecord<Op<T>, T>

  /** What the publishing thread reads off its record. */
  function Outcome<T>(op: Op<T>, empty: bool, dest: Option<T>): Result<T> {
    match op
    case Pop => if empty || dest.None? then NothingToPop else Popped(dest.value)
    case Clear => Cleared
    case Empty => IsEmpty(empty)
    case _ => Pushed
  }

  class FcStack<T(==)> {
    var stack: seq<T>

    constructor ()
      ensures stack == []
    {
      stack := [];
    }

    method FcApply(rec: Request<T>)
      requires !rec.done
      modifies this, rec
      ensures (stack, Outcome(rec.op, rec.empty, rec.dest)) == Apply(old(stack), rec.op)
      ensures !rec.done && (rec.empty && rec.op == Pop ==> rec.dest == old(rec.dest))
    {
      match rec.op {
        case Push(x) => stack := stack + [x];
        case PushMove(x) => stack := stack + [x];
        case Pop =>
          rec.empty := stack == [];
          if !rec.empty {
            rec.dest := Some(stack[|stack| - 1]);
            stack := stack[..|stack| - 1];
          }
        case Clear =>
          while stack != []
            invariant !rec.done && rec.op == Clear
            decreases |stack|
          {
            stack := stack[..|stack| - 1];
          }
        case Empty => rec.empty := stack == [];
      }
    }

    /** `collide`: two requests in either order. */
    method CollideRecords(rec1: Request<T>, rec2: Request<T>) returns (collided: bool)
      requires rec1 != rec2 && !rec1.done && !rec2.done
      modifies rec1, rec2
      ensures match Collide(stack, rec1.op, rec2.op)
        case NoPair =>
          && !collided && rec1.View(Outcome) == old(rec1.View(Outcome))
          && rec2.View(Outcome) == old(rec2.View(Outcome))
        case PrevFirst(a, b) =>
          && collided && rec1.View(Outcome) == Record(rec1.op, Done(a))
          && rec2.View(Outcome) == Record(rec2.op, Done(b))
        case CurFirst(a, b) =>
          && collided && rec2.View(Outcome) == Record(rec2.op, Done(a))
          && rec1.View(Outcome) == Record(rec1.op, Done(b))
      decreases rec1.op.Pop?
    {
      match rec1.op {
        case Push(x) =>
          if rec2.op == Pop {
            rec2.dest, rec2.empty := Some(x), false;
            rec1.done, rec2.done := true, true;
            return true;
          }
        case PushMove(x) =>
          if rec2.op == Pop {
            rec2.dest, rec2.empty := Some(x), false;
            rec1.done, rec2.done := true, true;
            return true;
          }
        case Pop =>
          if rec2.op.Push? || rec2.op.PushMove? {
            collided := CollideRecords(rec2, rec1);
            return;
          }
        case _ =>
      }
      return false;
    }

    /** The elimination pass: the code's loop computes Pass, and never touches the stack. */
    method FcProcess(list: seq<Request<T>>)
      requires Distinct(list)
      modifies list
      ensures Views(list, Outcome) == Pass(Stack(), State(stack, old(Views(list, Outcome)), Holding, [])).records
    {
      hide Visit, Visited, Pass, Collide, Apply, Outcome, Views, Stack;
      ghost var st0 := State(stack, Views(list, Outcome), Passing(None), []);
      PassIs(Stack(), State(stack, Views(list, Outcome), Holding, []));
      var it, prev: Option<nat> := 0, None;
      while it < |list|
        invariant it <= |list|
        invariant var st := Visited(Stack(), st0, it);
          st.contents == stack && st.records == Views(list, Outcome) && st.combiner == Passing(prev)
        invariant prev.Some? ==> prev.value < it && !list[prev.value].done
      {
        ghost var st := Visited(Stack(), st0, it);
        VisitedStep(Stack(), st0, it);
        prev := Round(list, it, prev, st);
        it := it + 1;
      }
    }

    /** The body of that loop. */
    method Round(list: seq<Request<T>>, it: nat, prev: Option<nat>, ghost st: State<seq<T>, Op<T>, Result<T>>)
      returns (next: Option<nat>)
      requires Distinct(list) && it < |list| && (prev.Some? ==> prev.value < it && !list[prev.value].done)
      requires st.contents == stack && st.records == Views(list, Outcome) && st.combiner == Passing(prev)
      modifies list
      ensures var t := Visit(Stack(), st, it);
        t.contents == stack && t.records == Views(list, Outcome) && t.combiner == Passing(next)
      ensures next.Some? ==> next.value <= it && !list[next.value].done
    {
      hide Visit, Collide;
      ghost var before := Views(list, Outcome);
      var cur := list[it];
      if cur.done || !Joins(stack, cur.op) {
        VisitSkips(Stack(), st, it);
        return prev;
      }
      if prev.None? {
        VisitFirst(Stack(), st, it);
        return Some(it);
      }
      var p := prev.value;
      VisitCollides(Stack(), st, p, it);
      var collided := CollideRecords(list[p], cur);
      Refresh(list, Outcome, before, p, it);
      next := if collided then None else Some(it);
    }

    /** combining_pass of the kernel over this stack. */
    method CombiningPass(list: seq<Request<T>>)
      requires Distinct(list)
      modifies this, list
      ensures var st := Applied(Stack(), State(old(stack), old(Views(list, Outcome)), Holding, []), |list|);
        stack == st.contents && Views(list, Outcome) == st.records
    {
      hide Applied, Commit, Outcome, Views, Apply, Stack;
      ghost var st0 := State(stack, Views(list, Outcome), Holding, []);
      NoneApplied(Stack(), st0);
      for it := 0 to |list|
        invariant var st := Applied(Stack(), st0, it); st.contents == stack && st.records == Views(list, Outcome)
      {
        ghost var st := Applied(Stack(), st0, it);
        AppliedStep(Stack(), st0, it);
        if !list[it].done { Serve(list, it, st); }
      }
    }

    /** batch_combining of the kernel over this stack: the elimination passes, then fc_apply
        on what is left. */
    method BatchCombining(list: seq<Request<T>>, passCount: nat)
      requires Distinct(list)
      modifies this, list
      ensures var st0 := State(old(stack), old(Views(list, Outcome)), Holding, []);
        var st := Applied(Stack(), Passes(Stack(), st0, passCount), |list|);
        stack == st.contents && Views(list, Outcome) == st.records
    {
      hide Pass, Passes, Applied, Outcome, Apply, Collide, Views, Stack;
      ghost var st0 := State(stack, Views(list, Outcome), Holding, []);
      NoPasses(Stack(), st0);
      for pass := 0 to passCount
        invariant SameButLog(State(stack, Views(list, Outcome), Holding, []), Passes(Stack(), st0, pass))
      {
        NextPass(Stack(), State(stack, Views(list, Outcome), Holding, []), st0, pass);
        FcProcess(list);
      }
      AppliedLog(Stack(), State(stack, Views(list, Outcome), Holding, []), Passes(Stack(), st0, passCount), |list|);
      CombiningPass(list);
    }

    method Serve(list: seq<Request<T>>, it: nat, ghost st: State<seq<T>, Op<T>, Result<T>>)
      requires Distinct(list) && it < |list| && !list[it].done
      requires st.contents == stack && st.records == Views(list, Outcome)
      modifies this, list
      ensures var t := Commit(Stack(), st, it); t.contents == stack && t.records == Views(list, Outcome)
    {
      hide Commit, Apply;
      ghost var before := Views(list, Outcome);
      FcApply(list[it]);
      list[it].done := true;
      CommitIs(Stack(), st, it);
      assert Views(list, Outcome) == before[it := list[it].View(Outcome)];
    }
  }
}
