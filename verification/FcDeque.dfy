/** The flat-combining deque: fc_apply, fc_process, collide and collide_move, and the
    linearizability of the wrapper. */
module FlatDeque {
  import opened Options
  import opened FlatCombining
  import opened FlatBatch
  import opened FlatNeighbours
  import opened FlatRecords

  /** enum fc_operation, with the value that a push carries */
  datatype Op<+T> =
    | PushFront(x: T) | PushFrontMove(x: T) | PushBack(x: T) | PushBackMove(x: T)
    | PopFront | PopBack | Clear

  datatype Result<+T> = Pushed | Popped(value: T) | NothingToPop | Cleared

  /** Each operation on a plain deque. */
  function Apply<T>(s: seq<T>, op: Op<T>): (seq<T>, Result<T>) {
    match op
    case PushFront(x) => ([x] + s, Pushed)
    case PushFrontMove(x) => ([x] + s, Pushed)
    case PushBack(x) => (s + [x], Pushed)
    case PushBackMove(x) => (s + [x], Pushed)
    case PopFront => if s == [] then (s, NothingToPop) else (s[1..], Popped(s[0]))
    case PopBack => if s == [] then (s, NothingToPop) else (s[..|s| - 1], Popped(s[|s| - 1]))
    case Clear => ([], Cleared)
  }

  predicate AtFront<T>(op: Op<T>) { op.PushFront? || op.PushFrontMove? }

  predicate AtBack<T>(op: Op<T>) { op.PushBack? || op.PushBackMove? }

  /* ----- what makes it a deque ----- */

  /** The two ends do not meet: pushing at one end and popping at the other commute on a deque
      that holds anything. */
  lemma EndsCommute<T>(s: seq<T>, p: Op<T>)
    requires s != []
    ensures AtBack(p) ==>
      Apply(Apply(s, p).0, PopFront) == (Apply(Apply(s, PopFront).0, p).0, Apply(s, PopFront).1)
    ensures AtFront(p) ==>
      Apply(Apply(s, p).0, PopBack) == (Apply(Apply(s, PopBack).0, p).0, Apply(s, PopBack).1)
  {
    if AtBack(p) { assert (s + [p.x])[1..] == s[1..] + [p.x]; }
    if AtFront(p) { assert ([p.x] + s)[..|s|] == [p.x] + s[..|s| - 1]; }
  }

  /** At one end the last value pushed is the next one popped. */
  lemma SameEndUndoes<T>(s: seq<T>, p: Op<T>)
    ensures AtFront(p) ==> Apply(Apply(s, p).0, PopFront) == (s, Popped(p.x))
    ensures AtBack(p) ==> Apply(Apply(s, p).0, PopBack) == (s, Popped(p.x))
  {
    if AtFront(p) { assert ([p.x] + s)[1..] == s; }
    if AtBack(p) { assert (s + [p.x])[..|s|] == s; }
  }

  /** Exactly an empty deque gives nothing at either end, and a cleared one is empty. */
  lemma NothingInside<T(!new)>(s: seq<T>)
    ensures (Apply(s, PopFront) == (s, NothingToPop)) <==> s == []
    ensures (Apply(s, PopBack) == (s, NothingToPop)) <==> s == []
    ensures Apply(s, Clear) == ([], Cleared)
  {}

  function Reversed<T>(s: seq<T>): seq<T> {
    if s == [] then [] else [s[|s| - 1]] + Reversed(s[..|s| - 1])
  }

  lemma {:induction false} ReversedCons<T>(x: T, s: seq<T>)
    ensures Reversed([x] + s) == Reversed(s) + [x]
  {
    if s == [] {
      assert [x] + s == [x] && [x][..0] == [];
    } else {
      var t := [x] + s;
      assert t[..|t| - 1] == [x] + s[..|s| - 1] && t[|t| - 1] == s[|s| - 1];
      assert Reversed(t) == [t[|t| - 1]] + Reversed(t[..|t| - 1]);
      ReversedCons(x, s[..|s| - 1]);
      assert Reversed(s) == [s[|s| - 1]] + Reversed(s[..|s| - 1]);
      hide Reversed;
    }
  }

  function Put<T>(o: Op<T>): seq<T> { if AtFront(o) || AtBack(o) then [o.x] else [] }

  function Got<T>(r: Result<T>): seq<T> { if r.Popped? then [r.value] else [] }

  function BackToFront<T(==)>(): Order<seq<T>, Op<T>, Result<T>, T> {
    Order((s: seq<T>) => s, (o: Op<T>) => Put(o), (r: Result<T>) => Got(r),
      (o: Op<T>) => AtBack(o) || o.PopFront?)
  }

  function FrontToBack<T(==)>(): Order<seq<T>, Op<T>, Result<T>, T> {
    Order((s: seq<T>) => Reversed(s), (o: Op<T>) => Put(o), (r: Result<T>) => Got(r),
      (o: Op<T>) => AtFront(o) || o.PopBack?)
  }

  lemma StepInOrder<T>(s: seq<T>, o: Op<T>)
    ensures AtBack(o) || o.PopFront? ==> s + Put(o) == Got(Apply(s, o).1) + Apply(s, o).0
    ensures AtFront(o) || o.PopBack? ==> Reversed(s) + Put(o) == Got(Apply(s, o).1) + Reversed(Apply(s, o).0)
  {
    if AtFront(o) { ReversedCons(o.x, s); }
    hide Reversed;
    if o.PopBack? && s != [] { LastReversed(s); }
    if o.PopBack? && s == [] { assert Reversed(s) + [] == [] + Reversed(s); }
  }

  lemma LastReversed<T>(s: seq<T>)
    requires s != []
    ensures Reversed(s) + [] == [s[|s| - 1]] + Reversed(s[..|s| - 1])
  {}

  /** In every history of back pushes and front pops the values leave in the order in which they
      came; and so in every history of front pushes and back pops. */
  lemma DequeOrder<T(!new)>(s: seq<T>, log: seq<Entry<Op<T>, Result<T>>>)
    requires Replay(Deque(), s, log).Some?
    ensures (forall k :: 0 <= k < |log| ==> AtBack(log[k].op) || log[k].op == PopFront) ==>
      s + Puts(BackToFront(), log) == Gots(BackToFront(), log) + Replay(Deque(), s, log).value
    ensures (forall k :: 0 <= k < |log| ==> AtFront(log[k].op) || log[k].op == PopBack) ==>
      Reversed(s) + Puts(FrontToBack(), log) ==
        Gots(FrontToBack(), log) + Reversed(Replay(Deque(), s, log).value)
  {
    forall t: seq<T>, o: Op<T> { StepInOrder(t, o); }
    hide Apply, Reversed, Puts, Gots, Replay;
    assert InOrder(Deque<T>(), BackToFront<T>()) && InOrder(Deque<T>(), FrontToBack<T>());
    if forall k :: 0 <= k < |log| ==> AtBack(log[k].op) || log[k].op == PopFront {
      FirstInFirstOut(Deque(), BackToFront(), s, log);
    }
    if forall k :: 0 <= k < |log| ==> AtFront(log[k].op) || log[k].op == PopBack {
      FirstInFirstOut(Deque(), FrontToBack(), s, log);
    }
  }

  /** Two values pushed at the back and one popped at the front: the first comes out. */
  lemma FirstOut<T>(x: T, y: T)
    ensures Apply(Apply(Apply([], PushBack(x)).0, PushBack(y)).0, PopFront) == ([y], Popped(x))
    ensures Apply(Apply(Apply([], PushFront(x)).0, PushFront(y)).0, PopBack) == ([y], Popped(x))
  {
    assert [] + [x] == [x] && [x] + [] == [x];
    assert ([x] + [y])[1..] == [y] && ([y] + [x])[..1] == [y];
  }

  /* ----- elimination ----- */

  /** What the switch in fc_process does with the remembered operation `p` and the current
      one `q`. A push looks back for either pop on an empty deque; a pop does not. */
  function Collide<T>(s: seq<T>, p: Op<T>, q: Op<T>): Pairing<Result<T>> {
    if AtFront(q) then
      if p == PopFront || (s == [] && p == PopBack) then CurFirst(Pushed, Popped(q.x)) else NoPair
    else if AtBack(q) then
      if p == PopBack || (s == [] && p == PopFront) then CurFirst(Pushed, Popped(q.x)) else NoPair
    else if q == PopFront then
      if (if s == [] then AtBack(p) else AtFront(p)) then PrevFirst(Pushed, Popped(p.x)) else NoPair
    else if q == PopBack then
      if (if s == [] then AtFront(p) else AtBack(p)) then PrevFirst(Pushed, Popped(p.x)) else NoPair
    else NoPair
  }

  function Deque<T(==)>(): Container<seq<T>, Op<T>, Result<T>> {
    Container((s: seq<T>, o: Op<T>) => Apply(s, o), (s: seq<T>, o: Op<T>) => !o.Clear?,
      (s: seq<T>, p: Op<T>, q: Op<T>) => Collide(s, p, q))
  }

  /** Every collision of the deque is a push and a pop that undo each other where they stand. */
  lemma CollisionsUndo<T>(s: seq<T>, p: Op<T>, q: Op<T>)
    ensures match Collide(s, p, q)
      case NoPair => true
      case PrevFirst(a, b) => Apply(s, p).1 == a && Apply(Apply(s, p).0, q) == (s, b)
      case CurFirst(a, b) => Apply(s, q).1 == a && Apply(Apply(s, q).0, p) == (s, b)
  {
    var x := if Collide(s, p, q).PrevFirst? then p else q;
    if AtFront(x) || AtBack(x) {
      assert ([x.x] + s)[1..] == s && (s + [x.x])[..|s|] == s;
      if s == [] { assert ([x.x] + s)[..0] == s && (s + [x.x])[1..] == s; }
    }
  }

  lemma DequeIsLegal<T(!new)>()
    ensures Legal(Deque<T>())
  {
    forall s: seq<T>, p: Op<T>, q: Op<T> { CollisionsUndo(s, p, q); }
  }

  /** In every run of publish, combine and respond steps, with elimination on, the deque is
      linearizable: see FlatCombining.Linearizable for the three parts. */
  lemma DequeLinearizable<T(!new)>(s0: seq<T>, es: seq<Event<Op<T>>>)
    requires Run(Deque(), Start(s0), es).Some?
    ensures Inv(Deque(), s0, Run(Deque(), Start(s0), es).value)
    ensures forall i, j :: 0 <= i < j < |es| && es[i].Respond? && es[j].Publish? ==>
      Run(Deque(), Start(s0), es[..j]).Some? &&
      InLog(Run(Deque(), Start(s0), es).value.log, es[i].id) &&
      Precedes(Run(Deque(), Start(s0), es).value.log, es[i].id, |Run(Deque(), Start(s0), es[..j]).value.records|)
  {
    DequeIsLegal<T>();
    Linearizable(Deque<T>(), s0, es);
  }

  function DequeFlow<T(==)>(): Flow<seq<T>, Op<T>, Result<T>, T> {
    Flow((s: seq<T>) => multiset(s),
      (o: Op<T>) => if AtFront(o) || AtBack(o) then multiset{o.x} else multiset{},
      (r: Result<T>) => if r.Popped? then multiset{r.value} else multiset{},
      (s: seq<T>, o: Op<T>) => if o.Clear? then multiset(s) else multiset{})
  }

  lemma OperationConserves<T>(s: seq<T>, o: Op<T>)
    ensures var f := DequeFlow<T>(); var r := Apply(s, o);
      f.stored(s) + f.added(o) == f.stored(r.0) + f.taken(r.1) + f.dropped(s, o)
  {
    var none: multiset<T> := multiset{};
    if AtFront(o) || AtBack(o) {
      WithElement(s, o.x);
      assert multiset(s) + multiset{o.x} + none + none == multiset(s) + multiset{o.x};
    } else if o == Clear {
      assert multiset(s) + none == none + none + multiset(s);
    } else if s == [] {
      assert multiset(s) + none == multiset(s) + none + none;
    } else {
      PopConserves(s, o);
    }
  }

  lemma PopConserves<T>(s: seq<T>, o: Op<T>)
    requires s != [] && (o == PopFront || o == PopBack)
    ensures var r := Apply(s, o); multiset(s) == multiset(r.0) + multiset{r.1.value}
  {
    if o == PopFront {
      WithElement(s[1..], s[0]);
      assert s == [s[0]] + s[1..];
    } else {
      WithElement(s[..|s| - 1], s[|s| - 1]);
      assert s == s[..|s| - 1] + [s[|s| - 1]];
    }
  }

  lemma DequeConserves<T(!new)>()
    ensures Conserves(Deque<T>(), DequeFlow<T>())
  {
    forall s: seq<T>, o: Op<T> { OperationConserves(s, o); }
    hide Apply, DequeFlow;
  }

  /** A batch run as elimination passes and then fc_apply gives the results and contents of
      some permutation of the batch on a plain deque, and every value pushed is popped,
      cleared or still stored, once. */
  lemma DequeBatch<T(!new)>(s0: seq<T>, ops: seq<Op<T>>, k: nat)
    ensures var t := Batch(Deque(), s0, ops, k); var f := DequeFlow<T>();
      && IsPermutation(Ids(t.log), |ops|)
      && Replay(Deque(), s0, t.log) == Some(t.contents)
      && (forall m :: 0 <= m < |t.log| ==>
            var x := t.log[m];
            && x.id < |ops| && x.op == ops[x.id] && t.records[x.id].op == x.op
            && !t.records[x.id].status.Pending? && t.records[x.id].status.result == x.result)
      && multiset(s0) + Added(f, t.log) == multiset(t.contents) + Taken(f, t.log) + Dropped(Deque(), f, s0, t.log)
  {
    DequeIsLegal<T>();
    DequeConserves<T>();
    BatchIsPermutation(Deque(), s0, ops, k);
    Conservation(Deque(), DequeFlow<T>(), s0, Batch(Deque(), s0, ops, k).log);
  }

  /** Two pending requests, neither a clear, with only finished requests and clears between. */
  predicate Adjacent<T(==)>(rs: seq<Record<Op<T>, Result<T>>>, i: nat, j: nat) {
    && i < j < |rs| && rs[i].status.Pending? && !rs[i].op.Clear? && rs[j].status.Pending? && !rs[j].op.Clear?
    && forall k :: i < k < j ==> rs[k].status.Pending? ==> rs[k].op.Clear?
  }

  lemma AdjacentNeighbours<T>(s: seq<T>, rs: seq<Record<Op<T>, Result<T>>>, i: nat, j: nat)
    ensures Neighbours(Deque(), s, rs, i, j) <==> Adjacent(rs, i, j) && Collide(s, rs[i].op, rs[j].op) != NoPair
  {
    hide Collide;
    if Adjacent(rs, i, j) {
      assert NoneLive(Deque(), s, rs, i + 1, j);
    }
    if Neighbours(Deque(), s, rs, i, j) {
      forall k | i < k < j && rs[k].status.Pending? ensures rs[k].op.Clear? {
        assert !Live(Deque(), s, rs, k);
      }
    }
  }

  /** A pass eliminates something exactly when two adjacent requests collide by the switch. */
  lemma DequePassActs<T>(st: State<seq<T>, Op<T>, Result<T>>)
    ensures Pass(Deque(), st).records != st.records <==> exists i: nat, j: nat ::
      Adjacent(st.records, i, j) && Collide(st.contents, st.records[i].op, st.records[j].op) != NoPair
  {
    hide Adjacent, Neighbours, Collide, Pass;
    PassActs(Deque(), st);
    forall i: nat, j: nat { AdjacentNeighbours(st.contents, st.records, i, j); }
  }

  /** If none do, no number of passes does anything. */
  lemma DequePassesIdle<T>(st: State<seq<T>, Op<T>, Result<T>>, k: nat)
    requires forall i: nat, j: nat ::
      Adjacent(st.records, i, j) ==> Collide(st.contents, st.records[i].op, st.records[j].op) == NoPair
    ensures Passes(Deque(), st, k).records == st.records && Passes(Deque(), st, k).contents == st.contents
    ensures st.combiner.Holding? ==> Passes(Deque(), st, k) == st
  {
    hide Adjacent, Neighbours, Collide, Passes;
    forall i: nat, j: nat { AdjacentNeighbours(st.contents, st.records, i, j); }
    PassesIdle(Deque(), st, k);
  }

  /** Half as many passes as there are waiting requests leave no two adjacent ones that
      collide. */
  lemma DequeSettles<T>(st: State<seq<T>, Op<T>, Result<T>>, k: nat)
    requires 2 * k >= Waiting(st)
    ensures var t := Passes(Deque(), st, k); forall i: nat, j: nat ::
      Adjacent(t.records, i, j) ==> Collide(t.contents, t.records[i].op, t.records[j].op) == NoPair
  {
    hide Adjacent, Neighbours, Collide, Passes, Waiting;
    var t := Passes(Deque(), st, k);
    PassesSettle(Deque(), st, k);
    forall i: nat, j: nat { AdjacentNeighbours(t.contents, t.records, i, j); }
  }

  predicate SameEnd<T(==)>(push: Op<T>, pop: Op<T>) {
    (AtFront(push) && pop == PopFront) || (AtBack(push) && pop == PopBack)
  }

  /** On a deque that holds anything, a push and a pop collide just when they are at one end, in
      either order; and nothing collides with a clear or with its like, on any deque. */
  lemma DequeCollides<T(!new)>(s: seq<T>, p: Op<T>, q: Op<T>)
    ensures s != [] ==> (Collide(s, p, q) != NoPair <==> SameEnd(p, q) || SameEnd(q, p))
    ensures Collide(s, p, q) != NoPair ==>
      ((AtFront(p) || AtBack(p)) && q in {PopFront, PopBack}) || (p in {PopFront, PopBack} && (AtFront(q) || AtBack(q)))
  {}

  /** Which pairs that undo each other are missed on an empty deque: a push standing before a
      pop of its own end. Any push before any pop would do, and after the pop it does. */
  lemma DequeMisses<T(!new)>(p: Op<T>, q: Op<T>)
    requires (AtFront(p) || AtBack(p)) && (q == PopFront || q == PopBack)
    ensures Apply(Apply([], p).0, q) == ([], Popped(p.x))
    ensures Collide([], p, q) == NoPair <==> (AtFront(p) <==> q == PopFront)
    ensures Collide([], q, p) == CurFirst(Pushed, Popped(p.x))
  {
    assert [p.x] + [] == [p.x] && [] + [p.x] == [p.x];
  }

  /** So a front push followed in the list by a front pop survives any number of passes. */
  lemma DequeMissesAPair<T(!new)>(x: T, k: nat)
    ensures var st: State<seq<T>, Op<T>, Result<T>> := Published([], [PushFront(x), PopFront]);
      Passes(Deque(), st, k) == st
    ensures Collide([], PopFront, PushFront(x)) == CurFirst(Pushed, Popped(x))
    ensures Apply(Apply([], PushFront(x)).0, PopFront) == ([], Popped(x))
  {
    var st: State<seq<T>, Op<T>, Result<T>> := Published([], [PushFront(x), PopFront]);
    DequeMisses(PushFront(x), PopFront);
    DequePassesIdle(st, k);
  }

  /* ----- the code ----- */

  type Request<T(==)> = FcRecord<Op<T>, T>

  /** What the publishing thread reads off its record. */
  function Outcome<T>(op: Op<T>, empty: bool, dest: Option<T>): Result<T> {
    match op
    case PopFront => if empty || dest.None? then NothingToPop else Popped(dest.value)
    case PopBack => if empty || dest.None? then NothingToPop else Popped(dest.value)
    case Clear => Cleared
    case _ => Pushed
  }

  class FcDeque<T(==)> {
    var deque: seq<T>

    constructor ()
      ensures deque == []
    {
      deque := [];
    }

    method FcApply(rec: Request<T>)
      requires !rec.done
      modifies this, rec
      ensures (deque, Outcome(rec.op, rec.empty, rec.dest)) == Apply(old(deque), rec.op)
      ensures !rec.done && (rec.empty && rec.op in {PopFront, PopBack} ==> rec.dest == old(rec.dest))
    {
      match rec.op {
        case PushFront(x) => deque := [x] + deque;
        case PushFrontMove(x) => deque := [x] + deque;
        case PushBack(x) => deque := deque + [x];
        case PushBackMove(x) => deque := deque + [x];
        case PopFront =>
          rec.empty := deque == [];
          if !rec.empty {
            rec.dest := Some(deque[0]);
            deque := deque[1..];
          }
        case PopBack =>
          rec.empty := deque == [];
          if !rec.empty {
            rec.dest := Some(deque[|deque| - 1]);
            deque := deque[..|deque| - 1];
          }
        case Clear =>
          while deque != []
            invariant !rec.done && rec.op == Clear
            decreases |deque|
          {
            deque := deque[1..];
          }
      }
    }

    method CollideRecords(push: Request<T>, pop: Request<T>)
      requires push != pop && (AtFront(push.op) || AtBack(push.op)) && pop.op in {PopFront, PopBack}
      modifies push, pop
      ensures push.View(Outcome) == Record(push.op, Done(Pushed))
        && pop.View(Outcome) == Record(pop.op, Done(Popped(push.op.x)))
    {
      pop.dest := Some(push.op.x);
      pop.empty := false;
      push.done := true;
      pop.done := true;
    }

    /** The elimination pass: the code's loop computes Pass, and never touches the deque. */
    method FcProcess(list: seq<Request<T>>)
      requires Distinct(list)
      modifies list
      ensures Views(list, Outcome) == Pass(Deque(), State(deque, old(Views(list, Outcome)), Holding, [])).records
    {
      hide Visit, Visited, Pass, Collide, Apply, Outcome, Views, Deque;
      ghost var st0 := State(deque, Views(list, Outcome), Passing(None), []);
      PassIs(Deque(), State(deque, Views(list, Outcome), Holding, []));
      var it, prev: Option<nat> := 0, None;
      while it < |list|
        invariant it <= |list|
        invariant var st := Visited(Deque(), st0, it);
          st.contents == deque && st.records == Views(list, Outcome) && st.combiner == Passing(prev)
        invariant prev.Some? ==> prev.value < it && !list[prev.value].done
      {
        ghost var st := Visited(Deque(), st0, it);
        VisitedStep(Deque(), st0, it);
        prev := Round(list, it, prev, st);
        it := it + 1;
      }
    }

    /** The body of that loop. */
    method Round(list: seq<Request<T>>, it: nat, prev: Option<nat>, ghost st: State<seq<T>, Op<T>, Result<T>>)
      returns (next: Option<nat>)
      requires Distinct(list) && it < |list| && (prev.Some? ==> prev.value < it && !list[prev.value].done)
      requires st.contents == deque && st.records == Views(list, Outcome) && st.combiner == Passing(prev)
      modifies list
      ensures var t := Visit(Deque(), st, it);
        t.contents == deque && t.records == Views(list, Outcome) && t.combiner == Passing(next)
      ensures next.Some? ==> next.value <= it && !list[next.value].done
    {
      hide Visit, Collide;
      ghost var before := Views(list, Outcome);
      var cur := list[it];
      if cur.done || cur.op.Clear? {
        VisitSkips(Deque(), st, it);
        return prev;
      }
      if prev.None? {
        VisitFirst(Deque(), st, it);
        return Some(it);
      }
      var p := prev.value;
      VisitCollides(Deque(), st, p, it);
      var collided := Pairs(list[p], cur);
      Refresh(list, Outcome, before, p, it);
      next := if collided then None else Some(it);
    }

    /** One arm of the switch in fc_process, `prev` being the record under itPrev. */
    method Pairs(prev: Request<T>, cur: Request<T>) returns (collided: bool)
      requires prev != cur && !prev.done && !cur.done
      modifies prev, cur
      ensures match Collide(deque, prev.op, cur.op)
        case NoPair =>
          && !collided && prev.View(Outcome) == old(prev.View(Outcome))
          && cur.View(Outcome) == old(cur.View(Outcome))
        case PrevFirst(a, b) =>
          && collided && prev.View(Outcome) == Record(prev.op, Done(a))
          && cur.View(Outcome) == Record(cur.op, Done(b))
        case CurFirst(a, b) =>
          && collided && cur.View(Outcome) == Record(cur.op, Done(a))
          && prev.View(Outcome) == Record(prev.op, Done(b))
    {
      collided := false;
      match cur.op {
        case PushFront(_) =>
          if prev.op == PopFront || (deque == [] && prev.op == PopBack) {
            CollideRecords(cur, prev);
            collided := true;
          }
        case PushFrontMove(_) =>
          if prev.op == PopFront || (deque == [] && prev.op == PopBack) {
            CollideRecords(cur, prev);
            collided := true;
          }
        case PushBack(_) =>
          if prev.op == PopBack || (deque == [] && prev.op == PopFront) {
            CollideRecords(cur, prev);
            collided := true;
          }
        case PushBackMove(_) =>
          if prev.op == PopBack || (deque == [] && prev.op == PopFront) {
            CollideRecords(cur, prev);
            collided := true;
          }
        case PopFront =>
          if deque == [] {
            if prev.op.PushBack? || prev.op.PushBackMove? {
              CollideRecords(prev, cur);
              collided := true;
            }
          } else if prev.op.PushFront? || prev.op.PushFrontMove? {
            CollideRecords(prev, cur);
            collided := true;
          }
        case PopBack =>
          if deque == [] {
            if prev.op.PushFront? || prev.op.PushFrontMove? {
              CollideRecords(prev, cur);
              collided := true;
            }
          } else if prev.op.PushBack? || prev.op.PushBackMove? {
            CollideRecords(prev, cur);
            collided := true;
          }
        case Clear =>
      }
    }

    /** combining_pass of the kernel over this deque. */
    method CombiningPass(list: seq<Request<T>>)
      requires Distinct(list)
      modifies this, list
      ensures var st := Applied(Deque(), State(old(deque), old(Views(list, Outcome)), Holding, []), |list|);
        deque == st.contents && Views(list, Outcome) == st.records
    {
      hide Applied, Commit, Outcome, Views, Apply, Deque;
      ghost var st0 := State(deque, Views(list, Outcome), Holding, []);
      NoneApplied(Deque(), st0);
      for it := 0 to |list|
        invariant var st := Applied(Deque(), st0, it); st.contents == deque && st.records == Views(list, Outcome)
      {
        ghost var st := Applied(Deque(), st0, it);
        AppliedStep(Deque(), st0, it);
        if !list[it].done { Serve(list, it, st); }
      }
    }

    /** batch_combining of the kernel over this deque: the elimination passes, then fc_apply
        on what is left. */
    method BatchCombining(list: seq<Request<T>>, passCount: nat)
      requires Distinct(list)
      modifies this, list
      ensures var st0 := State(old(deque), old(Views(list, Outcome)), Holding, []);
        var st := Applied(Deque(), Passes(Deque(), st0, passCount), |list|);
        deque == st.contents && Views(list, Outcome) == st.records
    {
      hide Pass, Passes, Applied, Outcome, Apply, Collide, Views, Deque;
      ghost var st0 := State(deque, Views(list, Outcome), Holding, []);
      NoPasses(Deque(), st0);
      for pass := 0 to passCount
        invariant SameButLog(State(deque, Views(list, Outcome), Holding, []), Passes(Deque(), st0, pass))
      {
        NextPass(Deque(), State(deque, Views(list, Outcome), Holding, []), st0, pass);
        FcProcess(list);
      }
      AppliedLog(Deque(), State(deque, Views(list, Outcome), Holding, []), Passes(Deque(), st0, passCount), |list|);
      CombiningPass(list);
    }

    method Serve(list: seq<Request<T>>, it: nat, ghost st: State<seq<T>, Op<T>, Result<T>>)
      requires Distinct(list) && it < |list| && !list[it].done
      requires st.contents == deque && st.records == Views(list, Outcome)
      modifies this, list
      ensures var t := Commit(Deque(), st, it); t.contents == deque && t.records == Views(list, Outcome)
    {
      hide Commit, Apply;
      ghost var before := Views(list, Outcome);
      FcApply(list[it]);
      list[it].done := true;
      CommitIs(Deque(), st, it);
      assert Views(list, Outcome) == before[it := list[it].View(Outcome)];
    }
  }
}
