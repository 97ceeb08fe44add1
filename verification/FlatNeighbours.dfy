/** When exactly an elimination pass does anything, for any container. */
module FlatNeighbours {
  import opened Options
  import opened FlatCombining
  import opened FlatBatch

  /** A record that a pass over the list `rs` looks at, the container holding `s`. */
  predicate Live<S, O, R>(c: Container<S, O, R>, s: S, rs: seq<Record<O, R>>, id: nat) {
    id < |rs| && rs[id].status.Pending? && c.joins(s, rs[id].op)
  }

  predicate NoneLive<S, O, R>(c: Container<S, O, R>, s: S, rs: seq<Record<O, R>>, from: nat, to: nat) {
    forall k: nat :: from <= k < to ==> !Live(c, s, rs, k)
  }

  /** Two records that a pass looks at one right after the other and that collide. */
  predicate Neighbours<S, O, R(==)>(c: Container<S, O, R>, s: S, rs: seq<Record<O, R>>, i: nat, j: nat) {
    && i < j && Live(c, s, rs, i) && Live(c, s, rs, j) && NoneLive(c, s, rs, i + 1, j)
    && c.collide(s, rs[i].op, rs[j].op) != NoPair
  }

  ghost predicate NoNeighbours<S, O, R>(c: Container<S, O, R>, s: S, rs: seq<Record<O, R>>, n: nat) {
    forall i: nat, j: nat :: j < n ==> !Neighbours(c, s, rs, i, j)
  }

  /** The iterator `itPrev` after `n` rounds without a collision. */
  predicate IsLastLive<S, O, R>(
      c: Container<S, O, R>, s: S, rs: seq<Record<O, R>>, prev: Option<nat>, n: nat) {
    match prev
    case None => NoneLive(c, s, rs, 0, n)
    case Some(p) => p < n && Live(c, s, rs, p) && NoneLive(c, s, rs, p + 1, n)
  }

  lemma VisitApart<S, O, R>(c: Container<S, O, R>, st: State<S, O, R>, id: nat)
    requires st.combiner.Passing? && id < |st.records| && IsLastLive(c, st.contents, st.records, st.combiner.prev, id)
    requires st.combiner.prev.Some? ==> !Neighbours(c, st.contents, st.records, st.combiner.prev.value, id)
    ensures var t := Visit(c, st, id);
      t == st.(combiner := t.combiner) && t.combiner.Passing?
        && IsLastLive(c, st.contents, st.records, t.combiner.prev, id + 1)
  {}

  /** Without colliding neighbours the rounds only move the iterators. */
  lemma {:induction false} VisitedApart<S, O, R>(c: Container<S, O, R>, st: State<S, O, R>, n: nat)
    requires st.combiner == Passing(None) && n <= |st.records| && NoNeighbours(c, st.contents, st.records, n)
    ensures var t := Visited(c, st, n);
      t == st.(combiner := t.combiner) && IsLastLive(c, st.contents, st.records, t.combiner.prev, n)
  {
    if n > 0 {
      VisitedApart(c, st, n - 1);
      var t := Visited(c, st, n - 1);
      VisitApart(c, t, n - 1);
      VisitedStep(c, st, n - 1);
    }
  }

  lemma VisitKeepsDone<S, O, R>(c: Container<S, O, R>, st: State<S, O, R>, id: nat, done: nat)
    requires st.combiner.Passing? && id < |st.records| && done < |st.records| && !IsPending(st, done)
    ensures !IsPending(Visit(c, st, id), done)
  {}

  lemma {:induction false} VisitedKeepsDone<S, O, R>(
      c: Container<S, O, R>, st: State<S, O, R>, m: nat, n: nat, done: nat)
    requires st.combiner.Passing? && m <= n <= |st.records| && done < |st.records|
    requires !IsPending(Visited(c, st, m), done)
    ensures !IsPending(Visited(c, st, n), done)
    decreases n
  {
    if m < n {
      VisitedKeepsDone(c, st, m, n - 1, done);
      VisitKeepsDone(c, Visited(c, st, n - 1), n - 1, done);
    }
  }

  /** The first pair of colliding neighbours is eliminated. */
  lemma NeighboursCollide<S, O, R>(c: Container<S, O, R>, st: State<S, O, R>, i: nat, j: nat)
    requires st.combiner == Passing(None)
    requires Neighbours(c, st.contents, st.records, i, j) && NoNeighbours(c, st.contents, st.records, j)
    ensures !IsPending(Visited(c, st, |st.records|), j)
  {
    VisitedApart(c, st, j);
    var t := Visited(c, st, j);
    LastLiveUnique(c, st, t.combiner.prev, i, j);
    VisitedStep(c, st, j);
    assert !IsPending(Visit(c, t, j), j);
    VisitedKeepsDone(c, st, j + 1, |st.records|, j);
  }

  lemma LastLiveUnique<S, O, R>(c: Container<S, O, R>, st: State<S, O, R>, prev: Option<nat>, i: nat, j: nat)
    requires i < j && Live(c, st.contents, st.records, i) && NoneLive(c, st.contents, st.records, i + 1, j)
    requires IsLastLive(c, st.contents, st.records, prev, j)
    ensures prev == Some(i)
  {}

  lemma {:induction false} FirstNeighbours<S, O, R>(c: Container<S, O, R>, st: State<S, O, R>, n: nat)
    returns (i: nat, j: nat)
    requires !NoNeighbours(c, st.contents, st.records, n)
    ensures Neighbours(c, st.contents, st.records, i, j) && NoNeighbours(c, st.contents, st.records, j)
    decreases n
  {
    i, j :| j < n && Neighbours(c, st.contents, st.records, i, j);
    if !NoNeighbours(c, st.contents, st.records, j) { i, j := FirstNeighbours(c, st, j); }
  }

  /** A pass changes the records exactly when the publication list holds two colliding
      neighbours; otherwise it leaves everything as it was. */
  lemma PassActs<S, O, R>(c: Container<S, O, R>, st: State<S, O, R>)
    ensures Pass(c, st).records != st.records <==>
      exists i: nat, j: nat :: Neighbours(c, st.contents, st.records, i, j)
    ensures Pass(c, st).records == st.records ==> Pass(c, st) == st.(combiner := Holding)
  {
    var t, n := st.(combiner := Passing(None)), |st.records|;
    if NoNeighbours(c, t.contents, t.records, n) {
      VisitedApart(c, t, n);
    } else {
      var i, j := FirstNeighbours(c, t, n);
      NeighboursCollide(c, t, i, j);
    }
  }

  /** Where there are none, no number of passes does anything. */
  lemma {:induction false} PassesIdle<S, O, R>(c: Container<S, O, R>, st: State<S, O, R>, k: nat)
    requires !exists i: nat, j: nat :: Neighbours(c, st.contents, st.records, i, j)
    ensures var t := Passes(c, st, k); t == st.(combiner := t.combiner) && (st.combiner.Holding? ==> t == st)
  {
    if k > 0 {
      PassesIdle(c, st, k - 1);
      var t := Passes(c, st, k - 1);
      PassActs(c, t);
    }
  }

  /* ----- the passes come to rest ----- */

  /** Pending records, of every kind. */
  function Waiting<S, O, R>(st: State<S, O, R>): nat { Total(st, o => true) }

  lemma VisitShrinks<S, O, R>(c: Container<S, O, R>, st: State<S, O, R>, id: nat)
    requires st.combiner.Passing? && id < |st.records|
    ensures var t := Visit(c, st, id);
      t.contents == st.contents && (t.records == st.records || Waiting(t) + 2 == Waiting(st))
  {
    var t, all := Visit(c, st, id), (o: O) => true;
    if t.records != st.records {
      var p := st.combiner.prev.value;
      match c.collide(st.contents, st.records[p].op, st.records[id].op)
      case PrevFirst(a, b) => BothFinished(st, p, id, a, b);
      case CurFirst(a, b) => BothFinished(st, id, p, a, b);
    }
  }

  lemma BothFinished<S, O, R>(st: State<S, O, R>, x: nat, y: nat, a: R, b: R)
    requires IsPending(st, x) && IsPending(st, y) && x != y
    ensures Waiting(Finish(Finish(st, x, a), y, b)) + 2 == Waiting(st)
  {
    var u, all := Finish(st, x, a), (o: O) => true;
    CountFinish(st.records, all, |st.records|, x, a);
    CountFinish(u.records, all, |u.records|, y, b);
  }

  lemma {:induction false} VisitedShrinks<S, O, R>(c: Container<S, O, R>, st: State<S, O, R>, n: nat)
    requires st.combiner.Passing? && n <= |st.records|
    ensures var t := Visited(c, st, n);
      t.contents == st.contents && (t.records == st.records || Waiting(t) + 2 <= Waiting(st))
  {
    hide Visit, Waiting;
    if n > 0 {
      VisitedShrinks(c, st, n - 1);
      VisitShrinks(c, Visited(c, st, n - 1), n - 1);
      var t, u := Visited(c, st, n - 1), Visited(c, st, n);
      if t.records == st.records { SameWaiting(t, st); }
      if u.records == t.records { SameWaiting(u, t); }
    }
  }

  lemma SameWaiting<S, O, R>(a: State<S, O, R>, b: State<S, O, R>)
    requires a.records == b.records
    ensures Waiting(a) == Waiting(b)
  {}

  lemma {:induction false} PassesShrink<S, O, R>(c: Container<S, O, R>, st: State<S, O, R>, k: nat)
    ensures var t := Passes(c, st, k);
      && t.contents == st.contents
      && (Waiting(t) + 2 * k <= Waiting(st) || !exists i: nat, j: nat :: Neighbours(c, t.contents, t.records, i, j))
  {
    hide Waiting;
    if k > 0 {
      PassesShrink(c, st, k - 1);
      var t := Passes(c, st, k - 1);
      PassActs(c, t);
      VisitedShrinks(c, t.(combiner := Passing(None)), |t.records|);
      SameWaiting(t.(combiner := Passing(None)), t);
      SameWaiting(Visited(c, t.(combiner := Passing(None)), |t.records|), Pass(c, t));
      hide Neighbours, Pass;
      var u := Pass(c, t);
      if u.records == t.records { assert u.contents == t.contents; }
    }
  }

  /** Whatever the container, once there have been half as many passes as waiting requests, no
      colliding neighbours are left and further passes do nothing. */
  lemma PassesSettle<S, O, R>(c: Container<S, O, R>, st: State<S, O, R>, k: nat)
    requires 2 * k >= Waiting(st)
    ensures var t := Passes(c, st, k); !exists i: nat, j: nat :: Neighbours(c, t.contents, t.records, i, j)
  {
    PassesShrink(c, st, k);
    var t := Passes(c, st, k);
    if i: nat, j: nat :| Neighbours(c, t.contents, t.records, i, j) {
      CountPositive(t.records, o => true, |t.records|, i);
    }
  }
}
