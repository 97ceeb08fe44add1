/** Publication records as the containers' code sees them, and one round of combining in terms
    of them. */
module FlatRecords {
  import opened Options
  import opened FlatCombining
  import opened FlatBatch

  /** fc_record: the request, where a pop's value goes, and the two flags. */
  class FcRecord<O(==), T(==)> {
    const op: O
    var done: bool
    var empty: bool
    var dest: Option<T>

    constructor (op: O)
      ensures this.op == op && !done
    {
      this.op, done, empty, dest := op, false, false, None;
    }

    /** The record in the state machine; `read` is how its publisher reads the result. */
    function View<R>(read: (O, bool, Option<T>) -> R): Record<O, R>
      reads this
    {
      Record(op, if done then Done(read(op, empty, dest)) else Pending)
    }
  }

  predicate Distinct<O(==), T(==)>(list: seq<FcRecord<O, T>>) {
    forall j, k :: 0 <= j < k < |list| ==> list[j] != list[k]
  }

  function Views<O(==), T(==), R>(list: seq<FcRecord<O, T>>, read: (O, bool, Option<T>) -> R): (vs: seq<Record<O, R>>)
    reads list
    ensures |vs| == |list| && forall k :: 0 <= k < |list| ==> vs[k] == list[k].View(read)
  {
    if list == [] then [] else Views(list[..|list| - 1], read) + [list[|list| - 1].View(read)]
  }

  /** The views after two of the records have changed. */
  lemma Refresh<O, T, R>(list: seq<FcRecord<O, T>>, read: (O, bool, Option<T>) -> R, before: seq<Record<O, R>>,
      p: nat, id: nat)
    requires p < id < |list| == |before|
    requires forall k :: 0 <= k < |list| && k != p && k != id ==> list[k].View(read) == before[k]
    ensures Views(list, read) == before[p := list[p].View(read)][id := list[id].View(read)]
  {}

  lemma VisitSkips<S, O, R>(c: Container<S, O, R>, st: State<S, O, R>, id: nat)
    requires st.combiner.Passing? && id < |st.records|
    requires !IsPending(st, id) || !c.joins(st.contents, st.records[id].op)
    ensures Visit(c, st, id) == st
  {}

  lemma VisitFirst<S, O, R>(c: Container<S, O, R>, st: State<S, O, R>, id: nat)
    requires st.combiner == Passing(None) && IsPending(st, id) && c.joins(st.contents, st.records[id].op)
    ensures Visit(c, st, id) == st.(combiner := Passing(Some(id)))
  {}

  function Finished<O, R>(rs: seq<Record<O, R>>, p: nat, a: R, id: nat, b: R): seq<Record<O, R>>
    requires p < id < |rs|
  {
    rs[p := Record(rs[p].op, Done(a))][id := Record(rs[id].op, Done(b))]
  }

  lemma VisitCollides<S, O, R>(c: Container<S, O, R>, st: State<S, O, R>, p: nat, id: nat)
    requires st.combiner == Passing(Some(p)) && p < id && IsPending(st, p) && IsPending(st, id)
    requires c.joins(st.contents, st.records[id].op)
    ensures var t := Visit(c, st, id);
      && t.contents == st.contents
      && match c.collide(st.contents, st.records[p].op, st.records[id].op)
         case NoPair => t.records == st.records && t.combiner == Passing(Some(id))
         case PrevFirst(a, b) => t.records == Finished(st.records, p, a, id, b) && t.combiner == Passing(None)
         case CurFirst(a, b) => t.records == Finished(st.records, p, b, id, a) && t.combiner == Passing(None)
  {}

  lemma CommitIs<S, O, R>(c: Container<S, O, R>, st: State<S, O, R>, id: nat)
    requires IsPending(st, id)
    ensures var t := Commit(c, st, id); var r := c.apply(st.contents, st.records[id].op);
      t.contents == r.0 && t.records == st.records[id := Record(st.records[id].op, Done(r.1))]
  {}

  /* ----- the records do not depend on the history ----- */

  predicate SameButLog<S(==), O(==), R(==)>(a: State<S, O, R>, b: State<S, O, R>) {
    a.contents == b.contents && a.records == b.records && a.combiner == b.combiner
  }

  lemma VisitLog<S, O, R>(c: Container<S, O, R>, a: State<S, O, R>, b: State<S, O, R>, id: nat)
    requires SameButLog(a, b) && a.combiner.Passing? && id < |a.records|
    ensures SameButLog(Visit(c, a, id), Visit(c, b, id)) && Visit(c, a, id).contents == a.contents
  {}

  lemma {:induction false} VisitedLog<S, O, R>(c: Container<S, O, R>, a: State<S, O, R>, b: State<S, O, R>, n: nat)
    requires SameButLog(a, b) && a.combiner.Passing? && n <= |a.records|
    ensures SameButLog(Visited(c, a, n), Visited(c, b, n)) && Visited(c, a, n).contents == a.contents
  {
    hide Visit;
    if n > 0 {
      VisitedLog(c, a, b, n - 1);
      VisitLog(c, Visited(c, a, n - 1), Visited(c, b, n - 1), n - 1);
    }
  }

  lemma PassLog<S, O, R>(c: Container<S, O, R>, a: State<S, O, R>, b: State<S, O, R>)
    requires SameButLog(a, b)
    ensures SameButLog(Pass(c, a), Pass(c, b)) && Pass(c, a).contents == a.contents && Pass(c, a).combiner.Holding?
  {
    VisitedLog(c, a.(combiner := Passing(None)), b.(combiner := Passing(None)), |a.records|);
    hide Visited;
  }

  /** One more pass, on records that agree so far. */
  lemma NextPass<S, O, R>(c: Container<S, O, R>, a: State<S, O, R>, st: State<S, O, R>, k: nat)
    requires SameButLog(a, Passes(c, st, k))
    ensures SameButLog(Pass(c, a), Passes(c, st, k + 1))
    ensures Pass(c, a).contents == a.contents && Pass(c, a).combiner.Holding?
  {
    PassLog(c, a, Passes(c, st, k));
    hide Pass;
  }

  lemma NoPasses<S, O, R>(c: Container<S, O, R>, st: State<S, O, R>)
    ensures Passes(c, st, 0) == st
  {}

  lemma {:induction false} AppliedLog<S, O, R>(c: Container<S, O, R>, a: State<S, O, R>, b: State<S, O, R>, n: nat)
    requires SameButLog(a, b) && n <= |a.records|
    ensures SameButLog(Applied(c, a, n), Applied(c, b, n))
  {
    if n > 0 { AppliedLog(c, a, b, n - 1); }
  }
}
