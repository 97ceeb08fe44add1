/** What decides the order of two JSON values: types, then numbers by value, strings by their
    bytes, arrays and objects by the first place where they differ. */
module JsonOrder {
  import opened Bytes
  import opened JsonValue

  lemma Irreflexive(v: Json)
    ensures !Less(v, v) && Equal(v, v)
  {
    Trichotomy(v, v);
  }

  /** Null, numbers, booleans, strings, arrays, objects. */
  lemma TypesDecide(n: int32, d: Double, b: bool, s: bytes, items: seq<Json>, ms: seq<Member>)
    ensures Less(Null, Int(n)) && Less(Null, Dbl(d))
    ensures Less(Int(n), Bool(b)) && Less(Dbl(d), Bool(b))
    ensures Less(Bool(b), Str(s)) && Less(Str(s), Arr(items)) && Less(Arr(items), Obj(ms))
  {}

  /** Ints and doubles compare by the real number they stand for, in any mixture. */
  lemma NumbersByValue(m: int32, n: int32, x: real, y: real)
    ensures Less(Int(m), Int(n)) <==> m < n
    ensures Less(Dbl(Finite(x)), Dbl(Finite(y))) <==> x < y
    ensures Less(Int(m), Dbl(Finite(y))) <==> m as real < y
    ensures Less(Dbl(Finite(x)), Int(n)) <==> x < n as real
    ensures Equal(Int(m), Int(n)) <==> m == n
    ensures Equal(Dbl(Finite(x)), Dbl(Finite(y))) <==> x == y
    ensures (Equal(Int(m), Dbl(Finite(y))) <==> m as real == y) && (Equal(Dbl(Finite(y)), Int(m)) <==> m as real == y)
  {}

  /** The infinities lie below and above every other number. */
  lemma InfinitiesAtTheEnds(m: int32, x: real)
    ensures Less(Dbl(NegInf), Int(m)) && Less(Int(m), Dbl(PosInf))
    ensures Less(Dbl(NegInf), Dbl(Finite(x))) && Less(Dbl(Finite(x)), Dbl(PosInf))
    ensures Less(Dbl(NegInf), Dbl(PosInf))
  {}

  lemma FalseBeforeTrue()
    ensures Less(Bool(false), Bool(true))
  {}

  /* ----- strings ----- */

  /** `a` is a proper prefix of `b`, or smaller in the first byte, the `k`-th, in which they differ. */
  predicate FirstDifference(a: bytes, b: bytes, k: nat) {
    k <= |a| && k < |b| && a[..k] == b[..k] && (k == |a| || a[k] as int < b[k] as int)
  }

  lemma {:induction false} BytesLessMeans(a: bytes, b: bytes) returns (k: nat)
    requires BytesLess(a, b)
    ensures FirstDifference(a, b, k)
  {
    k := 0;
    if a != [] && a[0] == b[0] {
      var j := BytesLessMeans(a[1..], b[1..]);
      k := j + 1;
      assert a[..k] == [a[0]] + a[1..][..j] && b[..k] == [b[0]] + b[1..][..j];
    }
  }

  lemma {:induction false} FirstDifferenceDecides(a: bytes, b: bytes, k: nat)
    requires FirstDifference(a, b, k)
    ensures BytesLess(a, b)
  {
    if k > 0 {
      assert a[0] == a[..k][0] == b[..k][0] == b[0];
      assert a[1..][..k - 1] == a[..k][1..] && b[1..][..k - 1] == b[..k][1..];
      FirstDifferenceDecides(a[1..], b[1..], k - 1);
    }
  }

  /** Strings, and the keys of objects, compare by the first byte in which they differ. */
  lemma StringsByFirstDifference(a: bytes, b: bytes)
    ensures BytesLess(a, b) <==> exists k: nat :: FirstDifference(a, b, k)
    ensures Less(Str(a), Str(b)) <==> exists k: nat :: FirstDifference(a, b, k)
  {
    if BytesLess(a, b) { var k := BytesLessMeans(a, b); }
    if k: nat :| FirstDifference(a, b, k) { FirstDifferenceDecides(a, b, k); }
  }

  /* ----- arrays ----- */

  lemma {:induction false} CommonItems(p: seq<Json>, r: seq<Json>, t: seq<Json>)
    ensures LessItems(p + r, p + t) <==> LessItems(r, t)
  {
    if p == [] {
      assert p + r == r && p + t == t;
    } else {
      Irreflexive(p[0]);
      assert (p + r)[1..] == p[1..] + r && (p + t)[1..] == p[1..] + t;
      CommonItems(p[1..], r, t);
    }
  }

  /** A proper prefix is less. */
  lemma ArrayPrefix(p: seq<Json>, x: Json, r: seq<Json>)
    ensures Less(Arr(p), Arr(p + [x] + r))
  {
    CommonItems(p, [], [x] + r);
    assert p + [] == p && p + ([x] + r) == p + [x] + r;
  }

  /** Arrays are ordered as the first elements in which they differ. */
  lemma ArrayFirstDifference(p: seq<Json>, x: Json, y: Json, r: seq<Json>, t: seq<Json>)
    requires !Equal(x, y)
    ensures Less(Arr(p + [x] + r), Arr(p + [y] + t)) <==> Less(x, y)
  {
    CommonItems(p, [x] + r, [y] + t);
    Trichotomy(x, y);
    assert p + ([x] + r) == p + [x] + r && p + ([y] + t) == p + [y] + t;
    assert ([x] + r)[0] == x && ([y] + t)[0] == y;
  }

  /* ----- objects ----- */

  lemma {:induction false} CommonMembers(p: seq<Member>, r: seq<Member>, t: seq<Member>)
    ensures LessMembers(p + r, p + t) <==> LessMembers(r, t)
  {
    if p == [] {
      assert p + r == r && p + t == t;
    } else {
      EntryAsymmetric(p[0], p[0]);
      assert (p + r)[1..] == p[1..] + r && (p + t)[1..] == p[1..] + t;
      CommonMembers(p[1..], r, t);
    }
  }

  lemma ObjectPrefix(p: seq<Member>, x: Member, r: seq<Member>)
    ensures Less(Obj(p), Obj(p + [x] + r))
  {
    CommonMembers(p, [], [x] + r);
    assert p + [] == p && p + ([x] + r) == p + [x] + r;
  }

  /** Objects are ordered by the first entry in which they differ: by its key, or under one key
      by its value. */
  lemma ObjectFirstDifference(p: seq<Member>, x: Member, y: Member, r: seq<Member>, t: seq<Member>)
    requires x.key != y.key || !Equal(x.value, y.value)
    ensures Less(Obj(p + [x] + r), Obj(p + [y] + t)) <==>
      if x.key != y.key then exists k: nat :: FirstDifference(x.key, y.key, k) else Less(x.value, y.value)
  {
    CommonMembers(p, [x] + r, [y] + t);
    Trichotomy(x.value, y.value);
    BytesTrichotomy(x.key, y.key);
    StringsByFirstDifference(x.key, y.key);
    assert p + ([x] + r) == p + [x] + r && p + ([y] + t) == p + [y] + t;
    assert ([x] + r)[0] == x && ([y] + t)[0] == y;
    hide Less, Equal, BytesLess, FirstDifference;
  }
}
