/** JSON values, their equality and their order. */
module JsonValue {
  import opened Bytes

  type int32 = x: int | -0x8000_0000 <= x < 0x8000_0000

  /** A C++ double that is not a NaN. */
  datatype Double = NegInf | Finite(x: real) | PosInf

  /** `Int` and `Dbl` are the two representations of a JSON number. An object lists
      its members in key order, as iterating its std::map does. */
  datatype Json =
    | Null
    | Int(n: int32)
    | Dbl(d: Double)
    | Bool(b: bool)
    | Str(s: bytes)
    | Arr(items: seq<Json>)
    | Obj(members: seq<Member>)

  datatype Member = Member(key: bytes, value: Json)

  /** Every object has strictly increasing keys: what a std::map guarantees. */
  predicate WellFormed(v: Json) {
    match v
    case Arr(items) => forall k :: 0 <= k < |items| ==> WellFormed(items[k])
    case Obj(ms) => KeysSorted(ms) && forall k :: 0 <= k < |ms| ==> WellFormed(ms[k].value)
    case _ => true
  }

  predicate KeysSorted(ms: seq<Member>) {
    forall i, j :: 0 <= i < j < |ms| ==> BytesLess(ms[i].key, ms[j].key)
  }

  /** Position of a value's type in the enumeration `Json::Type`. */
  function Rank(v: Json): nat {
    match v
    case Null => 0
    case Int(_) => 1
    case Dbl(_) => 1
    case Bool(_) => 2
    case Str(_) => 3
    case Arr(_) => 4
    case Obj(_) => 5
  }

  function NumberValue(v: Json): Double {
    match v
    case Int(n) => Finite(n as real)
    case Dbl(d) => d
    case _ => Finite(0.0)
  }

  predicate DoubleLess(a: Double, b: Double) {
    match (a, b)
    case (Finite(x), Finite(y)) => x < y
    case (NegInf, _) => b != NegInf
    case (_, PosInf) => a != PosInf
    case _ => false
  }

  function Size(v: Json): nat {
    match v
    case Arr(items) => 1 + SizeItems(items)
    case Obj(ms) => 1 + SizeMembers(ms)
    case _ => 1
  }

  function SizeItems(xs: seq<Json>): nat {
    if xs == [] then 0 else 1 + Size(xs[0]) + SizeItems(xs[1..])
  }

  function SizeMembers(ms: seq<Member>): nat {
    if ms == [] then 0 else 1 + Size(ms[0].value) + SizeMembers(ms[1..])
  }

  /** `Json::operator==` */
  predicate Equal(a: Json, b: Json)
    decreases Size(a) + Size(b)
  {
    Rank(a) == Rank(b) &&
    match a
    case Null => true
    case Int(_) => NumberValue(a) == NumberValue(b)
    case Dbl(_) => NumberValue(a) == NumberValue(b)
    case Bool(x) => x == b.b
    case Str(s) => s == b.s
    case Arr(xs) => |xs| == |b.items| && EqualItems(xs, b.items)
    case Obj(ms) => |ms| == |b.members| && EqualMembers(ms, b.members)
  }

  /** std::equal over two vectors of one length */
  predicate EqualItems(xs: seq<Json>, ys: seq<Json>)
    requires |xs| == |ys|
    decreases SizeItems(xs) + SizeItems(ys)
  {
    xs == [] || (Equal(xs[0], ys[0]) && EqualItems(xs[1..], ys[1..]))
  }

  predicate EqualMembers(xs: seq<Member>, ys: seq<Member>)
    requires |xs| == |ys|
    decreases SizeMembers(xs) + SizeMembers(ys)
  {
    xs == [] ||
    (xs[0].key == ys[0].key && Equal(xs[0].value, ys[0].value) && EqualMembers(xs[1..], ys[1..]))
  }

  /** `Json::operator<` */
  predicate Less(a: Json, b: Json)
    decreases Size(a) + Size(b)
  {
    if Rank(a) != Rank(b) then Rank(a) < Rank(b)
    else match a
      case Null => false
      case Int(_) => DoubleLess(NumberValue(a), NumberValue(b))
      case Dbl(_) => DoubleLess(NumberValue(a), NumberValue(b))
      case Bool(x) => !x && b.b
      case Str(s) => BytesLess(s, b.s)
      case Arr(xs) => LessItems(xs, b.items)
      case Obj(ms) => LessMembers(ms, b.members)
  }

  /** std::lexicographical_compare over two vectors */
  predicate LessItems(xs: seq<Json>, ys: seq<Json>)
    decreases SizeItems(xs) + SizeItems(ys)
  {
    if ys == [] then false
    else if xs == [] then true
    else if Less(xs[0], ys[0]) then true
    else if Less(ys[0], xs[0]) then false
    else LessItems(xs[1..], ys[1..])
  }

  /** std::pair ordering of one map entry: key first, then value */
  predicate LessEntry(x: Member, y: Member)
    decreases Size(x.value) + Size(y.value) + 1
  {
    BytesLess(x.key, y.key) || (!BytesLess(y.key, x.key) && Less(x.value, y.value))
  }

  predicate LessMembers(xs: seq<Member>, ys: seq<Member>)
    decreases SizeMembers(xs) + SizeMembers(ys)
  {
    if ys == [] then false
    else if xs == [] then true
    else if LessEntry(xs[0], ys[0]) then true
    else if LessEntry(ys[0], xs[0]) then false
    else LessMembers(xs[1..], ys[1..])
  }

  /* ----- the order is a strict total order that agrees with equality ----- */

  /** Exactly one of a < b, a == b, b < a. */
  predicate ExactlyOne(p: bool, q: bool, r: bool) {
    (p && !q && !r) || (!p && q && !r) || (!p && !q && r)
  }

  lemma {:induction false} Trichotomy(a: Json, b: Json)
    ensures ExactlyOne(Less(a, b), Equal(a, b), Less(b, a))
    decreases Size(a) + Size(b)
  {
    if Rank(a) == Rank(b) {
      match a
      case Str(s) => BytesTrichotomy(s, b.s);
      case Arr(xs) => TrichotomyItems(xs, b.items);
      case Obj(ms) => TrichotomyMembers(ms, b.members);
      case _ =>
    }
  }

  lemma {:induction false} TrichotomyItems(xs: seq<Json>, ys: seq<Json>)
    ensures ExactlyOne(LessItems(xs, ys), |xs| == |ys| && EqualItems(xs, ys), LessItems(ys, xs))
    decreases SizeItems(xs) + SizeItems(ys)
  {
    if xs != [] && ys != [] {
      Trichotomy(xs[0], ys[0]);
      TrichotomyItems(xs[1..], ys[1..]);
    }
  }

  lemma {:induction false} TrichotomyMembers(xs: seq<Member>, ys: seq<Member>)
    ensures ExactlyOne(LessMembers(xs, ys), |xs| == |ys| && EqualMembers(xs, ys), LessMembers(ys, xs))
    decreases SizeMembers(xs) + SizeMembers(ys)
  {
    if xs != [] && ys != [] {
      BytesTrichotomy(xs[0].key, ys[0].key);
      Trichotomy(xs[0].value, ys[0].value);
      TrichotomyMembers(xs[1..], ys[1..]);
    }
  }

  /** If a < c then every b lies above a or below c. */
  lemma {:induction false} Interpolation(a: Json, b: Json, c: Json)
    requires Less(a, c)
    ensures Less(a, b) || Less(b, c)
    decreases Size(a) + Size(b) + Size(c)
  {
    if Rank(a) == Rank(b) == Rank(c) {
      match a
      case Str(s) => BytesInterpolation(s, b.s, c.s);
      case Arr(xs) => InterpolationItems(xs, b.items, c.items);
      case Obj(ms) => InterpolationMembers(ms, b.members, c.members);
      case _ =>
    }
  }

  lemma BytesInterpolation(a: bytes, b: bytes, c: bytes)
    requires BytesLess(a, c)
    ensures BytesLess(a, b) || BytesLess(b, c)
  {
    BytesTrichotomy(a, b);
    if BytesLess(b, a) { BytesTransitive(b, a, c); }
  }

  lemma {:induction false} InterpolationItems(xs: seq<Json>, ys: seq<Json>, zs: seq<Json>)
    requires LessItems(xs, zs)
    ensures LessItems(xs, ys) || LessItems(ys, zs)
    decreases SizeItems(xs) + SizeItems(ys) + SizeItems(zs)
  {
    if xs != [] && ys != [] {
      var x, y, z := xs[0], ys[0], zs[0];
      Trichotomy(x, y); Trichotomy(y, z); Trichotomy(x, z);
      if Less(x, z) { Interpolation(x, y, z); }
      if Less(y, x) { Interpolation(y, z, x); }
      if Less(z, y) { Interpolation(z, x, y); }
      if !Less(x, y) && !Less(y, z) && !Less(x, z) {
        InterpolationItems(xs[1..], ys[1..], zs[1..]);
      }
    }
  }

  lemma {:induction false} InterpolationEntry(x: Member, y: Member, z: Member)
    requires LessEntry(x, z)
    ensures LessEntry(x, y) || LessEntry(y, z)
    decreases Size(x.value) + Size(y.value) + Size(z.value) + 1
  {
    BytesTrichotomy(x.key, y.key); BytesTrichotomy(y.key, z.key); BytesTrichotomy(x.key, z.key);
    if BytesLess(x.key, z.key) { BytesInterpolation(x.key, y.key, z.key); }
    else { Interpolation(x.value, y.value, z.value); }
  }

  lemma EntryAsymmetric(x: Member, y: Member)
    ensures !(LessEntry(x, y) && LessEntry(y, x))
  {
    BytesTrichotomy(x.key, y.key);
    Trichotomy(x.value, y.value);
  }

  lemma {:induction false} InterpolationMembers(xs: seq<Member>, ys: seq<Member>, zs: seq<Member>)
    requires LessMembers(xs, zs)
    ensures LessMembers(xs, ys) || LessMembers(ys, zs)
    decreases SizeMembers(xs) + SizeMembers(ys) + SizeMembers(zs)
  {
    if xs != [] && ys != [] {
      var x, y, z := xs[0], ys[0], zs[0];
      EntryAsymmetric(x, y); EntryAsymmetric(y, z); EntryAsymmetric(x, z);
      if LessEntry(x, z) { InterpolationEntry(x, y, z); }
      if LessEntry(y, x) { InterpolationEntry(y, z, x); }
      if LessEntry(z, y) { InterpolationEntry(z, x, y); }
      if !LessEntry(x, y) && !LessEntry(y, z) && !LessEntry(x, z) {
        InterpolationMembers(xs[1..], ys[1..], zs[1..]);
      }
    }
  }

  lemma LessTransitive(a: Json, b: Json, c: Json)
    requires Less(a, b) && Less(b, c)
    ensures Less(a, c)
  {
    Interpolation(a, c, b);
    Trichotomy(b, c);
  }

  /** Equality is an equivalence that the order cannot tell apart. */
  lemma EqualIsCongruence(a: Json, b: Json, c: Json)
    requires Equal(a, b)
    ensures Equal(a, a) && Equal(b, a)
    ensures Equal(b, c) ==> Equal(a, c)
    ensures Less(a, c) <==> Less(b, c)
    ensures Less(c, a) <==> Less(c, b)
  {
    Trichotomy(a, a); Trichotomy(a, b); Trichotomy(b, a); Trichotomy(a, c); Trichotomy(b, c);
    if Less(a, c) { Interpolation(a, b, c); }
    if Less(b, c) { Interpolation(b, a, c); }
    if Less(c, a) { Interpolation(c, b, a); }
    if Less(c, b) { Interpolation(c, a, b); }
  }
}
