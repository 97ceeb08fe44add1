/** Byte strings: the model of std::string. */
module Bytes {

  type byte = x: int | 0 <= x < 256
  type bytes = seq<byte>

  /** The bytes of an ASCII text. */
  function Text(s: string): (b: bytes)
    requires forall i :: 0 <= i < |s| ==> s[i] as int < 128
    ensures |b| == |s| && forall i :: 0 <= i < |s| ==> b[i] == s[i] as int
  {
    seq(|s|, i requires 0 <= i < |s| => s[i] as int)
  }

  /** `str[i]` of a std::string: index `|s|` is legal and reads the terminating NUL. */
  function At(s: bytes, i: nat): byte
    requires i <= |s|
  {
    if i < |s| then s[i] else 0
  }

  /** The bytes of `s` from position `i` on start with `p`. */
  predicate HasAt(s: bytes, i: nat, p: bytes) {
    i + |p| <= |s| && s[i..i + |p|] == p
  }

  lemma HasAtSplit(s: bytes, i: nat, a: bytes, b: bytes)
    ensures HasAt(s, i, a + b) <==> HasAt(s, i, a) && HasAt(s, i + |a|, b)
    ensures HasAt(s, i, a + b) ==> i + |a| + |b| <= |s|
  {
    if HasAt(s, i, a) && HasAt(s, i + |a|, b) {
      assert s[i..i + |a + b|] == s[i..i + |a|] + s[i + |a|..i + |a| + |b|];
    }
    if HasAt(s, i, a + b) {
      var w := s[i..i + |a + b|];
      assert w[..|a|] == a && w[|a|..] == b;
      assert s[i..i + |a|] == w[..|a|];
      assert s[i + |a|..i + |a| + |b|] == w[|a|..];
    }
  }

  lemma Assoc<T>(a: seq<T>, b: seq<T>, c: seq<T>)
    ensures (a + b) + c == a + (b + c)
  {}

  lemma SliceAt(s: bytes, i: nat, p: bytes)
    requires HasAt(s, i, p)
    ensures i + |p| <= |s| && s[i..i + |p|] == p
    ensures p != [] ==> s[i] == p[0]
  {
    if p != [] { assert s[i] == s[i..i + |p|][0]; }
  }

  lemma HasAtOne(s: bytes, i: nat, b: byte)
    ensures HasAt(s, i, [b]) <==> i < |s| && s[i] == b
  {
    if i < |s| { assert s[i..i + 1] == [s[i]]; }
  }

  /** std::string ordering: lexicographic on unsigned bytes. */
  predicate BytesLess(a: bytes, b: bytes) {
    if b == [] then false
    else if a == [] then true
    else if a[0] != b[0] then a[0] < b[0]
    else BytesLess(a[1..], b[1..])
  }

  lemma {:induction false} BytesTrichotomy(a: bytes, b: bytes)
    ensures a == b ==> !BytesLess(a, b)
    ensures a != b ==> (BytesLess(a, b) <==> !BytesLess(b, a))
  {
    if a != [] && b != [] {
      BytesTrichotomy(a[1..], b[1..]);
      assert a == [a[0]] + a[1..] && b == [b[0]] + b[1..];
    }
  }

  lemma {:induction false} BytesTransitive(a: bytes, b: bytes, c: bytes)
    requires BytesLess(a, b) && BytesLess(b, c)
    ensures BytesLess(a, c)
  {
    if a != [] && a[0] == b[0] && b[0] == c[0] {
      BytesTransitive(a[1..], b[1..], c[1..]);
    }
  }
}
