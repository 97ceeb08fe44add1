/** The printing loops behind `Json::dump`: each appends to the output what the functions
    of `JsonDump` say. */
module JsonPrinting {
  import opened Bytes
  import opened JsonValue
  import opened JsonGrammar
  import opened JsonDump

  /** `dump(const string&, string&)` */
  method PrintString(value: bytes, prefix: bytes) returns (out: bytes)
    ensures out == prefix + DumpString(value)
  {
    out := prefix + [QUOTE];
    var i := 0;
    assert value[0..] == value;
    while i < |value|
      invariant i <= |value|
      invariant out + DumpChars(value[i..]) == prefix + [QUOTE] + DumpChars(value)
    {
      ghost var start, before := i, out;
      var ch := value[i];
      if ch == BACKSLASH {
        out := out + [BACKSLASH, BACKSLASH];
      } else if ch == QUOTE {
        out := out + [BACKSLASH, QUOTE];
      } else if ch == 0x08 {
        out := out + [BACKSLASH, 0x62];
      } else if ch == 0x0C {
        out := out + [BACKSLASH, 0x66];
      } else if ch == 0x0A {
        out := out + [BACKSLASH, 0x6E];
      } else if ch == 0x0D {
        out := out + [BACKSLASH, 0x72];
      } else if ch == 0x09 {
        out := out + [BACKSLASH, 0x74];
      } else if ch <= 0x1F {
        out := out + ([BACKSLASH, LETTER_U] + Hex4(ch));
      } else if ch == 0xE2 && At(value, i + 1) == 0x80 && At(value, i + 2) == 0xA8 {
        out := out + [BACKSLASH, LETTER_U, 0x32, 0x30, 0x32, 0x38];
        i := i + 2;
      } else if ch == 0xE2 && At(value, i + 1) == 0x80 && At(value, i + 2) == 0xA9 {
        out := out + [BACKSLASH, LETTER_U, 0x32, 0x30, 0x32, 0x39];
        i := i + 2;
      } else {
        out := out + [ch];
      }
      i := i + 1;
      StepTaken(value, start, i, before, out);
    }
    assert value[|value|..] == [];
    assert out + [] == out;
    Assoc(prefix, [QUOTE], DumpChars(value));
    Assoc(prefix, [QUOTE] + DumpChars(value), [QUOTE]);
    Assoc([QUOTE], DumpChars(value), [QUOTE]);
    out := out + [QUOTE];
  }

  lemma StepTaken(value: bytes, i: nat, j: nat, before: bytes, after: bytes)
    requires i < j <= |value|
    requires var r := DumpStep(value[i..]); after == before + r.0 && j == i + r.1
    ensures after + DumpChars(value[j..]) == before + DumpChars(value[i..])
  {
    var r := DumpStep(value[i..]);
    hide DumpStep;
    assert value[i..][r.1..] == value[j..];
    Assoc(before, r.0, DumpChars(value[j..]));
  }

  /** `Json::dump(string&)` */
  method Print(v: Json, prefix: bytes, fmt: real -> bytes) returns (out: bytes)
    ensures out == prefix + Dump(v, fmt)
    decreases v, 1
  {
    match v {
      case Null => out := prefix + NULL;
      case Int(n) => out := prefix + IntText(n);
      case Dbl(d) => out := prefix + if d.Finite? then fmt(d.x) else NULL;
      case Bool(b) => out := prefix + if b then TRUE else FALSE;
      case Str(s) => out := PrintString(s, prefix);
      case Arr(items) => out := PrintArray(v, prefix, fmt);
      case Obj(ms) => out := PrintObject(v, prefix, fmt);
    }
  }

  method PrintArray(v: Json, prefix: bytes, fmt: real -> bytes) returns (out: bytes)
    requires v.Arr?
    ensures out == prefix + Dump(v, fmt)
    decreases v, 0
  {
    hide Dump, DumpItems;
    var first := true;
    out := prefix + [LBRACKET];
    ghost var open := out;
    assert v.items[0..] == v.items;
    for i := 0 to |v.items|
      invariant first <==> i == 0
      invariant out + DumpItems(v.items[i..], first, fmt) == open + DumpItems(v.items, true, fmt)
    {
      NextItem(v.items, i, first, fmt, out);
      if !first { out := out + SEPARATOR; } else { assert out + [] == out; }
      out := Print(v.items[i], out, fmt);
      first := false;
    }
    ArrayDump(v, fmt);
    NoItems(first, fmt);
    var all := DumpItems(v.items, true, fmt);
    assert v.items[|v.items|..] == [] && out + [] == out;
    Assoc(prefix, [LBRACKET], all);
    Assoc(prefix, [LBRACKET] + all, [RBRACKET]);
    Assoc([LBRACKET], all, [RBRACKET]);
    out := out + [RBRACKET];
  }

  lemma NextItem(xs: seq<Json>, i: nat, first: bool, fmt: real -> bytes, out: bytes)
    requires i < |xs|
    ensures out + DumpItems(xs[i..], first, fmt) ==
      ((out + Sep(first)) + Dump(xs[i], fmt)) + DumpItems(xs[i + 1..], false, fmt)
  {
    assert xs[i..][1..] == xs[i + 1..] && xs[i..][0] == xs[i];
    hide Dump;
    Assoc(out + Sep(first), Dump(xs[i], fmt), DumpItems(xs[i + 1..], false, fmt));
    Assoc(out, Sep(first), Dump(xs[i], fmt) + DumpItems(xs[i + 1..], false, fmt));
  }

  lemma NoItems(first: bool, fmt: real -> bytes)
    ensures DumpItems([], first, fmt) == [] && DumpMembers([], first, fmt) == []
  {}

  lemma ArrayDump(v: Json, fmt: real -> bytes)
    requires v.Arr?
    ensures Dump(v, fmt) == [LBRACKET] + (DumpItems(v.items, true, fmt) + [RBRACKET])
  {}

  method PrintObject(v: Json, prefix: bytes, fmt: real -> bytes) returns (out: bytes)
    requires v.Obj?
    ensures out == prefix + Dump(v, fmt)
    decreases v, 0
  {
    hide Dump, DumpMembers, DumpString;
    var first := true;
    out := prefix + [LBRACE];
    ghost var open := out;
    assert v.members[0..] == v.members;
    for i := 0 to |v.members|
      invariant first <==> i == 0
      invariant out + DumpMembers(v.members[i..], first, fmt) == open + DumpMembers(v.members, true, fmt)
    {
      NextMember(v.members, i, first, fmt, out);
      if !first { out := out + SEPARATOR; } else { assert out + [] == out; }
      out := PrintString(v.members[i].key, out);
      out := out + KEY_SEPARATOR;
      out := Print(v.members[i].value, out, fmt);
      first := false;
    }
    ObjectDump(v, fmt);
    NoItems(first, fmt);
    var all := DumpMembers(v.members, true, fmt);
    assert v.members[|v.members|..] == [] && out + [] == out;
    Assoc(prefix, [LBRACE], all);
    Assoc(prefix, [LBRACE] + all, [RBRACE]);
    Assoc([LBRACE], all, [RBRACE]);
    out := out + [RBRACE];
  }

  lemma NextMember(ms: seq<Member>, i: nat, first: bool, fmt: real -> bytes, out: bytes)
    requires i < |ms|
    ensures out + DumpMembers(ms[i..], first, fmt) ==
      ((((out + Sep(first)) + DumpString(ms[i].key)) + KEY_SEPARATOR) + Dump(ms[i].value, fmt)) +
        DumpMembers(ms[i + 1..], false, fmt)
  {
    assert ms[i..][1..] == ms[i + 1..] && ms[i..][0] == ms[i];
    hide Dump, DumpString;
    var o, k, v, more := out + Sep(first), DumpString(ms[i].key), Dump(ms[i].value, fmt),
      DumpMembers(ms[i + 1..], false, fmt);
    var y := k + (KEY_SEPARATOR + v);
    assert DumpMembers(ms[i..], first, fmt) == Sep(first) + (y + more);
    hide DumpMembers, Sep;
    Assoc(out, Sep(first), y + more);
    Assoc(o, y, more);
    Assoc(o, k, KEY_SEPARATOR + v);
    Assoc(o + k, KEY_SEPARATOR, v);
  }

  lemma ObjectDump(v: Json, fmt: real -> bytes)
    requires v.Obj?
    ensures Dump(v, fmt) == [LBRACE] + (DumpMembers(v.members, true, fmt) + [RBRACE])
  {}
}
