/**
 Reading JSON by sections 4, 5 and 7 of RFC 8259, so far as the server prints it, and
 texts that spell a value wherever they stand.
 */
module Json {
  import opened Text
  import opened Escape

  // ------------------------------------------------------------------ reading

  /** The values that the server prints: strings, arrays and objects. */
  datatype Json = Str(text: string) | Arr(items: seq<Json>) | Obj(members: seq<(string, Json)>)

  datatype Read<T> = Fail | Got(value: T, next: nat)

  /** The quote that closes a string; a backslash takes the next character with it. */
  function StringEnd(s: string, p: nat): (r: Option<nat>)
    ensures r.Some? ==> p <= r.value < |s|
    decreases |s| - p
  {
    if p >= |s| then None
    else if s[p] == '"' then Some(p)
    else StringEnd(s, if s[p] == '\\' then p + 2 else p + 1)
  }

  function ReadString(s: string, p: nat): (r: Read<string>)
    ensures r.Got? ==> p < r.next <= |s|
  {
    if p >= |s| || s[p] != '"' || StringEnd(s, p + 1).None? then Fail
    else
      var end := StringEnd(s, p + 1).value;
      var text := Unescape(s[p + 1..end]);
      if text.None? then Fail else Got(text.value, end + 1)
  }

  predicate Is(s: string, p: nat, c: char)
  {
    p < |s| && s[p] == c
  }

  /** The server prints no blanks between tokens, and none are read. */
  function ReadValue(s: string, p: nat): (r: Read<Json>)
    ensures r.Got? ==> p < r.next <= |s| && s[p] != ']'
    decreases |s| - p, 1
  {
    if Is(s, p, '"') then
      var r := ReadString(s, p);
      if r.Fail? then Fail else Got(Str(r.value), r.next)
    else if Is(s, p, '[') then
      if Is(s, p + 1, ']') then Got(Arr([]), p + 2)
      else
        var r := ReadItems(s, p + 1);
        if r.Fail? then Fail else Got(Arr(r.value), r.next)
    else if Is(s, p, '{') then
      if Is(s, p + 1, '}') then Got(Obj([]), p + 2)
      else
        var r := ReadMembers(s, p + 1);
        if r.Fail? then Fail else Got(Obj(r.value), r.next)
    else Fail
  }

  /** The values of an array from the first on, and its closing bracket. */
  function ReadItems(s: string, p: nat): (r: Read<seq<Json>>)
    ensures r.Got? ==> p < r.next <= |s|
    decreases |s| - p, 2
  {
    var v := ReadValue(s, p);
    if v.Fail? then Fail
    else if Is(s, v.next, ']') then Got([v.value], v.next + 1)
    else if Is(s, v.next, ',') then
      var r := ReadItems(s, v.next + 1);
      if r.Fail? then Fail else Got([v.value] + r.value, r.next)
    else Fail
  }

  function ReadMember(s: string, p: nat): (r: Read<(string, Json)>)
    ensures r.Got? ==> p < r.next <= |s| && s[p] != '}'
    decreases |s| - p, 2
  {
    var k := ReadString(s, p);
    if k.Fail? || !Is(s, k.next, ':') then Fail
    else
      var v := ReadValue(s, k.next + 1);
      if v.Fail? then Fail else Got((k.value, v.value), v.next)
  }

  function ReadMembers(s: string, p: nat): (r: Read<seq<(string, Json)>>)
    ensures r.Got? ==> p < r.next <= |s|
    decreases |s| - p, 3
  {
    var m := ReadMember(s, p);
    if m.Fail? then Fail
    else if Is(s, m.next, '}') then Got([m.value], m.next + 1)
    else if Is(s, m.next, ',') then
      var r := ReadMembers(s, m.next + 1);
      if r.Fail? then Fail else Got([m.value] + r.value, r.next)
    else Fail
  }

  /** A whole text that is one value. */
  function Document(s: string): Option<Json>
  {
    var r := ReadValue(s, 0);
    if r.Got? && r.next == |s| then Some(r.value) else None
  }

  // ------------------------------------------------------------------ what a text spells

  /** Wherever `t` stands, a reader gets `v` out of it and goes on behind it. */
  ghost predicate Spells(t: string, v: Json)
  {
    forall s, p: nat :: At(s, t, p) ==> ReadValue(s, p) == Got(v, p + |t|)
  }

  ghost predicate SpellsMember(t: string, m: (string, Json))
  {
    forall s, p: nat :: At(s, t, p) ==> ReadMember(s, p) == Got(m, p + |t|)
  }

  /** A string body in which every quote is escaped. */
  predicate Body(raw: string)
    decreases |raw|
  {
    raw == "" ||
    (if raw[0] == '\\' then |raw| >= 2 && Body(raw[2..]) else raw[0] != '"' && Body(raw[1..]))
  }

  lemma AtConcat(s: string, a: string, b: string, p: nat)
    requires At(s, a + b, p)
    ensures At(s, a, p) && At(s, b, p + |a|)
  {
    var u := s[p..p + |a + b|];
    assert u[..|a|] == a && u[|a|..] == b;
    assert s[p..p + |a|] == u[..|a|];
    assert s[p + |a|..p + |a| + |b|] == u[|a|..];
  }

  lemma AtChar(s: string, c: char, p: nat)
    requires At(s, [c], p)
    ensures p < |s| && s[p] == c
  {
    assert s[p..p + 1][0] == c;
  }

  lemma {:induction false} EndOfBody(s: string, p: nat, raw: string)
    requires Body(raw) && At(s, raw, p) && p + |raw| < |s| && s[p + |raw|] == '"'
    ensures StringEnd(s, p) == Some(p + |raw|)
    decreases |raw|
  {
    if raw != "" {
      var n := if raw[0] == '\\' then 2 else 1;
      assert raw == raw[..n] + raw[n..];
      AtConcat(s, raw[..n], raw[n..], p);
      assert s[p] == s[p..p + n][0] == raw[0];
      EndOfBody(s, p + n, raw[n..]);
    }
  }

  function Quoted(raw: string): string
  {
    "\"" + raw + "\""
  }

  lemma QuotedAt(s: string, p: nat, raw: string)
    requires At(s, Quoted(raw), p)
    ensures p + |raw| + 1 < |s| && s[p] == '"' && At(s, raw, p + 1) && s[p + 1 + |raw|] == '"'
  {
    AtConcat(s, "\"" + raw, "\"", p);
    AtConcat(s, "\"", raw, p);
    AtChar(s, '"', p);
    AtChar(s, '"', p + 1 + |raw|);
  }

  lemma {:induction false} StringRead(s: string, p: nat, raw: string)
    requires At(s, Quoted(raw), p) && Body(raw)
    ensures ReadString(s, p) == if Unescape(raw).Some? then Got(Unescape(raw).value, p + |raw| + 2) else Fail
    ensures Is(s, p, '"')
  {
    QuotedAt(s, p, raw);
    EndOfBody(s, p + 1, raw);
    StringIs(s, p, raw, Unescape(raw));
  }

  lemma StringIs(s: string, p: nat, raw: string, text: Option<string>)
    requires p < |s| && s[p] == '"' && At(s, raw, p + 1) && StringEnd(s, p + 1) == Some(p + 1 + |raw|)
    requires Unescape(raw) == text
    ensures ReadString(s, p) == if text.Some? then Got(text.value, p + |raw| + 2) else Fail
  {
  }

  lemma {:induction false} UnescapeBody(raw: string)
    requires Unescape(raw).Some?
    ensures Body(raw)
    decreases |raw|
  {
    if raw != "" {
      if raw[0] != '\\' {
        UnescapeBody(raw[1..]);
      } else if Short(raw[1]).Some? {
        UnescapeBody(raw[2..]);
      } else {
        UnescapeBody(raw[6..]);
        HexPlain(raw[2..6]);
        BodyStep(raw, 5);
        BodyStep(raw, 4);
        BodyStep(raw, 3);
        BodyStep(raw, 2);
      }
    }
  }

  lemma HexPlain(h: string)
    requires |h| == 4 && Hex4(h).Some?
    ensures forall i :: 0 <= i < 4 ==> h[i] != '"' && h[i] != '\\'
  {
  }

  lemma {:induction false} BodyStep(raw: string, i: nat)
    requires i < |raw| && raw[i] != '"' && raw[i] != '\\' && Body(raw[i + 1..])
    ensures Body(raw[i..])
  {
    assert raw[i..][1..] == raw[i + 1..];
  }

  lemma Literal(raw: string)
    requires Unescape(raw).Some?
    ensures Spells(Quoted(raw), Str(Unescape(raw).value))
  {
    UnescapeBody(raw);
    forall s, p: nat | At(s, Quoted(raw), p)
      ensures ReadValue(s, p) == Got(Str(Unescape(raw).value), p + |Quoted(raw)|)
    {
      StringRead(s, p, raw);
    }
  }

  /** The texts `ts` with commas between them, and `close` behind them. */
  function Listed(ts: seq<string>, close: char): string
    requires ts != []
    decreases |ts|
  {
    if |ts| == 1 then ts[0] + [close] else ts[0] + ("," + Listed(ts[1..], close))
  }

  lemma {:induction false} ListedJoin(ts: seq<string>, close: char)
    requires ts != []
    ensures Listed(ts, close) == Join(ts, ",") + [close]
    decreases |ts|
  {
    if |ts| > 1 {
      ListedJoin(ts[1..], close);
      Regroup(ts[0], ",", Join(ts[1..], ","), [close]);
    }
  }

  lemma CommaAt(s: string, p: nat, t: string, rest: string)
    requires At(s, t + ("," + rest), p)
    ensures var q := p + |t|; At(s, t, p) && q < |s| && s[q] == ',' && At(s, rest, q + 1)
  {
    AtConcat(s, t, "," + rest, p);
    AtConcat(s, ",", rest, p + |t|);
    AtChar(s, ',', p + |t|);
  }

  lemma CloseAt(s: string, p: nat, t: string, close: char)
    requires At(s, t + [close], p)
    ensures var q := p + |t|; At(s, t, p) && q < |s| && s[q] == close
  {
    AtConcat(s, t, [close], p);
    AtChar(s, close, p + |t|);
  }

  /** From `p` on stand the texts `ts`, commas between them, and `close` behind them. */
  ghost predicate ListAt(s: string, p: nat, ts: seq<string>, close: char)
    requires ts != []
    decreases |ts|
  {
    At(s, ts[0], p) && p + |ts[0]| < |s| &&
    if |ts| == 1 then s[p + |ts[0]|] == close
    else s[p + |ts[0]|] == ',' && ListAt(s, p + |ts[0]| + 1, ts[1..], close)
  }

  lemma {:induction false} ListedAt(s: string, p: nat, ts: seq<string>, close: char)
    requires ts != [] && At(s, Listed(ts, close), p)
    ensures ListAt(s, p, ts, close)
    decreases |ts|
  {
    if |ts| == 1 {
      CloseAt(s, p, ts[0], close);
    } else {
      CommaAt(s, p, ts[0], Listed(ts[1..], close));
      ListedAt(s, p + |ts[0]| + 1, ts[1..], close);
    }
  }

  lemma SpelledAt(s: string, p: nat, t: string, v: Json)
    requires At(s, t, p) && Spells(t, v)
    ensures ReadValue(s, p) == Got(v, p + |t|)
  {
  }

  lemma SpelledMemberAt(s: string, p: nat, t: string, m: (string, Json))
    requires At(s, t, p) && SpellsMember(t, m)
    ensures ReadMember(s, p) == Got(m, p + |t|)
  {
  }

  lemma ItemsLast(s: string, p: nat, v: Json, q: nat)
    requires ReadValue(s, p) == Got(v, q) && q < |s| && s[q] == ']'
    ensures ReadItems(s, p) == Got([v], q + 1)
  {
  }

  lemma ItemsStep(s: string, p: nat, v: Json, q: nat, more: seq<Json>, next: nat)
    requires ReadValue(s, p) == Got(v, q) && q < |s| && s[q] == ',' && ReadItems(s, q + 1) == Got(more, next)
    ensures ReadItems(s, p) == Got([v] + more, next)
  {
  }

  lemma MembersLast(s: string, p: nat, m: (string, Json), q: nat)
    requires ReadMember(s, p) == Got(m, q) && q < |s| && s[q] == '}'
    ensures ReadMembers(s, p) == Got([m], q + 1)
  {
  }

  lemma MembersStep(s: string, p: nat, m: (string, Json), q: nat, more: seq<(string, Json)>, next: nat)
    requires ReadMember(s, p) == Got(m, q) && q < |s| && s[q] == ',' && ReadMembers(s, q + 1) == Got(more, next)
    ensures ReadMembers(s, p) == Got([m] + more, next)
  {
  }

  /** From `p` on a reader meets the values of `ts` one after the other. */
  ghost predicate ItemsChain(s: string, p: nat, ts: seq<string>, vs: seq<Json>)
    requires ts != [] && |ts| == |vs|
    decreases |ts|
  {
    var q := p + |ts[0]|;
    ReadValue(s, p) == Got(vs[0], q) && q < |s| &&
    if |ts| == 1 then s[q] == ']' else s[q] == ',' && ItemsChain(s, q + 1, ts[1..], vs[1..])
  }

  ghost predicate AllSpelled(ts: seq<string>, vs: seq<Json>)
    requires |ts| == |vs|
  {
    ts == [] || (Spells(ts[0], vs[0]) && AllSpelled(ts[1..], vs[1..]))
  }

  lemma {:induction false} MakeItemsChain(s: string, p: nat, ts: seq<string>, vs: seq<Json>)
    requires ts != [] && |ts| == |vs| && ListAt(s, p, ts, ']') && AllSpelled(ts, vs)
    ensures ItemsChain(s, p, ts, vs)
    decreases |ts|
  {
    SpelledAt(s, p, ts[0], vs[0]);
    if |ts| > 1 { MakeItemsChain(s, p + |ts[0]| + 1, ts[1..], vs[1..]); }
  }

  lemma {:induction false} ItemsRead(s: string, p: nat, ts: seq<string>, vs: seq<Json>)
    requires ts != [] && |ts| == |vs| && ItemsChain(s, p, ts, vs)
    ensures ReadItems(s, p) == Got(vs, p + |Listed(ts, ']')|)
    decreases |ts|
  {
    var q := p + |ts[0]|;
    if |ts| == 1 {
      ItemsLast(s, p, vs[0], q);
      assert vs == [vs[0]];
    } else {
      ItemsRead(s, q + 1, ts[1..], vs[1..]);
      ItemsStep(s, p, vs[0], q, vs[1..], q + 1 + |Listed(ts[1..], ']')|);
      assert vs == [vs[0]] + vs[1..];
    }
  }

  /** From `p` on a reader meets the members of `ts` one after the other. */
  ghost predicate MembersChain(s: string, p: nat, ts: seq<string>, ms: seq<(string, Json)>)
    requires ts != [] && |ts| == |ms|
    decreases |ts|
  {
    var q := p + |ts[0]|;
    ReadMember(s, p) == Got(ms[0], q) && q < |s| &&
    if |ts| == 1 then s[q] == '}' else s[q] == ',' && MembersChain(s, q + 1, ts[1..], ms[1..])
  }

  ghost predicate MembersSpelled(ts: seq<string>, ms: seq<(string, Json)>)
    requires |ts| == |ms|
  {
    ts == [] || (SpellsMember(ts[0], ms[0]) && MembersSpelled(ts[1..], ms[1..]))
  }

  lemma {:induction false} MakeMembersChain(s: string, p: nat, ts: seq<string>, ms: seq<(string, Json)>)
    requires ts != [] && |ts| == |ms| && ListAt(s, p, ts, '}') && MembersSpelled(ts, ms)
    ensures MembersChain(s, p, ts, ms)
    decreases |ts|
  {
    SpelledMemberAt(s, p, ts[0], ms[0]);
    if |ts| > 1 { MakeMembersChain(s, p + |ts[0]| + 1, ts[1..], ms[1..]); }
  }

  lemma {:induction false} MembersRead(s: string, p: nat, ts: seq<string>, ms: seq<(string, Json)>)
    requires ts != [] && |ts| == |ms| && MembersChain(s, p, ts, ms)
    ensures ReadMembers(s, p) == Got(ms, p + |Listed(ts, '}')|)
    decreases |ts|
  {
    var q := p + |ts[0]|;
    if |ts| == 1 {
      MembersLast(s, p, ms[0], q);
      assert ms == [ms[0]];
    } else {
      MembersRead(s, q + 1, ts[1..], ms[1..]);
      MembersStep(s, p, ms[0], q, ms[1..], q + 1 + |Listed(ts[1..], '}')|);
      assert ms == [ms[0]] + ms[1..];
    }
  }

  lemma ArrayIs(s: string, p: nat, vs: seq<Json>, next: nat)
    requires p < |s| && s[p] == '[' && ReadItems(s, p + 1) == Got(vs, next)
    ensures ReadValue(s, p) == Got(Arr(vs), next)
  {
    assert ReadValue(s, p + 1).Got?;
  }

  lemma ObjectIs(s: string, p: nat, ms: seq<(string, Json)>, next: nat)
    requires p < |s| && s[p] == '{' && ReadMembers(s, p + 1) == Got(ms, next)
    ensures ReadValue(s, p) == Got(Obj(ms), next)
  {
    assert ReadMember(s, p + 1).Got?;
  }

  lemma MemberIs(s: string, p: nat, key: string, colon: nat, v: Json, next: nat)
    requires ReadString(s, p) == Got(key, colon) && colon < |s| && s[colon] == ':'
    requires ReadValue(s, colon + 1) == Got(v, next)
    ensures ReadMember(s, p) == Got((key, v), next)
  {
  }

  function ArrayText(ts: seq<string>): string
  {
    "[" + Join(ts, ",") + "]"
  }

  function ObjectText(ts: seq<string>): string
  {
    "{" + Join(ts, ",") + "}"
  }

  function MemberText(key: string, t: string): string
  {
    Quoted(key) + ":" + t
  }

  lemma BracketsAt(s: string, p: nat, open: char, ts: seq<string>, close: char)
    requires ts != [] && At(s, [open] + Join(ts, ",") + [close], p)
    ensures p < |s| && s[p] == open && At(s, Listed(ts, close), p + 1)
    ensures |[open] + Join(ts, ",") + [close]| == 1 + |Listed(ts, close)|
  {
    ListedJoin(ts, close);
    var inner := Listed(ts, close);
    assert [open] + Join(ts, ",") + [close] == [open] + inner;
    AtConcat(s, [open], inner, p);
    AtChar(s, open, p);
  }

  /** An array of spelled values is spelled. */
  lemma ArraySpelled(ts: seq<string>, vs: seq<Json>)
    requires ts != [] && |ts| == |vs| && AllSpelled(ts, vs)
    ensures Spells(ArrayText(ts), Arr(vs))
  {
    forall s, p: nat | At(s, ArrayText(ts), p) ensures ReadValue(s, p) == Got(Arr(vs), p + |ArrayText(ts)|) {
      ArrayRead(s, p, ts, vs);
    }
  }

  lemma ArrayRead(s: string, p: nat, ts: seq<string>, vs: seq<Json>)
    requires ts != [] && |ts| == |vs| && AllSpelled(ts, vs)
    requires At(s, ArrayText(ts), p)
    ensures ReadValue(s, p) == Got(Arr(vs), p + |ArrayText(ts)|)
  {
    BracketsAt(s, p, '[', ts, ']');
    ListedAt(s, p + 1, ts, ']');
    MakeItemsChain(s, p + 1, ts, vs);
    ItemsRead(s, p + 1, ts, vs);
    ArrayIs(s, p, vs, p + 1 + |Listed(ts, ']')|);
  }

  /** An object of spelled members is spelled. */
  lemma ObjectSpelled(ts: seq<string>, ms: seq<(string, Json)>)
    requires ts != [] && |ts| == |ms| && MembersSpelled(ts, ms)
    ensures Spells(ObjectText(ts), Obj(ms))
  {
    forall s, p: nat | At(s, ObjectText(ts), p) ensures ReadValue(s, p) == Got(Obj(ms), p + |ObjectText(ts)|) {
      ObjectRead(s, p, ts, ms);
    }
  }

  lemma ObjectRead(s: string, p: nat, ts: seq<string>, ms: seq<(string, Json)>)
    requires ts != [] && |ts| == |ms| && MembersSpelled(ts, ms)
    requires At(s, ObjectText(ts), p)
    ensures ReadValue(s, p) == Got(Obj(ms), p + |ObjectText(ts)|)
  {
    BracketsAt(s, p, '{', ts, '}');
    ListedAt(s, p + 1, ts, '}');
    MakeMembersChain(s, p + 1, ts, ms);
    MembersRead(s, p + 1, ts, ms);
    ObjectIs(s, p, ms, p + 1 + |Listed(ts, '}')|);
  }

  lemma MemberAt(s: string, p: nat, key: string, t: string)
    requires At(s, MemberText(key, t), p)
    ensures var colon := p + |key| + 2; At(s, Quoted(key), p) && colon < |s| && s[colon] == ':' && At(s, t, colon + 1)
  {
    var colon := p + |key| + 2;
    AtConcat(s, Quoted(key) + ":", t, p);
    AtConcat(s, Quoted(key), ":", p);
    AtChar(s, ':', colon);
  }

  lemma {:induction false} MemberSpelled(key: string, t: string, v: Json)
    requires Unescape(key).Some? && Spells(t, v)
    ensures SpellsMember(MemberText(key, t), (Unescape(key).value, v))
  {
    UnescapeBody(key);
    var m := (Unescape(key).value, v);
    forall s, p: nat | At(s, MemberText(key, t), p) ensures ReadMember(s, p) == Got(m, p + |MemberText(key, t)|) {
      MemberRead(s, p, key, m.0, t, v);
    }
  }

  lemma {:induction false} KeyRead(s: string, p: nat, raw: string, key: string, t: string)
    requires At(s, MemberText(raw, t), p) && Body(raw) && Unescape(raw) == Some(key)
    ensures var colon := p + |raw| + 2;
            ReadString(s, p) == Got(key, colon) && colon < |s| && s[colon] == ':' && At(s, t, colon + 1)
  {
    MemberAt(s, p, raw, t);
    StringRead(s, p, raw);
  }

  lemma {:induction false} MemberRead(s: string, p: nat, raw: string, key: string, t: string, v: Json)
    requires At(s, MemberText(raw, t), p) && Body(raw) && Unescape(raw) == Some(key) && Spells(t, v)
    ensures ReadMember(s, p) == Got((key, v), p + |MemberText(raw, t)|)
  {
    var colon := p + |raw| + 2;
    KeyRead(s, p, raw, key, t);
    SpelledAt(s, colon + 1, t, v);
    MemberIs(s, p, key, colon, v, colon + 1 + |t|);
  }

  lemma SpelledDocument(t: string, v: Json)
    requires Spells(t, v)
    ensures Document(t) == Some(v)
  {
    assert t[0..0 + |t|] == t;
    assert At(t, t, 0);
  }
}
