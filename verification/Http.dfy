/**
 Class `JSON` of the HTTP layer: arrays and values under keys, printed as one object.
 */
module Http {
  import opened Text
  import opened Digits
  import opened Escape
  import opened Json

  const TWO63 := 0x8000_0000_0000_0000
  const TWO64 := 0x1_0000_0000_0000_0000

  /** `sprintf("%ld")` of an unsigned long. */
  function Signed(n: nat): string
    requires n < TWO64
  {
    if n < TWO63 then Decimal(n) else "-" + Decimal(TWO64 - n)
  }

  function Elements(arrays: map<string, seq<string>>, key: string): seq<string>
  {
    if key in arrays then arrays[key] else []
  }

  /** What every sequence of calls keeps: no empty key, no empty text, no empty array. */
  ghost predicate Stored(arrays: map<string, seq<string>>, values: map<string, string>)
  {
    && (forall k :: k in arrays ==> k != "" && arrays[k] != [] && "" !in arrays[k])
    && (forall k :: k in values ==> k != "" && values[k] != "")
  }

  /** An order in which the map is iterated. */
  ghost predicate Enumerates(ks: seq<string>, keys: set<string>)
  {
    (forall k :: k in ks <==> k in keys) && forall i, j :: 0 <= i < j < |ks| ==> ks[i] != ks[j]
  }

  // ------------------------------------------------------------------ the printed object

  function ArrayMember(key: string, ts: seq<string>): string
  {
    MemberText(key, ArrayText(ts))
  }

  function ArrayMembers(ks: seq<string>, arrays: map<string, seq<string>>): (r: seq<string>)
    requires forall k :: k in ks ==> k in arrays
    ensures |r| == |ks| && forall i :: 0 <= i < |ks| ==> r[i] == ArrayMember(ks[i], arrays[ks[i]])
  {
    if ks == [] then [] else [ArrayMember(ks[0], arrays[ks[0]])] + ArrayMembers(ks[1..], arrays)
  }

  function ValueMembers(ks: seq<string>, values: map<string, string>): (r: seq<string>)
    requires forall k :: k in ks ==> k in values
    ensures |r| == |ks| && forall i :: 0 <= i < |ks| ==> r[i] == MemberText(ks[i], Quoted(values[ks[i]]))
  {
    if ks == [] then [] else [MemberText(ks[0], Quoted(values[ks[0]]))] + ValueMembers(ks[1..], values)
  }

  function Members(aks: seq<string>, arrays: map<string, seq<string>>,
                   vks: seq<string>, values: map<string, string>): seq<string>
    requires (forall k :: k in aks ==> k in arrays) && (forall k :: k in vks ==> k in values)
  {
    ArrayMembers(aks, arrays) + ValueMembers(vks, values)
  }

  /** The comma join of the members in braces, and nothing at all for an object without members. */
  function Serialized(aks: seq<string>, arrays: map<string, seq<string>>,
                      vks: seq<string>, values: map<string, string>): string
    requires (forall k :: k in aks ==> k in arrays) && (forall k :: k in vks ==> k in values)
  {
    var members := Members(aks, arrays, vks, values);
    if members == [] then "" else ObjectText(members)
  }

  /** Each text with a comma behind it. */
  function Commas(ts: seq<string>): string
  {
    if ts == [] then "" else Commas(ts[..|ts| - 1]) + ts[|ts| - 1] + ","
  }

  /** The loops print a comma too many; without it the texts are joined. */
  lemma {:induction false} Trimmed(ts: seq<string>)
    requires ts != []
    ensures Commas(ts) == Join(ts, ",") + ","
    decreases |ts|
  {
    var n := |ts| - 1;
    if n == 0 {
      assert Commas(ts[..0]) == "" && "" + ts[0] == ts[0];
    } else {
      Trimmed(ts[..n]);
      JoinLast(ts[..n], ts[n]);
      assert ts == ts[..n] + [ts[n]];
    }
  }

  lemma {:induction false} JoinLast(ts: seq<string>, t: string)
    requires ts != []
    ensures Join(ts + [t], ",") == Join(ts, ",") + "," + t
    decreases |ts|
  {
    if |ts| > 1 {
      assert (ts + [t])[1..] == ts[1..] + [t];
      JoinLast(ts[1..], t);
      Regroup(ts[0] + ",", Join(ts[1..], ","), ",", t);
    } else {
      assert ts + [t] == [ts[0], t] && [ts[0], t][1..] == [t];
    }
  }

  lemma CommasSnoc(ts: seq<string>, t: string)
    ensures Commas(ts + [t]) == Commas(ts) + t + ","
  {
    assert (ts + [t])[..|ts|] == ts;
  }

  class JSON {
    var arrays: map<string, seq<string>>
    var values: map<string, string>

    ghost predicate Valid()
      reads this
    {
      Stored(arrays, values)
    }

    constructor ()
      ensures Valid() && arrays == map[] && values == map[]
    {
      arrays, values := map[], map[];
    }

    /** The text comes back as it was stored. */
    method AddArray(key: string, val: string, quoted: bool) returns (stored: string)
      requires Valid()
      modifies this
      ensures Valid() && values == old(values)
      ensures key == "" || val == "" ==> stored == val && arrays == old(arrays)
      ensures key != "" && val != "" ==>
              stored == (if quoted then val else Quoted(val)) &&
              arrays == old(arrays)[key := Elements(old(arrays), key) + [stored]]
    {
      stored := val;
      if key == "" || val == "" { return; }
      if !quoted { stored := Quoted(val); }
      if key !in arrays {
        assert [] + [stored] == [stored];
        arrays := arrays[key := [stored]];
      } else {
        arrays := arrays[key := arrays[key] + [stored]];
      }
    }

    method AddValue(key: string, val: string)
      requires Valid()
      modifies this
      ensures Valid() && arrays == old(arrays)
      ensures values == if key == "" || val == "" then old(values) else old(values)[key := val]
    {
      if key == "" || val == "" { return; }
      values := values[key := val];
    }

    method AddNumber(key: string, val: nat)
      requires Valid() && val < TWO64
      modifies this
      ensures Valid() && arrays == old(arrays)
      ensures values == if key == "" then old(values) else old(values)[key := Signed(val)]
    {
      if key == "" { return; }
      values := values[key := Signed(val)];
    }

    /** Printed in whatever order the two maps are iterated. */
    method Serialize(before: string, aks: seq<string>, vks: seq<string>) returns (rep: string)
      requires Valid() && Enumerates(aks, arrays.Keys) && Enumerates(vks, values.Keys)
      ensures rep == before + Serialized(aks, arrays, vks, values)
      ensures before == "" && (arrays != map[] || values != map[]) && ValuesMeant(vks, values) ==>
              forall texts :: arrays == QuotedArrays(texts) && TextsMeant(aks, texts) ==>
                Document(rep) == Some(Obj(StringTree(aks, texts) + ValueTree(vks, values)))
    {
      rep := Print(before, aks, vks);
      SomeKey(aks, arrays.Keys);
      SomeKey(vks, values.Keys);
      if before == "" && (arrays != map[] || values != map[]) && ValuesMeant(vks, values) {
        assert rep == Serialized(aks, arrays, vks, values);
        forall texts | arrays == QuotedArrays(texts) && TextsMeant(aks, texts)
          ensures Document(rep) == Some(Obj(StringTree(aks, texts) + ValueTree(vks, values)))
        {
          ReadBackStrings(aks, texts, vks, values);
        }
      }
    }

    /** The loops of `serialize`. */
    method Print(before: string, aks: seq<string>, vks: seq<string>) returns (rep: string)
      requires Valid() && Enumerates(aks, arrays.Keys) && Enumerates(vks, values.Keys)
      ensures rep == before + Serialized(aks, arrays, vks, values)
    {
      rep := before;
      SomeMember(aks, arrays, vks, values);
      ghost var members := Members(aks, arrays, vks, values);
      if arrays == map[] && values == map[] { return; }
      rep := AppendArrays(rep + "{", aks);
      rep := AppendValues(rep, vks, ArrayMembers(aks, arrays), before + "{");
      rep := CloseObject(before, rep, members);
    }

    method AppendArrays(before: string, aks: seq<string>) returns (rep: string)
      requires Valid() && forall k :: k in aks ==> k in arrays
      ensures rep == before + Commas(ArrayMembers(aks, arrays))
    {
      rep := before;
      ghost var members := ArrayMembers(aks, arrays);
      for i := 0 to |aks|
        invariant rep == before + Commas(members[..i])
      {
        assert aks[i] in aks;
        var elements := arrays[aks[i]];
        if elements != [] { rep := AppendArray(rep, aks[i], elements); }
        rep := rep + ",";
        CommasNext(members, i);
        Onward(before, Commas(members[..i]), members[i], rep);
      }
      assert members[..|members|] == members;
    }

    method AppendValues(before: string, vks: seq<string>, ghost have: seq<string>, ghost start: string)
      returns (rep: string)
      requires before == start + Commas(have) && forall k :: k in vks ==> k in values
      ensures rep == start + Commas(have + ValueMembers(vks, values))
    {
      rep := before;
      ghost var members := ValueMembers(vks, values);
      assert have + members[..0] == have;
      for i := 0 to |vks|
        invariant rep == start + Commas(have + members[..i])
      {
        assert vks[i] in vks;
        ghost var sofar := rep;
        rep := AppendValue(rep, vks[i], values[vks[i]]);
        ValueAppended(start, have, members, i, sofar, rep);
      }
      assert members[..|members|] == members;
    }
  }

  method AppendValue(before: string, key: string, val: string) returns (rep: string)
    ensures rep == before + MemberText(key, Quoted(val)) + ","
  {
    rep := before + "\"" + key + "\":\"" + val + "\",";
  }

  method CloseObject(ghost before: string, open: string, ghost members: seq<string>) returns (rep: string)
    requires members != [] && open == before + "{" + Commas(members)
    ensures rep == before + ObjectText(members)
  {
    rep := open[..|open| - 1];
    rep := rep + "}";
    Closing(before, rep, members);
  }

  lemma ValueAppended(start: string, have: seq<string>, ts: seq<string>, i: nat, before: string, after: string)
    requires i < |ts| && before == start + Commas(have + ts[..i]) && after == before + ts[i] + ","
    ensures after == start + Commas(have + ts[..i + 1])
  {
    ValuesNext(have, ts, i);
    Onward(start, Commas(have + ts[..i]), ts[i], after);
  }

  lemma ValuesNext(have: seq<string>, ts: seq<string>, i: nat)
    requires i < |ts|
    ensures Commas(have + ts[..i + 1]) == Commas(have + ts[..i]) + ts[i] + ","
  {
    assert have + ts[..i + 1] == (have + ts[..i]) + [ts[i]];
    CommasSnoc(have + ts[..i], ts[i]);
  }

  lemma CommasNext(ts: seq<string>, i: nat)
    requires i < |ts|
    ensures Commas(ts[..i + 1]) == Commas(ts[..i]) + ts[i] + ","
  {
    assert ts[..i + 1] == ts[..i] + [ts[i]];
    CommasSnoc(ts[..i], ts[i]);
  }

  lemma Onward(start: string, done: string, t: string, rep: string)
    requires rep == start + done + t + ","
    ensures rep == start + (done + t + ",")
  {
  }

  lemma Closing(before: string, rep: string, ts: seq<string>)
    requires ts != []
    requires var open := before + "{" + Commas(ts); rep == open[..|open| - 1] + "}"
    ensures rep == before + ObjectText(ts)
  {
    Trimmed(ts);
    var open := before + "{" + Commas(ts);
    assert open == (before + "{" + Join(ts, ",")) + ",";
    assert open[..|open| - 1] == before + "{" + Join(ts, ",");
  }

  lemma SomeMember(aks: seq<string>, arrays: map<string, seq<string>>, vks: seq<string>, values: map<string, string>)
    requires Enumerates(aks, arrays.Keys) && Enumerates(vks, values.Keys)
    ensures Members(aks, arrays, vks, values) == [] <==> arrays == map[] && values == map[]
  {
    SomeKey(aks, arrays.Keys);
    SomeKey(vks, values.Keys);
  }

  lemma SomeKey(ks: seq<string>, keys: set<string>)
    requires Enumerates(ks, keys)
    ensures ks == [] <==> keys == {}
  {
    assert ks != [] ==> ks[0] in keys;
    if k :| k in keys { assert k in ks; }
  }

  method AppendArray(before: string, key: string, elements: seq<string>) returns (rep: string)
    requires elements != []
    ensures rep == before + ArrayMember(key, elements)
  {
    rep := before + "\"" + key + "\":[";
    ghost var start := rep;
    for j := 0 to |elements|
      invariant rep == start + Commas(elements[..j])
    {
      assert elements[..j + 1] == elements[..j] + [elements[j]];
      CommasSnoc(elements[..j], elements[j]);
      rep := rep + elements[j] + ",";
    }
    assert elements[..|elements|] == elements;
    Trimmed(elements);
    rep := rep[..|rep| - 1];
    rep := rep + "]";
  }

  // ------------------------------------------------------------------ read back

  /** Every element of every array spells the value that `items` gives for it. */
  ghost predicate ArraysMeant(ks: seq<string>, arrays: map<string, seq<string>>, items: map<string, seq<Json>>)
  {
    forall k :: k in ks ==>
      && k in arrays && k in items && arrays[k] != [] && Unescape(k).Some?
      && |arrays[k]| == |items[k]| && AllSpelled(arrays[k], items[k])
  }

  ghost predicate ValuesMeant(ks: seq<string>, values: map<string, string>)
  {
    forall k :: k in ks ==> k in values && Unescape(k).Some? && Unescape(values[k]).Some?
  }

  function ArrayTree(ks: seq<string>, items: map<string, seq<Json>>): (r: seq<(string, Json)>)
    requires forall k :: k in ks ==> k in items && Unescape(k).Some?
    ensures |r| == |ks| && forall i :: 0 <= i < |ks| ==> r[i] == (Unescape(ks[i]).value, Arr(items[ks[i]]))
  {
    if ks == [] then [] else [(Unescape(ks[0]).value, Arr(items[ks[0]]))] + ArrayTree(ks[1..], items)
  }

  ghost function ValueTree(ks: seq<string>, values: map<string, string>): (r: seq<(string, Json)>)
    requires ValuesMeant(ks, values)
    ensures |r| == |ks|
    ensures forall i :: 0 <= i < |ks| ==> r[i] == (Unescape(ks[i]).value, Str(Unescape(values[ks[i]]).value))
  {
    if ks == [] then []
    else [(Unescape(ks[0]).value, Str(Unescape(values[ks[0]]).value))] + ValueTree(ks[1..], values)
  }

  lemma ArrayMemberSpelled(k: string, ts: seq<string>, vs: seq<Json>)
    requires ts != [] && |ts| == |vs| && AllSpelled(ts, vs) && Unescape(k).Some?
    ensures SpellsMember(ArrayMember(k, ts), (Unescape(k).value, Arr(vs)))
  {
    ArraySpelled(ts, vs);
    MemberSpelled(k, ArrayText(ts), Arr(vs));
  }

  lemma {:induction false} ArraysSpelled(ks: seq<string>, arrays: map<string, seq<string>>,
                                         items: map<string, seq<Json>>)
    requires ArraysMeant(ks, arrays, items)
    ensures MembersSpelled(ArrayMembers(ks, arrays), ArrayTree(ks, items))
    decreases |ks|
  {
    if ks != [] {
      ArrayMemberSpelled(ks[0], arrays[ks[0]], items[ks[0]]);
      ArraysSpelled(ks[1..], arrays, items);
      assert ArrayMembers(ks, arrays)[1..] == ArrayMembers(ks[1..], arrays);
      assert ArrayTree(ks, items)[1..] == ArrayTree(ks[1..], items);
    }
  }

  lemma {:induction false} ValuesSpelled(ks: seq<string>, values: map<string, string>)
    requires ValuesMeant(ks, values)
    ensures MembersSpelled(ValueMembers(ks, values), ValueTree(ks, values))
    decreases |ks|
  {
    if ks != [] {
      var v := values[ks[0]];
      Literal(v);
      MemberSpelled(ks[0], Quoted(v), Str(Unescape(v).value));
      ValuesSpelled(ks[1..], values);
      assert ValueMembers(ks, values)[1..] == ValueMembers(ks[1..], values);
      assert ValueTree(ks, values)[1..] == ValueTree(ks[1..], values);
    }
  }

  lemma {:induction false} SpelledConcat(a: seq<string>, ma: seq<(string, Json)>, b: seq<string>,
                                         mb: seq<(string, Json)>)
    requires |a| == |ma| && |b| == |mb| && MembersSpelled(a, ma) && MembersSpelled(b, mb)
    ensures MembersSpelled(a + b, ma + mb)
    decreases |a|
  {
    if a == [] {
      assert a + b == b && ma + mb == mb;
    } else {
      assert (a + b)[1..] == a[1..] + b && (ma + mb)[1..] == ma[1..] + mb;
      SpelledConcat(a[1..], ma[1..], b, mb);
    }
  }

  /**
   A printed object is read back as the arrays and values it was printed from.  Its
   text is again an element that may be stored in another object as it is.
   */
  lemma ReadBack(aks: seq<string>, arrays: map<string, seq<string>>, vks: seq<string>, values: map<string, string>,
                 items: map<string, seq<Json>>)
    requires ArraysMeant(aks, arrays, items) && ValuesMeant(vks, values) && (aks != [] || vks != [])
    ensures var tree := Obj(ArrayTree(aks, items) + ValueTree(vks, values));
            && Spells(Serialized(aks, arrays, vks, values), tree)
            && Document(Serialized(aks, arrays, vks, values)) == Some(tree)
  {
    ArraysSpelled(aks, arrays, items);
    ValuesSpelled(vks, values);
    var ts, ms := Members(aks, arrays, vks, values), ArrayTree(aks, items) + ValueTree(vks, values);
    SpelledConcat(ArrayMembers(aks, arrays), ArrayTree(aks, items), ValueMembers(vks, values), ValueTree(vks, values));
    ObjectSpelled(ts, ms);
    SpelledDocument(ObjectText(ts), Obj(ms));
  }

  // ------------------------------------------------------------------ arrays of strings

  function QuotedAll(texts: seq<string>): (r: seq<string>)
    ensures |r| == |texts| && forall i :: 0 <= i < |texts| ==> r[i] == Quoted(texts[i])
  {
    if texts == [] then [] else [Quoted(texts[0])] + QuotedAll(texts[1..])
  }

  /** What `AddArray` has made of the texts it was given to quote. */
  function QuotedArrays(texts: map<string, seq<string>>): map<string, seq<string>>
  {
    map k | k in texts :: QuotedAll(texts[k])
  }

  predicate Readable(texts: seq<string>)
  {
    forall i :: 0 <= i < |texts| ==> Unescape(texts[i]).Some?
  }

  function Strings(texts: seq<string>): (r: seq<Json>)
    requires Readable(texts)
    ensures |r| == |texts| && forall i :: 0 <= i < |texts| ==> r[i] == Str(Unescape(texts[i]).value)
  {
    if texts == [] then [] else [Str(Unescape(texts[0]).value)] + Strings(texts[1..])
  }

  lemma {:induction false} StringsSpelled(texts: seq<string>)
    requires Readable(texts)
    ensures AllSpelled(QuotedAll(texts), Strings(texts))
    decreases |texts|
  {
    if texts != [] {
      Literal(texts[0]);
      StringsSpelled(texts[1..]);
      assert QuotedAll(texts)[1..] == QuotedAll(texts[1..]) && Strings(texts)[1..] == Strings(texts[1..]);
    }
  }

  ghost predicate TextsMeant(ks: seq<string>, texts: map<string, seq<string>>)
  {
    forall k :: k in ks ==> k in texts && texts[k] != [] && Unescape(k).Some? && Readable(texts[k])
  }

  ghost function StringTree(ks: seq<string>, texts: map<string, seq<string>>): (r: seq<(string, Json)>)
    requires TextsMeant(ks, texts)
    ensures |r| == |ks| && forall i :: 0 <= i < |ks| ==> r[i] == (Unescape(ks[i]).value, Arr(Strings(texts[ks[i]])))
  {
    if ks == [] then [] else [(Unescape(ks[0]).value, Arr(Strings(texts[ks[0]])))] + StringTree(ks[1..], texts)
  }

  /** Arrays of texts that `AddArray` quoted are read back as arrays of the strings that these texts write. */
  lemma ReadBackStrings(aks: seq<string>, texts: map<string, seq<string>>, vks: seq<string>,
                        values: map<string, string>)
    requires TextsMeant(aks, texts) && ValuesMeant(vks, values) && (aks != [] || vks != [])
    ensures Document(Serialized(aks, QuotedArrays(texts), vks, values)) ==
            Some(Obj(StringTree(aks, texts) + ValueTree(vks, values)))
  {
    var arrays := QuotedArrays(texts);
    var items := map k | k in texts && Readable(texts[k]) :: Strings(texts[k]);
    forall k | k in aks
      ensures |arrays[k]| == |items[k]| && AllSpelled(arrays[k], items[k])
    {
      StringsSpelled(texts[k]);
    }
    ReadBack(aks, arrays, vks, values, items);
    assert ArrayTree(aks, items) == StringTree(aks, texts);
  }

  /** One more text for one key. */
  lemma QuotedGrows(texts: map<string, seq<string>>, key: string, val: string)
    ensures var more := texts[key := Elements(texts, key) + [val]];
            QuotedArrays(more) == QuotedArrays(texts)[key := Elements(QuotedArrays(texts), key) + [Quoted(val)]]
  {
    assert QuotedAll(Elements(texts, key) + [val]) == QuotedAll(Elements(texts, key)) + [Quoted(val)];
  }

  // ------------------------------------------------------------------ command output

  lemma {:induction false} EscapedBody(s: string)
    ensures Body(EscapeAll(s))
    decreases |s|
  {
    if s != "" {
      var e, rest := Esc(s[0]), EscapeAll(s[1..]);
      EscapedBody(s[1..]);
      assert (e + rest)[|e|..] == rest;
    }
  }

  /** The answer to a command: its escaped output as the one value of an object, and nothing for no output. */
  function Answer(output: string): string
  {
    if output == "" then "" else ObjectText([MemberText("message", Quoted(EscapeAll(output)))])
  }

  lemma EscapedSome(s: string)
    ensures EscapeAll(s) == "" <==> s == ""
  {
  }

  method AnswerMessage(stdout: string) returns (resp: string)
    ensures resp == Answer(stdout)
  {
    var json := new JSON();
    var message := EscapeOutput(stdout);
    EscapedSome(stdout);
    json.AddValue("message", message);
    var order := if message == "" then [] else ["message"];
    assert ArrayMembers([], json.arrays) == [];
    assert message != "" ==> ValueMembers(order, json.values) == [MemberText("message", Quoted(message))];
    resp := json.Serialize("", [], order);
  }

  lemma {:induction false} PlainUnescape(s: string)
    requires forall c :: c in s ==> !Control(c) && c != '"' && c != '\\'
    ensures Unescape(s) == Some(s)
    decreases |s|
  {
    if s != "" {
      PlainUnescape(s[1..]);
      assert s == [s[0]] + s[1..];
    }
  }

  lemma {:induction false} AnswerReads(raw: string, text: string)
    requires Unescape(raw) == Some(text)
    ensures Document(ObjectText([MemberText("message", Quoted(raw))])) == Some(Obj([("message", Str(text))]))
  {
    Literal(raw);
    PlainUnescape("message");
    var t, m := MemberText("message", Quoted(raw)), ("message", Str(text));
    MemberSpelled("message", Quoted(raw), Str(text));
    assert MembersSpelled([t], [m]);
    ObjectSpelled([t], [m]);
    SpelledDocument(ObjectText([t]), Obj([m]));
  }

  lemma {:induction false} AnswerFails(raw: string)
    requires Unescape(raw) == None && Body(raw)
    ensures Document(ObjectText([MemberText("message", Quoted(raw))])) == None
  {
    var m := MemberText("message", Quoted(raw));
    var s := ObjectText([m]);
    assert s[0] == '{' && s[1] == '"' && s[1..1 + |m|] == m;
    assert At(s, m, 1);
    ValueFails(s, raw);
    MemberFails(s);
  }

  lemma {:induction false} ValueFails(s: string, raw: string)
    requires At(s, MemberText("message", Quoted(raw)), 1) && Unescape(raw) == None && Body(raw)
    ensures ReadMember(s, 1) == Fail
  {
    MemberAt(s, 1, "message", Quoted(raw));
    StringRead(s, 11, raw);
    PlainUnescape("message");
    UnescapeBody("message");
    KeyRead(s, 1, "message", "message", Quoted(raw));
  }

  lemma MemberFails(s: string)
    requires |s| > 1 && s[0] == '{' && s[1] != '}' && ReadMember(s, 1) == Fail
    ensures Document(s) == None
  {
    assert ReadMembers(s, 1) == Fail;
  }

  /**
   The client reads the output itself out of the answer exactly when there is some and it
   holds no control character but the three that are escaped.
   */
  lemma {:induction false} AnswerExactly(output: string)
    ensures Document(Answer(output)) == Some(Obj([("message", Str(output))])) <==>
            output != "" && forall i :: 0 <= i < |output| ==> !Raw(output[i])
  {
    var raw := EscapeAll(output);
    EscapeExactly(output);
    EscapedBody(output);
    match Unescape(raw)
    case Some(text) =>
      AnswerReads(raw, text);
      assert Obj([("message", Str(text))]).members[0].1.text == text;
    case None => AnswerFails(raw);
  }

  /** Numbers below 2^63 read back; the others come as negative, 2^64 less. */
  lemma SignedReads(n: nat)
    requires n < TWO64
    ensures n < 0x8000_0000_0000_0000 ==> ReadDecimal(Signed(n)) == n
    ensures n >= 0x8000_0000_0000_0000 ==>
            Signed(n)[0] == '-' && ReadDecimal(Signed(n)[1..]) == 0x1_0000_0000_0000_0000 - n
  {
    if n < TWO63 {
      ReadPrinted(n);
    } else {
      ReadPrinted(TWO64 - n);
      assert Signed(n)[1..] == Decimal(TWO64 - n);
    }
  }

  /** An object with an array and a value, as it is printed. */
  lemma Printed()
    ensures Serialized(["a"], map["a" := QuotedAll(["b", "c"])], ["d"], map["d" := "e"]) ==
            "{\"a\":[\"b\",\"c\"],\"d\":\"e\"}"
  {
    var arrays, values := map["a" := QuotedAll(["b", "c"])], map["d" := "e"];
    assert Quoted("b") == "\"b\"" && Quoted("c") == "\"c\"";
    assert QuotedAll(["b", "c"]) == [Quoted("b"), Quoted("c")];
    assert Join(["\"b\"", "\"c\""], ",") == "\"b\",\"c\"" by { assert ["\"b\"", "\"c\""][1..] == ["\"c\""]; }
    var m, n := ArrayMember("a", ["\"b\"", "\"c\""]), MemberText("d", Quoted("e"));
    assert m == "\"a\":[\"b\",\"c\"]" && n == "\"d\":\"e\"";
    assert ArrayMembers(["a"], arrays) == [m] && ValueMembers(["d"], values) == [n];
    assert Members(["a"], arrays, ["d"], values) == [m, n];
    assert Join([m, n], ",") == m + "," + n by { assert [m, n][1..] == [n]; }
  }
}
