/**
 The last stretch of an operational command: `ChunkerProcessor::writer` hands the words to
 `opc` as a JSON array in its environment.
 */
module Opc {
  import opened Text
  import opened Escape
  import opened Json
  import opened Http
  import R = RestClient
  import Url

  const KEY := "args"

  /** The text in the environment; empty words are not added, and no words give no text. */
  function ArgsText(words: seq<string>): string
  {
    var ws := NonEmpty(words);
    if ws == [] then "" else ObjectText([ArrayMember(KEY, QuotedAll(ws))])
  }

  function Texts(ws: seq<string>): map<string, seq<string>>
  {
    if ws == [] then map[] else map[KEY := ws]
  }

  method WriteArgs(words: seq<string>) returns (opcargs: string)
    ensures opcargs == ArgsText(words)
  {
    var args := new JSON();
    ghost var done := [];
    for i := 0 to |words|
      invariant args.Valid() && args.values == map[] && fresh(args)
      invariant done == NonEmpty(words[..i]) && args.arrays == QuotedArrays(Texts(done))
    {
      var _ := args.AddArray(KEY, words[i], false);
      WordAdded(words, i, done);
      done := NonEmpty(words[..i + 1]);
    }
    assert words[..|words|] == words;
    var order := if args.arrays == map[] then [] else [KEY];
    assert done == [] ==> args.arrays == map[];
    assert done != [] ==> KEY in args.arrays && args.arrays[KEY] == QuotedAll(done);
    opcargs := args.Serialize("", order, []);
    assert ValueMembers([], args.values) == [];
    assert done != [] ==> ArrayMembers([KEY], args.arrays) == [ArrayMember(KEY, QuotedAll(done))];
  }

  lemma WordAdded(words: seq<string>, i: nat, done: seq<string>)
    requires i < |words| && done == NonEmpty(words[..i])
    ensures var next, arrays := NonEmpty(words[..i + 1]), QuotedArrays(Texts(done));
            if words[i] == "" then next == done
            else QuotedArrays(Texts(next)) == arrays[KEY := Elements(arrays, KEY) + [Quoted(words[i])]]
  {
    assert words[..i + 1] == words[..i] + [words[i]];
    NonEmptyConcat(words[..i], [words[i]]);
    OneWord(words[i]);
    if words[i] != "" {
      QuotedGrows(Texts(done), KEY, words[i]);
      assert Elements(Texts(done), KEY) == done;
      assert Texts(done)[KEY := done + [words[i]]] == Texts(done + [words[i]]);
    }
  }

  lemma OneWord(w: string)
    ensures NonEmpty([w]) == if w == "" then [] else [w]
  {
    assert [w][1..] == [] && NonEmpty([]) == [];
  }

  // ------------------------------------------------------------------ what opc reads

  predicate PlainText(s: string)
  {
    forall c :: c in s ==> !Control(c) && c != '"' && c != '\\'
  }

  function AsStrings(ws: seq<string>): (r: seq<Json>)
    ensures |r| == |ws| && forall i :: 0 <= i < |ws| ==> r[i] == Str(ws[i])
  {
    if ws == [] then [] else [Str(ws[0])] + AsStrings(ws[1..])
  }

  ghost function OpcReads(words: seq<string>): Option<Json>
  {
    Document(ArgsText(words))
  }

  function Args(ws: seq<string>): Json
  {
    Obj([(KEY, Arr(AsStrings(ws)))])
  }

  /** The characters of the words in quotes, with a comma or the bracket behind each. */
  function Span(ws: seq<string>): nat
  {
    if ws == [] then 0 else |ws[0]| + 3 + Span(ws[1..])
  }

  lemma {:induction false} UnescapeLength(raw: string)
    requires Unescape(raw).Some?
    ensures var t := Unescape(raw).value; |t| <= |raw| && (|t| == |raw| ==> PlainText(t))
    decreases |raw|
  {
    if raw != "" {
      if raw[0] != '\\' {
        UnescapeLength(raw[1..]);
      } else if Short(raw[1]).Some? {
        UnescapeLength(raw[2..]);
      } else {
        UnescapeLength(raw[6..]);
      }
    }
  }

  lemma {:induction false} StringLength(s: string, p: nat)
    requires ReadString(s, p).Got?
    ensures var r := ReadString(s, p);
            && r.next - p >= |r.value| + 2
            && (r.next - p == |r.value| + 2 ==> PlainText(r.value))
  {
    var end := StringEnd(s, p + 1).value;
    UnescapeLength(s[p + 1..end]);
  }

  lemma StringValue(s: string, p: nat, w: string, q: nat)
    requires ReadValue(s, p) == Got(Str(w), q)
    ensures ReadString(s, p) == Got(w, q)
  {
  }

  lemma ItemsCases(s: string, p: nat, vs: seq<Json>, next: nat)
    requires ReadItems(s, p) == Got(vs, next)
    ensures vs != [] && ReadValue(s, p).Got? && ReadValue(s, p).value == vs[0]
    ensures var q := ReadValue(s, p).next;
            if |vs| == 1 then next == q + 1 else ReadItems(s, q + 1) == Got(vs[1..], next)
  {
    var v := ReadValue(s, p);
    if !Is(s, v.next, ']') {
      var r := ReadItems(s, v.next + 1);
      assert r.value != [] && ([v.value] + r.value)[1..] == r.value;
    }
  }

  /** Reading strings takes at least their own length, and no more only if nothing in them needs an escape. */
  lemma {:induction false} ItemsLength(s: string, p: nat, ws: seq<string>, next: nat)
    requires ReadItems(s, p) == Got(AsStrings(ws), next)
    ensures next - p >= Span(ws) && (next - p == Span(ws) ==> forall i :: 0 <= i < |ws| ==> PlainText(ws[i]))
    decreases |ws|
  {
    ItemsCases(s, p, AsStrings(ws), next);
    var q := ReadValue(s, p).next;
    StringValue(s, p, ws[0], q);
    StringLength(s, p);
    assert AsStrings(ws)[1..] == AsStrings(ws[1..]);
    if |ws| == 1 {
      assert Span(ws[1..]) == 0;
    } else {
      ItemsLength(s, q + 1, ws[1..], next);
      assert forall i :: 0 < i < |ws| ==> ws[i] == ws[1..][i - 1];
    }
  }

  lemma {:induction false} ListedSpan(ws: seq<string>)
    requires ws != []
    ensures |Listed(QuotedAll(ws), ']')| == Span(ws)
    decreases |ws|
  {
    if |ws| == 1 {
      assert Span(ws[1..]) == 0;
    } else {
      ListedSpan(ws[1..]);
      assert QuotedAll(ws)[1..] == QuotedAll(ws[1..]);
    }
  }

  lemma {:induction false} NonEmptySpan(words: seq<string>)
    ensures Span(NonEmpty(words)) <= Span(words)
    ensures Span(NonEmpty(words)) == Span(words) ==> NonEmpty(words) == words && "" !in words
    decreases |words|
  {
    if words != [] {
      NonEmptySpan(words[1..]);
      var rest := NonEmpty(words[1..]);
      if words[0] != "" {
        assert ([words[0]] + rest)[1..] == rest;
        assert words == [words[0]] + words[1..];
      } else {
        assert [] + rest == rest;
      }
    }
  }

  const HEAD := "{\"args\":["

  /** The text is a fixed beginning, the listed words and a brace. */
  lemma ArgsShape(ws: seq<string>)
    requires ws != []
    ensures ObjectText([ArrayMember(KEY, QuotedAll(ws))]) == HEAD + Listed(QuotedAll(ws), ']') + "}"
  {
    var ts := QuotedAll(ws);
    ListedJoin(ts, ']');
    assert Quoted(KEY) == "\"args\"";
    assert Join([ArrayMember(KEY, ts)], ",") == "\"args\":" + ("[" + Join(ts, ",") + "]");
  }

  lemma {:induction false} KeyAt(s: string)
    requires |s| > 9 && HEAD <= s && s[9] == '"'
    ensures ReadString(s, 1) == Got(KEY, 7) && s[7] == ':' && s[8] == '[' && s[0] == '{' && s[1] == '"'
  {
    assert forall i :: 0 <= i < 9 ==> s[i] == HEAD[i];
    PlainUnescape(KEY);
    assert s[1..7] == Quoted(KEY);
    assert At(s, Quoted(KEY), 1);
    assert Body(KEY) by { UnescapeBody(KEY); }
    StringRead(s, 1, KEY);
  }

  lemma MembersOne(s: string, p: nat, m: (string, Json), next: nat)
    requires ReadMembers(s, p) == Got([m], next)
    ensures ReadMember(s, p) == Got(m, next - 1)
  {
    var r := ReadMember(s, p);
    MembersSome(s, r.next + 1);
  }

  lemma MembersSome(s: string, p: nat)
    ensures ReadMembers(s, p).Got? ==> ReadMembers(s, p).value != []
  {
  }

  /** What is read as the arguments is read by the reader of arrays, up to the brace. */
  lemma ArgsItems(s: string, vs: seq<Json>)
    requires |s| > 9 && HEAD <= s && s[9] == '"' && Document(s) == Some(Obj([(KEY, Arr(vs))]))
    ensures ReadItems(s, 9) == Got(vs, |s| - 1)
  {
    KeyAt(s);
    assert ReadMembers(s, 1) == Got([(KEY, Arr(vs))], |s|);
    MembersOne(s, 1, (KEY, Arr(vs)), |s|);
    assert ReadValue(s, 8) == Got(Arr(vs), |s| - 1);
  }

  lemma ListedFirst(ws: seq<string>)
    requires ws != []
    ensures Quoted(ws[0]) <= Listed(QuotedAll(ws), ']')
  {
    assert QuotedAll(ws)[0] == Quoted(ws[0]);
  }

  lemma Between(a: string, f: string, l: string, z: string)
    requires f <= l
    ensures a <= a + l + z && At(a + l + z, f, |a|)
  {
    var s := a + l + z;
    assert l[..|f|] == f;
    assert s[|a|..|a| + |f|] == l[..|f|];
  }

  lemma ArgsBegin(ws: seq<string>)
    requires ws != []
    ensures var s := ObjectText([ArrayMember(KEY, QuotedAll(ws))]);
            |s| == 10 + Span(ws) && HEAD <= s && s[9] == '"' && At(s, Quoted(ws[0]), 9)
  {
    var l := Listed(QuotedAll(ws), ']');
    ArgsShape(ws);
    ListedSpan(ws);
    ListedFirst(ws);
    Between(HEAD, Quoted(ws[0]), l, "}");
    QuotedAt(HEAD + l + "}", 9, ws[0]);
  }

  lemma {:induction false} ArgsRead(ws: seq<string>)
    requires ws != [] && forall i :: 0 <= i < |ws| ==> PlainText(ws[i])
    ensures Document(ObjectText([ArrayMember(KEY, QuotedAll(ws))])) == Some(Args(ws))
  {
    forall i | 0 <= i < |ws| ensures Unescape(ws[i]) == Some(ws[i]) { PlainUnescape(ws[i]); }
    PlainUnescape(KEY);
    StringsSpelled(ws);
    assert Strings(ws) == AsStrings(ws);
    ArrayMemberSpelled(KEY, QuotedAll(ws), AsStrings(ws));
    var t, m := ArrayMember(KEY, QuotedAll(ws)), (KEY, Arr(AsStrings(ws)));
    assert MembersSpelled([t], [m]);
    ObjectSpelled([t], [m]);
    SpelledDocument(ObjectText([t]), Obj([m]));
  }

  /**
   `opc` reads the words as they are if and only if there are some, none is empty and none
   holds a double quote, a backslash or a control character.
   */
  lemma ArgsExactly(words: seq<string>)
    ensures OpcReads(words) == Some(Args(words)) <==>
            words != [] && forall i :: 0 <= i < |words| ==> words[i] != "" && PlainText(words[i])
  {
    var ws := NonEmpty(words);
    NonEmptySpan(words);
    if ws == [] {
      assert ReadValue("", 0) == Fail;
      assert words != [] ==> words[0] == "";
    } else {
      ArgsBegin(ws);
      var s := ArgsText(words);
      if OpcReads(words) == Some(Args(words)) {
        ArgsItems(s, AsStrings(words));
        ItemsLength(s, 9, words, |s| - 1);
      }
      if forall i :: 0 <= i < |words| ==> words[i] != "" && PlainText(words[i]) {
        NonEmptyId(words);
        ArgsRead(words);
      }
    }
  }

  /** The first word is read as it is if it is plain, whatever comes behind it. */
  lemma {:induction false} FirstRead(words: seq<string>, vs: seq<Json>)
    requires words != [] && words[0] != "" && PlainText(words[0]) && OpcReads(words) == Some(Obj([(KEY, Arr(vs))]))
    ensures vs != [] && vs[0] == Str(words[0])
  {
    var ws, s := NonEmpty(words), ArgsText(words);
    assert ws[0] == words[0];
    ArgsBegin(ws);
    ArgsItems(s, vs);
    ItemsCases(s, 9, vs, |s| - 1);
    PlainUnescape(words[0]);
    UnescapeBody(words[0]);
    StringRead(s, 9, words[0]);
  }

  // ------------------------------------------------------------------ from the client to opc

  lemma EscapedPlain(w: string)
    requires Url.Bytes(w)
    ensures PlainText(Url.EscapeToken(w))
  {
    Url.EscapedChars(w);
  }

  /** What `opc` reads of a command that the client sent. */
  ghost function Executed(token: string, cmd: string, user: string): Option<Json>
    requires Url.Bytes(cmd)
  {
    var got := R.Arrived(token, cmd, user);
    if got.Some? then OpcReads(got.value) else None
  }

  lemma FirstChanged(got: seq<string>, ws: seq<string>)
    requires ws != [] && got != [] && got[0] != "" && PlainText(got[0]) && got[0] != ws[0]
    ensures OpcReads(got) != Some(Args(ws))
  {
    if OpcReads(got) == Some(Args(ws)) { FirstRead(got, AsStrings(ws)); }
  }

  lemma WordsExecuted(ws: seq<string>)
    requires ws != [] && "" !in ws && Url.Bytes(ws[0])
    ensures OpcReads([Url.EscapeToken(ws[0])] + ws[1..]) == Some(Args(ws)) <==>
            R.PlainFirst(ws[0]) && forall i :: 0 <= i < |ws| ==> PlainText(ws[i])
  {
    var got := [Url.EscapeToken(ws[0])] + ws[1..];
    Url.NeedsNoEscape(ws[0]);
    Url.EscapedChars(ws[0]);
    EscapedPlain(ws[0]);
    if R.PlainFirst(ws[0]) {
      assert got == ws;
      ArgsExactly(ws);
    } else {
      FirstChanged(got, ws);
    }
  }

  /**
   Two or more plain words reach `opc` as they were typed if and only if the first needs no
   percent-escape and none holds a backslash or a control character.
   */
  lemma CommandExecuted(token: string, ws: seq<string>, user: string)
    requires R.FitWords(ws) && |ws| >= 2 && '<' !in token && '<' !in user
    ensures Url.Bytes(Join(ws, " "))
    ensures Executed(token, Join(ws, " "), user) == Some(Args(ws)) <==>
            R.PlainFirst(ws[0]) && forall i :: 0 <= i < |ws| ==> PlainText(ws[i])
  {
    R.JoinFit(ws);
    R.PlainTokens(ws);
    R.WordsArrive(token, Join(ws, " "), user, ws);
    assert "" !in ws by { assert forall w :: w in ws ==> R.Word(w); }
    WordsExecuted(ws);
  }
}
