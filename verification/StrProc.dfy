/**
 `StrProc`: three in-place loops that, on text without `~`, split on a token and drop
 the empty fields.
 */
module StrProc {
  import opened Text
  import opened Replace

  const TILDE := "~"

  function ExpandTabs(s: string): string
  {
    MapChar(s, '\t', "    ")
  }

  /** A newline goes away if it is the only one. */
  function DropLoneNewline(s: string): string
  {
    var pos := Find(s, "\n", 0);
    if pos.Some? && pos == FindLast(s, '\n') then s[..pos.value] + s[pos.value + 1..] else s
  }

  function Clean(s: string): string
  {
    DropLoneNewline(ExpandTabs(s))
  }

  /** What the three loops compute on any text. */
  function Fields(s: string, token: string): seq<string>
    requires token != ""
  {
    NonEmpty(Split(ReplaceAll(Clean(s), token, TILDE), TILDE))
  }

  // ------------------------------------------------------------------ the loops

  predicate AtTilde(s: string, p: nat)
  {
    p < |s| && s[p] == '~'
  }

  lemma ReplaceTilde(s: string, p: nat, token: string)
    requires token != "" && '~' !in token && AtTilde(s, p)
    ensures ReplaceAll(s[p..], token, TILDE) == TILDE + ReplaceAll(s[p + 1..], token, TILDE)
  {
    assert s[p..][0] == '~' && s[p..][1..] == s[p + 1..];
    assert token[0] in token;
  }

  lemma TildeStep(goal: string, s: string, start: nat, j: nat, token: string)
    requires token != "" && '~' !in token && start <= |s| && Find(s, token, start) == Some(j)
    requires goal == s[..start] + ReplaceAll(s[start..], token, TILDE)
    ensures var a := s[..j] + TILDE + s[j + |token|..];
            AtTilde(a, j) && goal == a[..j] + ReplaceAll(a[j..], token, TILDE)
  {
    var a := s[..j] + TILDE + s[j + |token|..];
    MassStep(goal, s, start, j, token, TILDE);
    ReplaceTilde(a, j, token);
    TildeMoves(a, j, ReplaceAll(a[j + 1..], token, TILDE));
  }

  lemma TildeMoves(a: string, j: nat, rest: string)
    requires AtTilde(a, j)
    ensures a[..j + 1] + rest == a[..j] + (TILDE + rest)
  {
  }

  lemma MatchPastTilde(s: string, start: nat, j: nat, token: string)
    requires token != "" && '~' !in token && AtTilde(s, start) && At(s, token, j)
    ensures j != start
  {
    assert s[j..j + |token|][0] == s[j];
    assert token[0] in token;
  }

  /** The replacement loop, whose cursor does not move past the inserted `~`. */
  method TildeTokens(s: string, token: string) returns (tmp: string)
    requires token != "" && '~' !in token
    ensures tmp == ReplaceAll(s, token, TILDE)
  {
    ghost var goal := ReplaceAll(s, token, TILDE);
    tmp := s;
    var start := 0;
    assert s == s[0..];
    while true
      invariant start <= |tmp|
      invariant goal == tmp[..start] + ReplaceAll(tmp[start..], token, TILDE)
      decreases |tmp| - start - if AtTilde(tmp, start) then 1 else 0
    {
      var found := Find(tmp, token, start);
      if found.None? {
        ReplaceRest(tmp, start, token, TILDE);
        assert tmp[..start] + tmp[start..] == tmp;
        break;
      }
      var j := found.value;
      if AtTilde(tmp, start) { MatchPastTilde(tmp, start, j, token); }
      TildeStep(goal, tmp, start, j, token);
      tmp := tmp[..j] + TILDE + tmp[j + |token|..];
      start := j;
    }
  }

  lemma SplitHead(f: string, rest: string)
    requires '~' !in f
    ensures Split(f + TILDE + rest, TILDE) == [f] + Split(rest, TILDE)
  {
    TildeFree(f);
    FindField(f, TILDE, rest);
    var s := f + TILDE + rest;
    assert s[..|f|] == f && s[|f| + 1..] == rest;
  }

  lemma TildeFree(f: string)
    requires '~' !in f
    ensures Free(f, TILDE)
  {
    forall i | 0 <= i < |f| ensures !At(f, TILDE, i) {
      assert f[i] in f;
      if i + 1 <= |f| { assert f[i..i + 1][0] == f[i]; }
    }
  }

  lemma SplitSingle(f: string)
    requires '~' !in f
    ensures Split(f, TILDE) == [f]
  {
    TildeFree(f);
    FindNone(f, TILDE);
  }

  lemma {:induction false} FirstField(s: string, i: nat)
    requires Find(s, TILDE, 0) == Some(i) && 0 < i
    ensures NonEmpty(Split(s, TILDE)) == [s[..i]] + NonEmpty(Split(s[i + 1..], TILDE))
  {
    var rest := Split(s[i + 1..], TILDE);
    assert Split(s, TILDE) == [s[..i]] + rest;
    assert ([s[..i]] + rest)[1..] == rest;
  }

  /** The collecting loop. */
  method SplitTildes(s: string) returns (coll: seq<string>)
    ensures coll == NonEmpty(Split(s, TILDE))
  {
    coll := [];
    var tmp := s;
    while true
      invariant NonEmpty(Split(s, TILDE)) == coll + NonEmpty(Split(tmp, TILDE))
      decreases |tmp|
    {
      tmp := SkipTildes(tmp);
      if tmp == "" {
        SplitSingle("");
        break;
      }
      var end := Find(tmp, TILDE, 0);
      assert !At(tmp, TILDE, 0) by { assert tmp[0..1] == [tmp[0]]; }
      if end.None? {
        assert Split(tmp, TILDE) == [tmp];
        NonEmptyId([tmp]);
        coll := coll + [tmp];
        break;
      }
      FirstField(tmp, end.value);
      coll := coll + [tmp[..end.value]];
      tmp := tmp[end.value + 1..];
    }
  }

  /** `tmp.substr(tmp.find_first_not_of("~"))`, or nothing if there is only `~`. */
  method SkipTildes(s: string) returns (r: string)
    ensures NonEmpty(Split(r, TILDE)) == NonEmpty(Split(s, TILDE))
    ensures |r| <= |s| && (r != "" ==> r[0] != '~')
  {
    r := s;
    while r != "" && r[0] == '~'
      invariant |r| <= |s| && NonEmpty(Split(r, TILDE)) == NonEmpty(Split(s, TILDE))
      decreases |r|
    {
      assert r == "" + TILDE + r[1..];
      SplitHead("", r[1..]);
      NonEmptyConcat([""], Split(r[1..], TILDE));
      r := r[1..];
    }
  }

  class StrProc {
    var fields: seq<string>

    constructor (input: string, token: string)
      requires token != "" && '~' !in token
      ensures fields == Fields(input, token)
    {
      ReplaceOne(input, '\t', "    ");
      var tmp := MassReplace(input, "\t", "    ");
      var pos := Find(tmp, "\n", 0);
      if pos.Some? && pos == FindLast(tmp, '\n') { tmp := tmp[..pos.value] + tmp[pos.value + 1..]; }
      tmp := TildeTokens(tmp, token);
      var coll := SplitTildes(tmp);
      fields := coll;
    }

    /** A missing field reads as the empty string. */
    function Get(i: nat): string
      reads this
    {
      Field(fields, i)
    }
  }

  // ------------------------------------------------------------------ against plain splitting

  lemma {:induction false} SplitUnfold(t: string, i: nat, token: string)
    requires token != "" && Find(t, token, 0) == Some(i)
    ensures Split(t, token) == [t[..i]] + Split(t[i + |token|..], token)
  {
  }

  lemma {:induction false} SplitReplaced(t: string, token: string)
    requires token != "" && '~' !in token && '~' !in t
    ensures Split(ReplaceAll(t, token, TILDE), TILDE) == Split(t, token)
    decreases |t|
  {
    assert t[0..] == t;
    var f := Find(t, token, 0);
    if f.None? {
      ReplaceRest(t, 0, token, TILDE);
      SplitSingle(t);
    } else {
      var i, rest := f.value, t[f.value + |token|..];
      assert ReplaceAll(t, token, TILDE) == t[..i] + TILDE + ReplaceAll(rest, token, TILDE) by {
        ReplaceStep(t, 0, i, token, TILDE);
      }
      SplitHead(t[..i], ReplaceAll(rest, token, TILDE));
      SplitReplaced(rest, token);
      SplitUnfold(t, i, token);
    }
  }

  lemma {:induction false} NoTildeInFields(s: string)
    ensures forall f :: f in Split(s, TILDE) ==> '~' !in f
    decreases |s|
  {
    var f := Find(s, TILDE, 0);
    var n := if f.Some? then f.value else |s|;
    forall k | 0 <= k < n ensures s[k] != '~' {
      FindLeast(s, TILDE, 0, k);
      assert s[k..k + 1] == [s[k]];
    }
    if f.Some? { NoTildeInFields(s[n + 1..]); }
  }

  lemma {:induction false} TildeInField(t: string, token: string) returns (f: string)
    requires token != "" && '~' !in token && '~' in t
    ensures f in Split(t, token) && '~' in f
    decreases |t|
  {
    var at := Find(t, token, 0);
    if at.None? {
      f := t;
    } else {
      var i, rest := at.value, t[at.value + |token|..];
      assert t == t[..i] + token + rest by { assert t[i..i + |token|] == token; }
      if '~' in t[..i] { f := t[..i]; } else { f := TildeInField(rest, token); }
    }
  }

  lemma {:induction false} TabsKeepTildes(s: string)
    ensures '~' in ExpandTabs(s) <==> '~' in s
    decreases |s|
  {
    if s != "" {
      TabsKeepTildes(s[1..]);
      assert s == [s[0]] + s[1..];
    }
  }

  lemma CleanKeepsTildes(s: string)
    ensures '~' in Clean(s) <==> '~' in s
  {
    TabsKeepTildes(s);
    var t := ExpandTabs(s);
    var pos := Find(t, "\n", 0);
    if pos.Some? {
      assert t[pos.value..pos.value + 1] == "\n";
      assert t == t[..pos.value] + "\n" + t[pos.value + 1..];
    }
  }

  /**
   `StrProc` is "split on the token and drop the empty fields" exactly on text without
   `~`, which it uses as a token of its own.
   */
  lemma SplitsExactly(s: string, token: string)
    requires token != "" && '~' !in token
    ensures Fields(s, token) == NonEmpty(Split(Clean(s), token)) <==> '~' !in s
  {
    CleanKeepsTildes(s);
    if '~' !in s {
      SplitReplaced(Clean(s), token);
    } else {
      var f := TildeInField(Clean(s), token);
      NoTildeInFields(ReplaceAll(Clean(s), token, TILDE));
      assert f in NonEmpty(Split(Clean(s), token));
    }
  }

  /** Text that `StrProc` takes as it stands. */
  predicate Neat(s: string)
  {
    '\t' !in s && '\n' !in s && '~' !in s
  }

  lemma {:induction false} NoTabs(s: string)
    requires '\t' !in s
    ensures ExpandTabs(s) == s
    decreases |s|
  {
    if s != "" {
      assert s == [s[0]] + s[1..];
      NoTabs(s[1..]);
    }
  }

  lemma CleanNeat(s: string)
    requires Neat(s)
    ensures Clean(s) == s && Clean(s + "\n") == s
  {
    NoTabs(s);
    NoTabs(s + "\n");
    forall k | 0 <= k ensures !At(s, "\n", k) { NewlineAt(s, k); }
    FindNowhere(s, "\n", 0);
    LoneNewline(s, "");
    assert s + "\n" + "" == s + "\n" && s + "" == s;
  }

  lemma FieldsNeat(s: string, token: string)
    requires Neat(s) && token != "" && '~' !in token
    ensures Fields(s, token) == NonEmpty(Split(s, token)) && Fields(s + "\n", token) == NonEmpty(Split(s, token))
  {
    CleanNeat(s);
    SplitReplaced(s, token);
  }

  lemma {:induction false} JoinNeat(parts: seq<string>, sep: string)
    requires Neat(sep) && forall p :: p in parts ==> Neat(p)
    ensures Neat(Join(parts, sep))
    decreases |parts|
  {
    if parts != [] { assert parts[0] in parts; }
    if |parts| > 1 {
      JoinNeat(parts[1..], sep);
      assert Join(parts, sep) == parts[0] + sep + Join(parts[1..], sep);
    }
  }

  /** Printing fields between separators and taking them apart again. */
  lemma FieldsJoin(parts: seq<string>, sep: string)
    requires HeadUnique(sep) && Neat(sep) && parts != [] && "" !in parts
    requires forall p :: p in parts ==> Neat(p) && Free(p, sep)
    ensures Fields(Join(parts, sep), sep) == parts && Fields(Join(parts, sep) + "\n", sep) == parts
  {
    JoinNeat(parts, sep);
    FieldsNeat(Join(parts, sep), sep);
    SplitJoin(parts, sep);
    NonEmptyId(parts);
  }

  // ------------------------------------------------------------------ tabs and newlines

  /** A tab comes as four blanks. */
  lemma TabField(a: string, b: string, token: string)
    requires token != ""
    ensures Fields(a + "\t" + b, token) == Fields(a + "    " + b, token)
  {
    TabExpanded(a, b);
  }

  lemma TabExpanded(a: string, b: string)
    ensures ExpandTabs(a + "\t" + b) == ExpandTabs(a) + "    " + ExpandTabs(b) == ExpandTabs(a + "    " + b)
  {
    MapCharConcat(a + "\t", b, '\t', "    ");
    MapCharConcat(a, "\t", '\t', "    ");
    MapCharConcat(a + "    ", b, '\t', "    ");
    MapCharConcat(a, "    ", '\t', "    ");
    NoTabs("    ");
    assert ExpandTabs("\t") == "    " by { assert "\t"[1..] == "" && ExpandTabs("") == ""; }
  }

  lemma NewlineAt(s: string, k: int)
    ensures At(s, "\n", k) <==> 0 <= k < |s| && s[k] == '\n'
  {
    if 0 <= k < |s| { assert s[k..k + 1] == [s[k]]; }
  }

  lemma FirstAndLast(s: string, k: nat)
    requires k < |s| && s[k] == '\n'
    ensures Find(s, "\n", 0).Some? && Find(s, "\n", 0).value <= k
    ensures FindLast(s, '\n').Some? && FindLast(s, '\n').value >= k
  {
    NewlineAt(s, k);
    FindLastOn(s, '\n', k);
    var first := Find(s, "\n", 0);
    if first.None? || first.value > k { FindLeast(s, "\n", 0, k); }
  }

  /** Two newlines or more all stay. */
  lemma ManyNewlines(a: string, b: string, c: string)
    ensures var s := a + "\n" + b + "\n" + c; DropLoneNewline(s) == s
  {
    var s := a + "\n" + b + "\n" + c;
    FirstAndLast(s, |a|);
    FirstAndLast(s, |a| + 1 + |b|);
  }

  /** A newline that is the only one goes. */
  lemma LoneNewline(a: string, b: string)
    requires '\n' !in a && '\n' !in b
    ensures DropLoneNewline(a + "\n" + b) == a + b
  {
    var s := a + "\n" + b;
    FirstAndLast(s, |a|);
    NewlineAt(s, Find(s, "\n", 0).value);
    assert forall k :: 0 <= k < |s| && s[k] == '\n' ==> k == |a|;
    assert s[..|a|] == a && s[|a| + 1..] == b;
  }

  lemma LineFree(s: string)
    requires Neat(s)
    ensures Free(s, "\n")
  {
    forall i | 0 <= i < |s| ensures !At(s, "\n", i) { NewlineAt(s, i); }
  }

  lemma {:induction false} LinesNoTabs(ls: seq<string>)
    requires forall l :: l in ls ==> Neat(l)
    ensures '\t' !in Join(ls, "\n") && '~' !in Join(ls, "\n")
    decreases |ls|
  {
    if ls != [] {
      assert Neat(ls[0]);
      if |ls| > 1 { LinesNoTabs(ls[1..]); }
    }
  }

  /** Three lines or more are split at the newlines, and empty ones go. */
  lemma LinesSplit(ls: seq<string>)
    requires |ls| >= 3 && forall l :: l in ls ==> Neat(l)
    ensures Fields(Join(ls, "\n"), "\n") == NonEmpty(ls)
  {
    CleanLines(ls);
    LinesNoTabs(ls);
    SplitReplaced(Join(ls, "\n"), "\n");
    forall l | l in ls ensures Free(l, "\n") { LineFree(l); }
    SplitJoin(ls, "\n");
  }

  lemma JoinThree(ls: seq<string>)
    requires |ls| >= 3
    ensures Join(ls, "\n") == ls[0] + "\n" + ls[1] + "\n" + Join(ls[2..], "\n")
  {
    assert ls[1..][1..] == ls[2..] && ls[1..][0] == ls[1];
    Regroup(ls[0] + "\n", ls[1], "\n", Join(ls[2..], "\n"));
  }

  lemma CleanLines(ls: seq<string>)
    requires |ls| >= 3 && forall l :: l in ls ==> Neat(l)
    ensures Clean(Join(ls, "\n")) == Join(ls, "\n")
  {
    LinesNoTabs(ls);
    NoTabs(Join(ls, "\n"));
    JoinThree(ls);
    ManyNewlines(ls[0], ls[1], Join(ls[2..], "\n"));
  }

  /** Exactly two lines come as one field, run together. */
  lemma TwoLines(a: string, b: string)
    requires Neat(a) && Neat(b)
    ensures Fields(a + "\n" + b, "\n") == if a + b == "" then [] else [a + b]
  {
    var s := a + "\n" + b;
    NoTabs(s);
    LoneNewline(a, b);
    LineFree(a + b);
    SplitReplaced(a + b, "\n");
    FindNone(a + b, "\n");
    assert Split(a + b, "\n") == [a + b];
    assert [a + b][1..] == [] && NonEmpty([]) == [];
  }
}
