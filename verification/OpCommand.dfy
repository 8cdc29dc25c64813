/**
 The way of an operational command through the server, from a path to the words of the
 background process: `translate_rest_to_cli`, and what `tokenizeOpCmd` makes of its lines.
 */
module OpCommand {
  import opened Text
  import Url
  import T = Tokenizer

  const SLASH := '/'
  const QUOTE := '\''
  const DQUOTE := '"'

  // ------------------------------------------------------------------ translate_rest_to_cli

  /** Both ends of `t` are `q`; an empty token has no ends. */
  predicate Enclosed(t: string, q: char)
  {
    t != "" && t[0] == q && t[|t| - 1] == q
  }

  /** A decoded token as it is put on the command line. */
  function OnLine(t: string): string
  {
    if Enclosed(t, QUOTE) then t
    else if Enclosed(t, DQUOTE) then T.InQuotes(Substr(t, 1, |t| - 2))
    else T.InQuotes(t)
  }

  /** What is on the command line after the slash at `slash`. */
  function After(s: string, slash: nat): string
    requires slash < |s|
    decreases |s| - slash
  {
    match FindChar(s, SLASH, slash + 1)
    case None => " " + OnLine(Url.Decode(s[slash + 1..]))
    case Some(next) => " " + OnLine(Url.Decode(s[slash + 1..next])) + After(s, next)
  }

  /** The first word is taken over undecoded; a path of a single word gives nothing. */
  function Translate(s: string): string
  {
    match FindChar(s, SLASH, 1)
    case None => ""
    case Some(slash) => s[..slash] + After(s, slash)
  }

  lemma AfterStep(goal: string, cmd: string, s: string, slash: nat)
    requires slash < |s| && goal == cmd + After(s, slash)
    ensures match FindChar(s, SLASH, slash + 1)
            case None => goal == cmd + " " + OnLine(Url.Decode(s[slash + 1..]))
            case Some(next) => goal == cmd + " " + OnLine(Url.Decode(s[slash + 1..next])) + After(s, next)
  {
    var f := FindChar(s, SLASH, slash + 1);
    if f.None? {
      Regroup(cmd, " ", OnLine(Url.Decode(s[slash + 1..])), "");
    } else {
      Regroup(cmd, " ", OnLine(Url.Decode(s[slash + 1..f.value])), After(s, f.value));
    }
  }

  method TranslateRestToCli(inCmd: string) returns (cmd: string)
    ensures cmd == Translate(inCmd)
  {
    ghost var goal := Translate(inCmd);
    cmd := "";
    var ct, oldPos := 0, 0;
    var curPos := FindChar(inCmd, SLASH, oldPos + 1);
    while curPos.Some?
      invariant curPos == FindChar(inCmd, SLASH, oldPos + 1)
      invariant ct == 0 ==> oldPos == 0 && cmd == ""
      invariant ct > 0 ==> oldPos < |inCmd| && goal == cmd + After(inCmd, oldPos)
      decreases |inCmd| - oldPos
    {
      if ct == 0 {
        cmd := inCmd[..curPos.value];
      } else {
        var token := Url.Decode(inCmd[oldPos + 1..curPos.value]);
        AfterStep(goal, cmd, inCmd, oldPos);
        cmd := cmd + " " + OnLine(token);
      }
      oldPos := curPos.value;
      ct := ct + 1;
      curPos := FindChar(inCmd, SLASH, oldPos + 1);
    }
    if ct > 0 {
      var t := Url.Decode(inCmd[oldPos + 1..]);
      AfterStep(goal, cmd, inCmd, oldPos);
      cmd := cmd + " " + OnLine(t);
    }
  }

  /** The word between the quotes that `OnLine` leaves around a token. */
  function Inner(t: string): string
  {
    if |t| >= 2 && (Enclosed(t, QUOTE) || Enclosed(t, DQUOTE)) then t[1..|t| - 1] else t
  }

  /** A token that holds no quote of its own inside one matching pair. */
  predicate WellQuoted(t: string)
  {
    QUOTE !in Inner(t) && t != "\""
  }

  lemma LoneQuote(t: string)
    requires t != "" && (t[0] == QUOTE || t[0] == DQUOTE)
    ensures |t| == 1 ==> !WellQuoted(t)
  {
    if |t| == 1 { assert t == [t[0]] && Inner(t) == t; }
  }

  lemma OnLineQuotes(t: string)
    requires WellQuoted(t)
    ensures OnLine(t) == T.InQuotes(Inner(t))
  {
    if Enclosed(t, QUOTE) || Enclosed(t, DQUOTE) { LoneQuote(t); }
    if Enclosed(t, QUOTE) {
      assert t == [t[0]] + t[1..|t| - 1] + [t[|t| - 1]];
    }
  }

  function Inners(ts: seq<string>): (r: seq<string>)
    ensures |r| == |ts| && forall i :: 0 <= i < |ts| ==> r[i] == Inner(ts[i])
  {
    if ts == [] then [] else [Inner(ts[0])] + Inners(ts[1..])
  }

  /** The path parts of a token list, each decoding to its token. */
  ghost predicate Parts(es: seq<string>, ts: seq<string>)
  {
    |es| == |ts| && forall i :: 0 <= i < |es| ==> SLASH !in es[i] && Url.Decode(es[i]) == ts[i]
  }

  /** After the slash at `slash` come the parts `es`, with slashes between them. */
  ghost predicate Slashed(s: string, slash: nat, es: seq<string>)
    requires slash < |s| && es != []
    decreases |es|
  {
    var next := FindChar(s, SLASH, slash + 1);
    if |es| == 1 then next.None? && s[slash + 1..] == es[0]
    else next.Some? && s[slash + 1..next.value] == es[0] && Slashed(s, next.value, es[1..])
  }

  lemma {:induction false} JoinSlashed(s: string, slash: nat, es: seq<string>)
    requires slash < |s| && es != [] && s[slash + 1..] == Join(es, "/")
    requires forall i :: 0 <= i < |es| ==> SLASH !in es[i]
    ensures Slashed(s, slash, es)
    decreases |es|
  {
    if |es| == 1 {
      NoSlashAhead(s, slash, es[0]);
    } else {
      SlashAhead(s, slash, es[0], Join(es[1..], "/"));
      JoinSlashed(s, slash + 1 + |es[0]|, es[1..]);
    }
  }

  /** The tokens as they follow the first word on the line. */
  function Lines(ts: seq<string>): string
  {
    if ts == [] then "" else " " + OnLine(ts[0]) + Lines(ts[1..])
  }

  lemma AfterNext(s: string, slash: nat, t: string)
    requires slash < |s|
    requires match FindChar(s, SLASH, slash + 1)
             case None => Url.Decode(s[slash + 1..]) == t
             case Some(next) => Url.Decode(s[slash + 1..next]) == t
    ensures After(s, slash) ==
            match FindChar(s, SLASH, slash + 1)
            case None => " " + OnLine(t)
            case Some(next) => " " + OnLine(t) + After(s, next)
  {
  }

  lemma {:induction false} AfterParts(s: string, slash: nat, es: seq<string>, ts: seq<string>)
    requires slash < |s| && es != [] && Parts(es, ts) && Slashed(s, slash, es)
    ensures After(s, slash) == Lines(ts)
    decreases |es|
  {
    AfterNext(s, slash, ts[0]);
    if |es| == 1 {
      assert Lines(ts[1..]) == "";
    } else {
      AfterParts(s, FindChar(s, SLASH, slash + 1).value, es[1..], ts[1..]);
    }
  }

  /** Well-quoted tokens come as their insides in quotes. */
  lemma {:induction false} LinesTail(ts: seq<string>)
    requires forall t :: t in ts ==> WellQuoted(t)
    ensures Lines(ts) == T.Tail(Inners(ts))
    decreases |ts|
  {
    if ts != [] {
      OnLineQuotes(ts[0]);
      LinesTail(ts[1..]);
      assert Inners(ts)[1..] == Inners(ts[1..]);
    }
  }

  lemma {:induction false} LinesConcat(a: seq<string>, b: seq<string>)
    ensures Lines(a + b) == Lines(a) + Lines(b)
    decreases |a|
  {
    if a == [] {
      assert a + b == b && "" + Lines(b) == Lines(b);
    } else {
      assert (a + b)[1..] == a[1..] + b;
      LinesConcat(a[1..], b);
      assert " " + OnLine(a[0]) + (Lines(a[1..]) + Lines(b)) == Lines(a) + Lines(b);
    }
  }

  lemma NoSlashAhead(s: string, slash: nat, e: string)
    requires slash < |s| && s[slash + 1..] == e && SLASH !in e
    ensures FindChar(s, SLASH, slash + 1) == None
  {
    forall k | slash + 1 <= k < |s| ensures s[k] != SLASH { assert s[k] == e[k - slash - 1]; }
    FindCharNone(s, SLASH, slash + 1);
  }

  lemma SlashAhead(s: string, slash: nat, e: string, rest: string)
    requires slash < |s| && s[slash + 1..] == e + "/" + rest && SLASH !in e
    ensures var next := slash + 1 + |e|;
            && next < |s| && FindChar(s, SLASH, slash + 1) == Some(next)
            && s[slash + 1..next] == e && s[next + 1..] == rest
  {
    var next, u := slash + 1 + |e|, e + "/" + rest;
    assert |s| - (slash + 1) == |u|;
    assert forall k :: slash + 1 <= k < |s| ==> s[k] == u[k - slash - 1];
    forall k | slash + 1 <= k < next ensures s[k] != SLASH { assert s[k] == e[k - slash - 1]; }
    FindCharAt(s, SLASH, slash + 1, next);
    assert s[slash + 1..next] == e;
    assert s[next + 1..] == rest;
  }

  /** A path of several parts: the first raw, the others decoded and in quotes. */
  lemma TranslatePath(first: string, es: seq<string>, ts: seq<string>)
    requires first != "" && SLASH !in first[1..] && es != [] && Parts(es, ts)
    ensures Translate(first + "/" + Join(es, "/")) == first + Lines(ts)
  {
    var s, n := first + "/" + Join(es, "/"), |first|;
    assert s[n] == SLASH && s[..n] == first && s[n + 1..] == Join(es, "/");
    forall k | 1 <= k < n ensures s[k] != SLASH { assert s[k] == first[1..][k - 1]; }
    FindCharAt(s, SLASH, 1, n);
    JoinSlashed(s, n, es);
    AfterParts(s, n, es, ts);
  }

  // ------------------------------------------------------------------ tokenizing what was translated

  lemma OnLineEnds(t: string)
    ensures OnLine(t) != "" && OnLine(t)[|OnLine(t)| - 1] == QUOTE
  {
  }

  lemma {:induction false} AfterEnds(s: string, slash: nat)
    requires slash < |s|
    ensures After(s, slash) != "" && After(s, slash)[|After(s, slash)| - 1] == QUOTE
    decreases |s| - slash
  {
    match FindChar(s, SLASH, slash + 1)
    case None => OnLineEnds(Url.Decode(s[slash + 1..]));
    case Some(next) => AfterEnds(s, next);
  }

  /** The tokenizer ends on every translated path, whatever quotes are in it: its last quote is its end. */
  lemma AlwaysTerminates(s: string)
    ensures T.Terminates(Translate(s))
  {
    var line := Translate(s);
    match FindChar(s, SLASH, 1) {
      case None =>
      case Some(slash) => AfterEnds(s, slash);
    }
    T.EndsInQuote(line);
  }

  /**
   The tokenizer gives back whole the insides of the tokens on the line, if they are free of
   quotes or wrapped in one matching pair; an empty last one gets lost.
   */
  lemma TranslatedWords(first: string, ts: seq<string>)
    requires first != "" && ' ' !in first && first[0] != QUOTE && ts != [] && forall t :: t in ts ==> WellQuoted(t)
    ensures T.Words(first + Lines(ts)) == Some([first] + T.DropLastEmpty(Inners(ts)))
  {
    var xs := Inners(ts);
    LinesTail(ts);
    InnersFree(ts);
    assert xs == [xs[0]] + xs[1..];
    T.CommandWords(first, xs[0], xs[1..]);
  }

  lemma InnersFree(ts: seq<string>)
    requires forall t :: t in ts ==> WellQuoted(t)
    ensures forall x :: x in Inners(ts) ==> QUOTE !in x
  {
    forall i | 0 <= i < |ts| ensures QUOTE !in Inners(ts)[i] { assert WellQuoted(ts[i]); }
  }

  lemma LeafLine(leaf: string)
    ensures Lines(["\"" + leaf + "\""]) == " " + T.InQuotes(leaf)
  {
    var t: string := "\"" + leaf + "\"";
    var rest: seq<string> := [t][1..];
    assert t[1..1 + (|t| - 2)] == leaf;
    assert rest == [] && Lines(rest) == "";
  }

  /** A token in double quotes that holds a single quote comes in pieces, whatever well-quoted tokens are before it. */
  lemma QuoteInside(first: string, ts: seq<string>, leaf: string)
    requires first != "" && ' ' !in first && first[0] != QUOTE && forall t :: t in ts ==> WellQuoted(t)
    requires QUOTE in leaf
    ensures T.Words(first + Lines(ts + ["\"" + leaf + "\""])) != Some([first] + Inners(ts) + [leaf])
  {
    var xs, z := Inners(ts), " " + T.InQuotes(leaf);
    LinesConcat(ts, ["\"" + leaf + "\""]);
    LinesTail(ts);
    LeafLine(leaf);
    InnersFree(ts);
    T.TailBefore(xs, z);
    T.BrokenLast(first, xs, leaf);
  }

  /** An empty token, and one that is a single quote of either kind. */
  lemma ShortTokens()
    ensures OnLine("") == "''" && OnLine("\"") == "''" && OnLine("'") == "'"
  {
    assert Substr("\"", 1, -1) == "";
  }
}
