/**
 `ChunkerProcessor::tokenizeOpCmd`: splitting an operational command at blanks, with
 single-quoted words kept whole.  A quote that is opened but not closed, with a blank
 further on, sends the scan back to the beginning of the string.
 */
module Tokenizer {
  import opened Text

  const BLANK := ' '
  const QUOTE := '\''

  predicate Quoted(s: string)
  {
    s != "" && s[0] == QUOTE
  }

  /**
   The word that is left when no blank follows.  It never begins with a quote, so the
   source's extra test for a word that is a pair of quotes has nothing to skip.
   */
  function LastWord(s: string): string
  {
    if !Quoted(s) then s
    else match FindChar(s, QUOTE, 1) case None => s[1..] case Some(close) => s[1..close]
  }

  function Kept(w: string): seq<string>
  {
    if w == "" then [] else [w]
  }

  function Prepend(ws: seq<string>, r: Option<seq<string>>): Option<seq<string>>
  {
    if r.Some? then Some(ws + r.value) else None
  }

  /** What comes first in `s`: the end, an unclosed quote, or words and `skip` characters behind which to go on. */
  datatype Head = End(words: seq<string>) | Unclosed | Ahead(words: seq<string>, skip: nat)

  function Look(s: string): (h: Head)
    ensures h.Ahead? ==> 0 < h.skip <= |s|
  {
    match FindChar(s, BLANK, 0)
    case None => End(Kept(LastWord(s)))
    case Some(sep) =>
      if Quoted(s) then
        match FindChar(s, QUOTE, 1) case None => Unclosed case Some(close) => Ahead([s[1..close]], close + 1)
      else Ahead(Kept(s[..sep]), sep + 1)
  }

  // ------------------------------------------------------------------ the loop

  /** What one turn of the loop finds, by position as the source searches. */
  function LookAt(s: string, strloc: nat): Head
    requires strloc <= |s|
  {
    var sep, open := FindChar(s, BLANK, strloc), FindChar(s, QUOTE, strloc);
    if open == Some(strloc) then
      var close := FindChar(s, QUOTE, strloc + 1);
      if sep.None? then End(Kept(if close.None? then s[strloc + 1..] else s[strloc + 1..close.value]))
      else if close.None? then Unclosed
      else Ahead([s[strloc + 1..close.value]], close.value + 1 - strloc)
    else if sep.None? then End(Kept(s[strloc..]))
    else Ahead(Kept(s[strloc..sep.value]), sep.value + 1 - strloc)
  }

  lemma LookPlain(s: string, strloc: nat)
    requires strloc <= |s| && !Quoted(s[strloc..])
    ensures LookAt(s, strloc) == Look(s[strloc..])
  {
    var u, sep := s[strloc..], FindChar(s[strloc..], BLANK, 0);
    FindCharFrom(s, BLANK, strloc, 0);
    assert FindChar(s, QUOTE, strloc) != Some(strloc);
    if sep.Some? { assert u[..sep.value] == s[strloc..strloc + sep.value]; }
  }

  lemma LookQuoted(s: string, strloc: nat)
    requires strloc <= |s| && Quoted(s[strloc..])
    ensures LookAt(s, strloc) == Look(s[strloc..])
  {
    var u, close := s[strloc..], FindChar(s[strloc..], QUOTE, 1);
    FindCharFrom(s, BLANK, strloc, 0);
    FindCharFrom(s, QUOTE, strloc, 1);
    assert u[1..] == s[strloc + 1..];
    if close.Some? { assert u[1..close.value] == s[strloc + 1..strloc + close.value]; }
  }

  lemma LookAtIs(s: string, strloc: nat)
    requires strloc <= |s|
    ensures LookAt(s, strloc) == Look(s[strloc..])
  {
    if Quoted(s[strloc..]) { LookQuoted(s, strloc); } else { LookPlain(s, strloc); }
  }

  lemma LookAtAhead(s: string, strloc: nat)
    requires strloc <= |s| && LookAt(s, strloc).Ahead?
    ensures 0 < LookAt(s, strloc).skip && strloc + LookAt(s, strloc).skip <= |s|
  {
  }

  /** The words from position `strloc` on, or nothing if the scan never ends. */
  function WordsFrom(s: string, strloc: nat): Option<seq<string>>
    requires strloc <= |s|
    decreases |s| - strloc
  {
    var h := LookAt(s, strloc);
    if h.End? then Some(h.words)
    else if h.Unclosed? then None
    else LookAtAhead(s, strloc); Prepend(h.words, WordsFrom(s, strloc + h.skip))
  }

  function Words(s: string): Option<seq<string>>
  {
    WordsFrom(s, 0)
  }

  /** One turn of the loop: the words it pushes, and where the next turn starts. */
  method Turn(s: string, strloc: nat) returns (pushed: seq<string>, stop: bool, next: nat)
    requires strloc <= |s| && WordsFrom(s, strloc).Some?
    ensures stop ==> WordsFrom(s, strloc) == Some(pushed)
    ensures !stop ==> strloc < next <= |s| && WordsFrom(s, strloc) == Prepend(pushed, WordsFrom(s, next))
  {
    var h := LookAt(s, strloc);
    pushed, stop, next := h.words, h.End?, strloc;
    if h.Ahead? {
      LookAtAhead(s, strloc);
      next := strloc + h.skip;
    }
  }

  method TokenizeOpCmd(opmodecmd: string) returns (opcmdarr: seq<string>)
    requires Words(opmodecmd).Some?
    ensures opcmdarr == Words(opmodecmd).value
  {
    opcmdarr := [];
    var strloc, stop := 0, false;
    ghost var left := Words(opmodecmd);
    assert [] + left.value == left.value;
    while !stop
      invariant strloc <= |opmodecmd|
      invariant !stop ==> left == WordsFrom(opmodecmd, strloc) && Words(opmodecmd) == Prepend(opcmdarr, left)
      invariant stop ==> Words(opmodecmd) == Some(opcmdarr)
      decreases !stop, |opmodecmd| - strloc
    {
      var pushed, next;
      pushed, stop, next := Turn(opmodecmd, strloc);
      ghost var rest := if stop then Some([]) else WordsFrom(opmodecmd, next);
      assert pushed + [] == pushed;
      AddWords(left, opcmdarr, pushed, rest);
      opcmdarr := opcmdarr + pushed;
      left, strloc := rest, if stop then strloc else next;
    }
  }

  lemma AddWords(left: Option<seq<string>>, have: seq<string>, next: seq<string>, rest: Option<seq<string>>)
    requires left == Prepend(next, rest)
    ensures Prepend(have, left) == Prepend(have + next, rest)
    ensures rest == Some([]) ==> Prepend(have, left) == Some(have + next)
  {
    if rest.Some? { assert have + (next + rest.value) == have + next + rest.value; }
    assert have + next + [] == have + next;
  }

  // ------------------------------------------------------------------ termination, exactly

  /** The loop from `strloc` is over after at most `n` turns; an unclosed quote sends it back to 0. */
  predicate HaltsWithin(s: string, strloc: nat, n: nat)
    requires strloc <= |s|
    decreases n
  {
    n > 0 &&
    var h := LookAt(s, strloc);
    h.End? || (h.Unclosed? && HaltsWithin(s, 0, n - 1)) ||
    (h.Ahead? && strloc + h.skip <= |s| && HaltsWithin(s, strloc + h.skip, n - 1))
  }

  lemma {:induction false} Halts(s: string, strloc: nat) returns (n: nat)
    requires strloc <= |s| && WordsFrom(s, strloc).Some?
    ensures HaltsWithin(s, strloc, n)
    decreases |s| - strloc
  {
    var h := LookAt(s, strloc);
    n := 1;
    if h.Ahead? {
      LookAtAhead(s, strloc);
      n := Halts(s, strloc + h.skip);
      n := n + 1;
    }
  }

  lemma {:induction false} NeverHalts(s: string, strloc: nat, n: nat)
    requires strloc <= |s| && WordsFrom(s, strloc).None? && Words(s).None?
    ensures !HaltsWithin(s, strloc, n)
    decreases n
  {
    var h := LookAt(s, strloc);
    if n > 0 {
      if h.Unclosed? {
        NeverHalts(s, 0, n - 1);
      } else {
        LookAtAhead(s, strloc);
        NeverHalts(s, strloc + h.skip, n - 1);
      }
    }
  }

  ghost predicate Terminates(s: string)
  {
    exists n: nat :: HaltsWithin(s, 0, n)
  }

  /** The scan ends when `Words` is defined, and only then. */
  lemma TerminatesWords(s: string)
    ensures Terminates(s) <==> Words(s).Some?
  {
    if Words(s).Some? {
      var n := Halts(s, 0);
      assert HaltsWithin(s, 0, n);
    } else {
      forall n: nat ensures !HaltsWithin(s, 0, n) { NeverHalts(s, 0, n); }
    }
  }

  /** From `from` on, `u` is nothing but words in quotes and words with a blank behind them. */
  predicate Boundary(u: string, from: nat)
    requires from <= |u|
    decreases |u| - from
  {
    from == |u| ||
    match FindChar(u, if u[from] == QUOTE then QUOTE else BLANK, if u[from] == QUOTE then from + 1 else from)
    case None => false
    case Some(k) => Boundary(u, k + 1)
  }

  /** The last quote of the text opens a word, and a blank follows it. */
  predicate Stuck(s: string)
  {
    match FindLast(s, QUOTE)
    case None => false
    case Some(p) => FindChar(s, BLANK, p).Some? && Boundary(s[..p], 0)
  }

  lemma {:induction false} FindInPrefix(s: string, p: nat, c: char, from: nat)
    requires from <= p <= |s|
    ensures var f := FindChar(s, c, from); FindChar(s[..p], c, from) == if f.Some? && f.value < p then f else None
    decreases p - from
  {
    if from < p && s[from] != c { FindInPrefix(s, p, c, from + 1); }
  }

  predicate LastQuote(s: string, p: nat)
  {
    p < |s| && s[p] == QUOTE && forall k :: p < k < |s| ==> s[k] != QUOTE
  }

  lemma LastQuoteFound(s: string)
    ensures match FindLast(s, QUOTE)
            case None => forall k :: 0 <= k < |s| ==> s[k] != QUOTE
            case Some(p) => LastQuote(s, p)
  {
    var f := FindLast(s, QUOTE);
    if f.Some? {
      forall k | f.value < k < |s| ensures s[k] != QUOTE { assert s[k] == s[f.value + 1..][k - f.value - 1]; }
    }
  }

  lemma {:induction false} FindCharOn(s: string, c: char, from: nat, i: nat)
    requires from <= i < |s| && s[i] == c
    ensures FindChar(s, c, from).Some? && FindChar(s, c, from).value <= i
    decreases i - from
  {
    if s[from] != c { FindCharOn(s, c, from + 1, i); }
  }

  /** An unclosed quote is the last one, with a blank behind it. */
  lemma UnclosedWhere(s: string, strloc: nat)
    requires strloc <= |s|
    ensures LookAt(s, strloc).Unclosed? <==> LastQuote(s, strloc) && FindChar(s, BLANK, strloc).Some?
  {
    if LookAt(s, strloc).Unclosed? {
      forall k | strloc < k < |s| ensures s[k] != QUOTE {
        if s[k] == QUOTE { FindCharOn(s, QUOTE, strloc + 1, k); }
      }
    }
    if LastQuote(s, strloc) { FindCharNone(s, QUOTE, strloc + 1); }
  }

  /** Before the last quote there is always more to scan, up to the next quote or blank. */
  lemma LookBefore(s: string, strloc: nat, p: nat)
    requires strloc < p && LastQuote(s, p) && FindChar(s, BLANK, p).Some?
    ensures LookAt(s, strloc).Ahead?
    ensures var f := if s[strloc] == QUOTE then FindChar(s, QUOTE, strloc + 1) else FindChar(s, BLANK, strloc);
            f.Some? && strloc + LookAt(s, strloc).skip == f.value + 1
  {
    FindCharOn(s, BLANK, strloc, FindChar(s, BLANK, p).value);
    FindCharOn(s, QUOTE, strloc + 1, p);
  }

  lemma BoundaryNext(s: string, strloc: nat, p: nat, k: nat)
    requires strloc < p < |s|
    requires (if s[strloc] == QUOTE then FindChar(s, QUOTE, strloc + 1) else FindChar(s, BLANK, strloc)) == Some(k)
    ensures Boundary(s[..p], strloc) <==> k < p && Boundary(s[..p], k + 1)
  {
    assert s[..p][strloc] == s[strloc];
    FindInPrefix(s, p, BLANK, strloc);
    FindInPrefix(s, p, QUOTE, strloc + 1);
  }

  lemma WordsNext(s: string, strloc: nat)
    requires strloc <= |s| && LookAt(s, strloc).Ahead?
    ensures var next := strloc + LookAt(s, strloc).skip;
            strloc < next <= |s| && (WordsFrom(s, strloc).None? <==> WordsFrom(s, next).None?)
  {
    LookAtAhead(s, strloc);
  }

  /** The scan from `strloc` comes to stand on the last quote exactly when the text before it ends there. */
  lemma {:induction false} ComesTo(s: string, strloc: nat, p: nat)
    requires strloc <= p && LastQuote(s, p) && FindChar(s, BLANK, p).Some?
    ensures WordsFrom(s, strloc).None? <==> Boundary(s[..p], strloc)
    decreases p - strloc
  {
    if strloc == p {
      UnclosedWhere(s, p);
    } else {
      var next := ComesOn(s, strloc, p);
      if next <= p { ComesTo(s, next, p); } else { PastLast(s, next, p); }
    }
  }

  lemma ComesOn(s: string, strloc: nat, p: nat) returns (next: nat)
    requires strloc < p && LastQuote(s, p) && FindChar(s, BLANK, p).Some?
    ensures strloc < next <= |s| && (WordsFrom(s, strloc).None? <==> WordsFrom(s, next).None?)
    ensures Boundary(s[..p], strloc) <==> next <= p && Boundary(s[..p], next)
  {
    next := LookBeyond(s, strloc, p);
    BoundaryNext(s, strloc, p, next - 1);
  }

  lemma LookBeyond(s: string, strloc: nat, p: nat) returns (next: nat)
    requires strloc < p && LastQuote(s, p) && FindChar(s, BLANK, p).Some?
    ensures strloc < next <= |s| && (WordsFrom(s, strloc).None? <==> WordsFrom(s, next).None?)
    ensures (if s[strloc] == QUOTE then FindChar(s, QUOTE, strloc + 1) else FindChar(s, BLANK, strloc)) ==
            Some(next - 1)
  {
    LookBefore(s, strloc, p);
    next := strloc + LookAt(s, strloc).skip;
    WordsNext(s, strloc);
  }

  lemma {:induction false} PastLast(s: string, strloc: nat, p: int)
    requires p < strloc <= |s| && forall k :: p < k < |s| ==> k < 0 || s[k] != QUOTE
    ensures WordsFrom(s, strloc).Some?
    decreases |s| - strloc
  {
    UnclosedWhere(s, strloc);
    if LookAt(s, strloc).Ahead? {
      WordsNext(s, strloc);
      PastLast(s, strloc + LookAt(s, strloc).skip, p);
    }
  }

  /** Without a blank behind the last quote, no quote is ever found open. */
  lemma {:induction false} NeverOpen(s: string, strloc: nat, p: nat)
    requires strloc <= |s| && LastQuote(s, p) && FindChar(s, BLANK, p).None?
    ensures WordsFrom(s, strloc).Some?
    decreases |s| - strloc
  {
    UnclosedWhere(s, strloc);
    if LookAt(s, strloc).Ahead? {
      WordsNext(s, strloc);
      NeverOpen(s, strloc + LookAt(s, strloc).skip, p);
    }
  }

  /**
   The scan ends if and only if it is not so that the last quote of the text has a blank
   behind it and the text before it is words in quotes and words with a blank behind them.
   */
  lemma TerminatesExactly(s: string)
    ensures Terminates(s) <==> !Stuck(s)
  {
    TerminatesWords(s);
    LastQuoteFound(s);
    match FindLast(s, QUOTE)
    case None => PastLast(s, 0, -1);
    case Some(p) => if FindChar(s, BLANK, p).Some? { ComesTo(s, 0, p); } else { NeverOpen(s, 0, p); }
  }

  /** An empty text, and one that ends in a quote, is scanned to its end. */
  lemma EndsInQuote(s: string)
    requires s == "" || s[|s| - 1] == QUOTE
    ensures Terminates(s)
  {
    LastQuoteFound(s);
    if s != "" { FindCharNone(s, BLANK, |s| - 1); }
    TerminatesExactly(s);
  }

  /** A quote that is opened and not closed, with a blank behind it, is scanned for ever. */
  lemma ForEver()
    ensures !Terminates("show 'a b") && Terminates("show 'a")
  {
    var s, t := "show 'a b", "show 'a";
    assert s[5] == QUOTE && FindLast(s, QUOTE) == Some(5) by { LastQuoteFound(s); }
    FindCharOn(s, BLANK, 5, 7);
    assert Boundary(s[..5], 0) by {
      assert s[..5] == "show " && "show "[4] == BLANK;
      FindCharAt("show ", BLANK, 0, 4);
    }
    TerminatesExactly(s);
    assert t[5] == QUOTE && FindLast(t, QUOTE) == Some(5) by { LastQuoteFound(t); }
    FindCharNone(t, BLANK, 5);
    TerminatesExactly(t);
  }

  // ------------------------------------------------------------------ quoted words

  /** Words in quotes, each after a blank: what `translate_rest_to_cli` puts behind the first word. */
  function Tail(xs: seq<string>): string
  {
    if xs == [] then "" else " " + InQuotes(xs[0]) + Tail(xs[1..])
  }

  function InQuotes(x: string): string
  {
    "'" + x + "'"
  }

  /** A last word that is empty gets lost; empty words before it do not. */
  function DropLastEmpty(xs: seq<string>): seq<string>
  {
    if xs == [] then [] else if |xs| == 1 then Kept(xs[0]) else [xs[0]] + DropLastEmpty(xs[1..])
  }

  lemma LookInQuotes(x: string, rest: seq<string>)
    requires QUOTE !in x
    ensures Look(InQuotes(x) + Tail(rest)) ==
            if rest == [] && BLANK !in x then End(Kept(x)) else Ahead([x], |x| + 2)
  {
    var u := InQuotes(x) + Tail(rest);
    assert u[|x| + 1] == QUOTE && u[1..|x| + 1] == x;
    FindCharAt(u, QUOTE, 1, |x| + 1);
    if rest == [] && BLANK !in x {
      FindCharNone(u, BLANK, 0);
    } else {
      var i := if rest != [] then |x| + 2 else FirstIndex(x, BLANK) + 1;
      assert u[i] == BLANK;
      FindCharSome(u, BLANK, 0, i);
    }
  }

  function FirstIndex(x: string, c: char): (i: nat)
    requires c in x
    ensures i < |x| && x[i] == c
  {
    if x[0] == c then 0 else FirstIndex(x[1..], c) + 1
  }

  lemma LookTail(rest: seq<string>)
    ensures Look(Tail(rest)) == if rest == [] then End([]) else Ahead([], 1)
  {
    var u := Tail(rest);
    if rest == [] {
      FindCharNone("", BLANK, 0);
    } else {
      assert u[0] == BLANK && u[..0] == "";
      FindCharAt(u, BLANK, 0, 0);
    }
  }

  lemma DropPrefix(s: string, strloc: nat, head: string, tail: string)
    requires strloc <= |s| && s[strloc..] == head + tail
    ensures strloc + |head| <= |s| && s[strloc + |head|..] == tail
  {
    assert s[strloc..][|head|..] == s[strloc + |head|..];
  }

  lemma WordsStep(s: string, strloc: nat, ws: seq<string>, skip: nat)
    requires strloc + skip <= |s| && LookAt(s, strloc) == Ahead(ws, skip)
    ensures WordsFrom(s, strloc) == Prepend(ws, WordsFrom(s, strloc + skip))
  {
  }

  lemma DropCons(x: string, rest: seq<string>)
    requires rest != [] || x != ""
    ensures [x] + DropLastEmpty(rest) == DropLastEmpty([x] + rest)
  {
    assert ([x] + rest)[1..] == rest;
  }

  lemma WordsEnd(s: string, strloc: nat, ws: seq<string>)
    requires strloc <= |s| && LookAt(s, strloc) == End(ws)
    ensures WordsFrom(s, strloc) == Some(ws)
  {
  }

  lemma WordsFollow(s: string, strloc: nat, x: string, skip: nat, ws: seq<string>)
    requires strloc + skip <= |s| && LookAt(s, strloc) == Ahead([x], skip) && WordsFrom(s, strloc + skip) == Some(ws)
    ensures WordsFrom(s, strloc) == Some([x] + ws)
  {
  }

  /** From `p` on, the turns of the loop are those for the quoted word `x` and the words `rest`. */
  ghost predicate Chain(s: string, p: nat, x: string, rest: seq<string>)
    requires p <= |s|
    decreases |rest|, 1
  {
    if rest == [] && BLANK !in x then LookAt(s, p) == End(Kept(x))
    else p + |x| + 2 <= |s| && LookAt(s, p) == Ahead([x], |x| + 2) && TailChain(s, p + |x| + 2, rest)
  }

  ghost predicate TailChain(s: string, p: nat, rest: seq<string>)
    requires p <= |s|
    decreases |rest|, 0
  {
    if rest == [] then LookAt(s, p) == End([])
    else p + 1 <= |s| && LookAt(s, p) == Ahead([], 1) && Chain(s, p + 1, rest[0], rest[1..])
  }

  lemma {:induction false} ChainWords(s: string, p: nat, x: string, rest: seq<string>)
    requires p <= |s| && Chain(s, p, x, rest)
    ensures WordsFrom(s, p) == Some(DropLastEmpty([x] + rest))
    decreases |rest|, 1
  {
    if rest == [] && BLANK !in x {
      assert [x] + rest == [x];
      WordsEnd(s, p, Kept(x));
    } else {
      TailChainWords(s, p + |x| + 2, rest);
      WordsFollow(s, p, x, |x| + 2, DropLastEmpty(rest));
      DropCons(x, rest);
    }
  }

  lemma {:induction false} TailChainWords(s: string, p: nat, rest: seq<string>)
    requires p <= |s| && TailChain(s, p, rest)
    ensures WordsFrom(s, p) == Some(DropLastEmpty(rest))
    decreases |rest|, 0
  {
    if rest == [] {
      WordsEnd(s, p, []);
    } else {
      ChainWords(s, p + 1, rest[0], rest[1..]);
      WordsStep(s, p, [], 1);
      assert [rest[0]] + rest[1..] == rest && [] + DropLastEmpty(rest) == DropLastEmpty(rest);
    }
  }

  lemma LookQuotedAt(s: string, strloc: nat, x: string, rest: seq<string>)
    requires strloc <= |s| && s[strloc..] == InQuotes(x) + Tail(rest) && QUOTE !in x
    ensures LookAt(s, strloc) == if rest == [] && BLANK !in x then End(Kept(x)) else Ahead([x], |x| + 2)
    ensures strloc + |x| + 2 <= |s| && s[strloc + |x| + 2..] == Tail(rest)
  {
    LookAtIs(s, strloc);
    LookInQuotes(x, rest);
    DropPrefix(s, strloc, InQuotes(x), Tail(rest));
    assert |InQuotes(x)| == |x| + 2;
  }

  /** Quoted words come out whole, whatever blanks they contain. */
  lemma {:induction false} QuotedWords(s: string, strloc: nat, x: string, rest: seq<string>)
    requires strloc <= |s| && s[strloc..] == InQuotes(x) + Tail(rest)
    requires QUOTE !in x && forall y :: y in rest ==> QUOTE !in y
    ensures Chain(s, strloc, x, rest)
    decreases |rest|, 1
  {
    LookQuotedAt(s, strloc, x, rest);
    var next := strloc + |x| + 2;
    if !(rest == [] && BLANK !in x) { TailWords(s, next, rest); }
    MakeChain(s, strloc, x, rest, next);
  }

  lemma MakeChain(s: string, p: nat, x: string, rest: seq<string>, next: nat)
    requires next == p + |x| + 2 && next <= |s|
    requires LookAt(s, p) == if rest == [] && BLANK !in x then End(Kept(x)) else Ahead([x], |x| + 2)
    requires (rest == [] && BLANK !in x) || TailChain(s, next, rest)
    ensures Chain(s, p, x, rest)
  {
  }

  lemma LookTailAt(s: string, strloc: nat, rest: seq<string>)
    requires strloc <= |s| && s[strloc..] == Tail(rest)
    ensures LookAt(s, strloc) == if rest == [] then End([]) else Ahead([], 1)
    ensures rest != [] ==> strloc + 1 <= |s| && s[strloc + 1..] == InQuotes(rest[0]) + Tail(rest[1..])
  {
    LookAtIs(s, strloc);
    LookTail(rest);
    if rest != [] {
      var u := InQuotes(rest[0]) + Tail(rest[1..]);
      assert " " + u == Tail(rest);
      DropPrefix(s, strloc, " ", u);
    }
  }

  lemma {:induction false} TailWords(s: string, strloc: nat, rest: seq<string>)
    requires strloc <= |s| && s[strloc..] == Tail(rest) && forall y :: y in rest ==> QUOTE !in y
    ensures TailChain(s, strloc, rest)
    decreases |rest|, 0
  {
    LookTailAt(s, strloc, rest);
    if rest != [] { QuotedWords(s, strloc + 1, rest[0], rest[1..]); }
  }

  /** A plain first word and quoted words after it. */
  lemma CommandWords(first: string, x: string, rest: seq<string>)
    requires first != "" && BLANK !in first && first[0] != QUOTE
    requires QUOTE !in x && forall y :: y in rest ==> QUOTE !in y
    ensures Words(first + Tail([x] + rest)) == Some([first] + DropLastEmpty([x] + rest))
  {
    var xs := [x] + rest;
    var s, n := first + Tail(xs), |first|;
    assert xs[1..] == rest;
    assert s[n] == BLANK && s[..n] == first && s[0..] == s;
    LookAtIs(s, 0);
    FindCharAt(s, BLANK, 0, n);
    assert s[n + 1..] == InQuotes(x) + Tail(rest);
    QuotedWords(s, n + 1, x, rest);
    ChainWords(s, n + 1, x, rest);
  }

  // ------------------------------------------------------------------ a quote inside a word

  lemma LookBlank(s: string, p: nat)
    requires p < |s| && s[p] == BLANK
    ensures LookAt(s, p) == Ahead([], 1)
  {
    FindCharAt(s, BLANK, p, p);
    assert s[p..p] == "";
  }

  lemma PrependPrepend(a: seq<string>, b: seq<string>, r: Option<seq<string>>)
    ensures Prepend(a, Prepend(b, r)) == Prepend(a + b, r) && Prepend([], r) == r
  {
    if r.Some? { assert a + (b + r.value) == a + b + r.value && [] + r.value == r.value; }
  }

  /** Words in quotes, each after a blank, and then `z`. */
  function Before(xs: seq<string>, z: string): string
  {
    if xs == [] then z else " " + (InQuotes(xs[0]) + Before(xs[1..], z))
  }

  lemma {:induction false} TailBefore(xs: seq<string>, z: string)
    ensures Tail(xs) + z == Before(xs, z)
    decreases |xs|
  {
    if xs == [] {
      assert "" + z == z;
    } else {
      TailBefore(xs[1..], z);
      Regroup(" ", InQuotes(xs[0]), Tail(xs[1..]), z);
    }
  }

  lemma BeforeBlank(xs: seq<string>, z: string)
    requires z != "" && z[0] == BLANK
    ensures Before(xs, z) != "" && Before(xs, z)[0] == BLANK
  {
  }

  /** At `p` there is a blank, then `x` in quotes, and then a blank again. */
  predicate WordAt(s: string, p: nat, x: string)
  {
    && p + |x| + 3 < |s| && s[p] == BLANK && s[p + 1] == QUOTE && s[p + |x| + 2] == QUOTE && s[p + |x| + 3] == BLANK
    && forall k :: 0 <= k < |x| ==> s[p + 2 + k] == x[k]
  }

  lemma MakeWordAt(s: string, p: nat, x: string, more: string)
    requires p <= |s| && s[p..] == " " + (InQuotes(x) + more) && more != "" && more[0] == BLANK
    ensures WordAt(s, p, x) && s[p + |x| + 3..] == more
  {
    var u := " " + (InQuotes(x) + more);
    assert forall i :: 0 <= i < |u| ==> s[p + i] == u[i];
    assert s[p + 0] == u[0] && s[p + 1] == u[1] && s[p + (|x| + 2)] == u[|x| + 2] && s[p + (|x| + 3)] == u[|x| + 3];
    forall k | 0 <= k < |x| ensures s[p + 2 + k] == x[k] { assert s[p + (2 + k)] == u[2 + k]; }
    DropPrefix(s, p, " ", InQuotes(x) + more);
    DropPrefix(s, p + 1, InQuotes(x), more);
  }

  lemma LookWordAt(s: string, p: nat, x: string)
    requires WordAt(s, p, x) && QUOTE !in x
    ensures LookAt(s, p + 1) == Ahead([x], |x| + 2)
  {
    var close := p + |x| + 2;
    forall k | p + 2 <= k < close ensures s[k] != QUOTE { assert s[p + 2 + (k - p - 2)] == x[k - p - 2]; }
    FindCharAt(s, QUOTE, p + 2, close);
    FindCharSome(s, BLANK, p + 1, close + 1);
    FindCharAt(s, QUOTE, p + 1, p + 1);
    assert s[p + 2..close] == x;
  }

  lemma TwoSteps(s: string, p: nat, x: string)
    requires WordAt(s, p, x) && QUOTE !in x
    ensures WordsFrom(s, p) == Prepend([x], WordsFrom(s, p + |x| + 3))
  {
    LookBlank(s, p);
    LookWordAt(s, p, x);
    WordsStep(s, p, [], 1);
    WordsStep(s, p + 1, [x], |x| + 2);
    PrependPrepend([], [x], WordsFrom(s, p + |x| + 3));
    assert [] + [x] == [x];
  }

  /** From `p` to `end` there are the quoted words `xs`, each after a blank. */
  predicate Spaced(s: string, p: nat, xs: seq<string>, end: nat)
    decreases |xs|
  {
    if xs == [] then p == end else WordAt(s, p, xs[0]) && Spaced(s, p + |xs[0]| + 3, xs[1..], end)
  }

  lemma Follow(all: Option<seq<string>>, next: Option<seq<string>>, last: Option<seq<string>>, xs: seq<string>)
    requires xs != [] && all == Prepend([xs[0]], next) && next == Prepend(xs[1..], last)
    ensures all == Prepend(xs, last)
  {
    PrependPrepend([xs[0]], xs[1..], last);
    assert [xs[0]] + xs[1..] == xs;
  }

  lemma {:induction false} EndsBefore(xs: seq<string>, z: string) returns (a: string)
    ensures Before(xs, z) == a + z
    decreases |xs|
  {
    if xs == [] {
      a := "";
    } else {
      a := EndsBefore(xs[1..], z);
      Regroup(" ", InQuotes(xs[0]), a, z);
      a := " " + InQuotes(xs[0]) + a;
    }
  }

  lemma {:induction false} MakeSpaced(s: string, p: nat, xs: seq<string>, z: string, end: nat)
    requires p <= |s| && s[p..] == Before(xs, z) && z != "" && z[0] == BLANK && end + |z| == |s|
    ensures Spaced(s, p, xs, end)
    decreases |xs|
  {
    if xs != [] {
      BeforeBlank(xs[1..], z);
      MakeWordAt(s, p, xs[0], Before(xs[1..], z));
      MakeSpaced(s, p + |xs[0]| + 3, xs[1..], z, end);
    }
  }

  lemma {:induction false} SpacedWords(s: string, p: nat, xs: seq<string>, end: nat)
    requires p <= |s| && end <= |s| && Spaced(s, p, xs, end) && forall x :: x in xs ==> QUOTE !in x
    ensures WordsFrom(s, p) == Prepend(xs, WordsFrom(s, end))
    decreases |xs|
  {
    if xs == [] {
      PrependPrepend([], [], WordsFrom(s, p));
    } else {
      TwoSteps(s, p, xs[0]);
      SpacedWords(s, p + |xs[0]| + 3, xs[1..], end);
      Follow(WordsFrom(s, p), WordsFrom(s, p + |xs[0]| + 3), WordsFrom(s, end), xs);
    }
  }

  /** Of a quoted word that holds a quote, only what is before that comes first. */
  lemma BrokenWord(s: string, p: nat, leaf: string)
    requires p <= |s| && s[p..] == " " + InQuotes(leaf) && QUOTE in leaf
    ensures var r := WordsFrom(s, p); r.Some? && r.value != [] ==> QUOTE !in r.value[0]
  {
    var u := InQuotes(leaf);
    assert s[p] == s[p..][0] == BLANK;
    DropPrefix(s, p, " ", u);
    LookBlank(s, p);
    WordsStep(s, p, [], 1);
    PrependPrepend([], [], WordsFrom(s, p + 1));
    LookAtIs(s, p + 1);
    var close := FirstQuote(u, 1);
    if Look(u).Ahead? { WordsStep(s, p + 1, Look(u).words, Look(u).skip); } else { WordsEnd(s, p + 1, Look(u).words); }
  }

  lemma {:induction false} FirstQuote(u: string, from: nat) returns (close: nat)
    requires from < |u| && u[|u| - 1] == QUOTE
    ensures from <= close < |u| && FindChar(u, QUOTE, from) == Some(close) && QUOTE !in u[from..close]
    decreases |u| - from
  {
    close := from;
    if u[from] != QUOTE {
      close := FirstQuote(u, from + 1);
      assert u[from..close] == [u[from]] + u[from + 1..close];
    }
  }

  /** A last word with a quote in it does not come out as it went in. */
  lemma BrokenLast(first: string, xs: seq<string>, leaf: string)
    requires first != "" && BLANK !in first && first[0] != QUOTE && QUOTE in leaf
    requires forall x :: x in xs ==> QUOTE !in x
    ensures Words(first + Before(xs, " " + InQuotes(leaf))) != Some([first] + xs + [leaf])
  {
    var z := " " + InQuotes(leaf);
    var s := first + Before(xs, z);
    var a := EndsBefore(xs, z);
    var end := |first + a|;
    assert s == first + a + z && s[end..] == z;
    assert s[|first|..] == Before(xs, z);
    MakeSpaced(s, |first|, xs, z, end);
    SpacedWords(s, |first|, xs, end);
    BrokenWord(s, end, leaf);
    BeforeBlank(xs, z);
    FirstWord(first, Before(xs, z), xs, WordsFrom(s, end));
    NotLast([first] + xs, WordsFrom(s, end), leaf);
  }

  lemma NotLast(ws: seq<string>, r: Option<seq<string>>, leaf: string)
    requires QUOTE in leaf && (r.Some? && r.value != [] ==> QUOTE !in r.value[0])
    ensures Prepend(ws, r) != Some(ws + [leaf])
  {
    if r.Some? {
      assert (ws + r.value)[|ws|..] == r.value;
      assert (ws + [leaf])[|ws|..] == [leaf];
    }
  }

  lemma FirstWord(first: string, rest: string, xs: seq<string>, r: Option<seq<string>>)
    requires first != "" && BLANK !in first && first[0] != QUOTE && rest != "" && rest[0] == BLANK
    requires WordsFrom(first + rest, |first|) == Prepend(xs, r)
    ensures Words(first + rest) == Prepend([first] + xs, r)
  {
    var s, n := first + rest, |first|;
    FirstTurn(first, rest);
    WordsStep(s, 0, [first], n + 1);
    assert s[n] == BLANK;
    LookBlank(s, n);
    WordsStep(s, n, [], 1);
    PrependPrepend([], [], WordsFrom(s, n + 1));
    PrependPrepend([first], xs, r);
  }

  lemma FirstTurn(first: string, rest: string)
    requires first != "" && BLANK !in first && first[0] != QUOTE && rest != "" && rest[0] == BLANK
    ensures LookAt(first + rest, 0) == Ahead([first], |first| + 1)
  {
    var s, n := first + rest, |first|;
    assert s[n] == BLANK && s[..n] == first && s[0] == first[0];
    FindCharAt(s, BLANK, 0, n);
  }

  /** The first word of a line that goes on with a blank. */
  lemma FirstOfLine(first: string, rest: string)
    requires first != "" && BLANK !in first && first[0] != QUOTE && rest != "" && rest[0] == BLANK
    ensures var r := Words(first + rest); r.Some? ==> r.value != [] && r.value[0] == first
  {
    FirstTurn(first, rest);
    WordsStep(first + rest, 0, [first], |first| + 1);
  }

  // ------------------------------------------------------------------ plain words

  lemma {:induction false} PlainFrom(s: string, p: nat, w: string, rest: string)
    requires p <= |s| && s[p..] == w + " " + rest && BLANK !in w && QUOTE !in w
    ensures p + |w| + 1 <= |s| && s[p + |w| + 1..] == rest
    ensures LookAt(s, p) == Ahead(Kept(w), |w| + 1)
  {
    var u := w + " " + rest;
    LookAtIs(s, p);
    assert u[|w|] == BLANK && u[..|w|] == w;
    assert !Quoted(u) by { assert w != "" ==> u[0] == w[0]; }
    FindCharAt(u, BLANK, 0, |w|);
    DropPrefix(s, p, w + " ", rest);
  }

  lemma PlainLast(s: string, p: nat, w: string)
    requires p <= |s| && s[p..] == w && BLANK !in w && QUOTE !in w
    ensures LookAt(s, p) == End(Kept(w))
  {
    LookAtIs(s, p);
    FindCharNone(w, BLANK, 0);
    assert !Quoted(w);
  }

  /** From `p` on the turns of the loop are those for the plain words `ws`. */
  ghost predicate PlainTurns(s: string, p: nat, ws: seq<string>)
    requires p <= |s| && ws != []
    decreases |ws|
  {
    if |ws| == 1 then LookAt(s, p) == End(Kept(ws[0]))
    else
      && p + |ws[0]| + 1 <= |s| && LookAt(s, p) == Ahead(Kept(ws[0]), |ws[0]| + 1)
      && PlainTurns(s, p + |ws[0]| + 1, ws[1..])
  }

  predicate PlainAll(ws: seq<string>)
  {
    ws == [] || (ws[0] != "" && BLANK !in ws[0] && QUOTE !in ws[0] && PlainAll(ws[1..]))
  }

  lemma {:induction false} MakePlainTurns(s: string, p: nat, ws: seq<string>)
    requires p <= |s| && ws != [] && s[p..] == Join(ws, " ") && PlainAll(ws)
    ensures PlainTurns(s, p, ws)
    decreases |ws|
  {
    if |ws| == 1 {
      PlainLast(s, p, ws[0]);
    } else {
      PlainFrom(s, p, ws[0], Join(ws[1..], " "));
      MakePlainTurns(s, p + |ws[0]| + 1, ws[1..]);
    }
  }

  lemma {:induction false} PlainTurnsWords(s: string, p: nat, ws: seq<string>)
    requires p <= |s| && ws != [] && PlainTurns(s, p, ws) && PlainAll(ws)
    ensures WordsFrom(s, p) == Some(ws)
    decreases |ws|
  {
    if |ws| == 1 {
      WordsEnd(s, p, Kept(ws[0]));
      assert ws == [ws[0]];
    } else {
      PlainTurnsWords(s, p + |ws[0]| + 1, ws[1..]);
      WordsGoOn(s, p, ws[0], |ws[0]| + 1, ws[1..]);
      assert ws == [ws[0]] + ws[1..];
    }
  }

  lemma WordsGoOn(s: string, p: nat, w: string, skip: nat, rest: seq<string>)
    requires w != "" && p + skip <= |s| && LookAt(s, p) == Ahead(Kept(w), skip) && WordsFrom(s, p + skip) == Some(rest)
    ensures WordsFrom(s, p) == Some([w] + rest)
  {
  }

  lemma {:induction false} AllPlain(ws: seq<string>)
    requires forall i :: 0 <= i < |ws| ==> ws[i] != "" && BLANK !in ws[i] && QUOTE !in ws[i]
    ensures PlainAll(ws)
    decreases |ws|
  {
    if ws != [] { AllPlain(ws[1..]); }
  }

  /** Words without quotes are what is between the blanks. */
  lemma PlainWords(ws: seq<string>)
    requires ws != [] && forall i :: 0 <= i < |ws| ==> ws[i] != "" && BLANK !in ws[i] && QUOTE !in ws[i]
    ensures Words(Join(ws, " ")) == Some(ws)
  {
    assert Join(ws, " ")[0..] == Join(ws, " ");
    AllPlain(ws);
    MakePlainTurns(Join(ws, " "), 0, ws);
    PlainTurnsWords(Join(ws, " "), 0, ws);
  }
}
