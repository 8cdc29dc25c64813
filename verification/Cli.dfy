/**
 The command lines that `App::MsgSimple::run_cmd` hands to the shell, and the words
 that `cfgcli` receives from them.  A line reaches the shell inside a double-quoted
 argument, so a quote in it is written as a backslash and a double quote.
 */
module Cli {
  import opened Text
  import opened Config

  const QUOTE := "\\\""

  /** A character that means something to the shell. */
  predicate Meta(c: char)
  {
    || c == '"' || c == '\\' || c == '\'' || c == '`' || c == '$' || c == '&' || c == '|' || c == ';' || c == '<'
    || c == '>' || c == '(' || c == ')' || c == '*' || c == '?' || c == '[' || c == ']' || c == '{' || c == '}'
    || c == '#' || c == '~' || c == '!'
  }

  predicate WordChar(c: char)
  {
    !Blank(c) && !Meta(c)
  }

  predicate PlainWord(w: string)
  {
    w != "" && forall i :: 0 <= i < |w| ==> WordChar(w[i])
  }

  /** Word characters and blanks: what may stand between quotes. */
  predicate Quotable(v: string)
  {
    forall i :: 0 <= i < |v| ==> WordChar(v[i]) || v[i] == ' '
  }

  predicate PlainPath(p: Path)
  {
    forall i :: 0 <= i < |p| ==> PlainWord(p[i])
  }

  /** The shell's words: `cur` is the word being read, `quoted` whether a quote is open. */
  function Lex(s: string, cur: Option<string>, quoted: bool): seq<string>
    decreases |s|
  {
    if s == "" then (if cur.Some? then [cur.value] else [])
    else if QUOTE <= s then Lex(s[2..], Some(OrEmpty(cur)), !quoted)
    else if s[0] == ' ' && !quoted then (if cur.Some? then [cur.value] else []) + Lex(s[1..], None, false)
    else Lex(s[1..], Some(OrEmpty(cur) + [s[0]]), quoted)
  }

  function ParseWords(ws: seq<string>): Option<Command>
  {
    if |ws| < 2 then None
    else if ws[0] == "set" then Some(Set(ws[1..]))
    else if ws[0] == "delete" then Some(Delete(ws[1..]))
    else None
  }

  function ParseLine(line: string): Option<Command>
  {
    ParseWords(Lex(line, None, false))
  }

  function Line(verb: string, loc: Path, value: string): string
  {
    verb + " " + Join(loc, " ") + " " + value
  }

  lemma {:induction false} LexRun(w: string, rest: string, cur: Option<string>, quoted: bool)
    requires forall i :: 0 <= i < |w| ==> WordChar(w[i]) || (quoted && w[i] == ' ')
    requires w != "" || cur.Some?
    ensures Lex(w + rest, cur, quoted) == Lex(rest, Some(OrEmpty(cur) + w), quoted)
    decreases |w|
  {
    if w == "" {
      assert w + rest == rest && OrEmpty(cur) + w == OrEmpty(cur);
    } else {
      assert (w + rest)[1..] == w[1..] + rest;
      assert (w + rest)[0] == w[0] && !(QUOTE <= w + rest);
      LexRun(w[1..], rest, Some(OrEmpty(cur) + [w[0]]), quoted);
      assert OrEmpty(cur) + [w[0]] + w[1..] == OrEmpty(cur) + w;
    }
  }

  lemma LexHead(w: string, tail: string)
    requires PlainWord(w)
    ensures Lex(w + " " + tail, None, false) == [w] + Lex(tail, None, false)
  {
    var s := " " + tail;
    LexRun(w, s, None, false);
    assert w + s == w + " " + tail;
    assert OrEmpty(None) + w == w;
    assert s[0] == ' ' && !(QUOTE <= s) && s[1..] == tail;
    assert Lex(s, Some(w), false) == [w] + Lex(tail, None, false);
  }

  /** Blank-separated plain words come out as they went in. */
  lemma {:induction false} LexWords(ws: seq<string>, rest: string)
    requires ws != [] && PlainPath(ws)
    ensures Lex(Join(ws, " ") + " " + rest, None, false) == ws + Lex(rest, None, false)
    decreases |ws|
  {
    if |ws| == 1 {
      LexHead(ws[0], rest);
    } else {
      var tail := Join(ws[1..], " ") + " " + rest;
      LexHead(ws[0], tail);
      assert Join(ws, " ") + " " + rest == ws[0] + " " + tail;
      LexWords(ws[1..], rest);
      assert [ws[0]] + (ws[1..] + Lex(rest, None, false)) == ws + Lex(rest, None, false);
    }
  }

  lemma LineWords(verb: string, loc: Path, value: string)
    requires PlainWord(verb) && PlainPath(loc) && loc != []
    ensures Lex(Line(verb, loc, value), None, false) == [verb] + loc + Lex(value, None, false)
  {
    var ws := [verb] + loc;
    assert ws[1..] == loc;
    assert Join(ws, " ") == verb + " " + Join(loc, " ");
    LexWords(ws, value);
  }

  lemma LexOne(w: string)
    requires PlainWord(w)
    ensures Lex(w, None, false) == [w]
  {
    LexRun(w, "", None, false);
    assert w + "" == w && "" + w == w;
  }

  lemma LexQuoted(v: string)
    requires Quotable(v)
    ensures Lex(QUOTE + v + QUOTE, None, false) == [v]
  {
    var s := QUOTE + v + QUOTE;
    assert s[2..] == v + QUOTE;
    LexRun(v, QUOTE, Some(""), true);
    assert QUOTE[2..] == "";
    assert "" + v == v;
  }

  lemma {:induction false} LexUnquoted(s: string, cur: Option<string>)
    requires Quotable(s) && (cur.Some? ==> PlainWord(cur.value))
    ensures forall w :: w in Lex(s, cur, false) ==> PlainWord(w)
    decreases |s|
  {
    if s != "" {
      assert !(QUOTE <= s) by { assert QUOTE[0] == '\\'; }
      if s[0] == ' ' { LexUnquoted(s[1..], None); } else { LexUnquoted(s[1..], Some(OrEmpty(cur) + [s[0]])); }
    }
  }

  /**
   An unquoted value reaches `cfgcli` as the one word it is exactly when it is a
   nonempty word without blanks: tag entries and multi values are never quoted.
   */
  lemma UnquotedExactly(verb: string, loc: Path, value: string)
    requires PlainWord(verb) && PlainPath(loc) && loc != [] && Quotable(value)
    ensures Lex(Line(verb, loc, value), None, false) == [verb] + loc + [value] <==> PlainWord(value)
  {
    LineWords(verb, loc, value);
    var ws, pre := Lex(value, None, false), [verb] + loc;
    if PlainWord(value) {
      LexOne(value);
    } else {
      assert (pre + ws)[|pre|..] == ws && (pre + [value])[|pre|..] == [value];
      LexUnquoted(value, None);
      assert value !in ws;
    }
  }

  /** The line for a location that names no node at all is no command. */
  lemma NoPath()
    ensures ParseLine("delete ") == None
  {
    LexHead("delete", "");
    assert "delete" + " " + "" == "delete ";
  }

  lemma VerbsPlain()
    ensures PlainWord("set") && PlainWord("delete")
  {
  }

  lemma ParseValue(verb: string, loc: Path, value: string)
    requires PlainWord(verb) && PlainPath(loc) && loc != [] && PlainWord(value)
    ensures ParseLine(Line(verb, loc, value)) == ParseWords([verb] + (loc + [value]))
  {
    LineWords(verb, loc, value);
    LexOne(value);
    assert [verb] + loc + [value] == [verb] + (loc + [value]);
  }

  lemma ParseQuoted(verb: string, loc: Path, value: string)
    requires PlainWord(verb) && PlainPath(loc) && loc != [] && Quotable(value)
    ensures ParseLine(Line(verb, loc, QUOTE + value + QUOTE)) == ParseWords([verb] + (loc + [value]))
  {
    LineWords(verb, loc, QUOTE + value + QUOTE);
    LexQuoted(value);
    assert [verb] + loc + [value] == [verb] + (loc + [value]);
  }

  lemma {:induction false} JoinSnoc(ws: seq<string>, w: string)
    requires ws != []
    ensures Join(ws + [w], " ") == Join(ws, " ") + " " + w
    decreases |ws|
  {
    if |ws| > 1 {
      assert (ws + [w])[1..] == ws[1..] + [w];
      JoinSnoc(ws[1..], w);
      assert Join(ws + [w], " ") == ws[0] + " " + (Join(ws[1..], " ") + " " + w);
    }
  }

  lemma LineWhole(verb: string, loc: Path)
    requires PlainWord(verb) && PlainPath(loc) && loc != []
    ensures Lex(verb + " " + Join(loc, " "), None, false) == [verb] + loc
  {
    var ws := [verb] + loc[..|loc| - 1];
    var last := loc[|loc| - 1];
    assert ws + [last] == [verb] + loc;
    JoinSnoc(ws, last);
    assert ([verb] + loc)[1..] == loc;
    assert Join([verb] + loc, " ") == verb + " " + Join(loc, " ");
    LexWords(ws, last);
    LexOne(last);
  }
}
