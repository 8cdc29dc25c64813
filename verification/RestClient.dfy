/**
 The client's side of an operational command, `_cmd_2_path`, and the whole way from the
 text that a user types to the argument list of the background process.
 */
module RestClient {
  import opened Text
  import opened Processor
  import opened OpCommand
  import Url
  import T = Tokenizer
  import M = Messages

  // ------------------------------------------------------------------ words of a command

  /** Perl's `split(' ', s)`, with `cur` the word being read. */
  function Pieces(s: string, cur: string): seq<string>
    decreases |s|
  {
    if s == "" then T.Kept(cur)
    else if Blank(s[0]) then T.Kept(cur) + Pieces(s[1..], "")
    else Pieces(s[1..], cur + [s[0]])
  }

  /** The text up to a newline at its end, where `$` matches. */
  function Chomp(s: string): string
  {
    if s != "" && s[|s| - 1] == '\n' then s[..|s| - 1] else s
  }

  /** Where the second group of `^(.*)(q.*q)$` begins: at the last `q` but the final one. */
  function LeafAt(cmd: string, q: char): (r: Option<nat>)
    ensures r.Some? ==> r.value < |Chomp(cmd)| && r.value < |cmd|
  {
    var body := Chomp(cmd);
    if body == "" || '\n' in body || body[|body| - 1] != q then None else FindLast(body[..|body| - 1], q)
  }

  /** The text before a quoted leaf, and that leaf with its quotes. */
  function Halves(cmd: string): (string, Option<string>)
  {
    var single, double := LeafAt(cmd, QUOTE), LeafAt(cmd, DQUOTE);
    if single.Some? then (cmd[..single.value], Some(Chomp(cmd)[single.value..]))
    else if double.Some? then (cmd[..double.value], Some(Chomp(cmd)[double.value..]))
    else (cmd, None)
  }

  /** The words of a command; a quoted leaf at the end is one word. */
  function Tokens(cmd: string): seq<string>
  {
    Pieces(Halves(cmd).0, "") + (if Halves(cmd).1.Some? then [Halves(cmd).1.value] else [])
  }

  lemma {:induction false} PiecesWord(w: string, rest: string, cur: string)
    requires forall c :: c in w ==> !Blank(c)
    ensures Pieces(w + rest, cur) == Pieces(rest, cur + w)
    decreases |w|
  {
    if w == "" {
      assert w + rest == rest && cur + w == cur;
    } else {
      assert (w + rest)[1..] == w[1..] + rest;
      PiecesWord(w[1..], rest, cur + [w[0]]);
      assert cur + [w[0]] + w[1..] == cur + w;
    }
  }

  /** A word of a command line. */
  predicate Word(w: string)
  {
    w != "" && forall c :: c in w ==> !Blank(c) && c != QUOTE && c != DQUOTE
  }

  lemma {:induction false} PiecesJoin(ws: seq<string>, rest: string)
    requires forall w :: w in ws ==> Word(w)
    requires ws != [] && (rest == "" || Blank(rest[0]))
    ensures Pieces(Join(ws, " ") + rest, "") == ws + Pieces(rest, "")
    decreases |ws|
  {
    var w := ws[0];
    assert Word(w) && "" + w == w;
    if |ws| == 1 {
      PiecesWord(w, rest, "");
      assert ws == [w];
    } else {
      var tail := Join(ws[1..], " ") + rest;
      assert Join(ws, " ") + rest == w + (" " + tail);
      PiecesWord(w, " " + tail, "");
      assert (" " + tail)[1..] == tail;
      PiecesJoin(ws[1..], rest);
      assert [w] + (ws[1..] + Pieces(rest, "")) == ws + Pieces(rest, "");
    }
  }

  /** Splitting invents no character. */
  lemma {:induction false} PiecesChars(s: string, cur: string, w: string)
    requires w in Pieces(s, cur)
    ensures forall c :: c in w ==> c in s || c in cur
    decreases |s|
  {
    if s != "" {
      var t := s[1..];
      if Blank(s[0]) {
        if w in Pieces(t, "") { PiecesChars(t, "", w); }
      } else {
        PiecesChars(t, cur + [s[0]], w);
      }
    }
  }

  lemma TokenChars(cmd: string, w: string)
    requires w in Tokens(cmd)
    ensures forall c :: c in w ==> c in cmd
  {
    HalvesChars(cmd);
    if w in Pieces(Halves(cmd).0, "") { PiecesChars(Halves(cmd).0, "", w); }
  }

  lemma HalvesChars(cmd: string)
    ensures forall c :: c in Halves(cmd).0 ==> c in cmd
    ensures Halves(cmd).1.Some? ==> forall c :: c in Halves(cmd).1.value ==> c in cmd
  {
  }

  // ------------------------------------------------------------------ _cmd_2_path

  function Escaped(ts: seq<string>): (r: seq<string>)
    requires forall t :: t in ts ==> Url.Bytes(t)
    ensures |r| == |ts| && forall i :: 0 <= i < |ts| ==> r[i] == Url.EscapeToken(ts[i])
  {
    if ts == [] then [] else [Url.EscapeToken(ts[0])] + Escaped(ts[1..])
  }

  lemma TokensAreBytes(cmd: string)
    requires Url.Bytes(cmd)
    ensures forall t :: t in Tokens(cmd) ==> Url.Bytes(t)
  {
    forall t | t in Tokens(cmd) ensures Url.Bytes(t) {
      TokenChars(cmd, t);
      forall i | 0 <= i < |t| ensures Url.IsByte(t[i]) { assert t[i] in cmd; }
    }
  }

  function Path(cmd: string): string
    requires Url.Bytes(cmd)
  {
    TokensAreBytes(cmd);
    Join(Escaped(Tokens(cmd)), "/")
  }

  method Cmd2Path(cmd: string) returns (path: string)
    requires Url.Bytes(cmd)
    ensures path == Path(cmd)
  {
    var (stem, leaf) := Halves(cmd);
    var tokens := Pieces(stem, "");
    if leaf.Some? { tokens := tokens + [leaf.value]; }
    assert tokens == Tokens(cmd);
    TokensAreBytes(cmd);
    var etokens := EscapeTokens(tokens);
    path := Join(etokens, "/");
  }

  method EscapeOne(token: string) returns (etoken: string)
    requires Url.Bytes(token)
    ensures etoken == Url.EscapeToken(token)
  {
    etoken := ReplaceAll(Url.UriEscape(token), "'", "%27");
  }

  method EscapeTokens(tokens: seq<string>) returns (etokens: seq<string>)
    requires forall t :: t in tokens ==> Url.Bytes(t)
    ensures etokens == Escaped(tokens)
  {
    etokens := [];
    ghost var all := Escaped(tokens);
    for i := 0 to |tokens|
      invariant etokens == all[..i]
    {
      var token := EscapeOne(tokens[i]);
      etokens := etokens + [token];
    }
  }

  /** The parts of a path are free of slashes and decode to the words. */
  lemma TokensCoded(cmd: string)
    requires Url.Bytes(cmd) && NUL !in cmd
    ensures forall t :: t in Tokens(cmd) ==> Url.Bytes(t)
    ensures var ts, es := Tokens(cmd), Escaped(Tokens(cmd));
            forall i :: 0 <= i < |ts| ==> Url.Decode(es[i]) == ts[i] && SLASH !in es[i]
  {
    TokensAreBytes(cmd);
    var ts := Tokens(cmd);
    forall i | 0 <= i < |ts| ensures Url.Decode(Escaped(ts)[i]) == ts[i] && SLASH !in Escaped(ts)[i] {
      TokenCoded(cmd, ts[i]);
      assert !Url.UrlChar(SLASH);
    }
  }

  lemma FreeOfSlash(e: string)
    requires SLASH !in e
    ensures Free(e, "/")
  {
    forall k | 0 <= k < |e| ensures !At(e, "/", k) { assert e[k] != SLASH; }
  }

  /** Splitting a path at its slashes and decoding the parts gives the words back. */
  lemma PathBack(cmd: string)
    requires Url.Bytes(cmd) && NUL !in cmd && Tokens(cmd) != []
    ensures var parts := Split(Path(cmd), "/");
            |parts| == |Tokens(cmd)| && forall i :: 0 <= i < |parts| ==> Url.Decode(parts[i]) == Tokens(cmd)[i]
  {
    TokensCoded(cmd);
    var es := Escaped(Tokens(cmd));
    forall i | 0 <= i < |es| ensures Free(es[i], "/") { FreeOfSlash(es[i]); }
    SplitJoin(es, "/");
  }

  lemma TokenCoded(cmd: string, t: string)
    requires Url.Bytes(cmd) && NUL !in cmd && t in Tokens(cmd) && Url.Bytes(t)
    ensures Url.Decode(Url.EscapeToken(t)) == t
    ensures forall c :: c in Url.EscapeToken(t) ==> Url.UrlChar(c)
    ensures t != "" ==> Url.EscapeToken(t) != ""
  {
    TokenChars(cmd, t);
    Url.DecodeToken(t);
    Url.EscapedChars(t);
  }

  // ------------------------------------------------------------------ the whole way

  /** The line that the server makes of a command. */
  function LineOf(cmd: string): string
    requires Url.Bytes(cmd)
  {
    Translate(Path(cmd))
  }

  /** The words that reach the background process, if the message is understood and the scan ends. */
  ghost function Arrived(token: string, cmd: string, user: string): Option<seq<string>>
    requires Url.Bytes(cmd)
  {
    var req := M.Parse(M.CommandMsg(token, LineOf(cmd), user));
    if req.verb == Some(M.Command) && req.token == Some(token) && req.user == Some(user) && req.statement.Some?
       && T.Terminates(req.statement.value)
    then T.Words(req.statement.value)
    else None
  }

  lemma TokensFit(cmd: string)
    requires Url.Bytes(cmd) && NUL !in cmd && |Tokens(cmd)| >= 2
    ensures forall t :: t in Tokens(cmd) ==> Url.Bytes(t)
    ensures var es := Escaped(Tokens(cmd)); Parts(es[1..], Tokens(cmd)[1..])
    ensures Tokens(cmd)[0] != "" ==> FirstFits(Url.EscapeToken(Tokens(cmd)[0]))
  {
    TokensCoded(cmd);
    TokenCoded(cmd, Tokens(cmd)[0]);
    PartsTail(Escaped(Tokens(cmd)), Tokens(cmd));
  }

  lemma PartsTail(es: seq<string>, ts: seq<string>)
    requires |es| == |ts| >= 1 && forall i :: 0 <= i < |ts| ==> Url.Decode(es[i]) == ts[i] && SLASH !in es[i]
    ensures Parts(es[1..], ts[1..])
  {
    var es', ts' := es[1..], ts[1..];
    forall i | 0 <= i < |es'| ensures SLASH !in es'[i] && Url.Decode(es'[i]) == ts'[i] {
      assert es'[i] == es[i + 1] && ts'[i] == ts[i + 1];
    }
  }

  predicate FirstFits(e: string)
  {
    e != "" && forall c :: c in e ==> Url.UrlChar(c)
  }

  lemma FirstFitsWord(e: string)
    requires FirstFits(e)
    ensures SLASH !in e[1..] && ' ' !in e && e[0] != QUOTE && '<' !in e
  {
    assert e[0] in e && (SLASH in e[1..] ==> SLASH in e);
  }

  /** The line of a command: its first word escaped, the others decoded and in quotes. */
  lemma LineIs(cmd: string)
    requires Url.Bytes(cmd) && NUL !in cmd && |Tokens(cmd)| >= 2 && Tokens(cmd)[0] != ""
    ensures Url.Bytes(Tokens(cmd)[0])
    ensures FirstFits(Url.EscapeToken(Tokens(cmd)[0]))
    ensures LineOf(cmd) == Url.EscapeToken(Tokens(cmd)[0]) + Lines(Tokens(cmd)[1..])
  {
    TokensFit(cmd);
    var ts := Tokens(cmd);
    var es := Escaped(ts);
    FirstFitsWord(es[0]);
    assert Join(es, "/") == es[0] + "/" + Join(es[1..], "/");
    TranslatePath(es[0], es[1..], ts[1..]);
  }

  lemma {:induction false} LinesFree(ts: seq<string>, c: char)
    requires c != ' ' && c != QUOTE && forall i :: 0 <= i < |ts| ==> c !in ts[i]
    ensures c !in Lines(ts)
    decreases |ts|
  {
    if ts != [] {
      LinesFree(ts[1..], c);
      assert c !in OnLine(ts[0]);
    }
  }

  lemma LineHasNoTag(cmd: string)
    requires Url.Bytes(cmd) && NUL !in cmd && '<' !in cmd && |Tokens(cmd)| >= 2 && Tokens(cmd)[0] != ""
    ensures '<' !in LineOf(cmd)
  {
    LineIs(cmd);
    var ts := Tokens(cmd);
    FirstFitsWord(Url.EscapeToken(ts[0]));
    forall i | 0 <= i < |ts[1..]| ensures '<' !in ts[1..][i] {
      assert ts[1..][i] == ts[i + 1];
      TokenChars(cmd, ts[i + 1]);
    }
    LinesFree(ts[1..], '<');
  }

  /**
   Whatever the command and whatever quotes are in it, the manager gets its line, the scan
   ends, and the words that arrive are those of that line.
   */
  lemma Arrives(token: string, cmd: string, user: string)
    requires Url.Bytes(cmd) && NUL !in cmd && '<' !in cmd && '<' !in token && '<' !in user
    requires |Tokens(cmd)| >= 2 && Tokens(cmd)[0] != ""
    ensures Url.Bytes(Tokens(cmd)[0])
    ensures Arrived(token, cmd, user) == T.Words(Url.EscapeToken(Tokens(cmd)[0]) + Lines(Tokens(cmd)[1..]))
    ensures Arrived(token, cmd, user).Some?
  {
    LineIs(cmd);
    LineHasNoTag(cmd);
    M.CommandRoundTrip(token, LineOf(cmd), user);
    AlwaysTerminates(Path(cmd));
    T.TerminatesWords(LineOf(cmd));
  }

  /**
   Words that are free of quotes or wrapped in one pair arrive decoded and out of their
   quotes, all but the first, which stays escaped, and a last one that is empty, which is lost.
   */
  lemma ArrivesWhole(token: string, cmd: string, user: string)
    requires Url.Bytes(cmd) && NUL !in cmd && '<' !in cmd && '<' !in token && '<' !in user
    requires |Tokens(cmd)| >= 2 && Tokens(cmd)[0] != "" && forall t :: t in Tokens(cmd)[1..] ==> WellQuoted(t)
    ensures Url.Bytes(Tokens(cmd)[0])
    ensures Arrived(token, cmd, user) ==
            Some([Url.EscapeToken(Tokens(cmd)[0])] + T.DropLastEmpty(Inners(Tokens(cmd)[1..])))
  {
    Arrives(token, cmd, user);
    LineIs(cmd);
    var e := Url.EscapeToken(Tokens(cmd)[0]);
    FirstFitsWord(e);
    TranslatedWords(e, Tokens(cmd)[1..]);
  }

  /** A command of a single word comes to nothing. */
  lemma SingleWordLost(cmd: string)
    requires Url.Bytes(cmd) && NUL !in cmd && |Tokens(cmd)| == 1
    ensures LineOf(cmd) == "" && T.Words("") == Some([])
  {
    TokensAreBytes(cmd);
    var e := Escaped(Tokens(cmd))[0];
    TokenCoded(cmd, Tokens(cmd)[0]);
    assert Path(cmd) == e;
    forall k | 1 <= k < |e| ensures e[k] != SLASH { assert e[k] in e && !Url.UrlChar(SLASH); }
    FindCharNone(e, SLASH, 1);
    assert T.LookAt("", 0) == T.End([]);
  }

  // ------------------------------------------------------------------ commands made of words

  predicate Fit(s: string)
  {
    Url.Bytes(s) && NUL !in s && '<' !in s
  }

  predicate FitWords(ws: seq<string>)
  {
    |ws| >= 1 && forall w :: w in ws ==> Word(w) && Fit(w)
  }

  lemma {:induction false} JoinFit(ws: seq<string>)
    requires forall w :: w in ws ==> Word(w) && Fit(w)
    ensures Fit(Join(ws, " ")) && QUOTE !in Join(ws, " ") && DQUOTE !in Join(ws, " ")
    decreases |ws|
  {
    if ws != [] {
      assert Word(ws[0]) && Fit(ws[0]);
      if |ws| > 1 { JoinFit(ws[1..]); }
    }
  }

  lemma FindLastNone(s: string, q: char)
    requires q !in s
    ensures FindLast(s, q) == None
  {
  }

  lemma NoLeaf(cmd: string, q: char)
    requires q !in cmd
    ensures LeafAt(cmd, q) == None
  {
    var body := Chomp(cmd);
    if body != "" { FindLastNone(body[..|body| - 1], q); }
  }

  lemma PlainTokens(ws: seq<string>)
    requires FitWords(ws)
    ensures Tokens(Join(ws, " ")) == ws
  {
    var cmd := Join(ws, " ");
    JoinFit(ws);
    NoLeaf(cmd, QUOTE);
    NoLeaf(cmd, DQUOTE);
    PiecesJoin(ws, "");
    assert cmd + "" == cmd && ws + [] == ws;
  }

  lemma WordsWellQuoted(ws: seq<string>)
    requires forall w :: w in ws ==> Word(w)
    ensures forall w :: w in ws ==> WellQuoted(w)
    ensures Inners(ws) == ws && T.DropLastEmpty(ws) == ws
  {
    forall w | w in ws ensures WellQuoted(w) && Inner(w) == w && w != "" { WordBare(w); }
    KeepLast(ws);
  }

  lemma WordBare(w: string)
    requires Word(w)
    ensures WellQuoted(w) && Inner(w) == w
  {
    assert w[0] in w && w[|w| - 1] in w;
  }

  lemma {:induction false} KeepLast(ws: seq<string>)
    requires "" !in ws
    ensures T.DropLastEmpty(ws) == ws
    decreases |ws|
  {
    if |ws| == 1 { assert ws == [ws[0]]; }
    if |ws| > 1 { KeepLast(ws[1..]); }
  }

  /** The first word goes through unescaped. */
  predicate PlainFirst(w: string)
  {
    forall c :: c in w ==> Url.Unreserved(c) && c != QUOTE
  }

  lemma FirstSame(got: Option<seq<string>>, ws: seq<string>)
    requires ws != [] && Url.Bytes(ws[0]) && got == Some([Url.EscapeToken(ws[0])] + ws[1..])
    ensures got == Some(ws) <==> PlainFirst(ws[0])
  {
    Url.NeedsNoEscape(ws[0]);
    assert got.value[0] == Url.EscapeToken(ws[0]);
    assert ws == [ws[0]] + ws[1..];
  }

  lemma WordsArrive(token: string, cmd: string, user: string, ws: seq<string>)
    requires FitWords(ws) && |ws| >= 2 && Fit(cmd) && Tokens(cmd) == ws && '<' !in token && '<' !in user
    ensures Url.Bytes(ws[0]) && Word(ws[0])
    ensures Arrived(token, cmd, user) == Some([Url.EscapeToken(ws[0])] + ws[1..])
  {
    WordsWellQuoted(ws[1..]);
    assert Word(ws[0]);
    ArrivesWhole(token, cmd, user);
  }

  /** Two or more plain words arrive as they were typed exactly when the first needs no escaping. */
  lemma EndToEnd(token: string, ws: seq<string>, user: string)
    requires FitWords(ws) && |ws| >= 2 && '<' !in token && '<' !in user
    ensures Url.Bytes(Join(ws, " "))
    ensures Arrived(token, Join(ws, " "), user) == Some(ws) <==> PlainFirst(ws[0])
  {
    JoinFit(ws);
    PlainTokens(ws);
    WordsArrive(token, Join(ws, " "), user, ws);
    FirstSame(Arrived(token, Join(ws, " "), user), ws);
  }

  // ------------------------------------------------------------------ a quoted leaf

  function WithLeaf(ws: seq<string>, q: char, leaf: string): string
  {
    Join(ws, " ") + " " + [q] + leaf + [q]
  }

  /** What the client's patterns take as a leaf: no newline, and no quote of the kind around it. */
  predicate Leaf(leaf: string, q: char)
  {
    Fit(leaf) && '\n' !in leaf && q !in leaf && (q == QUOTE || q == DQUOTE)
  }

  lemma LeafFound(pre: string, q: char, leaf: string)
    requires '\n' !in pre && Leaf(leaf, q)
    ensures var cmd := pre + [q] + leaf + [q];
            LeafAt(cmd, q) == Some(|pre|) && Chomp(cmd)[|pre|..] == [q] + leaf + [q] && cmd[..|pre|] == pre
    ensures q == DQUOTE ==> LeafAt(pre + [q] + leaf + [q], QUOTE) == None
  {
    var cmd, n := pre + [q] + leaf + [q], |pre|;
    assert Chomp(cmd) == cmd && cmd[..|cmd| - 1] == pre + [q] + leaf;
    LastAt(pre, q, leaf);
    assert cmd[n..] == [q] + leaf + [q];
    assert cmd[..n] == pre;
  }

  lemma {:induction false} LastAt(pre: string, q: char, leaf: string)
    requires q !in leaf
    ensures FindLast(pre + [q] + leaf, q) == Some(|pre|)
    decreases |leaf|
  {
    var u, n := pre + [q] + leaf, |leaf|;
    if n == 0 {
      assert u[|u| - 1] == q;
    } else {
      assert u[|u| - 1] == leaf[n - 1] && u[..|u| - 1] == pre + [q] + leaf[..n - 1];
      LastAt(pre, q, leaf[..n - 1]);
    }
  }

  lemma LeafTokens(ws: seq<string>, q: char, leaf: string)
    requires FitWords(ws) && Leaf(leaf, q)
    ensures Tokens(WithLeaf(ws, q, leaf)) == ws + [[q] + leaf + [q]]
  {
    var pre := Join(ws, " ") + " ";
    NoNewline(ws);
    LeafFound(pre, q, leaf);
    PiecesJoin(ws, " ");
    assert " "[1..] == "" && Pieces(" ", "") == [] && ws + [] == ws;
  }

  lemma {:induction false} NoNewline(ws: seq<string>)
    requires forall w :: w in ws ==> Word(w)
    ensures '\n' !in Join(ws, " ")
    decreases |ws|
  {
    if ws != [] {
      assert Word(ws[0]) && Blank('\n');
      if |ws| > 1 { NoNewline(ws[1..]); }
    }
  }

  lemma LeafInner(q: char, leaf: string)
    requires Leaf(leaf, q) && QUOTE !in leaf
    ensures Inner([q] + leaf + [q]) == leaf && WellQuoted([q] + leaf + [q])
  {
    var t := [q] + leaf + [q];
    assert t[1..|t| - 1] == leaf && |t| >= 2;
  }

  lemma {:induction false} DropSnoc(ws: seq<string>, x: string)
    ensures T.DropLastEmpty(ws + [x]) == ws + T.Kept(x)
    decreases |ws|
  {
    if ws == [] {
      assert ws + [x] == [x] && ws + T.Kept(x) == T.Kept(x);
    } else {
      assert (ws + [x])[1..] == ws[1..] + [x];
      DropSnoc(ws[1..], x);
      assert [ws[0]] + (ws[1..] + T.Kept(x)) == ws + T.Kept(x);
    }
  }

  lemma LeafWords(ws: seq<string>, q: char, leaf: string)
    requires FitWords(ws) && Leaf(leaf, q) && QUOTE !in leaf
    ensures var ts := (ws + [[q] + leaf + [q]])[1..];
            (forall t :: t in ts ==> WellQuoted(t)) && T.DropLastEmpty(Inners(ts)) == ws[1..] + T.Kept(leaf)
  {
    var t := [q] + leaf + [q];
    WordsWellQuoted(ws[1..]);
    LeafInner(q, leaf);
    assert (ws + [t])[1..] == ws[1..] + [t];
    assert Inners(ws[1..] + [t]) == ws[1..] + [leaf];
    DropSnoc(ws[1..], leaf);
  }

  lemma WithLeafFit(ws: seq<string>, q: char, leaf: string)
    requires FitWords(ws) && Leaf(leaf, q)
    ensures Fit(WithLeaf(ws, q, leaf))
  {
    JoinFit(ws);
    var pre := Join(ws, " ") + " " + [q];
    assert Fit(pre) && Fit(pre + leaf);
  }

  lemma LeafArrives(token: string, cmd: string, user: string, ws: seq<string>, q: char, leaf: string)
    requires FitWords(ws) && Leaf(leaf, q) && QUOTE !in leaf && Fit(cmd) && '<' !in token && '<' !in user
    requires Tokens(cmd) == ws + [[q] + leaf + [q]]
    ensures Url.Bytes(ws[0]) && Word(ws[0])
    ensures Arrived(token, cmd, user) == Some([Url.EscapeToken(ws[0])] + (ws[1..] + T.Kept(leaf)))
  {
    LeafWords(ws, q, leaf);
    assert Word(ws[0]) && Tokens(cmd)[0] == ws[0];
    ArrivesWhole(token, cmd, user);
  }

  lemma LeafBreaks(token: string, cmd: string, user: string, ws: seq<string>, leaf: string)
    requires FitWords(ws) && Leaf(leaf, DQUOTE) && QUOTE in leaf && Fit(cmd) && '<' !in token && '<' !in user
    requires Tokens(cmd) == ws + ["\"" + leaf + "\""]
    ensures PlainFirst(ws[0]) ==> Arrived(token, cmd, user) != Some(ws + [leaf])
  {
    var t := "\"" + leaf + "\"";
    assert Word(ws[0]) && Tokens(cmd)[0] == ws[0] && Tokens(cmd)[1..] == ws[1..] + [t];
    Arrives(token, cmd, user);
    LineIs(cmd);
    Url.NeedsNoEscape(ws[0]);
    if PlainFirst(ws[0]) { LeafInPieces(ws, leaf); }
  }

  lemma LeafInPieces(ws: seq<string>, leaf: string)
    requires FitWords(ws) && QUOTE in leaf && FirstFits(ws[0])
    ensures T.Words(ws[0] + Lines(ws[1..] + ["\"" + leaf + "\""])) != Some(ws + [leaf])
  {
    FirstFitsWord(ws[0]);
    WordsWellQuoted(ws[1..]);
    QuoteInside(ws[0], ws[1..], leaf);
    assert [ws[0]] + ws[1..] == ws;
  }

  lemma LeafEscaped(token: string, cmd: string, user: string, ws: seq<string>, rest: seq<string>)
    requires FitWords(ws) && Fit(cmd) && '<' !in token && '<' !in user && !PlainFirst(ws[0])
    requires Tokens(cmd) != [] && Tokens(cmd)[0] == ws[0] && |Tokens(cmd)| >= 2
    ensures Arrived(token, cmd, user) != Some(ws + rest)
  {
    assert Word(ws[0]);
    Arrives(token, cmd, user);
    LineIs(cmd);
    var e := Url.EscapeToken(ws[0]);
    FirstFitsWord(e);
    Url.NeedsNoEscape(ws[0]);
    T.FirstOfLine(e, Lines(Tokens(cmd)[1..]));
    assert Lines(Tokens(cmd)[1..])[0] == ' ';
  }

  /**
   A quoted leaf arrives as one word, whatever blanks it holds, if and only if it is not
   empty and holds no single quote, and the first word needs no escaping.
   */
  lemma QuotedEndToEnd(token: string, ws: seq<string>, q: char, leaf: string, user: string)
    requires FitWords(ws) && Leaf(leaf, q) && '<' !in token && '<' !in user
    ensures Url.Bytes(WithLeaf(ws, q, leaf))
    ensures Arrived(token, WithLeaf(ws, q, leaf), user) == Some(ws + [leaf]) <==>
            PlainFirst(ws[0]) && leaf != "" && QUOTE !in leaf
  {
    var cmd := WithLeaf(ws, q, leaf);
    WithLeafFit(ws, q, leaf);
    LeafTokens(ws, q, leaf);
    if !PlainFirst(ws[0]) {
      LeafEscaped(token, cmd, user, ws, [leaf]);
    } else if QUOTE in leaf {
      LeafBreaks(token, cmd, user, ws, leaf);
    } else {
      LeafArrives(token, cmd, user, ws, q, leaf);
      Url.NeedsNoEscape(ws[0]);
      WordsOfLeaf(Url.EscapeToken(ws[0]), ws, leaf);
    }
  }

  lemma WordsOfLeaf(e: string, ws: seq<string>, leaf: string)
    requires ws != []
    ensures [e] + (ws[1..] + T.Kept(leaf)) == ws + [leaf] <==> e == ws[0] && leaf != ""
  {
    var got, want := [e] + (ws[1..] + T.Kept(leaf)), ws + [leaf];
    assert got[0] == e && want[0] == ws[0] && |want| == |ws| + 1;
    assert leaf == "" ==> |got| == |ws|;
    assert leaf != "" && e == ws[0] ==> got == want;
  }

  // ------------------------------------------------------------------ blanks and newlines

  /** Blanks in front and behind, and any number between words, do not matter. */
  lemma {:induction false} BlanksSkipped(b: string, s: string)
    requires Blanks(b)
    ensures Pieces(b + s, "") == Pieces(s, "")
    decreases |b|
  {
    if b == "" {
      assert b + s == s;
    } else {
      assert (b + s)[0] == b[0] && (b + s)[1..] == b[1..] + s;
      BlanksSkipped(b[1..], s);
      assert T.Kept("") == [] && [] + Pieces(s, "") == Pieces(s, "");
    }
  }

  lemma WordThenBlanks(w: string, b: string, s: string)
    requires w != "" && (forall c :: c in w ==> !Blank(c)) && Blanks(b) && b != ""
    ensures Pieces(w + (b + s), "") == [w] + Pieces(s, "")
  {
    PiecesWord(w, b + s, "");
    assert "" + w == w;
    assert (b + s)[0] == b[0] && (b + s)[1..] == b[1..] + s;
    BlanksSkipped(b[1..], s);
  }

  /** A newline at the end of a command does not hide its leaf; one further inside does. */
  lemma LeafNewline(cmd: string, q: char)
    requires q != '\n'
    ensures '\n' !in cmd ==> LeafAt(cmd + "\n", q) == LeafAt(cmd, q)
    ensures '\n' in Chomp(cmd) ==> LeafAt(cmd, q) == None
  {
    assert (cmd + "\n")[..|cmd|] == cmd;
    assert '\n' !in cmd ==> Chomp(cmd) == cmd by {
      if '\n' !in cmd && cmd != "" { assert cmd[|cmd| - 1] in cmd; }
    }
  }

  /** A first word of letters, digits and the marks `-._~!*()` arrives, with any words behind it. */
  lemma WordsArriveAsTyped(token: string, ws: seq<string>, user: string)
    requires FitWords(ws) && |ws| >= 2 && '<' !in token && '<' !in user
    requires forall c :: c in ws[0] ==> Url.Letter(c)
    ensures Url.Bytes(Join(ws, " ")) && Arrived(token, Join(ws, " "), user) == Some(ws)
  {
    LettersPlain(ws[0]);
    EndToEnd(token, ws, user);
  }

  lemma LettersPlain(w: string)
    ensures (forall c :: c in w ==> Url.Letter(c)) ==> PlainFirst(w)
    ensures forall c :: c in w && Url.Reserved(c) ==> !PlainFirst(w)
  {
    forall c ensures Url.Reserved(c) ==> !Url.Unreserved(c) {}
  }

  /** A first word with a reserved character in it does not. */
  lemma ReservedChanged(token: string, ws: seq<string>, user: string, c: char)
    requires FitWords(ws) && |ws| >= 2 && '<' !in token && '<' !in user
    requires c in ws[0] && Url.Reserved(c)
    ensures Url.Bytes(Join(ws, " ")) && Arrived(token, Join(ws, " "), user) != Some(ws)
  {
    LettersPlain(ws[0]);
    EndToEnd(token, ws, user);
  }
}
