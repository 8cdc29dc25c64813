/**
 The tagged messages between `MultiResponseCommand` and `ChunkerManager`: printing by
 the formats of `Rest`, and extraction by searching for the tags.
 */
module Messages {
  import opened Text

  /** `<...>` with no further angle bracket inside. */
  predicate IsTag(t: string)
  {
    |t| >= 2 && t[0] == '<' && t[|t| - 1] == '>' && forall i :: 0 < i < |t| - 1 ==> t[i] != '<' && t[i] != '>'
  }

  datatype Word = Vyatta | Command | Process | Details | Next | Delete | Token | Statement | User

  function Spell(w: Word): string
  {
    match w
    case Vyatta => "vyatta"
    case Command => "command"
    case Process => "process"
    case Details => "details"
    case Next => "next"
    case Delete => "delete"
    case Token => "token"
    case Statement => "statement"
    case User => "user"
  }

  datatype Tag = Open(word: Word) | Close(word: Word)

  function Print(t: Tag): string
  {
    (if t.Open? then "<" else "</") + Spell(t.word) + ">"
  }

  lemma SpelledTag(t: Tag)
    ensures IsTag(Print(t))
  {
    SpelledPlain(t.word);
    var s, w := Print(t), Spell(t.word);
    assert forall i :: 0 < i < |s| - 1 ==> s[i] == '/' || s[i] in w;
  }

  lemma SpelledPlain(w: Word)
    ensures '<' !in Spell(w) && '>' !in Spell(w) && '/' !in Spell(w)
  {
    match w
    case Vyatta =>
    case Command =>
    case Process =>
    case Details =>
    case Next =>
    case Delete =>
    case Token =>
    case Statement =>
    case User =>
  }

  /** First letter and length tell the words apart. */
  lemma SpellKey(w: Word)
    ensures Spell(w) != ""
    ensures (Spell(w)[0], |Spell(w)|) ==
            match w
            case Vyatta => ('v', 6)
            case Command => ('c', 7)
            case Process => ('p', 7)
            case Details => ('d', 7)
            case Next => ('n', 4)
            case Delete => ('d', 6)
            case Token => ('t', 5)
            case Statement => ('s', 9)
            case User => ('u', 4)
  {
    match w
    case Vyatta =>
    case Command =>
    case Process =>
    case Details =>
    case Next =>
    case Delete =>
    case Token =>
    case Statement =>
    case User =>
  }

  lemma PrintInjective(a: Tag, b: Tag)
    requires Print(a) == Print(b)
    ensures a == b
  {
    SpellKey(a.word);
    SpellKey(b.word);
    SpelledPlain(a.word);
    SpelledPlain(b.word);
    var s := Print(a);
    assert a.Open? <==> s[1] != '/' by { if a.Open? { assert s[1] == Spell(a.word)[0]; } }
    assert b.Open? <==> s[1] != '/' by { if b.Open? { assert s[1] == Spell(b.word)[0]; } }
    var n := if a.Open? then 1 else 2;
    assert s[n] == Spell(a.word)[0] && s[n] == Spell(b.word)[0];
  }

  /** A tag and the text that follows it, the tag by name or as printed. */
  datatype Item<T> = Item(tag: T, text: string)

  function Flat(items: seq<Item<string>>): string
  {
    if items == [] then "" else items[0].tag + items[0].text + Flat(items[1..])
  }

  function Printed(items: seq<Item<Tag>>): (r: seq<Item<string>>)
    ensures |r| == |items| && forall k :: 0 <= k < |r| ==> r[k] == Item(Print(items[k].tag), items[k].text)
  {
    seq(|items|, k requires 0 <= k < |items| => Item(Print(items[k].tag), items[k].text))
  }

  predicate Proper(items: seq<Item<string>>)
  {
    forall k :: 0 <= k < |items| ==> IsTag(items[k].tag) && '<' !in items[k].text
  }

  predicate ProperText(items: seq<Item<Tag>>)
  {
    forall k :: 0 <= k < |items| ==> '<' !in items[k].text
  }

  /** The text between the first `open` and the first `close`, as `process` cuts it out. */
  function Cut(msg: string, open: string, close: string): Option<string>
  {
    var start, stop := Find(msg, open, 0), Find(msg, close, 0);
    if start.None? || stop.None? then None
    else Some(Substr(msg, start.value + |open|, stop.value - start.value - |open|))
  }

  /** A closing tag in front of the opening one: the unsigned count wraps, and all the rest is taken. */
  lemma CutWhere(msg: string, open: string, close: string, i: nat, j: nat)
    requires Find(msg, open, 0) == Some(i) && Find(msg, close, 0) == Some(j)
    ensures i + |open| <= |msg|
    ensures Cut(msg, open, close) == Some(if j < i + |open| then msg[i + |open|..] else msg[i + |open|..j])
  {
  }

  function Extract(msg: string, word: Word): Option<string>
  {
    Cut(msg, Print(Open(word)), Print(Close(word)))
  }

  // ------------------------------------------------------------------ searching for a tag

  /** Inside one item a tag can only be found at its beginning, and only if it is that tag. */
  lemma OneTag(tag: string, text: string, rest: string, pat: string, i: nat)
    requires IsTag(tag) && IsTag(pat) && '<' !in text && i < |tag + text|
    ensures At(tag + text + rest, pat, i) <==> i == 0 && pat == tag
  {
    var s := tag + text + rest;
    assert s[i] == if i < |tag| then tag[i] else text[i - |tag|];
    if i + |pat| <= |s| {
      assert s[i..i + |pat|][0] == s[i];
      if i == 0 {
        var n := |tag|;
        assert s[0..n] == tag;
        if |pat| > n { assert s[0..|pat|][n - 1] == '>'; }
        if |pat| < n { assert s[0..|pat|][|pat| - 1] == tag[|pat| - 1]; }
      }
    }
  }

  lemma FindPast(tag: string, text: string, rest: string, pat: string)
    requires IsTag(tag) && IsTag(pat) && '<' !in text && pat != tag
    ensures match Find(rest, pat, 0)
            case None => Find(tag + text + rest, pat, 0) == None
            case Some(i) => Find(tag + text + rest, pat, 0) == Some(|tag + text| + i)
  {
    forall k | 0 <= k < |tag + text| ensures !At(tag + text + rest, pat, k) { OneTag(tag, text, rest, pat, k); }
    FindAfter(tag + text, rest, pat);
  }

  lemma {:induction false} FindTag(items: seq<Item<string>>, pat: string, k: nat)
    requires Proper(items) && IsTag(pat) && k < |items| && items[k].tag == pat
    requires forall j :: 0 <= j < k ==> items[j].tag != pat
    ensures Find(Flat(items), pat, 0) == Some(|Flat(items[..k])|)
    decreases k
  {
    var it, rest := items[0], Flat(items[1..]);
    if k == 0 {
      OneTag(it.tag, it.text, rest, pat, 0);
    } else {
      var pre := Flat(items[1..][..k - 1]);
      assert Find(rest, pat, 0) == Some(|pre|) by { FindTag(items[1..], pat, k - 1); }
      FindPast(it.tag, it.text, rest, pat);
      assert Flat(items[..k]) == it.tag + it.text + pre by { assert items[1..][..k - 1] == items[..k][1..]; }
    }
  }

  lemma {:induction false} FindNoTag(items: seq<Item<string>>, pat: string)
    requires Proper(items) && IsTag(pat) && forall j :: 0 <= j < |items| ==> items[j].tag != pat
    ensures Find(Flat(items), pat, 0) == None
    decreases |items|
  {
    if items != [] {
      FindNoTag(items[1..], pat);
      FindPast(items[0].tag, items[0].text, Flat(items[1..]), pat);
    }
  }

  lemma {:induction false} FlatSnoc(items: seq<Item<string>>, k: nat)
    requires k < |items|
    ensures Flat(items[..k + 1]) == Flat(items[..k]) + items[k].tag + items[k].text
    ensures Flat(items[..k + 1]) <= Flat(items)
    decreases k
  {
    if k > 0 {
      assert items[..k + 1][1..] == items[1..][..k] && items[..k][1..] == items[1..][..k - 1];
      FlatSnoc(items[1..], k - 1);
    } else {
      assert items[..1][1..] == [] && items[..0] == [];
    }
  }

  /** The text of an item is what its tag and the next tag enclose. */
  lemma ExtractText(items: seq<Item<string>>, k: nat)
    requires Proper(items) && k + 1 < |items|
    requires forall j :: 0 <= j < k ==> items[j].tag != items[k].tag
    requires forall j :: 0 <= j <= k ==> items[j].tag != items[k + 1].tag
    ensures Cut(Flat(items), items[k].tag, items[k + 1].tag) == Some(items[k].text)
  {
    var s, pre, open, text, close := Flat(items), Flat(items[..k]), items[k].tag, items[k].text, items[k + 1].tag;
    assert Find(s, open, 0) == Some(|pre|) by { FindTag(items, open, k); }
    assert Find(s, close, 0) == Some(|Flat(items[..k + 1])|) by { FindTag(items, close, k + 1); }
    assert Flat(items[..k + 1]) == pre + open + text && pre + open + text <= s by { FlatSnoc(items, k); }
    CutBetween(s, pre, open, text, close);
  }

  lemma CutBetween(s: string, pre: string, open: string, text: string, close: string)
    requires pre + open + text <= s
    requires Find(s, open, 0) == Some(|pre|) && Find(s, close, 0) == Some(|pre + open + text|)
    ensures Cut(s, open, close) == Some(text)
  {
    Between(s, pre, open, text);
  }

  lemma Between(s: string, pre: string, tag: string, text: string)
    requires pre + tag + text <= s
    ensures |pre| + |tag| <= |s| && Substr(s, |pre| + |tag|, |text|) == text
  {
    var n := |pre + tag + text|;
    assert s[..n] == pre + tag + text;
    assert s[|pre| + |tag|..n] == s[..n][|pre| + |tag|..];
  }

  // ------------------------------------------------------------------ tags by name

  lemma PrintedProper(items: seq<Item<Tag>>)
    requires ProperText(items)
    ensures Proper(Printed(items))
  {
    forall k | 0 <= k < |items| ensures IsTag(Print(items[k].tag)) { SpelledTag(items[k].tag); }
  }

  lemma PrintedApart(items: seq<Item<Tag>>, t: Tag, n: nat)
    requires n <= |items| && forall j :: 0 <= j < n ==> items[j].tag != t
    ensures forall j :: 0 <= j < n ==> Printed(items)[j].tag != Print(t)
  {
    forall j | 0 <= j < n ensures Print(items[j].tag) != Print(t) {
      if Print(items[j].tag) == Print(t) { PrintInjective(items[j].tag, t); }
    }
  }

  lemma ExtractNamed(items: seq<Item<Tag>>, k: nat, w: Word)
    requires ProperText(items) && k + 1 < |items| && items[k].tag == Open(w) && items[k + 1].tag == Close(w)
    requires forall j :: 0 <= j < k ==> items[j].tag.word != w
    ensures Extract(Flat(Printed(items)), w) == Some(items[k].text)
  {
    PrintedProper(items);
    PrintedApart(items, Open(w), k);
    PrintedApart(items, Close(w), k + 1);
    ExtractText(Printed(items), k);
  }

  lemma ExtractNothing(items: seq<Item<Tag>>, w: Word)
    requires ProperText(items) && forall j :: 0 <= j < |items| ==> items[j].tag.word != w
    ensures Extract(Flat(Printed(items)), w) == None
  {
    PrintedProper(items);
    PrintedApart(items, Open(w), |items|);
    SpelledTag(Open(w));
    FindNoTag(Printed(items), Print(Open(w)));
  }

  predicate HasVerb(msg: string, w: Word)
  {
    Find(msg, Print(Open(w)), 0).Some?
  }

  lemma VerbFound(items: seq<Item<Tag>>, w: Word)
    requires ProperText(items)
    ensures HasVerb(Flat(Printed(items)), w) <==> exists k :: 0 <= k < |items| && items[k].tag == Open(w)
  {
    PrintedProper(items);
    SpelledTag(Open(w));
    if k :| 0 <= k < |items| && items[k].tag == Open(w) {
      var k' := FirstOf(items, Open(w), k);
      PrintedApart(items, Open(w), k');
      FindTag(Printed(items), Print(Open(w)), k');
    } else {
      PrintedApart(items, Open(w), |items|);
      FindNoTag(Printed(items), Print(Open(w)));
    }
  }

  lemma FirstOf(items: seq<Item<Tag>>, t: Tag, k: nat) returns (k': nat)
    requires k < |items| && items[k].tag == t
    ensures k' <= k && items[k'].tag == t && forall j :: 0 <= j < k' ==> items[j].tag != t
  {
    k' := 0;
    while items[k'].tag != t
      invariant k' <= k && forall j :: 0 <= j < k' ==> items[j].tag != t
      decreases k - k'
    {
      k' := k' + 1;
    }
  }

  // ------------------------------------------------------------------ the five formats

  function CommandItems(token: string, statement: string, user: string): seq<Item<Tag>>
  {
    [Item(Open(Vyatta), ""), Item(Open(Command), ""), Item(Open(Token), token), Item(Close(Token), ""),
     Item(Open(Statement), statement), Item(Close(Statement), ""), Item(Open(User), user), Item(Close(User), ""),
     Item(Close(Command), ""), Item(Close(Vyatta), "")]
  }

  function VerbItems(verb: Word, token: string, user: string): seq<Item<Tag>>
  {
    [Item(Open(Vyatta), ""), Item(Open(verb), ""), Item(Open(Token), token), Item(Close(Token), ""),
     Item(Open(User), user), Item(Close(User), ""), Item(Close(verb), ""), Item(Close(Vyatta), "")]
  }

  /** `CHUNKER_COMMAND_FORMAT`, and the shape that the other four formats share. */
  function CommandMsg(token: string, statement: string, user: string): string
  {
    Flat(Printed(CommandItems(token, statement, user)))
  }

  function VerbMsg(verb: Word, token: string, user: string): string
  {
    Flat(Printed(VerbItems(verb, token, user)))
  }

  function Concat(pieces: seq<string>): string
  {
    if pieces == [] then "" else pieces[0] + Concat(pieces[1..])
  }

  /** Each tag with the text behind it. */
  function Pieces(items: seq<Item<Tag>>): (r: seq<string>)
    ensures |r| == |items| && forall i :: 0 <= i < |items| ==> r[i] == Print(items[i].tag) + items[i].text
  {
    if items == [] then [] else [Print(items[0].tag) + items[0].text] + Pieces(items[1..])
  }

  lemma {:induction false} FlatPieces(items: seq<Item<Tag>>)
    ensures Flat(Printed(items)) == Concat(Pieces(items))
    decreases |items|
  {
    if items != [] {
      FlatPieces(items[1..]);
      assert Printed(items)[1..] == Printed(items[1..]);
    }
  }

  lemma OpenTags()
    ensures Print(Open(Vyatta)) == "<vyatta>" && Print(Open(Command)) == "<command>"
    ensures Print(Open(Process)) == "<process>" && Print(Open(Details)) == "<details>"
    ensures Print(Open(Next)) == "<next>" && Print(Open(Delete)) == "<delete>"
    ensures Print(Open(Token)) == "<token>" && Print(Open(Statement)) == "<statement>" && Print(Open(User)) == "<user>"
  {
  }

  lemma CloseTags()
    ensures Print(Close(Vyatta)) == "</vyatta>" && Print(Close(Command)) == "</command>"
    ensures Print(Close(Process)) == "</process>" && Print(Close(Details)) == "</details>"
    ensures Print(Close(Next)) == "</next>" && Print(Close(Delete)) == "</delete>"
    ensures Print(Close(Token)) == "</token>" && Print(Close(Statement)) == "</statement>"
    ensures Print(Close(User)) == "</user>"
  {
  }

  lemma Plain(it: Item<Tag>)
    requires it.text == ""
    ensures Print(it.tag) + it.text == Print(it.tag)
  {
  }

  /** The text of a `<command>` message, piece by piece. */
  lemma CommandFormat(token: string, statement: string, user: string)
    ensures CommandMsg(token, statement, user) ==
            Concat(["<vyatta>", "<command>", "<token>" + token, "</token>", "<statement>" + statement, "</statement>",
                    "<user>" + user, "</user>", "</command>", "</vyatta>"])
  {
    var it := CommandItems(token, statement, user);
    FlatPieces(it);
    OpenTags();
    CloseTags();
    var r := Pieces(it);
    Plain(it[0]);
    Plain(it[1]);
    Plain(it[3]);
    Plain(it[5]);
    Plain(it[7]);
    Plain(it[8]);
    Plain(it[9]);
    assert r == [r[0], r[1], r[2], r[3], r[4], r[5], r[6], r[7], r[8], r[9]];
  }

  /** The text of the other four. */
  lemma VerbFormat(verb: Word, token: string, user: string)
    requires IsVerb(verb)
    ensures VerbMsg(verb, token, user) ==
            Concat(["<vyatta>", Print(Open(verb)), "<token>" + token, "</token>", "<user>" + user, "</user>",
                    Print(Close(verb)), "</vyatta>"])
  {
    var it := VerbItems(verb, token, user);
    FlatPieces(it);
    OpenTags();
    CloseTags();
    var r := Pieces(it);
    Plain(it[0]);
    Plain(it[1]);
    Plain(it[3]);
    Plain(it[5]);
    Plain(it[6]);
    Plain(it[7]);
    assert r == [r[0], r[1], r[2], r[3], r[4], r[5], r[6], r[7]];
  }

  predicate IsVerb(w: Word)
  {
    w == Process || w == Details || w == Next || w == Delete
  }

  /** What `process` gets out of a message: the three fields, and the verb it acts on. */
  datatype Request = Request(token: Option<string>, statement: Option<string>, user: Option<string>, verb: Option<Word>)

  /** The verbs are looked for in this order. */
  function FirstVerb(msg: string): Option<Word>
  {
    if HasVerb(msg, Command) then Some(Command)
    else if HasVerb(msg, Process) then Some(Process)
    else if HasVerb(msg, Details) then Some(Details)
    else if HasVerb(msg, Next) then Some(Next)
    else if HasVerb(msg, Delete) then Some(Delete)
    else None
  }

  function Parse(msg: string): Request
  {
    Request(Extract(msg, Token), Extract(msg, Statement), Extract(msg, User), FirstVerb(msg))
  }

  lemma CommandText(token: string, statement: string, user: string)
    requires '<' !in token && '<' !in statement && '<' !in user
    ensures ProperText(CommandItems(token, statement, user))
  {
    var it := CommandItems(token, statement, user);
    forall k | 0 <= k < |it| ensures '<' !in it[k].text {
      assert it[k].text in {"", token, statement, user};
    }
  }

  lemma CommandToken(token: string, statement: string, user: string)
    requires ProperText(CommandItems(token, statement, user))
    ensures Extract(CommandMsg(token, statement, user), Token) == Some(token)
  {
    ExtractNamed(CommandItems(token, statement, user), 2, Token);
  }

  lemma CommandStatement(token: string, statement: string, user: string)
    requires ProperText(CommandItems(token, statement, user))
    ensures Extract(CommandMsg(token, statement, user), Statement) == Some(statement)
  {
    ExtractNamed(CommandItems(token, statement, user), 4, Statement);
  }

  lemma CommandUser(token: string, statement: string, user: string)
    requires ProperText(CommandItems(token, statement, user))
    ensures Extract(CommandMsg(token, statement, user), User) == Some(user)
  {
    ExtractNamed(CommandItems(token, statement, user), 6, User);
  }

  lemma CommandVerb(token: string, statement: string, user: string)
    requires ProperText(CommandItems(token, statement, user))
    ensures HasVerb(CommandMsg(token, statement, user), Command)
  {
    var it := CommandItems(token, statement, user);
    assert it[1].tag == Open(Command);
    VerbFound(it, Command);
  }

  /** The manager gets out of a `<command>` message what the client put in. */
  lemma CommandRoundTrip(token: string, statement: string, user: string)
    requires '<' !in token && '<' !in statement && '<' !in user
    ensures Parse(CommandMsg(token, statement, user)) ==
            Request(Some(token), Some(statement), Some(user), Some(Command))
  {
    CommandText(token, statement, user);
    CommandToken(token, statement, user);
    CommandStatement(token, statement, user);
    CommandUser(token, statement, user);
    CommandVerb(token, statement, user);
  }

  lemma VerbText(verb: Word, token: string, user: string)
    requires '<' !in token && '<' !in user
    ensures ProperText(VerbItems(verb, token, user))
  {
    var it := VerbItems(verb, token, user);
    forall k | 0 <= k < |it| ensures '<' !in it[k].text {
      assert it[k].text in {"", token, user};
    }
  }

  lemma VerbToken(verb: Word, token: string, user: string)
    requires IsVerb(verb) && ProperText(VerbItems(verb, token, user))
    ensures Extract(VerbMsg(verb, token, user), Token) == Some(token)
  {
    ExtractNamed(VerbItems(verb, token, user), 2, Token);
  }

  lemma VerbUser(verb: Word, token: string, user: string)
    requires IsVerb(verb) && ProperText(VerbItems(verb, token, user))
    ensures Extract(VerbMsg(verb, token, user), User) == Some(user)
  {
    ExtractNamed(VerbItems(verb, token, user), 4, User);
  }

  lemma VerbStatement(verb: Word, token: string, user: string)
    requires IsVerb(verb) && ProperText(VerbItems(verb, token, user))
    ensures Extract(VerbMsg(verb, token, user), Statement) == None
  {
    ExtractNothing(VerbItems(verb, token, user), Statement);
  }

  lemma VerbHas(verb: Word, token: string, user: string, w: Word)
    requires IsVerb(verb) && ProperText(VerbItems(verb, token, user)) && (IsVerb(w) || w == Command)
    ensures HasVerb(VerbMsg(verb, token, user), w) <==> w == verb
  {
    var it := VerbItems(verb, token, user);
    assert it[1].tag == Open(verb);
    VerbFound(it, w);
  }

  /** And so for the other four. */
  lemma VerbRoundTrip(verb: Word, token: string, user: string)
    requires IsVerb(verb) && '<' !in token && '<' !in user
    ensures Parse(VerbMsg(verb, token, user)) == Request(Some(token), None, Some(user), Some(verb))
  {
    VerbText(verb, token, user);
    VerbToken(verb, token, user);
    VerbUser(verb, token, user);
    VerbStatement(verb, token, user);
    VerbHas(verb, token, user, Command);
    VerbHas(verb, token, user, Process);
    VerbHas(verb, token, user, Details);
    VerbHas(verb, token, user, Next);
    VerbHas(verb, token, user, Delete);
  }
}
