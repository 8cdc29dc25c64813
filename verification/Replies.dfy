/**
 The replies of the manager as the client takes them apart with nested `StrProc`
 splits: listing of processes, and the offset answered to a poll.
 */
module Replies {
  import opened Text
  import opened Digits
  import opened Paging
  import opened Manager
  import M = Messages
  import S = StrProc

  /** A field that neither separator nor `StrProc` itself disturbs. */
  predicate CleanField(s: string)
  {
    s != "" && S.Neat(s) && Free(s, COMMA) && Free(s, COLON)
  }

  predicate CleanProc(p: Proc)
  {
    CleanField(p.command) && CleanField(p.token) && CleanField(p.user)
  }

  lemma NoPercent(s: string)
    requires '%' !in s
    ensures Free(s, COMMA) && Free(s, COLON)
  {
    forall i | 0 <= i < |s| ensures !At(s, COMMA, i) && !At(s, COLON, i) {
      if i + 3 <= |s| { assert s[i..i + 3][0] == s[i]; }
      assert s[i] in s;
    }
  }

  lemma NumberClean(i: int)
    ensures CleanField(SignedDecimal(i)) && (i >= 0 ==> SignedDecimal(i) == Decimal(i))
  {
    var d := Decimal(if i < 0 then -i else i);
    assert forall c :: c in d ==> IsDigit(c);
    NoPercent(SignedDecimal(i));
  }

  lemma FieldsClean(p: Proc, offset: int)
    requires CleanProc(p)
    ensures forall f :: f in FieldsOf(p, offset) ==> CleanField(f)
  {
    NumberClean(p.start);
    NumberClean(offset);
  }

  /** A printed record comes apart into its five fields. */
  lemma RecordFields(p: Proc, offset: int)
    requires CleanProc(p)
    ensures S.Fields(Join(FieldsOf(p, offset), COLON), COLON) == FieldsOf(p, offset)
    ensures S.Fields(Join(FieldsOf(p, offset), COLON) + "\n", COLON) == FieldsOf(p, offset)
  {
    FieldsClean(p, offset);
    S.FieldsJoin(FieldsOf(p, offset), COLON);
  }

  /** No `%2C` can straddle a field boundary of a record. */
  lemma ColonKeepsCommaFree(p: string, rest: string)
    requires Free(p, COMMA) && Free(rest, COMMA)
    ensures Free(p + COLON + rest, COMMA)
  {
    var s := p + COLON + rest;
    forall i | 0 <= i < |s| ensures !At(s, COMMA, i) {
      if i + 3 <= |s| {
        assert s[i..i + 3][0] == s[i] && s[i..i + 3][1] == s[i + 1] && s[i..i + 3][2] == s[i + 2];
        if i + 3 <= |p| {
          assert s[i..i + 3] == p[i..i + 3];
          assert !At(p, COMMA, i);
        } else if i < |p| {
          assert s[|p|] == '%';
        } else if i < |p| + 3 {
          assert s[i] == COLON[i - |p|];
        } else {
          assert s[i..i + 3] == rest[i - |p| - 3..i - |p|];
          assert !At(rest, COMMA, i - |p| - 3);
        }
      }
    }
  }

  lemma {:induction false} JoinCommaFree(parts: seq<string>)
    requires forall p :: p in parts ==> Free(p, COMMA)
    ensures Free(Join(parts, COLON), COMMA)
    decreases |parts|
  {
    if |parts| > 1 {
      JoinCommaFree(parts[1..]);
      ColonKeepsCommaFree(parts[0], Join(parts[1..], COLON));
    }
  }

  lemma RecordClean(p: Proc)
    requires CleanProc(p)
    ensures Record(p) != "" && S.Neat(Record(p)) && Free(Record(p), COMMA)
  {
    var fs := FieldsOf(p, Signed(p.cursor.offset));
    FieldsClean(p, Signed(p.cursor.offset));
    S.JoinNeat(fs, COLON);
    JoinCommaFree(fs);
    assert Join(fs, COLON) == fs[0] + COLON + Join(fs[1..], COLON);
  }

  /** The text of a record, field by field. */
  lemma RecordText(p: Proc)
    ensures Record(p) == Decimal(p.start) + "%3A" + p.command + "%3A" + p.token + "%3A" + p.user + "%3A" +
                         SignedDecimal(Signed(p.cursor.offset))
    ensures COMMA == "%2C"
  {
    var a, b, c, d, e := Decimal(p.start), p.command, p.token, p.user, SignedDecimal(Signed(p.cursor.offset));
    var fs := [a, b, c, d, e];
    assert fs[1..] == [b, c, d, e] && [b, c, d, e][1..] == [c, d, e] && [c, d, e][1..] == [d, e] && [d, e][1..] == [e];
    assert Join([e], COLON) == e && Join([d, e], COLON) == d + COLON + e;
    assert Join([c, d, e], COLON) == c + COLON + (d + COLON + e);
    Regroup(c, COLON, d, COLON + e);
    assert Join(fs, COLON) == a + COLON + (b + COLON + (c + COLON + (d + COLON + e)));
  }

  // ------------------------------------------------------------------ listings

  function Records(ps: seq<Proc>): seq<string>
  {
    if ps == [] then [] else [Record(ps[0])] + Records(ps[1..])
  }

  lemma ListingSnoc(ps: seq<Proc>, front: seq<Proc>, last: Proc)
    requires ps == front + [last]
    ensures Listing(ps) == Listing(front) + (Record(last) + COMMA)
  {
    assert ps[..|ps| - 1] == front;
  }

  lemma {:induction false} ListingCons(ps: seq<Proc>)
    requires ps != []
    ensures Listing(ps) == Record(ps[0]) + COMMA + Listing(ps[1..])
    decreases |ps|
  {
    var n := |ps| - 1;
    if n > 0 {
      ListingCons(ps[..n]);
      assert ps[1..] == ps[..n][1..] + [ps[n]];
      ListingSnoc(ps, ps[..n], ps[n]);
      ListingSnoc(ps[1..], ps[..n][1..], ps[n]);
      Regroup(Record(ps[0]), COMMA, Listing(ps[..n][1..]), Record(ps[n]) + COMMA);
    } else {
      assert ps[..0] == [] && ps[1..] == [];
    }
  }

  lemma {:induction false} ListingSplit(ps: seq<Proc>)
    requires forall p :: p in ps ==> CleanProc(p)
    ensures S.Neat(Listing(ps)) && Split(Listing(ps), COMMA) == Records(ps) + [""]
    decreases |ps|
  {
    if ps == [] {
      FindNowhere("", COMMA, 0);
    } else {
      var r, rest := Record(ps[0]), Listing(ps[1..]);
      ListingCons(ps);
      ListingSplit(ps[1..]);
      RecordClean(ps[0]);
      FindField(r, COMMA, rest);
      SplitOff(r, rest);
    }
  }

  lemma SplitOff(r: string, rest: string)
    requires Find(r + COMMA + rest, COMMA, 0) == Some(|r|)
    ensures Split(r + COMMA + rest, COMMA) == [r] + Split(rest, COMMA)
  {
    var s := r + COMMA + rest;
    assert s[..|r|] == r && s[|r| + 3..] == rest;
  }

  lemma {:induction false} RecordsNonEmpty(ps: seq<Proc>)
    requires forall p :: p in ps ==> CleanProc(p)
    ensures "" !in Records(ps)
    decreases |ps|
  {
    if ps != [] {
      RecordClean(ps[0]);
      RecordsNonEmpty(ps[1..]);
    }
  }

  /** The client's view of a process. */
  datatype ProcessData = ProcessData(start: nat, command: string, id: string, username: string)

  function View(p: Proc): ProcessData
  {
    ProcessData(p.start, p.command, p.token, p.user)
  }

  function Views(ps: seq<Proc>): seq<ProcessData>
  {
    if ps == [] then [] else [View(ps[0])] + Views(ps[1..])
  }

  function ReadRecord(text: string): ProcessData
  {
    var f := S.Fields(text, COLON);
    ProcessData(ReadDecimal(Field(f, 0)), Field(f, 1), Field(f, 2), Field(f, 3))
  }

  function ReadRecords(texts: seq<string>): seq<ProcessData>
  {
    if texts == [] then [] else [ReadRecord(texts[0])] + ReadRecords(texts[1..])
  }

  /** A reply taken apart twice. */
  function ReadReply(reply: string): seq<ProcessData>
  {
    ReadRecords(S.Fields(reply, COMMA))
  }

  lemma {:induction false} ReadBack(ps: seq<Proc>)
    requires forall p :: p in ps ==> CleanProc(p)
    ensures ReadRecords(Records(ps)) == Views(ps)
    decreases |ps|
  {
    if ps != [] {
      RecordFields(ps[0], Signed(ps[0].cursor.offset));
      ReadPrinted(ps[0].start);
      ReadBack(ps[1..]);
    }
  }

  lemma {:induction false} ReadSnoc(texts: seq<string>, k: nat)
    requires k < |texts|
    ensures ReadRecords(texts[..k + 1]) == ReadRecords(texts[..k]) + [ReadRecord(texts[k])]
    decreases k
  {
    if k > 0 {
      assert texts[..k + 1][1..] == texts[1..][..k] && texts[..k][1..] == texts[1..][..k - 1];
      ReadSnoc(texts[1..], k - 1);
    } else {
      assert texts[..1][1..] == [];
    }
  }

  /**
   `get_processes`: from the reply to a `<process>` message the client gets back start
   time, command, token and user of exactly the listed entries, in their order.
   */
  method GetProcesses(reply: string) returns (procs: seq<ProcessData>)
    ensures procs == ReadReply(reply)
    ensures forall ps :: reply == Listing(ps) && (forall p :: p in ps ==> CleanProc(p)) ==> procs == Views(ps)
  {
    procs := [];
    var sp := new S.StrProc(reply, COMMA);
    var coll := sp.fields;
    var i := 0;
    while i < |coll|
      invariant 0 <= i <= |coll| && procs == ReadRecords(coll[..i])
    {
      var sp2 := new S.StrProc(coll[i], COLON);
      var pd := ProcessData(ReadDecimal(sp2.Get(0)), sp2.Get(1), sp2.Get(2), sp2.Get(3));
      ReadSnoc(coll, i);
      procs := procs + [pd];
      i := i + 1;
    }
    assert coll[..i] == coll;
    forall ps | reply == Listing(ps) && (forall p :: p in ps ==> CleanProc(p)) ensures procs == Views(ps) {
      ListingFields(ps);
      ReadBack(ps);
    }
  }

  lemma ListingFields(ps: seq<Proc>)
    requires forall p :: p in ps ==> CleanProc(p)
    ensures S.Fields(Listing(ps), COMMA) == Records(ps)
  {
    ListingSplit(ps);
    S.FieldsNeat(Listing(ps), COMMA);
    NonEmptyConcat(Records(ps), [""]);
    RecordsNonEmpty(ps);
    NonEmptyId(Records(ps));
  }

  /** The listing for a user holds exactly that user's entries of the table. */
  lemma {:induction false} SelectExactly(t: Table, order: seq<string>, user: string, p: Proc)
    ensures p in Select(t, order, user, None) <==> exists k :: k in order && k in t && t[k] == p && p.user == user
    decreases |order|
  {
    if order != [] {
      var n := |order| - 1;
      SelectExactly(t, order[..n], user, p);
      assert order == order[..n] + [order[n]];
    }
  }

  /** The key of `p` stands before position `n`. */
  predicate Placed(order: seq<string>, p: Proc, n: nat)
    requires n <= |order|
  {
    exists a :: 0 <= a < n && order[a] == p.token
  }

  /** The key of `p` stands before that of `q`. */
  predicate Before(order: seq<string>, p: Proc, q: Proc)
  {
    exists b :: 0 <= b < |order| && order[b] == q.token && Placed(order, p, b)
  }

  predicate InOrder(order: seq<string>, ps: seq<Proc>)
  {
    && (forall i :: 0 <= i < |ps| ==> Placed(order, ps[i], |order|))
    && (forall i, j :: 0 <= i < j < |ps| ==> Before(order, ps[i], ps[j]))
  }

  lemma PlacedLater(order: seq<string>, n: nat, p: Proc, b: nat)
    requires b <= n <= |order| && Placed(order[..n], p, b)
    ensures Placed(order, p, b)
  {
    var a :| 0 <= a < b && order[..n][a] == p.token;
    assert order[a] == p.token;
  }

  lemma InOrderLater(order: seq<string>, k: string, ps: seq<Proc>)
    requires InOrder(order, ps)
    ensures InOrder(order + [k], ps)
    ensures forall i :: 0 <= i < |ps| ==> Placed(order + [k], ps[i], |order|)
  {
    var more, n := order + [k], |order|;
    assert more[..n] == order;
    forall i | 0 <= i < |ps| ensures Placed(more, ps[i], n) { PlacedLater(more, n, ps[i], n); }
    forall i, j | 0 <= i < j < |ps| ensures Before(more, ps[i], ps[j]) {
      assert Before(order, ps[i], ps[j]);
      var b :| 0 <= b < n && order[b] == ps[j].token && Placed(order, ps[i], b);
      PlacedLater(more, n, ps[i], b);
      assert more[b] == ps[j].token;
    }
    forall i | 0 <= i < |ps| ensures Placed(more, ps[i], |more|) {
      assert Placed(more, ps[i], n);
      var a :| 0 <= a < n && more[a] == ps[i].token;
    }
  }

  /** Entries are listed in the order of the table. */
  lemma {:induction false} SelectInOrder(t: Table, order: seq<string>, user: string, token: Option<string>)
    requires Sound(t)
    ensures InOrder(order, Select(t, order, user, token))
    decreases |order|
  {
    if order != [] {
      var n := |order| - 1;
      var before, ps, k := Select(t, order[..n], user, token), Select(t, order, user, token), order[n];
      assert order == order[..n] + [k];
      SelectInOrder(t, order[..n], user, token);
      InOrderLater(order[..n], k, before);
      if ps != before {
        assert ps == before + [t[k]] && order[n] == t[k].token;
        forall i | 0 <= i < |before| ensures Before(order, ps[i], t[k]) { assert ps[i] == before[i]; }
        assert Placed(order, t[k], |order|);
      } else {
        assert before + [] == before;
      }
    }
  }

  /** The keys of the table, each once. */
  ghost predicate Lists(order: seq<string>, t: Table)
  {
    (forall k :: k in order <==> k in t) && forall i, j :: 0 <= i < j < |order| ==> order[i] != order[j]
  }

  lemma SelectOnce(t: Table, order: seq<string>, user: string)
    requires Sound(t) && Lists(order, t)
    ensures var ps := Select(t, order, user, None); forall i, j :: 0 <= i < j < |ps| ==> ps[i].token != ps[j].token
  {
    SelectInOrder(t, order, user, None);
    var ps := Select(t, order, user, None);
    forall i, j | 0 <= i < j < |ps| ensures ps[i].token != ps[j].token {
      assert Before(order, ps[i], ps[j]);
      var b :| 0 <= b < |order| && order[b] == ps[j].token && Placed(order, ps[i], b);
      var a :| 0 <= a < b && order[a] == ps[i].token;
    }
  }

  function Reply(t: Table, order: seq<string>, msg: string, env: Env, chunk: nat): Option<string>
  {
    Handle(t, order, M.Parse(msg), env, chunk).1
  }

  /**
   From the client's `<process>` message to what it reads: exactly the processes of its
   user, each once, in the order of the table, whatever token is in the message.
   */
  lemma ProcessRoundTrip(t: Table, order: seq<string>, token: string, user: string, env: Env, chunk: nat)
    requires Sound(t) && Lists(order, t) && '<' !in token && '<' !in user
    requires forall k :: k in t && t[k].user == user ==> CleanProc(t[k])
    ensures var ps := Select(t, order, user, None);
            && Handle(t, order, M.Parse(M.VerbMsg(M.Process, token, user)), env, chunk).0 == t
            && Reply(t, order, M.VerbMsg(M.Process, token, user), env, chunk) == Some(Listing(ps))
            && ReadReply(Listing(ps)) == Views(ps)
            && (forall p :: p in ps <==> exists k :: k in t && t[k] == p && p.user == user)
            && InOrder(order, ps) && (forall i, j :: 0 <= i < j < |ps| ==> ps[i].token != ps[j].token)
  {
    var ps := Select(t, order, user, None);
    ProcessReply(t, order, token, user, env, chunk);
    SelectInOrder(t, order, user, None);
    SelectOnce(t, order, user);
    SelectAll(t, order, user);
    ListingFields(ps);
    ReadBack(ps);
  }

  lemma ProcessReply(t: Table, order: seq<string>, token: string, user: string, env: Env, chunk: nat)
    requires '<' !in token && '<' !in user
    ensures Handle(t, order, M.Parse(M.VerbMsg(M.Process, token, user)), env, chunk) ==
            (t, Some(Listing(Select(t, order, user, None))))
  {
    M.VerbRoundTrip(M.Process, token, user);
  }

  lemma SelectAll(t: Table, order: seq<string>, user: string)
    requires Lists(order, t)
    ensures forall p :: p in Select(t, order, user, None) <==> exists k :: k in t && t[k] == p && p.user == user
  {
    forall p
      ensures p in Select(t, order, user, None) <==> exists k :: k in t && t[k] == p && p.user == user
    {
      SelectExactly(t, order, user, p);
    }
  }

  // ------------------------------------------------------------------ polls

  /** `strtol` of the offset field. */
  function ReadSigned(s: string): int
  {
    if s != "" && s[0] == '-' then 0 - ReadDecimal(s[1..]) else ReadDecimal(s)
  }

  lemma ReadSignedPrinted(i: int)
    ensures ReadSigned(SignedDecimal(i)) == i
  {
    if i < 0 {
      assert SignedDecimal(i)[1..] == Decimal(-i);
      ReadPrinted(-i);
    } else {
      ReadPrinted(i);
      assert IsDigit(Decimal(i)[0]);
    }
  }

  /** The position that `get_chunk` reads out of the reply to its `<next>`, if the reply has one. */
  function ChunkPos(reply: string): Option<int>
  {
    var f := Field(S.Fields(reply, COLON), 4);
    if f == "" then None else Some(ReadSigned(f))
  }

  /**
   A poll of the owner, up to the position the client then reads from: the answer is
   that of the cursor, which moves on; all else in the table stays.
   */
  lemma PollRoundTrip(t: Table, order: seq<string>, token: string, user: string, env: Env, chunk: nat)
    requires token in t && t[token].user == user && CleanProc(t[token])
    ensures var (t', reply) := Handle(t, order, NextRequest(token, user), env, chunk);
            && reply.Some? && ChunkPos(reply.value) == Some(Answer(t[token].cursor))
            && t' == t[token := t[token].(cursor := Advance(t[token].cursor, chunk, StatOf(env, token)))]
  {
    AnswerReads(t[token], Answer(t[token].cursor));
  }

  lemma AnswerReads(p: Proc, answer: int)
    requires CleanProc(p)
    ensures ChunkPos(Join(FieldsOf(p, answer), COLON) + "\n") == Some(answer)
  {
    RecordFields(p, answer);
    ReadSignedPrinted(answer);
    NumberClean(answer);
    assert FieldsOf(p, answer)[4] == SignedDecimal(answer);
  }

  /** The message that the client sends parses to that request. */
  lemma NextMessage(token: string, user: string)
    requires '<' !in token && '<' !in user
    ensures M.Parse(M.VerbMsg(M.Next, token, user)) == NextRequest(token, user)
  {
    M.VerbRoundTrip(M.Next, token, user);
  }

  // ------------------------------------------------------------------ from start to first poll

  /** Nothing but the entry of `token` differs. */
  predicate SameBut(t: Table, t': Table, token: string)
  {
    t'.Keys == t.Keys + {token} && forall k :: k in t && k != token ==> t'[k] == t[k]
  }

  /**
   A `<command>` message with a new token and nothing empty starts exactly one process.  With
   a token that is there it starts nothing, and without a statement it touches the entry.
   */
  lemma CommandStarts(t: Table, order: seq<string>, token: string, statement: string, user: string,
                      env: Env, chunk: nat)
    requires '<' !in token && '<' !in statement && '<' !in user
    ensures var (t', reply) := Handle(t, order, M.Parse(M.CommandMsg(token, statement, user)), env, chunk);
            && reply == None
            && (token !in t && token != "" && statement != "" && user != "" ==>
                  && SameBut(t, t', token) && t'[token].token == token
                  && t'[token].command == statement && t'[token].user == user
                  && t'[token].start == env.now && t'[token].lastUpdate == env.now
                  && t'[token].cursor.offset == 0 && t'[token].cursor.status == Running)
            && (token !in t && (token == "" || statement == "" || user == "") ==> t' == t)
            && (token in t && statement != "" ==> t' == t)
            && (token in t && statement == "" ==>
                  && SameBut(t, t', token) && t'[token].lastUpdate == env.now
                  && SameProcess(t[token], t'[token]) && t'[token].cursor == t[token].cursor)
  {
    M.CommandRoundTrip(token, statement, user);
  }

  /** A message without a token does nothing. */
  lemma NoToken(t: Table, order: seq<string>, r: M.Request, env: Env, chunk: nat)
    requires r.token.None?
    ensures Handle(t, order, r, env, chunk) == (t, None)
  {
  }

  lemma {:induction false} ViewIn(ps: seq<Proc>, p: Proc)
    requires p in ps
    ensures View(p) in Views(ps)
    decreases |ps|
  {
    if ps[0] != p { ViewIn(ps[1..], p); }
  }

  /** What a client has started it finds in its list, and its first poll answers 0. */
  lemma StartedIsThere(t: Table, order: seq<string>, token: string, statement: string, user: string,
                       later: seq<string>, env: Env, env': Env, chunk: nat)
    requires Sound(t) && token !in t && token != "" && statement != "" && user != ""
    requires CleanField(token) && CleanField(statement) && CleanField(user)
    requires '<' !in token && '<' !in statement && '<' !in user
    requires forall k :: k in t && t[k].user == user ==> CleanProc(t[k])
    requires (forall k :: k in later <==> k in t || k == token)
    requires forall i, j :: 0 <= i < j < |later| ==> later[i] != later[j]
    ensures var t' := Handle(t, order, M.Parse(M.CommandMsg(token, statement, user)), env, chunk).0;
            var list := Handle(t', later, M.Parse(M.VerbMsg(M.Process, token, user)), env', chunk).1;
            var poll := Handle(t', later, M.Parse(M.VerbMsg(M.Next, token, user)), env', chunk).1;
            && list.Some? && ProcessData(env.now, statement, token, user) in ReadReply(list.value)
            && poll.Some? && ChunkPos(poll.value) == Some(0)
  {
    var t' := Handle(t, order, M.Parse(M.CommandMsg(token, statement, user)), env, chunk).0;
    CommandStarts(t, order, token, statement, user, env, chunk);
    StartedSound(t, t', token);
    ProcessRoundTrip(t', later, token, user, env', chunk);
    ViewIn(Select(t', later, user, None), t'[token]);
    NextMessage(token, user);
    PollRoundTrip(t', later, token, user, env', chunk);
  }

  lemma StartedSound(t: Table, t': Table, token: string)
    requires Sound(t) && SameBut(t, t', token)
    requires t'[token].token == token && token != "" && t'[token].command != "" && t'[token].user != ""
    ensures Sound(t')
  {
  }

  // ------------------------------------------------------------------ details and refusals

  const NOBODY := ProcessData(0, "", "", "")

  /** `get_process_details`: the first record, or empty fields. */
  method GetProcessDetails(reply: string) returns (pd: ProcessData)
    ensures pd == if ReadReply(reply) == [] then NOBODY else ReadReply(reply)[0]
  {
    pd := NOBODY;
    var sp := new S.StrProc(reply, COMMA);
    var coll := sp.fields;
    if coll != [] {
      var sp2 := new S.StrProc(coll[0], COLON);
      pd := ProcessData(ReadDecimal(sp2.Get(0)), sp2.Get(1), sp2.Get(2), sp2.Get(3));
    }
  }

  /** From the client's `<details>` message: at most the one process of that token, if it is the user's. */
  lemma DetailsRoundTrip(t: Table, order: seq<string>, token: string, user: string, env: Env, chunk: nat)
    requires Sound(t) && Lists(order, t) && '<' !in token && '<' !in user
    requires token in t && t[token].user == user ==> CleanProc(t[token])
    ensures var (t', reply) := Handle(t, order, M.Parse(M.VerbMsg(M.Details, token, user)), env, chunk);
            && t' == t && reply.Some?
            && ReadReply(reply.value) == if token in t && t[token].user == user then [View(t[token])] else []
  {
    DetailsReply(t, order, token, user, env, chunk);
    SelectToken(t, order, user, token);
    ReadSelected(Select(t, order, user, Some(token)));
  }

  lemma ReadSelected(ps: seq<Proc>)
    requires |ps| <= 1 && forall p :: p in ps ==> CleanProc(p)
    ensures ReadReply(Listing(ps)) == if ps == [] then [] else [View(ps[0])]
  {
    ListingFields(ps);
    ReadBack(ps);
    ViewsOne(ps);
  }

  lemma ViewsOne(ps: seq<Proc>)
    requires |ps| <= 1
    ensures Views(ps) == if ps == [] then [] else [View(ps[0])]
  {
    assert ps != [] ==> ps[1..] == [];
  }

  lemma DetailsReply(t: Table, order: seq<string>, token: string, user: string, env: Env, chunk: nat)
    requires '<' !in token && '<' !in user
    ensures Handle(t, order, M.Parse(M.VerbMsg(M.Details, token, user)), env, chunk) ==
            (t, Some(Listing(Select(t, order, user, Some(token)))))
  {
    M.VerbRoundTrip(M.Details, token, user);
  }

  lemma {:induction false} SelectToken(t: Table, order: seq<string>, user: string, token: string)
    requires Sound(t) && forall i, j :: 0 <= i < j < |order| ==> order[i] != order[j]
    ensures Select(t, order, user, Some(token)) ==
            if token in order && token in t && t[token].user == user then [t[token]] else []
    decreases |order|
  {
    if order != [] {
      var n := |order| - 1;
      SelectToken(t, order[..n], user, token);
      assert order == order[..n] + [order[n]];
      assert order[n] == token ==> token !in order[..n];
    }
  }

  lemma BlankReply()
    ensures ChunkPos("") == None && ChunkPos("  ") == None
  {
    assert S.Neat("") && S.Neat("  ");
    S.FieldsNeat("", COLON);
    S.FieldsNeat("  ", COLON);
    assert Free("", COLON) && Free("  ", COLON);
    FindNone("", COLON);
    FindNone("  ", COLON);
    assert |NonEmpty([""])| <= 1 && |NonEmpty(["  "])| <= 1;
  }

  /** A `<next>` by anyone but the owner, or for no process, changes nothing, and there is no position to read. */
  lemma PollRefused(t: Table, order: seq<string>, token: string, user: string, env: Env, chunk: nat)
    requires token !in t || t[token].user != user
    ensures var (t', reply) := Handle(t, order, NextRequest(token, user), env, chunk);
            t' == t && reply.Some? && ChunkPos(reply.value) == None
  {
    BlankReply();
  }
}
