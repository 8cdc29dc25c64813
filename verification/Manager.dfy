/**
 `ChunkerManager`: the process table and what every message does to it, and the
 replies as `MultiResponseCommand` reads them.
 */
module Manager {
  import opened Text
  import opened Digits
  import opened Paging
  import M = Messages

  datatype Proc = Proc(start: nat, lastUpdate: nat, command: string, token: string, user: string, cursor: Cursor)

  type Table = map<string, Proc>

  /** The clock, the files of each token, and whether a readable pid file exists for it. */
  datatype Env = Env(now: nat, stats: map<string, Stat>, pids: set<string>)

  function StatOf(env: Env, token: string): Stat
  {
    if token in env.stats then env.stats[token] else Stat(None, false)
  }

  // ------------------------------------------------------------------ replies

  const COMMA := "%2C"
  const COLON := "%3A"

  function SignedDecimal(i: int): string
  {
    if i < 0 then "-" + Decimal(-i) else Decimal(i)
  }

  function FieldsOf(p: Proc, offset: int): seq<string>
  {
    [Decimal(p.start), p.command, p.token, p.user, SignedDecimal(offset)]
  }

  function Record(p: Proc): string
  {
    Join(FieldsOf(p, Signed(p.cursor.offset)), COLON)
  }

  function Listing(ps: seq<Proc>): string
  {
    if ps == [] then "" else Listing(ps[..|ps| - 1]) + (Record(ps[|ps| - 1]) + COMMA)
  }

  /** The entries of one user, and of one token if given, in the order of the table. */
  function Select(t: Table, order: seq<string>, user: string, token: Option<string>): seq<Proc>
  {
    if order == [] then []
    else
      var k := order[|order| - 1];
      Select(t, order[..|order| - 1], user, token) +
      if k in t && t[k].user == user && (token.Some? ==> t[k].token == token.value) then [t[k]] else []
  }

  // ------------------------------------------------------------------ one message

  /** `<command>`: touch, start, or nothing; `insert` does not replace an entry. */
  function Started(t: Table, token: string, statement: string, user: string, now: nat): Table
  {
    if token in t && statement == "" then t[token := t[token].(lastUpdate := now)]
    else if statement == "" || token == "" || user == "" || token in t then t
    else t[token := Proc(now, now, statement, token, user, Cursor(0, Running))]
  }

  /** `<next>`: the owner gets the record with the answered offset, and the cursor moves. */
  function Stepped(t: Table, token: string, user: string, chunk: nat, s: Stat): (Table, string)
  {
    if token !in t then (t, "  ")
    else if t[token].user != user then (t, "")
    else
      var p := t[token];
      (t[token := p.(cursor := Advance(p.cursor, chunk, s))], Join(FieldsOf(p, Answer(p.cursor)), COLON) + "\n")
  }

  /** The whole of `process` on a parsed message: the new table and the reply, if any. */
  function Handle(t: Table, order: seq<string>, r: M.Request, env: Env, chunk: nat): (Table, Option<string>)
  {
    if r.token.None? || r.verb.None? then (t, None)
    else
      var token, user := r.token.value, OrEmpty(r.user);
      match r.verb.value
      case Command => (Started(t, token, OrEmpty(r.statement), user, env.now), None)
      case Process => (t, Some(Listing(Select(t, order, user, None))))
      case Details => (t, Some(Listing(Select(t, order, user, Some(token)))))
      case Next => var (t', reply) := Stepped(t, token, user, chunk, StatOf(env, token)); (t', Some(reply))
      case Delete => (if token in env.pids then t - {token} else t, None)
      case _ => (t, None)
  }

  class ChunkerManager {
    var procs: Table
    const chunk: nat

    constructor (chunkSize: nat)
      ensures procs == map[] && chunk == chunkSize
    {
      procs, chunk := map[], chunkSize;
    }

    method Process(msg: string, order: seq<string>, env: Env) returns (reply: Option<string>)
      modifies this`procs
      ensures (procs, reply) == Handle(old(procs), order, M.Parse(msg), env, chunk)
    {
      reply := None;
      var r := M.Parse(msg);
      if r.token.None? || r.verb.None? { return; }
      var token := r.token.value;
      var statement, user := OrEmpty(r.statement), OrEmpty(r.user);
      match r.verb.value {
        case Command =>
          if token in procs && statement == "" {
            procs := procs[token := procs[token].(lastUpdate := env.now)];
          } else {
            var pd := Proc(env.now, env.now, statement, token, user, Cursor(0, Running));
            if statement == "" || token == "" || user == "" { return; }
            if token !in procs { procs := procs[token := pd]; }
          }
        case Process =>
          var resp := List(order, user, None);
          reply := Some(resp);
        case Details =>
          var resp := List(order, user, Some(token));
          reply := Some(resp);
        case Next =>
          var resp := NextChunk(token, user, StatOf(env, token));
          reply := Some(resp);
        case Delete =>
          if token in env.pids { procs := procs - {token}; }
        case _ =>
      }
    }

    /** The loop over the table that builds the `<process>` and `<details>` replies. */
    method List(order: seq<string>, user: string, token: Option<string>) returns (resp: string)
      ensures resp == Listing(Select(procs, order, user, token))
    {
      resp := "";
      var i := 0;
      while i < |order|
        invariant 0 <= i <= |order|
        invariant resp == Listing(Select(procs, order[..i], user, token))
      {
        var k := order[i];
        ghost var sel := Select(procs, order[..i], user, token);
        assert order[..i + 1][..i] == order[..i] && order[..i + 1][i] == k;
        if k in procs && procs[k].user == user && (token.Some? ==> procs[k].token == token.value) {
          assert (sel + [procs[k]])[..|sel|] == sel;
          resp := resp + (Record(procs[k]) + COMMA);
        } else {
          assert sel + [] == sel;
        }
        i := i + 1;
      }
      assert order[..i] == order;
    }

    method NextChunk(token: string, user: string, s: Stat) returns (resp: string)
      modifies this`procs
      ensures (procs, resp) == Stepped(old(procs), token, user, chunk, s)
    {
      if token !in procs { return "  "; }
      var p := procs[token];
      if user != p.user { return ""; }
      var offset := p.cursor.offset;
      var status := p.cursor.status;
      if status == Dead { offset := MINUS_ONE; }
      resp := Join(FieldsOf(p, Signed(offset)), COLON) + "\n";
      if s.size.Some? {
        if s.size.value % HALF > (offset + chunk) % WORD {
          offset := (offset + chunk) % WORD;
        } else {
          offset := s.size.value % WORD;
          if s.marker { status := Dead; }
        }
      }
      procs := procs[token := p.(cursor := Cursor(offset, status))];
    }
  }

  // ------------------------------------------------------------------ the table over all runs

  /** Every key is its entry's token, and nothing in an entry is empty. */
  predicate Sound(t: Table)
  {
    forall k :: k in t ==> t[k].token == k && k != "" && t[k].command != "" && t[k].user != ""
  }

  /** What never changes while an entry lives. */
  predicate SameProcess(p: Proc, q: Proc)
  {
    p.start == q.start && p.command == q.command && p.token == q.token && p.user == q.user
  }

  predicate Keeps(t: Table, t': Table)
  {
    Sound(t') && forall k :: k in t && k in t' ==> SameProcess(t[k], t'[k])
  }

  lemma StartedKeeps(t: Table, token: string, statement: string, user: string, now: nat)
    requires Sound(t)
    ensures Keeps(t, Started(t, token, statement, user, now))
  {
  }

  lemma SteppedKeeps(t: Table, token: string, user: string, chunk: nat, s: Stat)
    requires Sound(t)
    ensures Keeps(t, Stepped(t, token, user, chunk, s).0)
  {
    if token in t {
      var p := t[token].(cursor := Advance(t[token].cursor, chunk, s));
      assert SameProcess(t[token], p);
    }
  }

  /** Every message keeps the table sound and every surviving entry the same process. */
  lemma HandleKeeps(t: Table, order: seq<string>, r: M.Request, env: Env, chunk: nat)
    requires Sound(t)
    ensures Keeps(t, Handle(t, order, r, env, chunk).0)
  {
    if r.token.Some? && r.verb.Some? {
      var token, user := r.token.value, OrEmpty(r.user);
      var t' := Handle(t, order, r, env, chunk).0;
      match r.verb.value
      case Command => StartedKeeps(t, token, OrEmpty(r.statement), user, env.now);
      case Next => SteppedKeeps(t, token, user, chunk, StatOf(env, token));
      case Process => assert t' == t;
      case Details => assert t' == t;
      case Delete => assert t' == t || t' == t - {token};
      case _ => assert t' == t;
    }
  }

  datatype Event = Event(order: seq<string>, request: M.Request, env: Env)

  function TableAfter(t: Table, events: seq<Event>, chunk: nat): Table
    decreases |events|
  {
    if events == [] then t
    else TableAfter(Handle(t, events[0].order, events[0].request, events[0].env, chunk).0, events[1..], chunk)
  }

  /** The entry for `k` is there before every event and after the last. */
  predicate LivesThrough(t: Table, events: seq<Event>, chunk: nat, k: string)
    decreases |events|
  {
    k in t &&
    (events != [] ==>
       LivesThrough(Handle(t, events[0].order, events[0].request, events[0].env, chunk).0, events[1..], chunk, k))
  }

  /** Over every run: the table stays sound, and an entry that lives through it is the same process. */
  lemma {:induction false} RunKeeps(t: Table, events: seq<Event>, chunk: nat, k: string)
    requires Sound(t)
    ensures Sound(TableAfter(t, events, chunk))
    ensures LivesThrough(t, events, chunk, k) ==>
            k in TableAfter(t, events, chunk) && SameProcess(t[k], TableAfter(t, events, chunk)[k])
    decreases |events|
  {
    if events != [] {
      var t' := Handle(t, events[0].order, events[0].request, events[0].env, chunk).0;
      HandleKeeps(t, events[0].order, events[0].request, events[0].env, chunk);
      RunKeeps(t', events[1..], chunk, k);
      if LivesThrough(t, events, chunk, k) {
        assert LivesThrough(t', events[1..], chunk, k);
        assert k in t' && SameProcess(t[k], t'[k]);
      }
    }
  }

  /** The request that a client's `<next>` message parses to. */
  function NextRequest(token: string, user: string): M.Request
  {
    M.Request(Some(token), None, Some(user), Some(M.Next))
  }

  /** A `<next>` for `k` by the user whose process it is. */
  predicate NextBy(e: Event, k: string, owner: string)
  {
    e.request.token == Some(k) && e.request.verb == Some(M.Next) && OrEmpty(e.request.user) == owner
  }

  /** A `<delete>` for `k`, by whomever, while there is a pid file to kill by. */
  predicate Deletes(e: Event, k: string)
  {
    e.request.token == Some(k) && e.request.verb == Some(M.Delete) && k in e.env.pids
  }

  function Handled(t: Table, e: Event, chunk: nat): Table
  {
    Handle(t, e.order, e.request, e.env, chunk).0
  }

  /** An entry goes exactly by such a `<delete>`, and its cursor moves only by a `<next>` of its owner's. */
  lemma HandleEntry(t: Table, e: Event, chunk: nat, k: string)
    requires k in t
    ensures k in Handled(t, e, chunk) <==> !Deletes(e, k)
    ensures k in Handled(t, e, chunk) ==>
            Handled(t, e, chunk)[k].cursor ==
            if NextBy(e, k, t[k].user) then Advance(t[k].cursor, chunk, StatOf(e.env, k)) else t[k].cursor
  {
    var r := e.request;
    if r.token.Some? && r.verb.Some? {
      match r.verb.value
      case Command =>
      case Process =>
      case Details =>
      case Next =>
      case Delete =>
      case _ =>
    }
  }

  /**
   Over every run an entry lives through it if and only if no message deletes it, and no
   message asks who sends it.
   */
  lemma {:induction false} LivesExactly(t: Table, events: seq<Event>, chunk: nat, k: string)
    requires k in t
    ensures LivesThrough(t, events, chunk, k) <==> forall i :: 0 <= i < |events| ==> !Deletes(events[i], k)
    decreases |events|
  {
    if events != [] {
      var t', rest := Handled(t, events[0], chunk), events[1..];
      HandleEntry(t, events[0], chunk, k);
      assert forall i :: 0 < i < |events| ==> events[i] == rest[i - 1];
      assert forall i :: 0 <= i < |rest| ==> rest[i] == events[i + 1];
      if k in t' { LivesExactly(t', rest, chunk, k); }
    }
  }

  /** The polls of an entry's owner in a run, with what the files of the process were at each. */
  function Polls(events: seq<Event>, k: string, owner: string): seq<Stat>
    decreases |events|
  {
    if events == [] then []
    else (if NextBy(events[0], k, owner) then [StatOf(events[0].env, k)] else []) + Polls(events[1..], k, owner)
  }

  /** Over every run that an entry lives through, its cursor is what its owner's polls alone make of it. */
  lemma {:induction false} CursorByOwner(t: Table, events: seq<Event>, chunk: nat, k: string)
    requires Sound(t) && LivesThrough(t, events, chunk, k)
    ensures k in TableAfter(t, events, chunk)
    ensures TableAfter(t, events, chunk)[k].cursor == AdvanceAll(t[k].cursor, chunk, Polls(events, k, t[k].user))
    decreases |events|
  {
    if events != [] {
      var t', e := Handled(t, events[0], chunk), events[0];
      HandleEntry(t, e, chunk, k);
      HandleKeeps(t, e.order, e.request, e.env, chunk);
      assert LivesThrough(t', events[1..], chunk, k) && k in t' && SameProcess(t[k], t'[k]);
      CursorByOwner(t', events[1..], chunk, k);
      var rest := Polls(events[1..], k, t[k].user);
      assert NextBy(e, k, t[k].user) ==> ([StatOf(e.env, k)] + rest)[1..] == rest;
      assert !NextBy(e, k, t[k].user) ==> [] + rest == rest;
    }
  }

  /** A run in which one user's process is deleted by another. */
  lemma DeletedByOther()
    ensures var p := Proc(0, 0, "show", "k", "us", Cursor(0, Running));
            var e := Event([], M.Request(Some("k"), None, Some("them"), Some(M.Delete)), Env(0, map[], {"k"}));
            Sound(map["k" := p]) && TableAfter(map["k" := p], [e], 1) == map[]
  {
    var p := Proc(0, 0, "show", "k", "us", Cursor(0, Running));
    var e := Event([], M.Request(Some("k"), None, Some("them"), Some(M.Delete)), Env(0, map[], {"k"}));
    var t: Table := map["k" := p];
    assert Handled(t, e, 1) == t - {"k"} == map[];
    assert [e][1..] == [] && TableAfter(map[], [], 1) == map[];
  }
}
