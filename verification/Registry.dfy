/**
 The registry of configuration sessions: one file per session id that holds its owner
 and description, and how `ConfMode::process` gets from a request to a session, by id
 or by description.
 */
module Registry {
  import opened Text

  // ------------------------------------------------------------------ one file

  datatype Entry = Entry(owner: string, description: string)

  function Written(user: string, description: string): string
  {
    user + "/" + description
  }

  /** `fgets`: up to the first newline and with it. */
  function FirstLine(text: string): string
  {
    match FindChar(text, '\n', 0) case None => text case Some(i) => text[..i + 1]
  }

  function ReadEntry(text: string): Option<Entry>
  {
    var line := FirstLine(text);
    match FindChar(line, '/', 0) case None => None case Some(i) => Some(Entry(line[..i], line[i + 1..]))
  }

  predicate OneLine(s: string)
  {
    '\n' !in s
  }

  predicate UserName(s: string)
  {
    OneLine(s) && '/' !in s
  }

  /** A file gives back the owner and the description exactly when there is no slash in the owner's name. */
  lemma FileExactly(user: string, description: string)
    requires OneLine(user) && OneLine(description)
    ensures ReadEntry(Written(user, description)) == Some(Entry(user, description)) <==> '/' !in user
  {
    var s := Written(user, description);
    FindCharNone(s, '\n', 0);
    assert FirstLine(s) == s && s[|user|] == '/' && s[..|user|] == user && s[|user| + 1..] == description;
    if '/' !in user {
      FindCharAt(s, '/', 0, |user|);
    } else {
      var k :| 0 <= k < |user| && user[k] == '/';
      assert s[k] == '/';
      var f := FindFirst(s, '/', k);
      assert |s[..f]| < |user|;
    }
  }

  /** A written file always has an owner and a description to read. */
  lemma FileReads(user: string, description: string)
    requires OneLine(user)
    ensures ReadEntry(Written(user, description)).Some?
  {
    var s := Written(user, description);
    var end := FindChar(s, '\n', 0);
    forall k | 0 <= k < |user| ensures s[k] != '\n' { assert s[k] == user[k]; }
    assert s[|user|] == '/' && (end.Some? ==> end.value > |user|);
    var f := FindFirst(FirstLine(s), '/', |user|);
  }

  /** Of a description of several lines, only the first is read, with its newline. */
  lemma FirstLineOnly(user: string, a: string, b: string)
    requires UserName(user) && OneLine(a)
    ensures ReadEntry(Written(user, a + "\n" + b)) == Some(Entry(user, a + "\n"))
  {
    var s, line := Written(user, a + "\n" + b), user + "/" + a + "\n";
    var n := |line| - 1;
    assert s == line + b && s[n] == '\n';
    forall k | 0 <= k < n ensures s[k] != '\n' { assert s[k] == (user + "/" + a)[k]; }
    FindCharAt(s, '\n', 0, n);
    assert FirstLine(s) == line;
    assert line[|user|] == '/' && line[..|user|] == user && line[|user| + 1..] == a + "\n";
    FindCharAt(line, '/', 0, |user|);
  }

  lemma {:induction false} FindFirst(s: string, c: char, k: nat) returns (f: nat)
    requires k < |s| && s[k] == c
    ensures FindChar(s, c, 0) == Some(f) && f <= k
  {
    f := 0;
    while s[f] != c
      invariant f <= k && forall i :: 0 <= i < f ==> s[i] != c
      decreases k - f
    {
      f := f + 1;
    }
    FindCharAt(s, c, 0, f);
  }

  // ------------------------------------------------------------------ from a request to a session

  type Sessions = map<string, Entry>

  /** A directory entry that is long enough, with that nonempty description and that owner. */
  predicate Matches(reg: Sessions, id: string, tag: string, user: string)
  {
    id in reg && |id| >= 8 && tag != "" && reg[id] == Entry(user, tag)
  }

  /** The first match in the order of the directory. */
  function Scan(reg: Sessions, tag: string, user: string, dir: seq<string>): Option<string>
  {
    if dir == [] then None
    else if Matches(reg, dir[0], tag, user) then Some(dir[0])
    else Scan(reg, tag, user, dir[1..])
  }

  datatype Verb = Get | Put | Delete | Post

  /** `first` is the part after the root of the configuration paths, `more` whether a slash follows it. */
  datatype Request = Request(user: string, verb: Verb, first: Option<string>, more: bool)

  datatype Outcome = Refused | Listed | Nothing | Reached(id: string) | Created(id: string)

  /** Owner, description and id of the session that a request names, so far as it is looked up at once. */
  datatype Target = Target(owner: string, tag: string, id: string)

  function Lookup(reg: Sessions, rq: Request, dir: seq<string>): Option<Target>
  {
    match rq.first
    case None => Some(Target(rq.user, "", ""))
    case Some(x) =>
      if x in reg then Some(Target(reg[x].owner, reg[x].description, x))
      else if rq.verb == Post then Some(Target(rq.user, x, x))
      else match Scan(reg, x, rq.user, dir) case None => None case Some(id) => Some(Target(rq.user, x, id))
  }

  predicate Creates(rq: Request)
  {
    rq.verb == Post && (rq.first.None? || !rq.more)
  }

  function Description(rq: Request): string
  {
    if rq.first.Some? then rq.first.value else ""
  }

  function Answer(reg: Sessions, rq: Request, dir: seq<string>, token: string): Outcome
  {
    var found := Lookup(reg, rq, dir);
    if found.None? then Refused
    else
      var Target(owner, tag, id) := found.value;
      match rq.verb
      case Get => if rq.first.None? then Listed else if owner != rq.user then Refused else Reached(id)
      case Put => if owner != rq.user || rq.first.None? || !rq.more then Refused else Reached(id)
      case Delete => if owner != rq.user then Refused else if id == "" then Nothing else Reached(id)
      case Post =>
        if Creates(rq) then
          if Description(rq) != "" && Scan(reg, Description(rq), owner, dir).Some? then Refused else Created(token)
        else
          var byTag := Scan(reg, tag, owner, dir);
          if (tag == id && byTag.None?) || owner != rq.user then Refused
          else Reached(if tag == id then byTag.value else id)
  }

  function After(reg: Sessions, rq: Request, dir: seq<string>, token: string): Sessions
  {
    var o := Answer(reg, rq, dir, token);
    if o.Created? then reg[token := Entry(rq.user, Description(rq))]
    else if o.Reached? && rq.verb == Delete then reg - {o.id}
    else reg
  }

  // ------------------------------------------------------------------ who reaches what

  ghost predicate Lists(dir: seq<string>, reg: Sessions)
  {
    forall id :: id in reg ==> id in dir
  }

  lemma {:induction false} ScanFinds(reg: Sessions, tag: string, user: string, dir: seq<string>)
    ensures var r := Scan(reg, tag, user, dir); r.Some? ==> r.value in dir && Matches(reg, r.value, tag, user)
    ensures Scan(reg, tag, user, dir).None? ==> forall id :: id in dir ==> !Matches(reg, id, tag, user)
    decreases |dir|
  {
    if dir != [] { ScanFinds(reg, tag, user, dir[1..]); }
  }

  /** Whatever the registry, a request reaches only a session that belongs to its user. */
  lemma OwnedOnly(reg: Sessions, rq: Request, dir: seq<string>, token: string)
    ensures var o := Answer(reg, rq, dir, token); o.Reached? ==> o.id in reg && reg[o.id].owner == rq.user
  {
    if rq.first.Some? {
      ScanFinds(reg, rq.first.value, rq.user, dir);
      if rq.first.value in reg { ScanFinds(reg, reg[rq.first.value].description, reg[rq.first.value].owner, dir); }
    }
  }

  /** Every id is that of a long file name, and none is empty. */
  predicate LongIds(reg: Sessions)
  {
    forall id :: id in reg ==> |id| >= 8
  }

  ghost predicate Named(reg: Sessions, user: string, tag: string)
  {
    exists id :: Matches(reg, id, tag, user)
  }

  /** The name is the id of a session of the user, or, when no session has that id, the description of one. */
  ghost predicate Reachable(reg: Sessions, user: string, x: string)
  {
    if x in reg then reg[x].owner == user else Named(reg, user, x)
  }

  lemma ScanExactly(reg: Sessions, tag: string, user: string, dir: seq<string>)
    requires Lists(dir, reg)
    ensures Scan(reg, tag, user, dir).Some? <==> Named(reg, user, tag)
  {
    ScanFinds(reg, tag, user, dir);
  }

  lemma SelfNamed(reg: Sessions, x: string, dir: seq<string>)
    requires LongIds(reg) && Lists(dir, reg) && x in reg && reg[x].description == x
    ensures Scan(reg, x, reg[x].owner, dir).Some?
  {
    assert Matches(reg, x, x, reg[x].owner);
    ScanExactly(reg, x, reg[x].owner, dir);
  }

  /** And it reaches one exactly when the name in it is good for its user. */
  lemma ReachedExactly(reg: Sessions, rq: Request, dir: seq<string>, token: string)
    requires LongIds(reg) && Lists(dir, reg) && rq.first.Some? && !Creates(rq) && (rq.verb == Put ==> rq.more)
    ensures Answer(reg, rq, dir, token).Reached? <==> Reachable(reg, rq.user, rq.first.value)
    ensures var x := rq.first.value;
            x in reg && Reachable(reg, rq.user, x) && (rq.verb == Post ==> reg[x].description != x) ==>
              Answer(reg, rq, dir, token) == Reached(x)
  {
    var x := rq.first.value;
    ScanFinds(reg, x, rq.user, dir);
    ScanExactly(reg, x, rq.user, dir);
    if x in reg && reg[x].description == x { SelfNamed(reg, x, dir); }
  }

  // ------------------------------------------------------------------ one session per user and description

  predicate NoDup(reg: Sessions)
  {
    forall a, b :: a in reg && b in reg && a != b && reg[a].description != "" ==> reg[a] != reg[b]
  }

  /**
   The description is the id of another user's session: the test for a description in use
   is then made for that other user.
   */
  ghost predicate Misled(reg: Sessions, user: string, d: string)
  {
    d in reg && reg[d].owner != user && Named(reg, user, d) && !Named(reg, reg[d].owner, d)
  }

  lemma DeleteKeeps(reg: Sessions, rq: Request, dir: seq<string>, token: string)
    requires NoDup(reg) && !Creates(rq)
    ensures NoDup(After(reg, rq, dir, token))
  {
  }

  /** The user for whom a creation looks for its description. */
  function AskedFor(reg: Sessions, rq: Request): string
  {
    if rq.first.Some? && rq.first.value in reg then reg[rq.first.value].owner else rq.user
  }

  lemma CreatedWhen(reg: Sessions, rq: Request, dir: seq<string>, token: string)
    requires Lists(dir, reg) && Creates(rq)
    ensures var d := Description(rq);
            Answer(reg, rq, dir, token) ==
            if d != "" && Named(reg, AskedFor(reg, rq), d) then Refused else Created(token)
  {
    ScanExactly(reg, Description(rq), AskedFor(reg, rq), dir);
  }

  lemma NamedTwice(reg: Sessions, user: string, d: string, token: string)
    requires LongIds(reg) && NoDup(reg) && token !in reg
    ensures NoDup(reg[token := Entry(user, d)]) <==> d == "" || !Named(reg, user, d)
  {
    var reg' := reg[token := Entry(user, d)];
    if d != "" && Named(reg, user, d) {
      var id :| Matches(reg, id, d, user);
      assert id != token && reg'[id] == reg'[token];
    } else {
      forall a, b | a in reg' && b in reg' && a != b && reg'[a].description != "" ensures reg'[a] != reg'[b] {
        assert a in reg ==> !Matches(reg, a, d, user);
        assert b in reg ==> !Matches(reg, b, d, user);
      }
    }
  }

  /** A request keeps descriptions apart exactly when it is not a creation misled in that way. */
  lemma NoDupExactly(reg: Sessions, rq: Request, dir: seq<string>, token: string)
    requires LongIds(reg) && Lists(dir, reg) && NoDup(reg) && token !in reg
    ensures NoDup(After(reg, rq, dir, token)) <==> !(Creates(rq) && Misled(reg, rq.user, Description(rq)))
  {
    if Creates(rq) {
      CreatedWhen(reg, rq, dir, token);
      NamedTwice(reg, rq.user, Description(rq), token);
    } else {
      DeleteKeeps(reg, rq, dir, token);
    }
  }

  // ------------------------------------------------------------------ runs

  /** A request, the order in which the directory lists the files, and the id that a new session would get. */
  datatype Event = Event(rq: Request, dir: seq<string>, token: string)

  function Next(reg: Sessions, e: Event): Sessions
  {
    After(reg, e.rq, e.dir, e.token)
  }

  function Run(es: seq<Event>): Sessions
  {
    if es == [] then map[] else Next(Run(es[..|es| - 1]), es[|es| - 1])
  }

  /** The directory lists every session, and a new id is sixteen characters that no session has. */
  ghost predicate Sane(reg: Sessions, e: Event)
  {
    Lists(e.dir, reg) && |e.token| == 16 && e.token !in reg
  }

  ghost predicate SaneAt(es: seq<Event>, i: nat)
    requires i < |es|
  {
    Sane(Run(es[..i]), es[i])
  }

  ghost predicate SaneRun(es: seq<Event>)
  {
    forall i :: 0 <= i < |es| ==> SaneAt(es, i)
  }

  ghost predicate MisledAt(es: seq<Event>, i: nat)
    requires i < |es|
  {
    Creates(es[i].rq) && Misled(Run(es[..i]), es[i].rq.user, Description(es[i].rq))
  }

  lemma {:induction false} RunLong(es: seq<Event>)
    requires SaneRun(es)
    ensures LongIds(Run(es))
    decreases |es|
  {
    if es != [] {
      var n := |es| - 1;
      PrefixSane(es, n);
      RunLong(es[..n]);
      assert SaneAt(es, n);
    }
  }

  lemma PrefixSane(es: seq<Event>, n: nat)
    requires SaneRun(es) && n <= |es|
    ensures SaneRun(es[..n])
  {
    forall i | 0 <= i < n ensures SaneAt(es[..n], i) {
      assert SaneAt(es, i);
      assert es[..n][..i] == es[..i];
    }
  }

  lemma StepNoDup(es: seq<Event>, n: nat)
    requires SaneRun(es) && n < |es| && NoDup(Run(es[..n]))
    ensures NoDup(Run(es[..n + 1])) <==> !MisledAt(es, n)
  {
    PrefixSane(es, n);
    RunLong(es[..n]);
    assert SaneAt(es, n);
    assert es[..n + 1][..n] == es[..n];
    NoDupExactly(Run(es[..n]), es[n].rq, es[n].dir, es[n].token);
  }

  lemma {:induction false} NoDupUpTo(es: seq<Event>, n: nat)
    requires SaneRun(es) && n <= |es| && forall i :: 0 <= i < n ==> !MisledAt(es, i)
    ensures NoDup(Run(es[..n]))
    decreases n
  {
    if n > 0 {
      NoDupUpTo(es, n - 1);
      StepNoDup(es, n - 1);
    }
  }

  ghost predicate NeverDup(es: seq<Event>)
  {
    forall n :: 0 <= n <= |es| ==> NoDup(Run(es[..n]))
  }

  /** Over a whole run no user ever has two sessions of one description, exactly when no creation was misled. */
  lemma RunNoDupExactly(es: seq<Event>)
    requires SaneRun(es)
    ensures NeverDup(es) <==> forall i :: 0 <= i < |es| ==> !MisledAt(es, i)
  {
    if NeverDup(es) {
      forall i | 0 <= i < |es| ensures !MisledAt(es, i) {
        assert NoDup(Run(es[..i])) && NoDup(Run(es[..i + 1]));
        StepNoDup(es, i);
      }
    } else {
      var n :| 0 <= n <= |es| && !NoDup(Run(es[..n]));
      if forall i :: 0 <= i < n ==> !MisledAt(es, i) { NoDupUpTo(es, n); }
    }
  }

  lemma StepKeeps(reg: Sessions, e: Event, id: string)
    requires e.token !in reg && id in reg
    ensures (id in Next(reg, e) && Next(reg, e)[id] == reg[id]) || DeletedBy(reg, e, id, reg[id].owner)
  {
    OwnedOnly(reg, e.rq, e.dir, e.token);
  }

  predicate DeletedBy(reg: Sessions, e: Event, id: string, owner: string)
  {
    e.rq.verb == Delete && e.rq.user == owner && Answer(reg, e.rq, e.dir, e.token) == Reached(id)
  }

  predicate DeletedAt(es: seq<Event>, j: nat, id: string, owner: string)
    requires j < |es|
  {
    DeletedBy(Run(es[..j]), es[j], id, owner)
  }

  predicate KeepsAt(es: seq<Event>, n: nat, id: string, entry: Entry)
    requires n <= |es|
  {
    id in Run(es[..n]) && Run(es[..n])[id] == entry
  }

  lemma RunNext(es: seq<Event>, n: nat)
    requires n < |es|
    ensures Run(es[..n + 1]) == Next(Run(es[..n]), es[n])
  {
    assert es[..n + 1][..n] == es[..n];
  }

  lemma StepAt(es: seq<Event>, n: nat, id: string, entry: Entry)
    requires SaneRun(es) && n < |es| && KeepsAt(es, n, id, entry)
    ensures KeepsAt(es, n + 1, id, entry) || DeletedAt(es, n, id, entry.owner)
  {
    assert SaneAt(es, n);
    RunNext(es, n);
    StepKeeps(Run(es[..n]), es[n], id);
  }

  /** A session keeps owner and description, and goes only by a DELETE of its owner's that reaches it. */
  lemma {:induction false} GoneByOwner(es: seq<Event>, m: nat, n: nat, id: string, entry: Entry) returns (j: nat)
    requires SaneRun(es) && m <= n <= |es| && KeepsAt(es, m, id, entry)
    ensures KeepsAt(es, n, id, entry) || (m <= j < n && DeletedAt(es, j, id, entry.owner))
    decreases n
  {
    j := m;
    if m < n {
      j := GoneByOwner(es, m, n - 1, id, entry);
      if KeepsAt(es, n - 1, id, entry) {
        StepAt(es, n - 1, id, entry);
        j := n - 1;
      }
    }
  }

  lemma DeletedIsGone(es: seq<Event>, j: nat, id: string, owner: string)
    requires j < |es| && DeletedAt(es, j, id, owner)
    ensures id !in Run(es[..j + 1])
  {
    RunNext(es, j);
  }

  ghost predicate LivesFrom(es: seq<Event>, m: nat, n: nat, id: string, entry: Entry)
    requires m <= n <= |es|
  {
    forall k :: m <= k <= n ==> KeepsAt(es, k, id, entry)
  }

  ghost predicate Spared(es: seq<Event>, m: nat, n: nat, id: string, owner: string)
    requires m <= n <= |es|
  {
    forall j :: m <= j < n ==> !DeletedAt(es, j, id, owner)
  }

  lemma LivesOn(es: seq<Event>, m: nat, n: nat, id: string, entry: Entry)
    requires m < n <= |es|
    ensures LivesFrom(es, m, n, id, entry) <==> LivesFrom(es, m, n - 1, id, entry) && KeepsAt(es, n, id, entry)
  {
  }

  /** Over every run a session stays if and only if no DELETE of its owner's reaches it. */
  lemma {:induction false} LivesExactly(es: seq<Event>, m: nat, n: nat, id: string, entry: Entry)
    requires SaneRun(es) && m <= n <= |es| && KeepsAt(es, m, id, entry)
    ensures LivesFrom(es, m, n, id, entry) <==> Spared(es, m, n, id, entry.owner)
    decreases n
  {
    if m < n {
      LivesExactly(es, m, n - 1, id, entry);
      LivesOn(es, m, n, id, entry);
      assert Spared(es, m, n, id, entry.owner) <==>
             Spared(es, m, n - 1, id, entry.owner) && !DeletedAt(es, n - 1, id, entry.owner);
      if LivesFrom(es, m, n - 1, id, entry) {
        assert KeepsAt(es, n - 1, id, entry);
        StepAt(es, n - 1, id, entry);
        if DeletedAt(es, n - 1, id, entry.owner) { DeletedIsGone(es, n - 1, id, entry.owner); }
      }
    }
  }

  ghost predicate CreatedAt(es: seq<Event>, k: nat, id: string)
    requires k < |es|
  {
    Answer(Run(es[..k]), es[k].rq, es[k].dir, es[k].token) == Created(id)
  }

  /** An id that is not there is there again only after it was created. */
  lemma {:induction false} GoneUntilCreated(es: seq<Event>, m: nat, n: nat, id: string) returns (k: nat)
    requires m <= n <= |es| && id !in Run(es[..m]) && id in Run(es[..n])
    ensures m <= k < n && CreatedAt(es, k, id)
    decreases n
  {
    RunNext(es, n - 1);
    if id in Run(es[..n - 1]) { k := GoneUntilCreated(es, m, n - 1, id); } else { k := n - 1; }
  }

  /** After a DELETE that reached it, no request reaches an id before it is created again. */
  lemma DeletedUntilCreated(es: seq<Event>, j: nat, i: nat, id: string, owner: string) returns (k: nat)
    requires j < i < |es| && DeletedAt(es, j, id, owner)
    requires Answer(Run(es[..i]), es[i].rq, es[i].dir, es[i].token) == Reached(id)
    ensures j < k < i && CreatedAt(es, k, id)
  {
    DeletedIsGone(es, j, id, owner);
    OwnedOnly(Run(es[..i]), es[i].rq, es[i].dir, es[i].token);
    k := GoneUntilCreated(es, j + 1, i, id);
  }

  /** And its owner may give its description to a new session. */
  lemma DescriptionFree(reg: Sessions, del: Event, id: string, e: Event)
    requires LongIds(reg) && NoDup(reg) && id in reg && reg[id].description != "" && reg[id].description !in reg
    requires DeletedBy(reg, del, id, reg[id].owner)
    requires Lists(e.dir, Next(reg, del))
    requires e.rq == Request(reg[id].owner, Post, Some(reg[id].description), false)
    ensures Answer(Next(reg, del), e.rq, e.dir, e.token) == Created(e.token)
    ensures Next(Next(reg, del), e) == (reg - {id})[e.token := reg[id]]
  {
    var after, entry := Next(reg, del), reg[id];
    assert after == reg - {id};
    CreatedWhen(after, e.rq, e.dir, e.token);
    forall k ensures !Matches(after, k, entry.description, entry.owner) {
      assert k in after ==> reg[k] != reg[id];
    }
  }

  // ------------------------------------------------------------------ requests without a name

  /** A list, a deletion of nothing, and a setting that is refused; none of them changes a session. */
  lemma Unnamed(reg: Sessions, user: string, more: bool, dir: seq<string>, token: string)
    ensures Answer(reg, Request(user, Get, None, more), dir, token) == Listed
    ensures Answer(reg, Request(user, Delete, None, more), dir, token) == Nothing
    ensures Answer(reg, Request(user, Put, None, more), dir, token) == Refused
    ensures forall x :: Answer(reg, Request(user, Put, Some(x), false), dir, token) == Refused
    ensures After(reg, Request(user, Delete, None, more), dir, token) == reg
  {
  }

  /** Only a creation and a DELETE change anything. */
  lemma OnlyTwoChange(reg: Sessions, rq: Request, dir: seq<string>, token: string)
    requires !Creates(rq) && rq.verb != Delete
    ensures After(reg, rq, dir, token) == reg
  {
  }

  /** A description is not looked for in files whose names have less than 22 characters. */
  lemma ShortPassedOver(reg: Sessions, tag: string, user: string, dir: seq<string>)
    requires forall id :: id in dir ==> 14 + |id| < 22
    ensures Scan(reg, tag, user, dir) == None
  {
    ScanFinds(reg, tag, user, dir);
  }

  // ------------------------------------------------------------------ a misled creation

  /** One user names a session after the id of another user's session, twice. */
  function Twice(): seq<Event>
  {
    var theirs, first, second := "1111111111111111", "2222222222222222", "3333333333333333";
    [Event(Request("them", Post, None, false), [], theirs),
     Event(Request("us", Post, Some(theirs), false), [theirs], first),
     Event(Request("us", Post, Some(theirs), false), [theirs, first], second)]
  }

  const THEIRS := Entry("them", "")
  const OURS := Entry("us", "1111111111111111")

  lemma TwiceRuns()
    ensures var es := Twice(); var r1: Sessions := map[es[0].token := THEIRS];
            Run(es[..0]) == map[] && Run(es[..1]) == r1 && Run(es[..2]) == r1[es[1].token := OURS] &&
            Run(es) == r1[es[1].token := OURS][es[2].token := OURS]
  {
    var es := Twice();
    var theirs := es[0].token;
    var r1: Sessions := map[theirs := THEIRS];
    var r2 := r1[es[1].token := OURS];
    assert es[..0] == [];
    assert es[..1][..0] == [] && Run(es[..1]) == Next(map[], es[0]);
    ScanFinds(r1, theirs, "them", es[1].dir);
    assert es[..2][..1] == es[..1] && Run(es[..2]) == Next(r1, es[1]);
    ScanFinds(r2, theirs, "them", es[2].dir);
    assert Run(es) == Next(r2, es[2]);
  }

  /** The user has then two sessions of one description. */
  lemma TwiceIsSane()
    ensures SaneRun(Twice()) && !NoDup(Run(Twice())) && MisledAt(Twice(), 2)
  {
    TwiceRuns();
    var es, reg := Twice(), Run(Twice());
    assert SaneAt(es, 0) && SaneAt(es, 1) && SaneAt(es, 2);
    var theirs, first, second := es[0].token, es[1].token, es[2].token;
    assert theirs[0] != first[0] && theirs[0] != second[0] && first[0] != second[0];
    assert reg[first] == reg[second];
    assert Matches(Run(es[..2]), first, theirs, "us");
  }

  // ------------------------------------------------------------------ the files

  /** What the files say. */
  function Contents(files: map<string, string>): Sessions
  {
    map id | id in files && ReadEntry(files[id]).Some? :: ReadEntry(files[id]).value
  }

  lemma ContentsWith(files: map<string, string>, id: string, text: string)
    requires ReadEntry(text).Some?
    ensures Contents(files[id := text]) == Contents(files)[id := ReadEntry(text).value]
  {
  }

  class ConfMode {
    var files: map<string, string>

    ghost predicate Valid()
      reads this
    {
      forall id :: id in files ==> ReadEntry(files[id]).Some?
    }

    constructor ()
      ensures Valid() && Contents(files) == map[]
    {
      files := map[];
    }

    /** `Rest::create_conf_modify_file`. */
    method CreateFile(id: string, user: string, description: string)
      requires Valid() && OneLine(user)
      modifies this
      ensures Valid() && ReadEntry(Written(user, description)).Some?
      ensures Contents(files) == old(Contents(files))[id := ReadEntry(Written(user, description)).value]
      ensures '/' !in user && OneLine(description) ==>
              Contents(files) == old(Contents(files))[id := Entry(user, description)]
    {
      FileReads(user, description);
      ContentsWith(files, id, Written(user, description));
      if OneLine(description) { FileExactly(user, description); }
      files := files[id := Written(user, description)];
    }

    /** `Rest::read_conf_modify_file`. */
    function ReadFile(id: string): (r: Option<Entry>)
      requires Valid()
      reads this
      ensures r == if id in Contents(files) then Some(Contents(files)[id]) else None
    {
      if id in files then ReadEntry(files[id]) else None
    }

    /** `Rest::read_conf_modify_file_from_tag`; a file name has fourteen characters before the id. */
    method ReadFromTag(tag: string, user: string, dir: seq<string>) returns (id: Option<string>)
      requires Valid()
      ensures id == Scan(Contents(files), tag, user, dir)
    {
      ghost var reg := Contents(files);
      for i := 0 to |dir|
        invariant Scan(reg, tag, user, dir) == Scan(reg, tag, user, dir[i..])
      {
        if 14 + |dir[i]| >= 22 {
          var f := ReadFile(dir[i]);
          if f.Some? && f.value.description != "" && tag == f.value.description && f.value.owner == user {
            return Some(dir[i]);
          }
        }
        assert dir[i..][1..] == dir[i + 1..];
      }
      return None;
    }

    method Process(rq: Request, dir: seq<string>, token: string) returns (o: Outcome)
      requires Valid() && UserName(rq.user) && (rq.first.Some? ==> OneLine(rq.first.value))
      modifies this
      ensures Valid() && o == Answer(old(Contents(files)), rq, dir, token)
      ensures Contents(files) == After(old(Contents(files)), rq, dir, token)
    {
      var found := Locate(rq, dir);
      if found.None? { return Refused; }
      var Target(user, tag, id) := found.value;
      match rq.verb
      case Get =>
        if rq.first.None? { return Listed; }
        if user != rq.user { return Refused; }
        o := Reached(id);
      case Put =>
        if user != rq.user || rq.first.None? || !rq.more { return Refused; }
        o := Reached(id);
      case Delete =>
        if user != rq.user { return Refused; }
        o := Discard(id);
      case Post =>
        if Creates(rq) { o := Create(rq, user, dir, token); } else { o := Act(rq, id, tag, user, dir); }
    }

    method Locate(rq: Request, dir: seq<string>) returns (t: Option<Target>)
      requires Valid()
      ensures t == Lookup(Contents(files), rq, dir)
    {
      var id, tag, user := "", "", rq.user;
      if rq.first.Some? {
        id := rq.first.value;
        var byId := ReadFile(id);
        if byId.Some? {
          user, tag := byId.value.owner, byId.value.description;
        } else {
          tag := id;
          if rq.verb != Post {
            var byTag := ReadFromTag(tag, user, dir);
            if byTag.None? { return None; }
            id := byTag.value;
          }
        }
      }
      return Some(Target(user, tag, id));
    }

    /** `discard_session` with the session torn down. */
    method Discard(id: string) returns (o: Outcome)
      requires Valid()
      modifies this
      ensures Valid() && o == (if id == "" then Nothing else Reached(id))
      ensures Contents(files) == if id == "" then old(Contents(files)) else old(Contents(files)) - {id}
    {
      if id == "" { return Nothing; }
      files := files - {id};
      o := Reached(id);
    }

    method Create(rq: Request, user: string, dir: seq<string>, token: string) returns (o: Outcome)
      requires Valid() && UserName(rq.user) && OneLine(Description(rq))
      modifies this
      ensures Valid()
      ensures o == if Description(rq) != "" && Scan(old(Contents(files)), Description(rq), user, dir).Some? then Refused
                   else Created(token)
      ensures Contents(files) == if o.Refused? then old(Contents(files))
                                 else old(Contents(files))[token := Entry(rq.user, Description(rq))]
    {
      var description := Description(rq);
      if description != "" {
        var id := ReadFromTag(description, user, dir);
        if id.Some? { return Refused; }
      }
      CreateFile(token, rq.user, description);
      o := Created(token);
    }

    method Act(rq: Request, id: string, tag: string, user: string, dir: seq<string>) returns (o: Outcome)
      requires Valid()
      ensures var byTag := Scan(Contents(files), tag, user, dir);
              o == if (tag == id && byTag.None?) || user != rq.user then Refused
                   else Reached(if tag == id then byTag.value else id)
    {
      var target := id;
      if tag == id {
        var byTag := ReadFromTag(tag, user, dir);
        if byTag.None? { return Refused; }
        target := byTag.value;
      }
      if user != rq.user { return Refused; }
      o := Reached(target);
    }
  }
}
