/**
 The table of login sessions that `AuthSession::authorized` and `get_key` rewrite in
 turn, and what holds over every run of the two.  Each call is one step, the clock
 never goes back, and the account of an authorised user exists.
 */
module Login {
  import opened Text

  /** Thirty minutes. */
  const TIMEOUT := 1800

  datatype Row = Row(key: string, user: string, time: nat, ip: string, level: string)

  predicate Live(r: Row, now: nat)
  {
    r.time + TIMEOUT > now
  }

  // ------------------------------------------------------------------ the two rewrites

  /** The row of the session itself gets the time of the call, unless that is switched off. */
  function Touched(r: Row, auth: string, now: nat, keep: bool): Row
  {
    if r.key == auth && !keep then r.(time := now) else r
  }

  function AuthRows(rows: seq<Row>, auth: string, now: nat, keep: bool): seq<Row>
  {
    if rows == [] then []
    else (if Live(rows[0], now) then [Touched(rows[0], auth, now, keep)] else []) + AuthRows(rows[1..], auth, now, keep)
  }

  /** Whom a request runs as, and with what access. */
  datatype Session = Session(user: string, level: string)

  /** User and level of the last live row with the key. */
  function Holder(rows: seq<Row>, auth: string, now: nat): Option<Session>
  {
    if rows == [] then None
    else
      var later := Holder(rows[1..], auth, now);
      if later.Some? then later
      else if Live(rows[0], now) && rows[0].key == auth then Some(Session(rows[0].user, rows[0].level))
      else None
  }

  predicate Owned(r: Row, name: string, ip: string)
  {
    r.user == name && r.ip == ip
  }

  function Renewed(r: Row, name: string, level: string, ip: string, now: nat): Row
  {
    if Owned(r, name, ip) then r.(time := now, level := level) else r
  }

  function KeyRows(rows: seq<Row>, name: string, level: string, ip: string, now: nat): (r: seq<Row>)
    ensures |r| == |rows| && forall i :: 0 <= i < |rows| ==> r[i] == Renewed(rows[i], name, level, ip, now)
  {
    if rows == [] then [] else [Renewed(rows[0], name, level, ip, now)] + KeyRows(rows[1..], name, level, ip, now)
  }

  /** The key that the user already has from this address, expired or not. */
  function KeyOf(rows: seq<Row>, name: string, ip: string): Option<string>
  {
    if rows == [] then None
    else
      var later := KeyOf(rows[1..], name, ip);
      if later.Some? then later else if Owned(rows[0], name, ip) then Some(rows[0].key) else None
  }

  function IssueRows(rows: seq<Row>, name: string, level: string, ip: string, made: string, now: nat): seq<Row>
  {
    KeyRows(rows, name, level, ip, now) +
    if KeyOf(rows, name, ip).Some? then [] else [Row(made, name, now, ip, level)]
  }

  // ------------------------------------------------------------------ facts about one call

  lemma {:induction false} AuthRow(rows: seq<Row>, auth: string, now: nat, keep: bool, r: Row)
    ensures r in AuthRows(rows, auth, now, keep) <==>
            exists i :: 0 <= i < |rows| && Live(rows[i], now) && r == Touched(rows[i], auth, now, keep)
    decreases |rows|
  {
    if rows != [] {
      AuthRow(rows[1..], auth, now, keep, r);
      if i :| 0 <= i < |rows| && Live(rows[i], now) && r == Touched(rows[i], auth, now, keep) {
        if i > 0 { assert rows[1..][i - 1] == rows[i]; }
      }
    }
  }

  lemma {:induction false} HolderRow(rows: seq<Row>, auth: string, now: nat)
    ensures Holder(rows, auth, now).Some? <==> exists i :: 0 <= i < |rows| && Live(rows[i], now) && rows[i].key == auth
    ensures Holder(rows, auth, now).Some? ==>
            exists i :: 0 <= i < |rows| && rows[i].key == auth &&
              Holder(rows, auth, now) == Some(Session(rows[i].user, rows[i].level))
    decreases |rows|
  {
    if rows != [] {
      HolderRow(rows[1..], auth, now);
      assert forall i :: 0 < i < |rows| ==> rows[1..][i - 1] == rows[i];
      assert forall i :: 0 <= i < |rows[1..]| ==> rows[i + 1] == rows[1..][i];
    }
  }

  lemma {:induction false} KeyOfRow(rows: seq<Row>, name: string, ip: string)
    ensures KeyOf(rows, name, ip).Some? <==> exists i :: 0 <= i < |rows| && Owned(rows[i], name, ip)
    ensures KeyOf(rows, name, ip).Some? ==>
            exists i :: 0 <= i < |rows| && Owned(rows[i], name, ip) && rows[i].key == KeyOf(rows, name, ip).value
    decreases |rows|
  {
    if rows != [] {
      KeyOfRow(rows[1..], name, ip);
      assert forall i :: 0 < i < |rows| ==> rows[1..][i - 1] == rows[i];
      assert forall i :: 0 <= i < |rows[1..]| ==> rows[i + 1] == rows[1..][i];
    }
  }

  // ------------------------------------------------------------------ one row per user and address

  predicate OnePerUser(rows: seq<Row>)
  {
    forall i, j :: 0 <= i < j < |rows| ==> !Owned(rows[i], rows[j].user, rows[j].ip)
  }

  lemma {:induction false} AuthKeepsOne(rows: seq<Row>, auth: string, now: nat, keep: bool)
    requires OnePerUser(rows)
    ensures OnePerUser(AuthRows(rows, auth, now, keep))
    decreases |rows|
  {
    if rows != [] {
      var rest := AuthRows(rows[1..], auth, now, keep);
      assert OnePerUser(rows[1..]) by { assert forall i :: 0 <= i < |rows| - 1 ==> rows[1..][i] == rows[i + 1]; }
      AuthKeepsOne(rows[1..], auth, now, keep);
      if Live(rows[0], now) {
        var all := AuthRows(rows, auth, now, keep);
        forall j | 0 < j < |all| ensures !Owned(all[0], all[j].user, all[j].ip) {
          assert all[j] in rest;
          AuthRow(rows[1..], auth, now, keep, all[j]);
          var i :| 0 <= i < |rows[1..]| && all[j] == Touched(rows[1..][i], auth, now, keep);
          assert rows[1..][i] == rows[i + 1];
        }
        ConsOne(all, rest);
      }
    }
  }

  lemma ConsOne(all: seq<Row>, rest: seq<Row>)
    requires all != [] && all[1..] == rest && OnePerUser(rest)
    requires forall j :: 0 < j < |all| ==> !Owned(all[0], all[j].user, all[j].ip)
    ensures OnePerUser(all)
  {
    forall i, j | 0 <= i < j < |all| ensures !Owned(all[i], all[j].user, all[j].ip) {
      if i > 0 { assert all[i] == rest[i - 1] && all[j] == rest[j - 1]; }
    }
  }

  lemma IssueKeepsOne(rows: seq<Row>, name: string, level: string, ip: string, made: string, now: nat)
    requires OnePerUser(rows)
    ensures OnePerUser(IssueRows(rows, name, level, ip, made, now))
  {
    KeyOfRow(rows, name, ip);
    var all := IssueRows(rows, name, level, ip, made, now);
    forall i, j | 0 <= i < j < |all| ensures !Owned(all[i], all[j].user, all[j].ip) {
      assert !Owned(rows[i], if j < |rows| then rows[j].user else name, if j < |rows| then rows[j].ip else ip);
    }
  }

  // ------------------------------------------------------------------ runs

  /** A request with a session key, or a login; `made` is the key that would be made up for it. */
  datatype Event =
    | Auth(auth: string, keep: bool, now: nat)
    | Issue(name: string, level: string, ip: string, made: string, now: nat)

  /** A request without a key and a login without a name or an address leave the table alone. */
  function Apply(rows: seq<Row>, e: Event): seq<Row>
  {
    match e
    case Auth(auth, keep, now) => if auth == "" then rows else AuthRows(rows, auth, now, keep)
    case Issue(name, level, ip, made, now) =>
      if name == "" || ip == "" then rows else IssueRows(rows, name, level, ip, made, now)
  }

  predicate Grants(rows: seq<Row>, e: Event)
  {
    e.Auth? && e.auth != "" && Holder(rows, e.auth, e.now).Some?
  }

  /** The key that a login answers with. */
  function Given(rows: seq<Row>, e: Event): Option<string>
  {
    if e.Auth? || e.name == "" || e.ip == "" then None
    else
      var had := KeyOf(rows, e.name, e.ip);
      if had.Some? then had else Some(e.made)
  }

  /** The key whose row gets the time of the event. */
  function Stamp(rows: seq<Row>, e: Event): Option<string>
  {
    if e.Issue? then Given(rows, e) else if Grants(rows, e) && !e.keep then Some(e.auth) else None
  }

  function Run(es: seq<Event>): seq<Row>
  {
    if es == [] then [] else Apply(Run(es[..|es| - 1]), es[|es| - 1])
  }

  predicate Ordered(es: seq<Event>)
  {
    forall i, j :: 0 <= i < j < |es| ==> es[i].now <= es[j].now
  }

  predicate Stamps(es: seq<Event>, j: nat, k: string)
    requires j < |es|
  {
    Stamp(Run(es[..j]), es[j]) == Some(k)
  }

  predicate Granted(es: seq<Event>, i: nat)
    requires i < |es|
  {
    Grants(Run(es[..i]), es[i])
  }

  predicate Gives(es: seq<Event>, j: nat, name: string, ip: string, k: string)
    requires j < |es|
  {
    es[j].Issue? && es[j].name == name && es[j].ip == ip && Given(Run(es[..j]), es[j]) == Some(k)
  }

  lemma {:induction false} RunOnePerUser(es: seq<Event>)
    ensures OnePerUser(Run(es))
    decreases |es|
  {
    if es != [] {
      var before, e := Run(es[..|es| - 1]), es[|es| - 1];
      RunOnePerUser(es[..|es| - 1]);
      match e
      case Auth(auth, keep, now) => AuthKeepsOne(before, auth, now, keep);
      case Issue(name, level, ip, made, now) => IssueKeepsOne(before, name, level, ip, made, now);
    }
  }

  // ------------------------------------------------------------------ what a step does to the times

  /** A row's time is an old one or the event's own, and then its key was stamped. */
  lemma StepTraced(rows: seq<Row>, e: Event, r': Row)
    requires OnePerUser(rows) && r' in Apply(rows, e)
    ensures (Stamp(rows, e) == Some(r'.key) && r'.time == e.now) ||
            exists r :: r in rows && r.key == r'.key && r.time == r'.time
  {
    match e
    case Auth(auth, keep, now) =>
      if auth != "" {
        AuthRow(rows, auth, now, keep, r');
        HolderRow(rows, auth, now);
      }
    case Issue(name, level, ip, made, now) =>
      if name != "" && ip != "" && r' in KeyRows(rows, name, level, ip, now) {
        var i :| 0 <= i < |rows| && r' == Renewed(rows[i], name, level, ip, now);
        if Owned(rows[i], name, ip) { OnlyKey(rows, name, ip, i); }
      }
  }

  lemma OnlyKey(rows: seq<Row>, name: string, ip: string, i: nat)
    requires OnePerUser(rows) && i < |rows| && Owned(rows[i], name, ip)
    ensures KeyOf(rows, name, ip) == Some(rows[i].key)
  {
    KeyOfRow(rows, name, ip);
    var j :| 0 <= j < |rows| && Owned(rows[j], name, ip) && rows[j].key == KeyOf(rows, name, ip).value;
  }

  /** A live row stays, at its time or a later one. */
  lemma StepKeeps(rows: seq<Row>, e: Event, r: Row) returns (r': Row)
    requires r in rows && Live(r, e.now) && r.time <= e.now
    ensures r' in Apply(rows, e) && r'.key == r.key && r'.time >= r.time
  {
    match e
    case Auth(auth, keep, now) =>
      r' := if auth == "" then r else Touched(r, auth, now, keep);
      AuthRow(rows, auth, now, keep, r');
    case Issue(name, level, ip, made, now) =>
      var i :| 0 <= i < |rows| && r == rows[i];
      r' := if name == "" || ip == "" then r else KeyRows(rows, name, level, ip, now)[i];
  }

  /** A stamped key has a row of the event's time. */
  lemma StepStamps(rows: seq<Row>, e: Event, k: string) returns (r': Row)
    requires Stamp(rows, e) == Some(k)
    ensures r' in Apply(rows, e) && r'.key == k && r'.time == e.now
  {
    match e
    case Auth(auth, keep, now) =>
      HolderRow(rows, auth, now);
      var i :| 0 <= i < |rows| && Live(rows[i], now) && rows[i].key == auth;
      r' := Touched(rows[i], auth, now, keep);
      AuthRow(rows, auth, now, keep, r');
    case Issue(name, level, ip, made, now) =>
      KeyOfRow(rows, name, ip);
      var all := IssueRows(rows, name, level, ip, made, now);
      if KeyOf(rows, name, ip).Some? {
        var i :| 0 <= i < |rows| && Owned(rows[i], name, ip) && rows[i].key == KeyOf(rows, name, ip).value;
        assert all[i] == Renewed(rows[i], name, level, ip, now);
        r' := all[i];
      } else {
        r' := all[|rows|];
      }
  }

  // ------------------------------------------------------------------ who is let in

  ghost predicate TracedRow(es: seq<Event>, r: Row)
  {
    exists j :: 0 <= j < |es| && Stamps(es, j, r.key) && es[j].now == r.time
  }

  lemma TracedLater(es: seq<Event>, e: Event, r: Row, r': Row)
    requires TracedRow(es, r) && r.key == r'.key && r.time == r'.time
    ensures TracedRow(es + [e], r')
  {
    var j :| 0 <= j < |es| && Stamps(es, j, r.key) && es[j].now == r.time;
    assert (es + [e])[..j] == es[..j] && (es + [e])[j] == es[j];
    assert Stamps(es + [e], j, r'.key);
  }

  /** Every row's time is the time of an event that stamped its key. */
  lemma {:induction false} Traced(es: seq<Event>, r: Row)
    requires r in Run(es)
    ensures TracedRow(es, r)
    decreases |es|
  {
    if es != [] {
      var n := |es| - 1;
      var before, e := es[..n], es[n];
      assert es == before + [e];
      RunOnePerUser(before);
      StepTraced(Run(before), e, r);
      if Stamp(Run(before), e) == Some(r.key) && r.time == e.now {
        assert Stamps(es, n, r.key);
      } else {
        var r0 :| r0 in Run(before) && r0.key == r.key && r0.time == r.time;
        Traced(before, r0);
        TracedLater(before, e, r0, r);
      }
    }
  }

  lemma OrderedPrefix(es: seq<Event>, n: nat)
    requires Ordered(es) && n <= |es|
    ensures Ordered(es[..n])
  {
  }

  lemma NotLater(es: seq<Event>, r: Row, now: nat)
    requires Ordered(es) && r in Run(es) && forall j :: 0 <= j < |es| ==> es[j].now <= now
    ensures r.time <= now
  {
    Traced(es, r);
  }

  /** Until it times out, a stamped key has a row. */
  lemma {:induction false} Lasts(es: seq<Event>, j: nat, k: string, now: nat) returns (r: Row)
    requires Ordered(es) && j < |es| && Stamps(es, j, k)
    requires es[|es| - 1].now <= now < es[j].now + TIMEOUT
    ensures r in Run(es) && r.key == k && r.time >= es[j].now
    decreases |es|
  {
    var n := |es| - 1;
    var before, e := es[..n], es[n];
    if j == n {
      r := StepStamps(Run(before), e, k);
    } else {
      OrderedPrefix(es, n);
      assert before[..j] == es[..j] && before[j] == es[j];
      assert before[|before| - 1].now <= e.now;
      var r0 := Lasts(before, j, k, e.now);
      assert forall i :: 0 <= i < |before| ==> before[i].now <= e.now;
      NotLater(before, r0, e.now);
      r := StepKeeps(Run(before), e, r0);
    }
  }

  lemma SamePrefix(es: seq<Event>, i: nat, j: nat, k: string)
    requires j < i <= |es|
    ensures Stamps(es[..i], j, k) <==> Stamps(es, j, k)
  {
    assert es[..i][..j] == es[..j] && es[..i][j] == es[j];
  }

  lemma GrantedHas(es: seq<Event>, i: nat) returns (j: nat)
    requires i < |es| && Granted(es, i)
    ensures j < i && Stamps(es, j, es[i].auth) && es[i].now < es[j].now + TIMEOUT
  {
    var before, k, now := es[..i], es[i].auth, es[i].now;
    HolderRow(Run(before), k, now);
    var m :| 0 <= m < |Run(before)| && Live(Run(before)[m], now) && Run(before)[m].key == k;
    var r := Run(before)[m];
    Traced(before, r);
    j :| 0 <= j < |before| && Stamps(before, j, r.key) && before[j].now == r.time;
    SamePrefix(es, i, j, k);
  }

  lemma GrantedIf(es: seq<Event>, i: nat, j: nat)
    requires Ordered(es) && j < i < |es| && es[i].Auth? && es[i].auth != ""
    requires Stamps(es, j, es[i].auth) && es[i].now < es[j].now + TIMEOUT
    ensures Granted(es, i)
  {
    var before, k, now := es[..i], es[i].auth, es[i].now;
    OrderedPrefix(es, i);
    SamePrefix(es, i, j, k);
    var r := Lasts(before, j, k, now);
    HolderRow(Run(before), k, now);
    assert Live(r, now);
  }

  /**
   A request is let in exactly when less than half an hour ago a login answered with
   its key, or a request with that key was let in and renewed it.
   */
  lemma GrantedExactly(es: seq<Event>, i: nat)
    requires Ordered(es) && i < |es| && es[i].Auth? && es[i].auth != ""
    ensures Granted(es, i) <==> exists j :: 0 <= j < i && Stamps(es, j, es[i].auth) && es[i].now < es[j].now + 1800
  {
    if Granted(es, i) {
      var j := GrantedHas(es, i);
    }
    if j :| 0 <= j < i && Stamps(es, j, es[i].auth) && es[i].now < es[j].now + TIMEOUT {
      GrantedIf(es, i, j);
    }
  }

  // ------------------------------------------------------------------ whose key it is

  /** A step changes neither key nor user nor address of a row, and a new row is one that a login answers with. */
  lemma StepOrigin(rows: seq<Row>, e: Event, r': Row)
    requires r' in Apply(rows, e)
    ensures (exists r :: r in rows && r.key == r'.key && r.user == r'.user && r.ip == r'.ip)
            || (&& e.Issue? && e.name == r'.user && e.ip == r'.ip
                && Given(rows, e) == Some(r'.key) && KeyOf(rows, e.name, e.ip).None?)
  {
    match e
    case Auth(auth, keep, now) => if auth != "" { AuthRow(rows, auth, now, keep, r'); }
    case Issue(name, level, ip, made, now) =>
      if name != "" && ip != "" && r' in KeyRows(rows, name, level, ip, now) {
        var i :| 0 <= i < |rows| && r' == Renewed(rows[i], name, level, ip, now);
      }
  }

  /** A login that takes effect, by that user from that address. */
  predicate LoginOf(e: Event, user: string, ip: string)
  {
    e.Issue? && e.name != "" && e.ip != "" && e.name == user && e.ip == ip
  }

  /** A login gives its row the level asked for; nothing else changes a level. */
  lemma StepLevel(rows: seq<Row>, e: Event, r': Row)
    requires OnePerUser(rows) && r' in Apply(rows, e)
    ensures if LoginOf(e, r'.user, r'.ip) then Given(rows, e) == Some(r'.key) && e.level == r'.level
            else exists r :: r in rows && r.key == r'.key && r.user == r'.user && r.ip == r'.ip && r.level == r'.level
  {
    match e
    case Auth(auth, keep, now) => if auth != "" { AuthRow(rows, auth, now, keep, r'); }
    case Issue(name, level, ip, made, now) =>
      if name != "" && ip != "" && r' in KeyRows(rows, name, level, ip, now) {
        var i :| 0 <= i < |rows| && r' == Renewed(rows[i], name, level, ip, now);
        if Owned(rows[i], name, ip) { OnlyKey(rows, name, ip, i); }
      }
  }

  /** Login `j` answered with the row's key and gave it its level, and none of that user and address came after it. */
  predicate LastLogin(es: seq<Event>, j: nat, r: Row)
    requires j < |es|
  {
    && LoginOf(es[j], r.user, r.ip) && Given(Run(es[..j]), es[j]) == Some(r.key) && es[j].level == r.level
    && forall k :: j < k < |es| ==> !LoginOf(es[k], r.user, r.ip)
  }

  lemma LastLoginLater(es: seq<Event>, e: Event, j: nat, r: Row, r': Row)
    requires j < |es| && LastLogin(es, j, r) && !LoginOf(e, r'.user, r'.ip)
    requires r.key == r'.key && r.user == r'.user && r.ip == r'.ip && r.level == r'.level
    ensures LastLogin(es + [e], j, r')
  {
    var more := es + [e];
    assert more[..j] == es[..j] && more[j] == es[j];
    forall k | j < k < |more| ensures !LoginOf(more[k], r'.user, r'.ip) {
      if k < |es| { assert more[k] == es[k]; }
    }
  }

  /** Over every run, key and level of a row are those of the last login of its user from its address. */
  lemma {:induction false} LevelExactly(es: seq<Event>, r: Row) returns (j: nat)
    requires r in Run(es)
    ensures j < |es| && LastLogin(es, j, r)
    decreases |es|
  {
    var n := |es| - 1;
    var before, e := es[..n], es[n];
    assert es == before + [e];
    RunOnePerUser(before);
    StepLevel(Run(before), e, r);
    if LoginOf(e, r.user, r.ip) {
      j := n;
    } else {
      var r0 :| r0 in Run(before) && r0.key == r.key && r0.user == r.user && r0.ip == r.ip && r0.level == r.level;
      j := LevelExactly(before, r0);
      LastLoginLater(before, e, j, r0, r);
    }
  }

  /**
   A request runs as a user to whom a login has answered with its key, at the level of that
   login, and that user has not logged in again since from the same address.
   */
  lemma GrantedUser(es: seq<Event>, i: nat) returns (j: nat)
    requires i < |es| && Granted(es, i)
    ensures j < i && es[j].Issue? && Given(Run(es[..j]), es[j]) == Some(es[i].auth)
    ensures Holder(Run(es[..i]), es[i].auth, es[i].now) == Some(Session(es[j].name, es[j].level))
    ensures forall k :: j < k < i ==> !LoginOf(es[k], es[j].name, es[j].ip)
  {
    var before := es[..i];
    var rows := Run(before);
    HolderRow(rows, es[i].auth, es[i].now);
    var m :| 0 <= m < |rows| && rows[m].key == es[i].auth &&
             Holder(rows, es[i].auth, es[i].now) == Some(Session(rows[m].user, rows[m].level));
    j := LevelExactly(before, rows[m]);
    assert before[..j] == es[..j];
    forall k | j < k < i ensures !LoginOf(es[k], es[j].name, es[j].ip) { assert before[k] == es[k]; }
  }

  // ------------------------------------------------------------------ a key that is gone

  predicate Has(rows: seq<Row>, k: string)
  {
    exists i :: 0 <= i < |rows| && rows[i].key == k
  }

  lemma {:induction false} GoneUntilGiven(es: seq<Event>, m: nat, k: string) returns (j: nat)
    requires m <= |es| && !Has(Run(es[..m]), k) && Has(Run(es), k)
    ensures m <= j < |es| && es[j].Issue? && Given(Run(es[..j]), es[j]) == Some(k)
    decreases |es|
  {
    var n := |es| - 1;
    assert es[..|es|] == es;
    var before, e := es[..n], es[n];
    assert before[..m] == es[..m];
    if Has(Run(before), k) {
      j := GoneUntilGiven(before, m, k);
      assert before[..j] == es[..j];
    } else {
      j := n;
      var i :| 0 <= i < |Run(es)| && Run(es)[i].key == k;
      StepOrigin(Run(before), e, Run(es)[i]);
    }
  }

  /** Once a key has left the table, no request with it is let in before a login answers with it. */
  lemma NeverAgain(es: seq<Event>, m: nat, i: nat) returns (j: nat)
    requires m <= i < |es| && Granted(es, i) && !Has(Run(es[..m]), es[i].auth)
    ensures m <= j < i && es[j].Issue? && Given(Run(es[..j]), es[j]) == Some(es[i].auth)
  {
    var before := es[..i];
    HolderRow(Run(before), es[i].auth, es[i].now);
    assert before[..m] == es[..m];
    j := GoneUntilGiven(before, m, es[i].auth);
    assert before[..j] == es[..j];
  }

  /** A request with a key leaves no row behind that has timed out, and every other where it was. */
  lemma ExpiredGone(rows: seq<Row>, auth: string, keep: bool, now: nat)
    requires auth != ""
    ensures forall r :: r in Apply(rows, Auth(auth, keep, now)) ==> r.time + 1800 > now
    ensures forall i :: 0 <= i < |rows| && rows[i].time + 1800 > now && rows[i].key != auth ==>
              rows[i] in Apply(rows, Auth(auth, keep, now))
  {
    forall r | r in AuthRows(rows, auth, now, keep) ensures r.time + 1800 > now { AuthRow(rows, auth, now, keep, r); }
    forall i | 0 <= i < |rows| && rows[i].time + 1800 > now && rows[i].key != auth
      ensures rows[i] in AuthRows(rows, auth, now, keep)
    {
      AuthRow(rows, auth, now, keep, rows[i]);
    }
  }

  /** So after a time-out the next login gets a key of its own. */
  lemma NewKeyAfterTimeout(rows: seq<Row>, auth: string, keep: bool, now: nat, e: Event)
    requires auth != "" && e.Issue? && e.name != "" && e.ip != ""
    requires forall r :: r in rows && Owned(r, e.name, e.ip) ==> r.time + 1800 <= now
    ensures Given(Apply(rows, Auth(auth, keep, now)), e) == Some(e.made)
  {
    var after := Apply(rows, Auth(auth, keep, now));
    KeyOfRow(after, e.name, e.ip);
    forall i | 0 <= i < |after| ensures !Owned(after[i], e.name, e.ip) { AuthRow(rows, auth, now, keep, after[i]); }
  }

  // ------------------------------------------------------------------ the order of the rows

  datatype Id = Id(key: string, user: string, ip: string)

  function IdOf(r: Row): Id
  {
    Id(r.key, r.user, r.ip)
  }

  function Ids(rows: seq<Row>): (r: seq<Id>)
    ensures |r| == |rows| && forall i :: 0 <= i < |rows| ==> r[i] == IdOf(rows[i])
  {
    if rows == [] then [] else [IdOf(rows[0])] + Ids(rows[1..])
  }

  /** `b` is some of `a` in the same order, and then something new. */
  predicate Follows(a: seq<Id>, b: seq<Id>)
    decreases |a|
  {
    a == [] || (b != [] && b[0] == a[0] && Follows(a[1..], b[1..])) || Follows(a[1..], b)
  }

  lemma {:induction false} FollowsPrefix(a: seq<Id>, more: seq<Id>)
    ensures Follows(a, a + more)
    decreases |a|
  {
    if a != [] {
      FollowsPrefix(a[1..], more);
      assert (a + more)[1..] == a[1..] + more;
    }
  }

  lemma {:induction false} FollowsTransitive(a: seq<Id>, b: seq<Id>, c: seq<Id>)
    requires Follows(a, b) && Follows(b, c)
    ensures Follows(a, c)
    decreases |a| + |b|
  {
    if a != [] {
      if Follows(a[1..], b) {
        FollowsTransitive(a[1..], b, c);
      } else if Follows(b[1..], c) {
        FollowsTransitive(a[1..], b[1..], c);
      } else {
        FollowsTransitive(a[1..], b[1..], c[1..]);
      }
    }
  }

  lemma {:induction false} AuthFollows(rows: seq<Row>, auth: string, now: nat, keep: bool)
    ensures Follows(Ids(rows), Ids(AuthRows(rows, auth, now, keep)))
    decreases |rows|
  {
    if rows != [] {
      var rest := AuthRows(rows[1..], auth, now, keep);
      AuthFollows(rows[1..], auth, now, keep);
      assert Ids(rows)[1..] == Ids(rows[1..]);
      if Live(rows[0], now) {
        var all := [Touched(rows[0], auth, now, keep)] + rest;
        assert all[1..] == rest && Ids(all)[1..] == Ids(rest);
      } else {
        assert [] + rest == rest;
      }
    }
  }

  lemma IssueFollows(rows: seq<Row>, name: string, level: string, ip: string, made: string, now: nat)
    ensures Follows(Ids(rows), Ids(IssueRows(rows, name, level, ip, made, now)))
  {
    var all := IssueRows(rows, name, level, ip, made, now);
    assert Ids(all) == Ids(rows) + Ids(all)[|rows|..];
    FollowsPrefix(Ids(rows), Ids(all)[|rows|..]);
  }

  /** The sessions that stay keep their order over any further events, and new ones come behind them. */
  lemma {:induction false} OrderKept(es: seq<Event>, more: seq<Event>)
    ensures Follows(Ids(Run(es)), Ids(Run(es + more)))
    decreases |more|
  {
    var ids := Ids(Run(es));
    if more == [] {
      assert es + more == es && ids + [] == ids;
      FollowsPrefix(ids, []);
    } else {
      var n := |more| - 1;
      var before, e := Run(es + more[..n]), more[n];
      OrderKept(es, more[..n]);
      assert (es + more)[..|es + more| - 1] == es + more[..n];
      match e {
        case Auth(auth, keep, now) => AuthFollows(before, auth, now, keep);
        case Issue(name, level, ip, made, now) => IssueFollows(before, name, level, ip, made, now);
      }
      assert Ids(before) + [] == Ids(before);
      FollowsPrefix(Ids(before), []);
      FollowsTransitive(ids, Ids(before), Ids(Run(es + more)));
    }
  }
}
