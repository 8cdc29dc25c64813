/**
 The session file as its two writers see it, line by line: `AuthSession::authorized`
 takes a line apart with `StrProc`, `get_key` with Perl's `split`.
 */
module SessionFile {
  import opened Text
  import opened Digits
  import opened Login
  import S = StrProc

  datatype Line = Blank | Entry(row: Row)

  /** Text that neither writer's separators cut up. */
  predicate Tidy(s: string)
  {
    S.Neat(s) && ',' !in s
  }

  predicate Good(r: Row)
  {
    r.key != "" && r.user != "" && r.ip != "" && Tidy(r.key) && Tidy(r.user) && Tidy(r.ip) && Tidy(r.level)
  }

  function Parts(r: Row): seq<string>
  {
    [r.key, r.user, Decimal(r.time), r.ip, r.level]
  }

  /** `%s,%s,%ld,%s,%s\n`. */
  function RowText(r: Row): string
  {
    Join(Parts(r), ",") + "\n"
  }

  function LineText(l: Line): string
  {
    if l.Blank? then "\n" else RowText(l.row)
  }

  /** The rows in the file; the blank lines between them do not matter. */
  function Rows(file: seq<Line>): seq<Row>
  {
    if file == [] then [] else (if file[0].Blank? then [] else [file[0].row]) + Rows(file[1..])
  }

  lemma {:induction false} RowsConcat(a: seq<Line>, b: seq<Line>)
    ensures Rows(a + b) == Rows(a) + Rows(b)
    decreases |a|
  {
    if a == [] {
      assert a + b == b && [] + Rows(b) == Rows(b);
    } else {
      assert (a + b)[1..] == a[1..] + b;
      RowsConcat(a[1..], b);
      assert Rows(a + b) == (if a[0].Blank? then [] else [a[0].row]) + (Rows(a[1..]) + Rows(b));
    }
  }

  function Texts(file: seq<Line>): (r: seq<string>)
    ensures |r| == |file| && forall i :: 0 <= i < |file| ==> r[i] == LineText(file[i])
  {
    if file == [] then [] else [LineText(file[0])] + Texts(file[1..])
  }

  lemma TextsConcat(a: seq<Line>, b: seq<Line>)
    ensures Texts(a + b) == Texts(a) + Texts(b)
  {
  }

  // ------------------------------------------------------------------ reading a line

  lemma DecimalTidy(n: nat)
    ensures Tidy(Decimal(n))
  {
    var s := Decimal(n);
    assert forall c :: c in s ==> IsDigit(c);
  }

  lemma TidyFree(s: string)
    requires ',' !in s
    ensures Free(s, ",")
  {
    forall i | 0 <= i < |s| ensures !At(s, ",", i) { assert s[i] != ','; }
  }

  lemma PartsTidy(r: Row)
    requires Good(r)
    ensures forall p :: p in Parts(r) ==> S.Neat(p) && Free(p, ",")
  {
    DecimalTidy(r.time);
    forall p | p in Parts(r) ensures S.Neat(p) && Free(p, ",") { TidyFree(p); }
  }

  lemma FieldsOf(r: Row)
    requires Good(r)
    ensures S.Fields(RowText(r), ",") == NonEmpty(Parts(r))
  {
    var text := Join(Parts(r), ",");
    PartsTidy(r);
    S.JoinNeat(Parts(r), ",");
    S.FieldsNeat(text, ",");
    SplitJoin(Parts(r), ",");
  }

  lemma NonEmptyParts(ps: seq<string>, level: string)
    requires "" !in ps
    ensures NonEmpty(ps + [level]) == ps + if level == "" then [] else [level]
  {
    NonEmptyConcat(ps, [level]);
    NonEmptyId(ps);
    assert NonEmpty([]) == [] && [level][1..] == [];
  }

  /** `StrProc` finds the five fields of a line. */
  lemma ReadEntry(r: Row)
    requires Good(r)
    ensures var f := S.Fields(RowText(r), ",");
            Field(f, 0) == r.key && Field(f, 1) == r.user && Field(f, 3) == r.ip && Field(f, 4) == r.level &&
            Field(f, 2) == Decimal(r.time) && ReadDecimal(Decimal(r.time)) == r.time
  {
    FieldsOf(r);
    var ps := [r.key, r.user, Decimal(r.time), r.ip];
    assert Parts(r) == ps + [r.level];
    NonEmptyParts(ps, r.level);
    ReadPrinted(r.time);
  }

  /** And none in a blank line, which reads as the time zero. */
  lemma ReadBlank()
    ensures S.Fields("\n", ",") == [] && ReadDecimal("") == 0
  {
    assert "" + "\n" == "\n" && S.Neat("");
    S.FieldsNeat("", ",");
    FindNone("", ",");
    assert Split("", ",") == [""] && NonEmpty([""]) == [] by { assert [""][1..] == [] && NonEmpty([]) == []; }
  }

  /** Perl's `split` drops empty fields at the end. */
  function PerlFields(line: string): seq<string>
  {
    DropEmptyTail(Split(line, ","))
  }

  function DropEmptyTail(fs: seq<string>): seq<string>
  {
    if fs != [] && fs[|fs| - 1] == "" then DropEmptyTail(fs[..|fs| - 1]) else fs
  }

  /** The fifth field still has its line end, which `chop` takes off. */
  lemma PerlEntry(r: Row)
    requires Good(r)
    ensures PerlFields(RowText(r)) == [r.key, r.user, Decimal(r.time), r.ip, r.level + "\n"]
  {
    var ps := [r.key, r.user, Decimal(r.time), r.ip, r.level + "\n"];
    PartsTidy(r);
    TidyFree(r.level + "\n");
    forall p | p in ps ensures Free(p, ",") { assert p in Parts(r) || p == r.level + "\n"; }
    LastNewline(r);
    SplitJoin(ps, ",");
  }

  lemma LastNewline(r: Row)
    ensures Join([r.key, r.user, Decimal(r.time), r.ip, r.level + "\n"], ",") == RowText(r)
  {
    var t := Decimal(r.time);
    JoinFive(r.key, r.user, t, r.ip, r.level);
    JoinFive(r.key, r.user, t, r.ip, r.level + "\n");
    var pre := r.key + "," + (r.user + "," + (t + "," + (r.ip + "," + "")));
    assert Join(Parts(r), ",") == pre + r.level;
    assert Join([r.key, r.user, t, r.ip, r.level + "\n"], ",") == pre + (r.level + "\n");
  }

  lemma JoinFive(a: string, b: string, c: string, d: string, e: string)
    ensures Join([a, b, c, d, e], ",") == a + "," + (b + "," + (c + "," + (d + "," + e)))
  {
    assert [a, b, c, d, e][1..] == [b, c, d, e] && [b, c, d, e][1..] == [c, d, e];
    assert [c, d, e][1..] == [d, e] && [d, e][1..] == [e];
    assert Join([e], ",") == e && Join([d, e], ",") == d + "," + e;
    assert Join([c, d, e], ",") == c + "," + (d + "," + e);
  }

  lemma PerlBlank()
    ensures PerlFields("\n") == ["\n"]
  {
    TidyFree("\n");
    FindNone("\n", ",");
  }

  // ------------------------------------------------------------------ the two writers

  /** What `authorized` writes for a line. */
  function AuthLine(l: Line, auth: string, now: nat, keep: bool): seq<Line>
  {
    if l.Blank? then (if TIMEOUT > now then [Blank] else [])
    else if Live(l.row, now) then [Entry(Touched(l.row, auth, now, keep))]
    else []
  }

  /** What `get_key` writes for a line: the line end of a copied line comes twice. */
  function KeyLine(l: Line, name: string, level: string, ip: string, now: nat): seq<Line>
  {
    if l.Blank? then []
    else if Owned(l.row, name, ip) then [Entry(Renewed(l.row, name, level, ip, now))]
    else [l, Blank]
  }

  ghost predicate AllGood(file: seq<Line>)
  {
    forall i :: 0 <= i < |file| ==> file[i].Blank? || Good(file[i].row)
  }

  function Later<T>(a: Option<T>, b: Option<T>): Option<T>
  {
    if b.Some? then b else a
  }

  lemma {:induction false} AuthSnoc(rows: seq<Row>, r: Row, auth: string, now: nat, keep: bool)
    ensures AuthRows(rows + [r], auth, now, keep) ==
            AuthRows(rows, auth, now, keep) + (if Live(r, now) then [Touched(r, auth, now, keep)] else [])
    ensures Holder(rows + [r], auth, now) ==
            if Live(r, now) && r.key == auth then Some(Session(r.user, r.level)) else Holder(rows, auth, now)
    decreases |rows|
  {
    if rows == [] {
      assert rows + [r] == [r] && [r][1..] == [];
      assert AuthRows([], auth, now, keep) == [] && Holder([], auth, now) == None;
    } else {
      assert (rows + [r])[1..] == rows[1..] + [r];
      AuthSnoc(rows[1..], r, auth, now, keep);
    }
  }

  lemma {:induction false} KeySnoc(rows: seq<Row>, r: Row, name: string, level: string, ip: string, now: nat)
    ensures KeyRows(rows + [r], name, level, ip, now) ==
            KeyRows(rows, name, level, ip, now) + [Renewed(r, name, level, ip, now)]
    ensures KeyOf(rows + [r], name, ip) == if Owned(r, name, ip) then Some(r.key) else KeyOf(rows, name, ip)
    decreases |rows|
  {
    if rows == [] {
      assert rows + [r] == [r] && [r][1..] == [];
      assert KeyOf([], name, ip) == None && KeyRows([], name, level, ip, now) == [];
    } else {
      assert (rows + [r])[1..] == rows[1..] + [r];
      KeySnoc(rows[1..], r, name, level, ip, now);
    }
  }

  /** One turn of the loop in `authorized`: what is written, and user and level if it is the session asked for. */
  method AuthTurn(buf: string, ghost l: Line, auth: string, now: nat, keep: bool)
    returns (written: seq<string>, hit: Option<Session>)
    requires buf == LineText(l) && (l.Entry? ==> Good(l.row)) && auth != ""
    ensures written == Texts(AuthLine(l, auth, now, keep))
    ensures hit == if l.Entry? && Live(l.row, now) && l.row.key == auth then Some(Session(l.row.user, l.row.level))
                   else None
  {
    var s := new S.StrProc(buf, ",");
    if l.Entry? { ReadEntry(l.row); } else { ReadBlank(); }
    var time := ReadDecimal(s.Get(2));
    written, hit := [], None;
    if time + TIMEOUT > now {
      if s.Get(0) == auth {
        hit := Some(Session(s.Get(1), s.Get(4)));
        written := [Join([s.Get(0), s.Get(1), Decimal(if keep then time else now), s.Get(3), s.Get(4)], ",") + "\n"];
      } else {
        written := [buf];
      }
    }
  }

  /** One turn of the loop in `get_key`: what is written, and the key if the line is the user's own. */
  method KeyTurn(line: string, ghost l: Line, name: string, level: string, ip: string, now: nat)
    returns (written: seq<string>, key: Option<string>)
    requires line == LineText(l) && (l.Entry? ==> Good(l.row))
    ensures written == Texts(KeyLine(l, name, level, ip, now))
    ensures key == if l.Entry? && Owned(l.row, name, ip) then Some(l.row.key) else None
  {
    if l.Entry? { PerlEntry(l.row); } else { PerlBlank(); }
    var session := PerlFields(line);
    written, key := [], None;
    if |session| != 5 { return; }
    if name == session[1] && ip == session[3] {
      key := Some(session[0]);
      written := [Join([session[0], name, Decimal(now), ip, level], ",") + "\n"];
    } else {
      written := [line, "\n"];
    }
  }

  class SessionFile {
    var lines: seq<string>
    ghost var file: seq<Line>

    ghost predicate Valid()
      reads this
    {
      lines == Texts(file) && AllGood(file)
    }

    /** The file is removed when the server starts. */
    constructor ()
      ensures Valid() && Rows(file) == []
    {
      lines, file := [], [];
    }

    /** User and level of the session, if it is let in; the rows come out the same wherever the blank lines are. */
    method Authorized(auth: string, keep: bool, now: nat) returns (session: Option<Session>)
      requires Valid()
      modifies this
      ensures Valid() && Rows(file) == Apply(old(Rows(file)), Auth(auth, keep, now))
      ensures session.Some? <==> Grants(old(Rows(file)), Auth(auth, keep, now))
      ensures session.Some? ==> session == Holder(old(Rows(file)), auth, now)
    {
      session := None;
      if auth == "" { return; }
      var tmp: seq<string> := [];
      ghost var rewritten: seq<Line> := [];
      for i := 0 to |lines|
        invariant lines == old(lines) && file == old(file)
        invariant tmp == Texts(rewritten) && AllGood(rewritten)
        invariant Rows(rewritten) == AuthRows(Rows(file[..i]), auth, now, keep)
        invariant session == Holder(Rows(file[..i]), auth, now)
      {
        ghost var l, w := file[i], AuthLine(file[i], auth, now, keep);
        var written, hit := AuthTurn(lines[i], l, auth, now, keep);
        AuthNext(file, i, auth, now, keep, rewritten);
        TextsConcat(rewritten, w);
        tmp, rewritten := tmp + written, rewritten + w;
        session := Later(session, hit);
      }
      assert file[..|file|] == file;
      lines, file := tmp, rewritten;
    }

    /** The key that the login answers with; nothing happens without a name and an address. */
    method GetKey(name: string, level: string, ip: string, made: string, now: nat) returns (key: Option<string>)
      requires Valid() && Tidy(name) && Tidy(level) && Tidy(ip) && Tidy(made) && made != ""
      modifies this
      ensures Valid() && Rows(file) == Apply(old(Rows(file)), Issue(name, level, ip, made, now))
      ensures key == Given(old(Rows(file)), Issue(name, level, ip, made, now))
    {
      key := None;
      if name == "" || ip == "" { return; }
      var tmp;
      ghost var rewritten;
      key, tmp, rewritten := CopyLines(name, level, ip, now);
      if key.None? {
        key := Some(made);
        tmp := tmp + [Join([made, name, Decimal(now), ip, level], ",") + "\n"];
        AddEntry(rewritten, Row(made, name, now, ip, level));
        rewritten := rewritten + [Entry(Row(made, name, now, ip, level))];
      }
      lines, file := tmp, rewritten;
    }

    method CopyLines(name: string, level: string, ip: string, now: nat)
      returns (key: Option<string>, tmp: seq<string>, ghost rewritten: seq<Line>)
      requires Valid() && Tidy(level)
      ensures key == KeyOf(Rows(file), name, ip)
      ensures tmp == Texts(rewritten) && AllGood(rewritten) &&
              Rows(rewritten) == KeyRows(Rows(file), name, level, ip, now)
    {
      key, tmp, rewritten := None, [], [];
      for i := 0 to |lines|
        invariant tmp == Texts(rewritten) && AllGood(rewritten)
        invariant Rows(rewritten) == KeyRows(Rows(file[..i]), name, level, ip, now)
        invariant key == KeyOf(Rows(file[..i]), name, ip)
      {
        ghost var w := KeyLine(file[i], name, level, ip, now);
        var written, hit := KeyTurn(lines[i], file[i], name, level, ip, now);
        KeyNext(file, i, name, level, ip, now, rewritten);
        TextsConcat(rewritten, w);
        tmp, rewritten := tmp + written, rewritten + w;
        key := Later(key, hit);
      }
      assert file[..|file|] == file;
    }
  }

  lemma AddEntry(file: seq<Line>, r: Row)
    requires AllGood(file) && Good(r)
    ensures var next := file + [Entry(r)];
            AllGood(next) && Texts(next) == Texts(file) + [RowText(r)] && Rows(next) == Rows(file) + [r]
  {
    RowsConcat(file, [Entry(r)]);
    OneEntry(r);
  }

  lemma OneEntry(r: Row)
    ensures Rows([Entry(r)]) == [r] && Rows([Blank]) == [] && Rows([Entry(r), Blank]) == [r] && Rows([]) == []
  {
    assert [Entry(r)][1..] == [] && [Blank][1..] == [] && [Entry(r), Blank][1..] == [Blank];
    assert Rows([Blank]) == [] + Rows([]);
  }

  lemma RowsNext(file: seq<Line>, i: nat)
    requires i < |file|
    ensures Rows(file[..i + 1]) == Rows(file[..i]) + (if file[i].Blank? then [] else [file[i].row])
  {
    assert file[..i + 1] == file[..i] + [file[i]];
    RowsConcat(file[..i], [file[i]]);
    if file[i].Entry? { OneEntry(file[i].row); } else { OneEntry(Row("", "", 0, "", "")); }
  }

  lemma AuthNext(file: seq<Line>, i: nat, auth: string, now: nat, keep: bool, done: seq<Line>)
    requires i < |file| && AllGood(file) && AllGood(done)
    requires Rows(done) == AuthRows(Rows(file[..i]), auth, now, keep)
    ensures var next := done + AuthLine(file[i], auth, now, keep);
            AllGood(next) && Rows(next) == AuthRows(Rows(file[..i + 1]), auth, now, keep)
    ensures Holder(Rows(file[..i + 1]), auth, now) ==
            if file[i].Entry? && Live(file[i].row, now) && file[i].row.key == auth
            then Some(Session(file[i].row.user, file[i].row.level))
            else Holder(Rows(file[..i]), auth, now)
  {
    var w := AuthLine(file[i], auth, now, keep);
    RowsNext(file, i);
    RowsConcat(done, w);
    if file[i].Entry? {
      var r := file[i].row;
      AuthSnoc(Rows(file[..i]), r, auth, now, keep);
      OneEntry(Touched(r, auth, now, keep));
    } else {
      OneEntry(Row("", "", 0, "", ""));
      assert Rows(done) + [] == Rows(done) && Rows(file[..i]) + [] == Rows(file[..i]);
    }
  }

  lemma KeyNext(file: seq<Line>, i: nat, name: string, level: string, ip: string, now: nat, done: seq<Line>)
    requires i < |file| && AllGood(file) && AllGood(done) && Tidy(level)
    requires Rows(done) == KeyRows(Rows(file[..i]), name, level, ip, now)
    ensures var next := done + KeyLine(file[i], name, level, ip, now);
            AllGood(next) && Rows(next) == KeyRows(Rows(file[..i + 1]), name, level, ip, now)
    ensures KeyOf(Rows(file[..i + 1]), name, ip) ==
            if file[i].Entry? && Owned(file[i].row, name, ip) then Some(file[i].row.key)
            else KeyOf(Rows(file[..i]), name, ip)
  {
    var w := KeyLine(file[i], name, level, ip, now);
    RowsNext(file, i);
    RowsConcat(done, w);
    if file[i].Entry? {
      var r := file[i].row;
      KeySnoc(Rows(file[..i]), r, name, level, ip, now);
      OneEntry(Renewed(r, name, level, ip, now));
    } else {
      OneEntry(Row("", "", 0, "", ""));
      assert Rows(done) + [] == Rows(done) && Rows(file[..i]) + [] == Rows(file[..i]);
    }
  }

  /** The text of a line, field by field. */
  lemma RowIs(r: Row)
    ensures RowText(r) == r.key + "," + (r.user + "," + (Decimal(r.time) + "," + (r.ip + "," + r.level))) + "\n"
  {
    JoinFive(r.key, r.user, Decimal(r.time), r.ip, r.level);
  }
}
