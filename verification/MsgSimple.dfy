/**
 The subs of `App::MsgSimple` in their own form: loops over hash keys in whatever
 order the hash gives them, one `%diff` used twice, commands run as side effects.
 Each is proved against a function of `Reconcile`, so the result does not depend on
 any iteration order.
 */
module MsgSimple {
  import opened Text
  import opened Config
  import opened Cli
  import opened Reconcile
  import opened Laws
  import opened Lens

  // ------------------------------------------------------------------ the steps of a write

  /** `p` goes away when the node at `q` is brought to the values `vals`, ignoring nested elements. */
  predicate Dropped(sch: Schema, q: Path, vals: set<string>, p: Path)
  {
    q <= p && if |p| == |q| then sch(q) !in {Tag, Multi} && vals == {} else p[|q|] !in vals
  }

  function NodesOf(q: Path, vals: set<string>): set<Path>
  {
    set v, p | v in vals && p in Prefixes(q + [v]) :: p
  }

  function Shallow(sch: Schema, c: set<Path>, q: Path, vals: set<string>): set<Path>
  {
    (set p | p in c && !Dropped(sch, q, vals, p)) + NodesOf(q, vals)
  }

  predicate RemovedVals(sch: Schema, m: FieldMap, vals: map<string, Form>, q: Path, p: Path)
  {
    q <= p && |q| < |p| && p[|q|] in vals && Removed(sch, m, vals[p[|q|]], q + [p[|q|]], p)
  }

  function AddedVals(sch: Schema, m: FieldMap, vals: map<string, Form>, q: Path): set<Path>
  {
    set v, p | v in vals && p in Added(sch, m, vals[v], q + [v]) :: p
  }

  /** The nested writes below the values `vals` of node `q`. */
  function StoreVals(sch: Schema, c: set<Path>, m: FieldMap, vals: map<string, Form>, q: Path): set<Path>
  {
    (set p | p in c && !RemovedVals(sch, m, vals, q, p)) + AddedVals(sch, m, vals, q)
  }

  function StoreEntry(sch: Schema, c: set<Path>, en: Entry, vals: map<string, Form>, loc: Path): set<Path>
  {
    (set p | p in c && !RemovedBy(sch, en, vals, loc, p)) + AddedBy(sch, en, vals, loc)
  }

  function Restrict<V>(m: map<string, V>, keys: set<string>): map<string, V>
  {
    map k | k in m && k in keys :: m[k]
  }

  lemma RestrictAll<V>(m: map<string, V>, keys: set<string>)
    requires m.Keys - keys == {}
    ensures Restrict(m, keys) == m
  {
    forall k | k in m ensures k in keys { assert k !in m.Keys - keys; }
  }

  lemma RemovedUnder(sch: Schema, m: FieldMap, d: Form, loc: Path, p: Path)
    requires Removed(sch, m, d, loc, p)
    ensures loc <= p
  {
  }

  /** Nested writes below different values do not meet. */
  lemma {:induction false} StoreValsStep(sch: Schema, c: set<Path>, m: FieldMap, vals: map<string, Form>, q: Path,
                                         done: set<string>, v: string)
    requires v in vals && v !in done && forall w :: WellMapped(sch, m, q + [w])
    ensures Store(sch, StoreVals(sch, c, m, Restrict(vals, done), q), m, vals[v], q + [v]) ==
            StoreVals(sch, c, m, Restrict(vals, done + {v}), q)
  {
    var a, b := Restrict(vals, done), Restrict(vals, done + {v});
    forall p ensures RemovedVals(sch, m, b, q, p) <==>
                     RemovedVals(sch, m, a, q, p) || Removed(sch, m, vals[v], q + [v], p)
    {
      if Removed(sch, m, vals[v], q + [v], p) {
        RemovedUnder(sch, m, vals[v], q + [v], p);
        assert p[|q|] == v;
      }
    }
    forall p
      ensures p in AddedVals(sch, m, b, q) <==> p in AddedVals(sch, m, a, q) || p in Added(sch, m, vals[v], q + [v])
    {
      if p in AddedVals(sch, m, a, q) {
        var w :| w in a && p in Added(sch, m, a[w], q + [w]);
        assert w in b && p in Added(sch, m, b[w], q + [w]);
      }
      if p in Added(sch, m, vals[v], q + [v]) { assert v in b && p in Added(sch, m, b[v], q + [v]); }
    }
    forall p | p in AddedVals(sch, m, a, q) ensures !Removed(sch, m, vals[v], q + [v], p) {
      var w :| w in a && p in Added(sch, m, a[w], q + [w]);
      AddedComparable(sch, m, vals[w], q + [w], p);
      if Removed(sch, m, vals[v], q + [v], p) { RemovedUnder(sch, m, vals[v], q + [v], p); }
    }
  }

  lemma {:induction false} StoreValsClosed(sch: Schema, c: set<Path>, m: FieldMap, vals: map<string, Form>, q: Path)
    requires Closed(c) && forall w :: WellMapped(sch, m, q + [w])
    ensures Closed(StoreVals(sch, c, m, vals, q))
  {
    var r := StoreVals(sch, c, m, vals, q);
    forall o, p | p in r && o <= p ensures o in r {
      if p in AddedVals(sch, m, vals, q) {
        var v :| v in vals && p in Added(sch, m, vals[v], q + [v]);
        AddedDownward(sch, m, vals[v], q + [v], o, p);
      } else if RemovedVals(sch, m, vals, q, o) {
        RemovedUpward(sch, m, vals[o[|q|]], q + [o[|q|]], o, p);
      }
    }
  }

  lemma StoreValsNone(sch: Schema, c: set<Path>, m: FieldMap, vals: map<string, Form>, q: Path)
    ensures StoreVals(sch, c, m, Restrict(vals, {}), q) == c
  {
  }

  lemma {:induction false} StoreValsApart(sch: Schema, c: set<Path>, m: FieldMap, vals: map<string, Form>,
                                          q: Path, v: string)
    requires v !in vals
    ensures AgreeBelow(StoreVals(sch, c, m, vals, q), c, q + [v])
  {
    forall p | q + [v] <= p && |q + [v]| < |p| ensures p in StoreVals(sch, c, m, vals, q) <==> p in c {
      assert p[|q|] == v && q <= p;
      forall w | w in vals ensures p !in Added(sch, m, vals[w], q + [w]) {
        if p in Added(sch, m, vals[w], q + [w]) { AddedComparable(sch, m, vals[w], q + [w], p); }
      }
    }
  }

  lemma KeptNode(sch: Schema, m: FieldMap, vals: map<string, Form>, q: Path, v: string, p: Path)
    requires v in vals && PrefixFree(m)
    ensures p in Kept(sch, m, vals[v], q + [v]) <==>
            (p in Prefixes(q + [v]) && !RemovedVals(sch, m, vals, q, p)) || p in Added(sch, m, vals[v], q + [v])
  {
    RemovedSelf(sch, m, vals[v], q + [v]);
    ClearsNothingElse(sch, m, vals[v], q + [v], p);
    if p in Prefixes(q + [v]) {
      assert p == q + [v] <==> |p| > |q|;
      assert p == q + [v] ==> q <= p && p[|q|] == v;
    }
  }

  /** What an element adds: the nodes of its values, but for those cleared again, and what is added below them. */
  lemma {:induction false} AddedBySplit(sch: Schema, en: Entry, vals: map<string, Form>, loc: Path, p: Path)
    requires en.location.Some? && PrefixFree(en.children)
    ensures var q := loc + en.location.value;
            p in AddedBy(sch, en, vals, loc) <==>
            || (p in NodesOf(q, vals.Keys) && !RemovedVals(sch, en.children, vals, q, p))
            || p in AddedVals(sch, en.children, vals, q)
  {
    var q := loc + en.location.value;
    forall v | v in vals { KeptNode(sch, en.children, vals, q, v, p); }
    if p in NodesOf(q, vals.Keys) { var v :| v in vals.Keys && p in Prefixes(q + [v]); }
    if p in AddedVals(sch, en.children, vals, q) {
      var v :| v in vals && p in Added(sch, en.children, vals[v], q + [v]);
    }
    if p in AddedBy(sch, en, vals, loc) {
      var v :| v in vals && p in Kept(sch, en.children, vals[v], q + [v]);
      assert v in vals.Keys;
    }
  }

  lemma {:induction false} StoreValsAll(sch: Schema, c: set<Path>, en: Entry, vals: map<string, Form>, loc: Path)
    requires en.location.Some? && PrefixFree(en.children)
    ensures var q := loc + en.location.value;
            StoreVals(sch, Shallow(sch, c, q, vals.Keys), en.children, vals, q) == StoreEntry(sch, c, en, vals, loc)
  {
    var q := loc + en.location.value;
    assert vals.Keys == {} <==> vals == map[];
    forall p
      ensures p in StoreVals(sch, Shallow(sch, c, q, vals.Keys), en.children, vals, q) <==>
              p in StoreEntry(sch, c, en, vals, loc)
    {
      AddedBySplit(sch, en, vals, loc, p);
      assert RemovedBy(sch, en, vals, loc, p) <==>
             Dropped(sch, q, vals.Keys, p) || RemovedVals(sch, en.children, vals, q, p);
    }
  }

  /** Writes through different elements do not meet. */
  lemma {:induction false} StoreStep(sch: Schema, c: set<Path>, m: FieldMap, d: Form, loc: Path,
                                     done: set<string>, e: string)
    requires PrefixFree(m) && e in m.entries && e !in done
    ensures var before := Store(sch, c, FieldMap(Restrict(m.entries, done)), d, loc);
            StoreEntry(sch, before, m.entries[e], ValuesOf(d, e), loc) ==
            Store(sch, c, FieldMap(Restrict(m.entries, done + {e})), d, loc)
  {
    var a, b := FieldMap(Restrict(m.entries, done)), FieldMap(Restrict(m.entries, done + {e}));
    var en, vals := m.entries[e], ValuesOf(d, e);
    forall p ensures Removed(sch, b, d, loc, p) <==> Removed(sch, a, d, loc, p) || RemovedBy(sch, en, vals, loc, p) {
      if RemovedBy(sch, en, vals, loc, p) { assert e in b.entries; }
      if Removed(sch, a, d, loc, p) {
        var f :| f in a.entries && RemovedBy(sch, a.entries[f], ValuesOf(d, f), loc, p);
        assert f in b.entries;
      }
    }
    forall p | p in Added(sch, a, d, loc) ensures !RemovedBy(sch, en, vals, loc, p) {
      var f :| f in a.entries && p in AddedBy(sch, a.entries[f], ValuesOf(d, f), loc);
      var v := AddedByCases(sch, a.entries[f], ValuesOf(d, f), loc, p);
      if RemovedBy(sch, en, vals, loc, p) { LocsApart(m, loc, e, f, p, v); }
    }
    assert Added(sch, b, d, loc) == Added(sch, a, d, loc) + AddedBy(sch, en, vals, loc) by {
      forall p | p in AddedBy(sch, en, vals, loc) ensures p in Added(sch, b, d, loc) { assert e in b.entries; }
      forall p | p in Added(sch, a, d, loc) ensures p in Added(sch, b, d, loc) {
        var f :| f in a.entries && p in AddedBy(sch, a.entries[f], ValuesOf(d, f), loc);
        assert f in b.entries;
      }
    }
  }

  lemma {:induction false} StoreApart(sch: Schema, c: set<Path>, m: FieldMap, d: Form, loc: Path,
                                      done: set<string>, e: string)
    requires PrefixFree(m) && Located(m, e) && e !in done
    ensures AgreeBelow(Store(sch, c, FieldMap(Restrict(m.entries, done)), d, loc), c, Loc(m, e, loc))
  {
    var a, q := FieldMap(Restrict(m.entries, done)), Loc(m, e, loc);
    forall p | q <= p && |q| < |p| ensures p in Store(sch, c, a, d, loc) <==> p in c {
      forall f | f in a.entries ensures !RemovedBy(sch, a.entries[f], ValuesOf(d, f), loc, p)
                                        && p !in AddedBy(sch, a.entries[f], ValuesOf(d, f), loc)
      {
        if RemovedBy(sch, a.entries[f], ValuesOf(d, f), loc, p) {
          LocsIncomparable(m, loc, e, f);
          PrefixesComparable(Loc(m, f, loc), q, p);
        }
        if p in AddedBy(sch, a.entries[f], ValuesOf(d, f), loc) {
          var v := AddedByCases(sch, a.entries[f], ValuesOf(d, f), loc, p);
          LocsApart(m, loc, e, f, p, v);
        }
      }
    }
  }

  // ------------------------------------------------------------------ the text of a write

  /** Tag entries and multi values of a configuration are single words, since no command quotes them. */
  ghost predicate PlainEntries(sch: Schema, c: set<Path>)
  {
    forall q, v :: sch(q) in {Tag, Multi} && v in Values(c, q) ==> PlainWord(v)
  }

  /**
   A value that the shell hands over whole: where the code does not quote, and where elements
   are mapped below it, a word; at a leaf, any text that may stand between quotes once
   stripped, the empty text included.
   */
  predicate Plain(kind: Kind, leaf: bool, v: string)
  {
    if kind in {Tag, Multi} then PlainWord(v)
    else if leaf then Quotable(StripRight(v))
    else PlainWord(StripRight(v))
  }

  ghost predicate Writable(sch: Schema, m: FieldMap, d: Form, loc: Path)
  {
    forall e :: Located(m, e) ==> WritableAt(sch, m.entries[e], ValuesOf(d, e), Loc(m, e, loc))
  }

  ghost predicate WritableAt(sch: Schema, en: Entry, vals: map<string, Form>, q: Path)
  {
    && PlainPath(q)
    && forall v :: v in vals ==>
         && Plain(sch(q), en.children.entries == map[], v)
         && Writable(sch, en.children, vals[v], q + [Left(sch, q, v)])
  }

  lemma StrippedWord(v: string)
    requires Quotable(StripRight(v)) && StripRight(v) != "" && ' ' !in v
    ensures PlainWord(StripRight(v))
  {
    var w := StripRight(v);
    forall i | 0 <= i < |w| ensures WordChar(w[i]) { assert w[i] == v[i]; }
  }

  /** One session: `running` is the original configuration, `candidate` what the commands edit. */
  class Session {
    const schema: Schema
    const running: set<Path>
    var candidate: set<Path>

    ghost predicate Valid()
      reads this
    {
      Closed(running) && OneValue(schema, running) && PlainEntries(schema, running) && Closed(candidate)
    }

    constructor (sch: Schema, conf: set<Path>)
      requires Closed(conf) && OneValue(sch, conf) && PlainEntries(sch, conf)
      ensures Valid() && schema == sch && running == conf && candidate == conf
    {
      schema, running, candidate := sch, conf, conf;
    }

    method RunCmd(line: string)
      modifies this`candidate
      ensures candidate == match ParseLine(line)
                           case None => old(candidate)
                           case Some(cmd) => Exec(schema, old(candidate), cmd)
    {
      var cmd := ParseLine(line);
      if cmd.Some? { candidate := Exec(schema, candidate, cmd.value); }
    }

    method DeleteValue(q: Path, k: string)
      requires q != [] && PlainPath(q) && PlainWord(k)
      modifies this`candidate
      ensures candidate == Exec(schema, old(candidate), Delete(q + [k]))
    {
      VerbsPlain();
      ParseValue("delete", q, k);
      RunCmd(Line("delete", q, k));
    }

    method SetValue(q: Path, k: string)
      requires q != [] && PlainPath(q) && PlainWord(k)
      modifies this`candidate
      ensures candidate == Exec(schema, old(candidate), Set(q + [k]))
    {
      VerbsPlain();
      ParseValue("set", q, k);
      RunCmd(Line("set", q, k));
    }

    method DeleteEach(q: Path, diff: set<string>)
      requires q != [] && PlainPath(q) && forall k :: k in diff ==> PlainWord(k)
      modifies this`candidate
      ensures candidate == Without(old(candidate), q, diff)
    {
      var done, todo := {}, diff;
      while todo != {}
        invariant done + todo == diff
        invariant candidate == Without(old(candidate), q, done)
        decreases |todo|
      {
        var k :| k in todo;
        DeleteValue(q, k);
        WithoutStep(schema, old(candidate), q, done, k);
        done, todo := done + {k}, todo - {k};
      }
    }

    method SetEach(q: Path, diff: set<string>)
      requires q != [] && PlainPath(q) && schema(q) in {Tag, Multi} && forall k :: k in diff ==> PlainWord(k)
      modifies this`candidate
      ensures candidate == old(candidate) + NodesOf(q, diff)
    {
      var done, todo := {}, diff;
      while todo != {}
        invariant done + todo == diff
        invariant candidate == old(candidate) + NodesOf(q, done)
        decreases |todo|
      {
        var k :| k in todo;
        SetValue(q, k);
        NodesStep(schema, old(candidate), q, done, k);
        done, todo := done + {k}, todo - {k};
      }
    }

    /** The tag and multi branches: one `%diff`, first configuration minus form, then form minus configuration. */
    method SetNodes(q: Path, form: set<string>)
      requires Valid() && AgreeBelow(candidate, running, q)
      requires q != [] && PlainPath(q) && schema(q) in {Tag, Multi} && forall v :: v in form ==> PlainWord(v)
      modifies this`candidate
      ensures candidate == Shallow(schema, old(candidate), q, form)
    {
      var conf := Values(running, q);
      var diff := conf;
      diff := diff - form;
      DeleteEach(q, diff);
      diff := diff + form;
      diff := diff - conf;
      assert diff == form - conf;
      SetEach(q, diff);
      NodesDone(schema, old(candidate), running, q, form);
    }

    method SetQuoted(q: Path, v: string)
      requires q != [] && PlainPath(q) && Quotable(v)
      modifies this`candidate
      ensures candidate == Exec(schema, old(candidate), Set(q + [v]))
    {
      VerbsPlain();
      ParseQuoted("set", q, v);
      RunCmd(Line("set", q, QUOTE + v + QUOTE));
    }

    method DeleteNode(q: Path)
      requires q != [] && PlainPath(q)
      modifies this`candidate
      ensures candidate == Exec(schema, old(candidate), Delete(q))
    {
      VerbsPlain();
      LineWhole("delete", q);
      RunCmd("delete" + " " + Join(q, " "));
    }

    /**
     The branch for nodes that are neither tag nor multi; `keys[0]` is whichever key the hash
     gives first, stripped, and nothing left of it deletes the node.
     */
    method PickSingle(q: Path, form: set<string>) returns (ghost picked: Option<string>, ghost left: string)
      requires Valid() && AgreeBelow(candidate, running, q)
      requires q != [] && PlainPath(q) && schema(q) !in {Tag, Multi}
      requires forall v :: v in form ==> Quotable(StripRight(v))
      requires schema(q) == Container ==> forall v :: v in form ==> StripRight(v) == ""
      modifies this`candidate
      ensures if form == {} then picked == None && left == "" else picked.Some? && picked.value in form
      ensures left == "" || Trim(left)
      ensures picked.Some? ==> left <= picked.value && Blanks(picked.value[|left|..])
      ensures candidate == Shallow(schema, old(candidate), q, if left == "" then {} else {left})
    {
      var val := "";
      var blank := false;
      picked := None;
      if form != {} {
        var v0 :| v0 in form;
        val := StripRight(v0);
        blank := ' ' in v0;
        picked := Some(v0);
        StripTrim(v0);
        if !blank && val != "" { StrippedWord(v0); }
      }
      left := val;
      if form == {} || val == "" {
        DeleteNode(q);
      } else if q + [val] !in running {
        if blank { SetQuoted(q, val); } else { SetValue(q, val); }
      }
      SingleDone(schema, old(candidate), running, q, if val == "" then {} else {val});
    }

    method SetSingle(q: Path, form: set<string>)
      requires Valid() && AgreeBelow(candidate, running, q)
      requires q != [] && PlainPath(q) && schema(q) !in {Tag, Multi}
      requires forall v :: v in form ==> Quotable(StripRight(v))
      requires forall v, w :: v in form && w in form ==> StripRight(v) == StripRight(w)
      requires schema(q) == Container ==> forall v :: v in form ==> StripRight(v) == ""
      modifies this`candidate
      ensures candidate == Shallow(schema, old(candidate), q, Texts(form))
    {
      ghost var picked, left := PickSingle(q, form);
      OneIsAll(form, picked, left);
    }

    method SetEntry(en: Entry, vals: map<string, Form>, loc: Path)
      requires Valid() && en.location.Some? && loc + en.location.value != []
      requires AgreeBelow(candidate, running, loc + en.location.value)
      requires Ready(schema, en, vals, loc + en.location.value)
      modifies this`candidate
      ensures var left := TrimmedVals(schema, en, vals, loc + en.location.value);
              candidate == StoreEntry(schema, old(candidate), en, left, loc)
      decreases en, 2
    {
      var q := loc + en.location.value;
      ghost var left := TrimmedVals(schema, en, vals, q);
      SetNode(en, vals, q);
      ShallowKeeps(schema, old(candidate), running, q, left.Keys);
      SetBelow(en, vals, q);
      assert WellMapped(schema, en.children, q + [""]);
      StoreValsAll(schema, old(candidate), en, left, loc);
    }

    method SetNode(en: Entry, vals: map<string, Form>, q: Path)
      requires Valid() && AgreeBelow(candidate, running, q) && q != [] && Ready(schema, en, vals, q)
      modifies this`candidate
      ensures candidate == Shallow(schema, old(candidate), q, TrimmedVals(schema, en, vals, q).Keys)
    {
      LeftKeys(schema, en, vals, q);
      if schema(q) in {Tag, Multi} {
        SetNodes(q, vals.Keys);
      } else {
        ReadySingle(schema, en, vals, q);
        SetSingle(q, vals.Keys);
      }
    }

    method SetBelow(en: Entry, vals: map<string, Form>, q: Path)
      requires Descends(candidate, en, vals, q)
      modifies this`candidate
      ensures candidate == StoreVals(schema, old(candidate), en.children, TrimmedVals(schema, en, vals, q), q)
      decreases en, 1
    {
      ghost var left := TrimmedVals(schema, en, vals, q);
      if en.children.entries == map[] {
        NothingBelow(schema, candidate, en.children, left, q);
        return;
      }
      var todo := vals.Keys;
      ghost var done := {};
      StoreValsNone(schema, candidate, en.children, left, q);
      while todo != {}
        invariant todo <= vals.Keys && done == Lefts(schema, q, vals.Keys - todo)
        invariant candidate == StoreVals(schema, old(candidate), en.children, Restrict(left, done), q)
        decreases |todo|
      {
        var v :| v in todo;
        LeftFresh(schema, en, vals, q, todo, v);
        SetChildren(en, vals, q, v, old(candidate), done);
        LeftsMore(schema, q, vals.Keys, todo, v);
        done, todo := done + {Left(schema, q, v)}, todo - {v};
      }
      AllLeft(schema, en, vals, q);
      RestrictAll(left, done);
    }

    /** Everything below the kept values of node `q` is still as in the running configuration. */
    ghost predicate Descends(before: set<Path>, en: Entry, vals: map<string, Form>, q: Path)
    {
      && Closed(running) && OneValue(schema, running) && PlainEntries(schema, running)
      && Closed(before) && Ready(schema, en, vals, q)
      && forall w :: w in TrimmedVals(schema, en, vals, q) ==> AgreeBelow(before, running, q + [w])
    }

    /** One round of the loop over the values; `before` and `done` tell what the earlier rounds did. */
    method SetChildren(en: Entry, vals: map<string, Form>, q: Path, v: string,
                       ghost before: set<Path>, ghost done: set<string>)
      requires Descends(before, en, vals, q) && v in vals && en.children.entries != map[]
      requires Left(schema, q, v) !in done
      requires var left := TrimmedVals(schema, en, vals, q);
               candidate == StoreVals(schema, before, en.children, Restrict(left, done), q)
      modifies this`candidate
      ensures var left := TrimmedVals(schema, en, vals, q);
              candidate == StoreVals(schema, before, en.children, Restrict(left, done + {Left(schema, q, v)}), q)
      decreases en, 0
    {
      ghost var left := TrimmedVals(schema, en, vals, q);
      var w := Left(schema, q, v);
      LeftForm(schema, en, vals, q, v);
      StoreValsClosed(schema, before, en.children, Restrict(left, done), q);
      StoreValsApart(schema, before, en.children, Restrict(left, done), q, w);
      StoreValsStep(schema, before, en.children, left, q, done, w);
      SetElem(en.children, vals[v], q + [w]);
    }

    /** `_set_elem`: whatever the order of the hash keys, the candidate ends as `Put` says. */
    method SetElem(m: FieldMap, d: Form, loc: Path)
      requires Valid() && AgreeBelow(candidate, running, loc)
      requires WellMapped(schema, m, loc) && Fits(schema, m, d, loc) && Writable(schema, m, d, loc)
      modifies this`candidate
      ensures Closed(candidate) && candidate == Put(schema, old(candidate), m, d, loc)
      decreases m, 1
    {
      var todo := m.entries.Keys;
      ghost var done, t := {}, Trimmed(schema, m, d, loc);
      NoElements(schema, candidate, FieldMap(Restrict(m.entries, {})), t, loc);
      while todo != {}
        invariant todo == m.entries.Keys - done
        invariant candidate == Store(schema, old(candidate), FieldMap(Restrict(m.entries, done)), t, loc)
        decreases |todo|
      {
        var e :| e in todo;
        StoreClosed(schema, old(candidate), FieldMap(Restrict(m.entries, done)), t, loc);
        StoreStep(schema, old(candidate), m, t, loc, done, e);
        SetOne(m, d, loc, e, old(candidate), done);
        done, todo := done + {e}, todo - {e};
      }
      StoreClosed(schema, old(candidate), FieldMap(Restrict(m.entries, done)), t, loc);
      RestrictAll(m.entries, done);
    }

    /** One round of the loop over the elements; `before` and `done` tell what the earlier rounds did. */
    method SetOne(m: FieldMap, d: Form, loc: Path, e: string, ghost before: set<Path>, ghost done: set<string>)
      requires Valid() && AgreeBelow(before, running, loc) && e in m.entries && e !in done
      requires WellMapped(schema, m, loc) && Fits(schema, m, d, loc) && Writable(schema, m, d, loc)
      requires var t := Trimmed(schema, m, d, loc);
               candidate == Store(schema, before, FieldMap(Restrict(m.entries, done)), t, loc)
      modifies this`candidate
      ensures var t := Trimmed(schema, m, d, loc);
              candidate == StoreEntry(schema, old(candidate), m.entries[e], ValuesOf(t, e), loc)
      decreases m, 0
    {
      if m.entries[e].location.Some? {
        TrimmedValues(schema, m, d, loc, e);
        StoreApart(schema, before, m, Trimmed(schema, m, d, loc), loc, done, e);
        AgreeDeeper(before, running, loc, Loc(m, e, loc));
        ReadyEntry(schema, m, d, loc, e);
        SetEntry(m.entries[e], ValuesOf(d, e), loc);
      }
    }

    /** `_get_elem`: reads the running configuration into a form, in whatever order the hash keys come. */
    method GetElem(m: FieldMap, loc: Path) returns (d: Form)
      ensures d == Get(schema, running, m, loc)
      decreases m
    {
      d := NO_FORM;
      var todo := m.entries.Keys;
      while todo != {}
        invariant todo <= m.entries.Keys
        invariant d == Get(schema, running, FieldMap(Restrict(m.entries, m.entries.Keys - todo)), loc)
        decreases |todo|
      {
        var e :| e in todo;
        GetMore(schema, running, m, loc, todo, e);
        if Readable(m.entries[e]) {
          var vals := GetValues(m.entries[e], loc);
          d := Form(d.fields[e := vals]);
        }
        todo := todo - {e};
      }
      RestrictAll(m.entries, m.entries.Keys - todo);
    }

    /**
     `_get_values`: the values of a multi node, the entries of a tag node, or the value of
     any other, if it has one.
     */
    method ListValues(q: Path) returns (vals: set<string>)
      ensures vals == Read(schema, running, q)
    {
      if schema(q) == Multi {
        vals := Values(running, q);
      } else if schema(q) == Tag {
        vals := Values(running, q);
      } else {
        vals := if schema(q) == Single then Values(running, q) else {};
      }
    }

    method GetValues(en: Entry, loc: Path) returns (vals: map<string, Form>)
      requires Readable(en)
      ensures vals == GetEntry(schema, running, en, loc)
      decreases en
    {
      vals := map[];
      var q := loc + en.location.value;
      var all := ListValues(q);
      var todo := all;
      while todo != {}
        invariant todo <= all
        invariant vals.Keys == all - todo
        invariant forall v :: v in vals ==> vals[v] == Get(schema, running, en.children, q + [v])
        decreases |todo|
      {
        var v :| v in todo;
        var below := NO_FORM;
        if en.children.entries != map[] {
          below := GetElem(en.children, q + [v]);
        }
        vals := vals[v := below];
        todo := todo - {v};
      }
    }

    /**
     `write_to_configuration` in a fresh session: when reading the result back gives the
     form that was written, and when a form that was just read changes nothing.
     */
    method Write(m: FieldMap, d: Form)
      requires Valid() && candidate == running
      requires WellMapped(schema, m, []) && Fits(schema, m, d, []) && Writable(schema, m, d, [])
      modifies this`candidate
      ensures Closed(candidate)
      ensures Get(schema, candidate, m, []) == Canon(m, d) <==>
              Neat(schema, m, d, []) && Survives(schema, m, Trimmed(schema, m, d, []), [])
      ensures d == Get(schema, running, m, []) ==>
              (candidate == running <==> NoBare(schema, running, m, []) && Neat(schema, m, d, []))
    {
      SetElem(m, d, []);
      PutGet(schema, running, m, d, []);
      GetPut(schema, running, m, []);
    }
  }

  /** One more element is one more field, if it is read at all. */
  lemma GetMore(sch: Schema, c: set<Path>, m: FieldMap, loc: Path, todo: set<string>, e: string)
    requires e in todo && todo <= m.entries.Keys
    ensures var d := Get(sch, c, FieldMap(Restrict(m.entries, m.entries.Keys - todo)), loc);
            Get(sch, c, FieldMap(Restrict(m.entries, m.entries.Keys - (todo - {e}))), loc) ==
            if Readable(m.entries[e]) then Form(d.fields[e := GetEntry(sch, c, m.entries[e], loc)]) else d
  {
    var all := m.entries.Keys;
    assert all - (todo - {e}) == (all - todo) + {e};
  }

  /** What the form, the map and the templates must offer at one mapped location. */
  ghost predicate Ready(sch: Schema, en: Entry, vals: map<string, Form>, q: Path)
  {
    && WritableAt(sch, en, vals, q) && FitsAt(sch, en, vals, q)
    && forall v :: WellMapped(sch, en.children, q + [v])
  }

  lemma PlainQuotable(kind: Kind, leaf: bool, v: string)
    requires kind !in {Tag, Multi} && Plain(kind, leaf, v)
    ensures Quotable(StripRight(v))
  {
  }

  lemma LeftKeys(sch: Schema, en: Entry, vals: map<string, Form>, q: Path)
    ensures TrimmedVals(sch, en, vals, q).Keys == if sch(q) in {Tag, Multi} then vals.Keys else Texts(vals.Keys)
  {
  }

  lemma ReadySingle(sch: Schema, en: Entry, vals: map<string, Form>, q: Path)
    requires Ready(sch, en, vals, q) && sch(q) !in {Tag, Multi}
    ensures forall v :: v in vals.Keys ==> Quotable(StripRight(v))
    ensures forall v, w :: v in vals.Keys && w in vals.Keys ==> StripRight(v) == StripRight(w)
    ensures sch(q) == Container ==> forall v :: v in vals.Keys ==> StripRight(v) == ""
  {
    forall v | v in vals.Keys ensures Quotable(StripRight(v)) {
      PlainQuotable(sch(q), en.children.entries == map[], v);
    }
  }

  lemma OneIsAll(form: set<string>, picked: Option<string>, left: string)
    requires forall v, w :: v in form && w in form ==> StripRight(v) == StripRight(w)
    requires if form == {} then left == "" else picked.Some? && picked.value in form
    requires (left == "" || Trim(left)) && (picked.Some? ==> left <= picked.value && Blanks(picked.value[|left|..]))
    ensures Texts(form) == if left == "" then {} else {left}
  {
    if form != {} {
      assert picked.value == left + picked.value[|left|..];
      StripExactly(left, picked.value[|left|..]);
    }
  }

  /** What comes of a single-valued node if `v` is the value that the hash gives first. */
  function Picked(sch: Schema, c: set<Path>, q: Path, v: string): set<Path>
  {
    Shallow(sch, c, q, Texts({v}))
  }

  lemma NodesAt(q: Path, vals: set<string>, x: string)
    ensures q + [x] in NodesOf(q, vals) <==> x in vals
  {
    var p := q + [x];
    assert p in Prefixes(p);
    forall y | y in vals && p in Prefixes(q + [y]) ensures y == x { assert (q + [y])[|q|] == p[|q|]; }
  }

  lemma PickShows(sch: Schema, c: set<Path>, q: Path, v: string, w: string)
    requires sch(q) == Single && StripRight(v) != StripRight(w) && StripRight(v) != ""
    ensures q + [StripRight(v)] in Picked(sch, c, q, v) && q + [StripRight(v)] !in Picked(sch, c, q, w)
  {
    var x := StripRight(v);
    NodesAt(q, Texts({v}), x);
    NodesAt(q, Texts({w}), x);
    assert x in Texts({v}) && x !in Texts({w});
    assert q <= q + [x] && (q + [x])[|q|] == x && Dropped(sch, q, Texts({w}), q + [x]);
  }

  /**
   Of several values at a single-valued node, it does not matter which comes first exactly
   when all are the same once stripped.
   */
  lemma PickExactly(sch: Schema, c: set<Path>, q: Path, form: set<string>)
    requires sch(q) == Single
    ensures (forall v, w :: v in form && w in form ==> SamePick(sch, c, q, v, w)) <==>
            (forall v, w :: v in form && w in form ==> StripRight(v) == StripRight(w))
  {
    if v, w :| v in form && w in form && StripRight(v) != StripRight(w) {
      PickSame(sch, c, q, v, w);
    } else {
      forall v, w | v in form && w in form ensures SamePick(sch, c, q, v, w) { PickSame(sch, c, q, v, w); }
    }
  }

  predicate SamePick(sch: Schema, c: set<Path>, q: Path, v: string, w: string)
  {
    Picked(sch, c, q, v) == Picked(sch, c, q, w)
  }

  lemma PickSame(sch: Schema, c: set<Path>, q: Path, v: string, w: string)
    requires sch(q) == Single
    ensures SamePick(sch, c, q, v, w) <==> StripRight(v) == StripRight(w)
  {
    if StripRight(v) == StripRight(w) {
      assert Texts({v}) == Texts({w});
    } else if StripRight(v) != "" {
      PickShows(sch, c, q, v, w);
    } else {
      PickShows(sch, c, q, w, v);
    }
  }

  /** A form whose result depends on the order of the hash. */
  lemma OrderMatters(sch: Schema, c: set<Path>, q: Path)
    requires sch(q) == Single
    ensures Picked(sch, c, q, "up") != Picked(sch, c, q, "down")
  {
    assert StripRight("up") == "up" && StripRight("down") == "down";
    PickShows(sch, c, q, "up", "down");
  }

  /** What is left of the values, as the nodes below which the nested writes go. */
  function Lefts(sch: Schema, q: Path, vals: set<string>): set<string>
  {
    set v | v in vals :: Left(sch, q, v)
  }

  lemma LeftsMore(sch: Schema, q: Path, all: set<string>, todo: set<string>, v: string)
    requires v in todo && todo <= all
    ensures Lefts(sch, q, all - (todo - {v})) == Lefts(sch, q, all - todo) + {Left(sch, q, v)}
  {
    assert all - (todo - {v}) == (all - todo) + {v};
  }

  /** Where elements are mapped below, the values have different nodes. */
  lemma LeftFresh(sch: Schema, en: Entry, vals: map<string, Form>, q: Path, todo: set<string>, v: string)
    requires Ready(sch, en, vals, q) && en.children.entries != map[] && v in todo && todo <= vals.Keys
    ensures Left(sch, q, v) !in Lefts(sch, q, vals.Keys - todo)
  {
  }

  /** A value's node takes the value's own form. */
  lemma LeftForm(sch: Schema, en: Entry, vals: map<string, Form>, q: Path, v: string)
    requires Ready(sch, en, vals, q) && en.children.entries != map[] && v in vals
    ensures var w, left := Left(sch, q, v), TrimmedVals(sch, en, vals, q);
            && w in left && left[w] == Trimmed(sch, en.children, vals[v], q + [w])
            && Fits(sch, en.children, vals[v], q + [w]) && Writable(sch, en.children, vals[v], q + [w])
  {
    if sch(q) !in {Tag, Multi} {
      var w := StripRight(v);
      assert PlainWord(w) && w in Texts(vals.Keys);
      assert Source(vals, w) == v;
    }
  }

  lemma AllLeft(sch: Schema, en: Entry, vals: map<string, Form>, q: Path)
    requires Ready(sch, en, vals, q)
    ensures TrimmedVals(sch, en, vals, q).Keys <= Lefts(sch, q, vals.Keys)
  {
    forall w | w in TrimmedVals(sch, en, vals, q) ensures w in Lefts(sch, q, vals.Keys) {
      var v := if sch(q) in {Tag, Multi} then w else Source(vals, w);
      assert Left(sch, q, v) == w;
    }
  }

  lemma NothingBelow(sch: Schema, c: set<Path>, m: FieldMap, vals: map<string, Form>, q: Path)
    requires m.entries == map[]
    ensures StoreVals(sch, c, m, vals, q) == c
  {
  }

  lemma ReadyEntry(sch: Schema, m: FieldMap, d: Form, loc: Path, e: string)
    requires WellMapped(sch, m, loc) && Fits(sch, m, d, loc) && Writable(sch, m, d, loc) && Located(m, e)
    ensures Ready(sch, m.entries[e], ValuesOf(d, e), Loc(m, e, loc))
  {
  }

  /** What is left of `c` when the values `vals` of node `q` are deleted. */
  function Without(c: set<Path>, q: Path, vals: set<string>): set<Path>
  {
    set p | p in c && !(q <= p && |q| < |p| && p[|q|] in vals)
  }

  lemma WithoutStep(sch: Schema, c: set<Path>, q: Path, vals: set<string>, v: string)
    ensures Exec(sch, Without(c, q, vals), Delete(q + [v])) == Without(c, q, vals + {v})
  {
    forall p | p in c ensures q + [v] <= p <==> q <= p && |q| < |p| && p[|q|] == v {}
  }

  lemma NodesStep(sch: Schema, c: set<Path>, q: Path, vals: set<string>, v: string)
    requires sch(q) in {Tag, Multi}
    ensures Exec(sch, c + NodesOf(q, vals), Set(q + [v])) == c + NodesOf(q, vals + {v})
  {
    assert (q + [v])[..|q|] == q;
    forall p | p in NodesOf(q, vals) + Prefixes(q + [v]) ensures p in NodesOf(q, vals + {v}) {
      if p in Prefixes(q + [v]) {
        assert v in vals + {v};
      } else {
        var w :| w in vals && p in Prefixes(q + [w]);
        assert w in vals + {v};
      }
    }
  }

  /** Deleting configuration minus form and setting form minus configuration brings the node to the form. */
  lemma NodesDone(sch: Schema, c: set<Path>, running: set<Path>, q: Path, form: set<string>)
    requires Closed(c) && Closed(running) && AgreeBelow(c, running, q) && sch(q) in {Tag, Multi}
    ensures var conf := Values(running, q);
            Without(c, q, conf - form) + NodesOf(q, form - conf) == Shallow(sch, c, q, form)
  {
    var conf := Values(running, q);
    forall p | p in c && q <= p && |q| < |p| ensures p[|q|] in conf { assert p in running; }
    forall v | v in form && v in conf ensures Prefixes(q + [v]) <= c {
      ClosedValues(running, q, v);
    }
    forall p | p in NodesOf(q, form) ensures p in NodesOf(q, form - conf) || p in c {
      var v :| v in form && p in Prefixes(q + [v]);
      assert v in conf || v in form - conf;
    }
    forall p | p in NodesOf(q, form - conf) ensures p in NodesOf(q, form) {
      var v :| v in form - conf && p in Prefixes(q + [v]);
      assert v in form;
    }
    forall p | p in NodesOf(q, form) ensures !Dropped(sch, q, form, p) {
      var v :| v in form && p in Prefixes(q + [v]);
    }
  }

  /** Replacing or deleting the value of a single-valued node brings it to the form. */
  lemma SingleDone(sch: Schema, c: set<Path>, running: set<Path>, q: Path, form: set<string>)
    requires Closed(c) && Closed(running) && OneValue(sch, running) && AgreeBelow(c, running, q)
    requires sch(q) == Single || (sch(q) == Container && form == {})
    ensures form == {} ==> Exec(sch, c, Delete(q)) == Shallow(sch, c, q, form)
    ensures forall v :: form == {v} ==>
              (if q + [v] in running then c else Exec(sch, c, Set(q + [v]))) == Shallow(sch, c, q, form)
  {
    forall v | form == {v}
      ensures (if q + [v] in running then c else Exec(sch, c, Set(q + [v]))) == Shallow(sch, c, q, form)
    {
      SingleValue(sch, c, running, q, v);
    }
  }

  lemma SingleValue(sch: Schema, c: set<Path>, running: set<Path>, q: Path, v: string)
    requires Closed(c) && Closed(running) && OneValue(sch, running) && AgreeBelow(c, running, q) && sch(q) == Single
    ensures (if q + [v] in running then c else Exec(sch, c, Set(q + [v]))) == Shallow(sch, c, q, {v})
  {
    var child := q + [v];
    assert child[..|q|] == q;
    assert NodesOf(q, {v}) ==
      Prefixes(child) by { forall p | p in Prefixes(child) ensures p in NodesOf(q, {v}) { assert v in {v}; } }
    if child in running {
      forall p | p in c ensures !Dropped(sch, q, {v}, p) {
        if q <= p && |q| < |p| {
          assert p in running && p[..|q|] == q;
          assert p[|q|] == child[|q|];
        }
      }
    }
  }

  lemma NoElements(sch: Schema, c: set<Path>, m: FieldMap, d: Form, loc: Path)
    requires m.entries == map[]
    ensures Store(sch, c, m, d, loc) == c
  {
  }

  /** Bringing a node to its values keeps the tree closed and touches nothing below a kept value. */
  lemma ShallowKeeps(sch: Schema, c: set<Path>, running: set<Path>, q: Path, vals: set<string>)
    requires Closed(c) && AgreeBelow(c, running, q)
    ensures Closed(Shallow(sch, c, q, vals))
    ensures forall v :: v in vals ==> AgreeBelow(Shallow(sch, c, q, vals), running, q + [v])
  {
    var r := Shallow(sch, c, q, vals);
    forall o, p | p in r && o <= p ensures o in r {
      if p in NodesOf(q, vals) {
        var v :| v in vals && p in Prefixes(q + [v]);
        assert o in Prefixes(q + [v]);
      }
    }
    forall v, p | v in vals && q + [v] <= p && |q + [v]| < |p| ensures p in r <==> p in running {
      assert q <= p && p[|q|] == v;
    }
  }
}
