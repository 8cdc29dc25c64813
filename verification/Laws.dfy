/**
 Storing the values of a form as they stand: what reading finds afterwards, when storing
 what was read changes nothing, and the frame.  `Lens` adds the stripping of values.
 */
module Laws {
  import opened Text
  import opened Config
  import opened Reconcile

  ghost predicate PrefixFree(m: FieldMap)
  {
    forall e, f :: Located(m, e) && Located(m, f) && e != f ==>
      !(m.entries[e].location.value <= m.entries[f].location.value)
  }

  /** Sibling locations are prefix-free, at every depth, and none is the root of the configuration. */
  ghost predicate WellMapped(sch: Schema, m: FieldMap, loc: Path)
  {
    && PrefixFree(m)
    && forall e :: Located(m, e) ==>
         && Loc(m, e, loc) != []
         && forall v :: WellMapped(sch, m.entries[e].children, Loc(m, e, loc) + [v])
  }

  /** Single-valued nodes carry at most one value and nodes without a type none, at every depth. */
  ghost predicate FormFits(sch: Schema, m: FieldMap, d: Form, loc: Path)
  {
    forall e :: Located(m, e) ==> FormFitsAt(sch, m.entries[e], ValuesOf(d, e), Loc(m, e, loc))
  }

  ghost predicate FormFitsAt(sch: Schema, en: Entry, vals: map<string, Form>, q: Path)
  {
    && (sch(q) == Single ==> forall v, w :: v in vals && w in vals ==> v == w)
    && (sch(q) == Container ==> vals == map[])
    && forall v :: v in vals ==> FormFits(sch, en.children, vals[v], q + [v])
  }

  /** The part of a form that a map can see: mapped elements only, absent ones shown empty. */
  function Canon(m: FieldMap, d: Form): Form
  {
    Form(map e | e in m.entries && Readable(m.entries[e]) :: CanonEntry(m.entries[e], ValuesOf(d, e)))
  }

  function CanonEntry(en: Entry, vals: map<string, Form>): map<string, Form>
  {
    map v | v in vals :: Canon(en.children, vals[v])
  }

  lemma PrefixesComparable(p: Path, q: Path, r: Path)
    requires p <= r && q <= r
    ensures Comparable(p, q)
  {
    assert p == r[..|p|] && q == r[..|q|];
  }

  lemma {:induction false} AddedByCases(sch: Schema, en: Entry, vals: map<string, Form>, loc: Path, p: Path)
    returns (v: string)
    requires en.location.Some? && p in AddedBy(sch, en, vals, loc)
    ensures v in vals && p in Kept(sch, en.children, vals[v], loc + en.location.value + [v])
    ensures var q := loc + en.location.value + [v];
            p <= q || (q <= p && p in Added(sch, en.children, vals[v], q))
    decreases en
  {
    var q := loc + en.location.value;
    v :| v in vals && p in Kept(sch, en.children, vals[v], q + [v]);
    if !(p <= q + [v]) { AddedComparable(sch, en.children, vals[v], q + [v], p); }
  }

  /** Whatever a write adds lies above or below the place where it works. */
  lemma {:induction false} AddedComparable(sch: Schema, m: FieldMap, d: Form, loc: Path, p: Path)
    requires p in Added(sch, m, d, loc)
    ensures Comparable(p, loc)
    decreases m
  {
    var e :| e in m.entries && p in AddedBy(sch, m.entries[e], ValuesOf(d, e), loc);
    var v := AddedByCases(sch, m.entries[e], ValuesOf(d, e), loc, p);
    var q := Loc(m, e, loc) + [v];
    if p <= q { PrefixesComparable(p, loc, q); }
  }

  /** An addition below an element's location can only come from that element. */
  lemma {:induction false} AddedOwner(sch: Schema, m: FieldMap, d: Form, loc: Path, e: string, p: Path)
    requires PrefixFree(m) && Located(m, e) && p in Added(sch, m, d, loc) && Loc(m, e, loc) <= p
    ensures p in AddedBy(sch, m.entries[e], ValuesOf(d, e), loc)
  {
    var f :| f in m.entries && p in AddedBy(sch, m.entries[f], ValuesOf(d, f), loc);
    if f != e {
      var v := AddedByCases(sch, m.entries[f], ValuesOf(d, f), loc, p);
      LocsApart(m, loc, e, f, p, v);
    }
  }

  lemma LocsIncomparable(m: FieldMap, loc: Path, e: string, f: string)
    requires PrefixFree(m) && Located(m, e) && Located(m, f) && e != f
    ensures !Comparable(Loc(m, e, loc), Loc(m, f, loc))
  {
    var qe, qf := Loc(m, e, loc), Loc(m, f, loc);
    var le, lf := m.entries[e].location.value, m.entries[f].location.value;
    assert le == qe[|loc|..] && lf == qf[|loc|..];
    assert !(le <= lf) && !(lf <= le);
  }

  lemma LocsApart(m: FieldMap, loc: Path, e: string, f: string, p: Path, v: string)
    requires PrefixFree(m) && Located(m, e) && Located(m, f) && e != f
    requires Loc(m, e, loc) <= p
    ensures !Comparable(p, Loc(m, f, loc) + [v])
  {
    var qe, qf := Loc(m, e, loc), Loc(m, f, loc);
    var r := if p <= qf + [v] then qf + [v] else p;
    if Comparable(p, qf + [v]) { PrefixesComparable(qe, qf, r); }
    LocsIncomparable(m, loc, e, f);
  }

  // ------------------------------------------------------------------ reading what was stored

  /** What comes below a value belongs to that value. */
  lemma {:induction false} AddedUnder(sch: Schema, m: FieldMap, d: Form, loc: Path, e: string, v: string, p: Path)
    requires PrefixFree(m) && Located(m, e) && p in Added(sch, m, d, loc) && Loc(m, e, loc) + [v] <= p
    ensures v in ValuesOf(d, e) && p in Kept(sch, m.entries[e].children, ValuesOf(d, e)[v], Loc(m, e, loc) + [v])
  {
    AddedOwner(sch, m, d, loc, e, p);
    var w := AddedByCases(sch, m.entries[e], ValuesOf(d, e), loc, p);
    assert w == v by { assert p[|Loc(m, e, loc)|] == v; }
  }

  lemma ClearedBelow(sch: Schema, m: FieldMap, d: Form, loc: Path, p: Path)
    requires Clears(sch, m, d, loc) && loc <= p
    ensures Removed(sch, m, d, loc, p)
  {
    var e :| e in m.entries && m.entries[e].location == Some([]) && ValuesOf(d, e) == map[];
    assert loc + [] == loc;
    assert RemovedBy(sch, m.entries[e], ValuesOf(d, e), loc, p);
  }

  lemma RemovedSelf(sch: Schema, m: FieldMap, d: Form, loc: Path)
    ensures Removed(sch, m, d, loc, loc) <==> Clears(sch, m, d, loc)
  {
    if Clears(sch, m, d, loc) { ClearedBelow(sch, m, d, loc, loc); }
    if Removed(sch, m, d, loc, loc) {
      var e :| e in m.entries && RemovedBy(sch, m.entries[e], ValuesOf(d, e), loc, loc);
      assert m.entries[e].location.value == [] && loc + [] == loc;
    }
  }

  /** After a write, the values at a mapped location are those of the form whose node is not cleared again. */
  lemma {:induction false} StoreValues(sch: Schema, c: set<Path>, m: FieldMap, d: Form, loc: Path, e: string, v: string)
    requires PrefixFree(m) && Located(m, e)
    ensures v in Values(Store(sch, c, m, d, loc), Loc(m, e, loc)) <==>
            v in ValuesOf(d, e) && !Clears(sch, m.entries[e].children, ValuesOf(d, e)[v], Loc(m, e, loc) + [v])
  {
    var q, vals, r := Loc(m, e, loc), ValuesOf(d, e), Store(sch, c, m, d, loc);
    if v in vals && !Clears(sch, m.entries[e].children, vals[v], q + [v]) {
      var p := q + [v];
      assert p in Kept(sch, m.entries[e].children, vals[v], q + [v]);
      assert p in AddedBy(sch, m.entries[e], vals, loc);
      assert p in r && |q| < |p| && q <= p && p[|q|] == v;
    } else {
      forall p | |q| < |p| && q <= p && p[|q|] == v ensures p !in r { NoneUnder(sch, c, m, d, loc, e, v, p); }
    }
  }

  /** At and below a value that the form does not have, or that is cleared again, nothing is left. */
  lemma NoneUnder(sch: Schema, c: set<Path>, m: FieldMap, d: Form, loc: Path, e: string, v: string, p: Path)
    requires PrefixFree(m) && Located(m, e) && Loc(m, e, loc) + [v] <= p
    requires v in ValuesOf(d, e) ==> Clears(sch, m.entries[e].children, ValuesOf(d, e)[v], Loc(m, e, loc) + [v])
    ensures p !in Store(sch, c, m, d, loc)
  {
    var q, vals := Loc(m, e, loc), ValuesOf(d, e);
    assert q <= p && p[|q|] == v;
    if v in vals { ClearedBelow(sch, m.entries[e].children, vals[v], q + [v], p); }
    assert RemovedBy(sch, m.entries[e], vals, loc, p);
    assert p in Prefixes(q + [v]) ==> p == q + [v];
    if p in Added(sch, m, d, loc) { AddedUnder(sch, m, d, loc, e, v, p); }
  }

  /** An element with an empty location has no located siblings, so where it has no value nothing is added. */
  lemma ClearsNothingElse(sch: Schema, m: FieldMap, d: Form, loc: Path, p: Path)
    requires PrefixFree(m)
    ensures Clears(sch, m, d, loc) ==> p !in Added(sch, m, d, loc)
  {
    if Clears(sch, m, d, loc) {
      var e :| e in m.entries && m.entries[e].location == Some([]) && ValuesOf(d, e) == map[];
      assert forall f :: Located(m, f) ==> m.entries[e].location.value <= m.entries[f].location.value;
    }
  }

  /** Strictly below a kept value, the whole write and the nested write agree. */
  lemma {:induction false} StoreBelow(sch: Schema, c: set<Path>, m: FieldMap, d: Form, loc: Path, e: string,
                                    v: string, p: Path)
    requires PrefixFree(m) && Located(m, e) && PrefixFree(m.entries[e].children) && v in ValuesOf(d, e)
    requires var q := Loc(m, e, loc) + [v]; q <= p && |q| < |p|
    ensures p in Store(sch, c, m, d, loc) <==>
            p in Store(sch, c, m.entries[e].children, ValuesOf(d, e)[v], Loc(m, e, loc) + [v])
  {
    var en, vals := m.entries[e], ValuesOf(d, e);
    var q := Loc(m, e, loc);
    assert q <= p && p[|q|] == v;
    forall f | f in m.entries && f != e ensures !RemovedBy(sch, m.entries[f], ValuesOf(d, f), loc, p) {
      if Located(m, f) && Loc(m, f, loc) <= p { LocsApart(m, loc, f, e, p, v); }
    }
    assert Removed(sch, m, d, loc, p) <==> RemovedBy(sch, en, vals, loc, p);
    if p in Added(sch, m, d, loc) { AddedUnder(sch, m, d, loc, e, v, p); }
    if p in Added(sch, en.children, vals[v], q + [v]) {
      ClearsNothingElse(sch, en.children, vals[v], q + [v], p);
      assert p in Kept(sch, en.children, vals[v], q + [v]);
      assert p in AddedBy(sch, en, vals, loc);
    }
  }

  ghost predicate AgreeBelow(c: set<Path>, c': set<Path>, q: Path)
  {
    forall p :: q <= p && |q| < |p| ==> (p in c <==> p in c')
  }

  lemma AgreeDeeper(c: set<Path>, c': set<Path>, loc: Path, q: Path)
    requires AgreeBelow(c, c', loc) && loc <= q
    ensures AgreeBelow(c, c', q)
  {
    forall p | q <= p && |q| < |p| ensures p in c <==> p in c' { assert loc <= p; }
  }

  /** Reading below `loc` looks at nothing but the strict descendants of `loc`. */
  lemma {:induction false} GetLocal(sch: Schema, c: set<Path>, c': set<Path>, m: FieldMap, loc: Path)
    requires AgreeBelow(c, c', loc)
    ensures Get(sch, c, m, loc) == Get(sch, c', m, loc)
    decreases m
  {
    forall e | Located(m, e) ensures GetEntry(sch, c, m.entries[e], loc) == GetEntry(sch, c', m.entries[e], loc) {
      GetEntryLocal(sch, c, c', m.entries[e], loc);
    }
  }

  lemma {:induction false} GetEntryLocal(sch: Schema, c: set<Path>, c': set<Path>, en: Entry, loc: Path)
    requires en.location.Some?
    requires AgreeBelow(c, c', loc)
    ensures GetEntry(sch, c, en, loc) == GetEntry(sch, c', en, loc)
    decreases en
  {
    var q := loc + en.location.value;
    AgreeDeeper(c, c', loc, q);
    assert Values(c, q) == Values(c', q);
    forall v | v in Shown(sch, c, en, loc)
      ensures Get(sch, c, en.children, q + [v]) == Get(sch, c', en.children, q + [v])
    {
      AgreeDeeper(c, c', loc, q + [v]);
      GetLocal(sch, c, c', en.children, q + [v]);
    }
  }

  /** No value of the form has its node cleared again by an element below it with an empty location. */
  ghost predicate Survives(sch: Schema, m: FieldMap, d: Form, loc: Path)
  {
    forall e :: e in m.entries && Readable(m.entries[e]) ==>
      SurvivesAt(sch, m.entries[e], ValuesOf(d, e), Loc(m, e, loc))
  }

  ghost predicate SurvivesAt(sch: Schema, en: Entry, vals: map<string, Form>, q: Path)
  {
    forall v :: v in vals ==>
      !Clears(sch, en.children, vals[v], q + [v]) && Survives(sch, en.children, vals[v], q + [v])
  }

  /**
   Reading back a written form gives exactly that form, at every depth, if and only if no
   value is cleared again by an element below it with an empty location.
   */
  lemma {:induction false} StoreGet(sch: Schema, c: set<Path>, m: FieldMap, d: Form, loc: Path)
    requires WellMapped(sch, m, loc) && FormFits(sch, m, d, loc)
    ensures Get(sch, Store(sch, c, m, d, loc), m, loc) == Canon(m, d) <==> Survives(sch, m, d, loc)
    decreases m, 1
  {
    var r := Store(sch, c, m, d, loc);
    forall e | e in m.entries && Readable(m.entries[e])
      ensures GetEntry(sch, r, m.entries[e], loc) == CanonEntry(m.entries[e], ValuesOf(d, e)) <==>
              SurvivesAt(sch, m.entries[e], ValuesOf(d, e), Loc(m, e, loc))
    {
      StoreGetEntry(sch, c, m, d, loc, e);
    }
    var got, want := Get(sch, r, m, loc), Canon(m, d);
    assert got.fields.Keys == want.fields.Keys;
    if got == want {
      forall e | e in m.entries && Readable(m.entries[e])
        ensures SurvivesAt(sch, m.entries[e], ValuesOf(d, e), Loc(m, e, loc))
      {
        assert got.fields[e] == want.fields[e];
      }
    }
  }

  lemma {:induction false} StoreGetEntry(sch: Schema, c: set<Path>, m: FieldMap, d: Form, loc: Path, e: string)
    requires WellMapped(sch, m, loc) && FormFits(sch, m, d, loc) && e in m.entries && Readable(m.entries[e])
    ensures GetEntry(sch, Store(sch, c, m, d, loc), m.entries[e], loc) == CanonEntry(m.entries[e], ValuesOf(d, e)) <==>
            SurvivesAt(sch, m.entries[e], ValuesOf(d, e), Loc(m, e, loc))
    decreases m, 0, 1
  {
    var r, en, q, vals := Store(sch, c, m, d, loc), m.entries[e], Loc(m, e, loc), ValuesOf(d, e);
    assert FormFitsAt(sch, en, vals, q);
    forall v ensures v in Shown(sch, r, en, loc) <==> v in vals && !Clears(sch, en.children, vals[v], q + [v]) {
      StoreValues(sch, c, m, d, loc, e, v);
    }
    forall v | v in vals
      ensures Get(sch, r, en.children, q + [v]) == Canon(en.children, vals[v]) <==>
              Survives(sch, en.children, vals[v], q + [v])
    {
      StoreGetBelow(sch, c, m, d, loc, e, v);
    }
    var got, want := GetEntry(sch, r, en, loc), CanonEntry(en, vals);
    if got == want {
      forall v | v in vals
        ensures !Clears(sch, en.children, vals[v], q + [v]) && Survives(sch, en.children, vals[v], q + [v])
      {
        assert v in want && v in got && got[v] == want[v];
      }
    }
  }

  lemma {:induction false} StoreGetBelow(sch: Schema, c: set<Path>, m: FieldMap, d: Form, loc: Path,
                                         e: string, v: string)
    requires WellMapped(sch, m, loc) && Located(m, e) && v in ValuesOf(d, e)
    requires FormFitsAt(sch, m.entries[e], ValuesOf(d, e), Loc(m, e, loc))
    ensures var en, q := m.entries[e], Loc(m, e, loc) + [v];
            Get(sch, Store(sch, c, m, d, loc), en.children, q) == Canon(en.children, ValuesOf(d, e)[v]) <==>
            Survives(sch, en.children, ValuesOf(d, e)[v], q)
    decreases m, 0, 0
  {
    var en, q := m.entries[e], Loc(m, e, loc) + [v];
    var r, r' := Store(sch, c, m, d, loc), Store(sch, c, en.children, ValuesOf(d, e)[v], q);
    forall p | q <= p && |q| < |p| ensures p in r <==> p in r' { StoreBelow(sch, c, m, d, loc, e, v, p); }
    GetLocal(sch, r, r', en.children, q);
    StoreGet(sch, c, en.children, ValuesOf(d, e)[v], q);
  }

  // ------------------------------------------------------------------ GetStore

  /**
   No mapped node is there without a value that is read: neither a single-valued node left
   empty, nor a node without a type, nor one at an empty location.
   */
  ghost predicate NoBare(sch: Schema, c: set<Path>, m: FieldMap, loc: Path)
  {
    forall e :: Located(m, e) ==> NoBareAt(sch, c, m.entries[e], loc)
  }

  ghost predicate NoBareAt(sch: Schema, c: set<Path>, en: Entry, loc: Path)
    requires en.location.Some?
  {
    var q, shown := loc + en.location.value, Shown(sch, c, en, loc);
    && (sch(q) !in {Tag, Multi} && q in c ==> shown != {})
    && Values(c, q) <= shown
    && forall v :: v in shown ==> NoBare(sch, c, en.children, q + [v])
  }

  lemma GetValuesOf(sch: Schema, c: set<Path>, m: FieldMap, loc: Path, e: string)
    requires Located(m, e)
    ensures ValuesOf(Get(sch, c, m, loc), e) == GetEntry(sch, c, m.entries[e], loc)
    ensures GetEntry(sch, c, m.entries[e], loc).Keys == Shown(sch, c, m.entries[e], loc)
  {
  }

  lemma {:induction false} NothingRemoved(sch: Schema, c: set<Path>, m: FieldMap, loc: Path, p: Path)
    requires WellMapped(sch, m, loc) && NoBare(sch, c, m, loc) && p in c
    ensures !Removed(sch, m, Get(sch, c, m, loc), loc, p)
    decreases m, 1
  {
    var d := Get(sch, c, m, loc);
    forall e | e in m.entries ensures !RemovedBy(sch, m.entries[e], ValuesOf(d, e), loc, p) {
      if Located(m, e) {
        GetValuesOf(sch, c, m, loc, e);
        NothingRemovedBy(sch, c, m, loc, e, p);
      }
    }
  }

  lemma {:induction false} NothingRemovedBy(sch: Schema, c: set<Path>, m: FieldMap, loc: Path, e: string, p: Path)
    requires WellMapped(sch, m, loc) && Located(m, e) && NoBareAt(sch, c, m.entries[e], loc) && p in c
    ensures !RemovedBy(sch, m.entries[e], GetEntry(sch, c, m.entries[e], loc), loc, p)
    decreases m, 0
  {
    var q := Loc(m, e, loc);
    var vals := GetEntry(sch, c, m.entries[e], loc);
    GetValuesOf(sch, c, m, loc, e);
    if q <= p && |q| < |p| {
      assert p[|q|] in Values(c, q);
      NothingRemoved(sch, c, m.entries[e].children, q + [p[|q|]], p);
    } else if q <= p {
      assert p == q;
      assert vals == map[] ==> vals.Keys == {};
    }
  }

  lemma {:induction false} NothingNew(sch: Schema, c: set<Path>, m: FieldMap, loc: Path, p: Path)
    requires Closed(c) && p in Added(sch, m, Get(sch, c, m, loc), loc)
    ensures p in c
    decreases m
  {
    var d := Get(sch, c, m, loc);
    var e :| e in m.entries && p in AddedBy(sch, m.entries[e], ValuesOf(d, e), loc);
    GetValuesOf(sch, c, m, loc, e);
    NothingNewBy(sch, c, m.entries[e], loc, p);
  }

  lemma {:induction false} NothingNewBy(sch: Schema, c: set<Path>, en: Entry, loc: Path, p: Path)
    requires Closed(c) && en.location.Some? && p in AddedBy(sch, en, GetEntry(sch, c, en, loc), loc)
    ensures p in c
    decreases en
  {
    var q, vals := loc + en.location.value, GetEntry(sch, c, en, loc);
    var v := AddedByCases(sch, en, vals, loc, p);
    ClosedValues(c, q, v);
    if !(p <= q + [v]) { NothingNew(sch, c, en.children, q + [v], p); }
  }

  lemma {:induction false} BareHere(sch: Schema, c: set<Path>, m: FieldMap, d: Form, loc: Path, e: string)
    requires PrefixFree(m) && Located(m, e) && ValuesOf(d, e) == map[] && sch(Loc(m, e, loc)) !in {Tag, Multi}
    ensures Loc(m, e, loc) !in Store(sch, c, m, d, loc)
  {
    var q := Loc(m, e, loc);
    assert RemovedBy(sch, m.entries[e], ValuesOf(d, e), loc, q);
    if q in Added(sch, m, d, loc) {
      AddedOwner(sch, m, d, loc, e, q);
      var _ := AddedByCases(sch, m.entries[e], ValuesOf(d, e), loc, q);
    }
  }

  /** Some path is lost by writing back the form just read. */
  lemma {:induction false} BareIsLost(sch: Schema, c: set<Path>, m: FieldMap, loc: Path) returns (p: Path)
    requires WellMapped(sch, m, loc) && Closed(c) && !NoBare(sch, c, m, loc)
    ensures loc <= p && p in c && p !in Store(sch, c, m, Get(sch, c, m, loc), loc)
    decreases m, 1
  {
    var e :| Located(m, e) && !NoBareAt(sch, c, m.entries[e], loc);
    p := BareIsLostAt(sch, c, m, loc, e);
  }

  lemma {:induction false} BareIsLostAt(sch: Schema, c: set<Path>, m: FieldMap, loc: Path, e: string) returns (p: Path)
    requires WellMapped(sch, m, loc) && Closed(c) && Located(m, e) && !NoBareAt(sch, c, m.entries[e], loc)
    ensures loc <= p && p in c && p !in Store(sch, c, m, Get(sch, c, m, loc), loc)
    decreases m, 0
  {
    var q, d, shown := Loc(m, e, loc), Get(sch, c, m, loc), Shown(sch, c, m.entries[e], loc);
    GetValuesOf(sch, c, m, loc, e);
    if sch(q) !in {Tag, Multi} && q in c && shown == {} {
      BareHere(sch, c, m, d, loc, e);
      p := q;
    } else if v :| v in Values(c, q) && v !in shown {
      ClosedValues(c, q, v);
      NoneUnder(sch, c, m, d, loc, e, v, q + [v]);
      p := q + [v];
    } else {
      var v :| v in shown && !NoBare(sch, c, m.entries[e].children, q + [v]);
      p := BareIsLost(sch, c, m.entries[e].children, q + [v]);
      LostBelow(sch, c, m, loc, e, v, p);
    }
  }

  lemma {:induction false} LostBelow(sch: Schema, c: set<Path>, m: FieldMap, loc: Path, e: string, v: string, p: Path)
    requires PrefixFree(m) && Located(m, e) && PrefixFree(m.entries[e].children)
    requires v in Shown(sch, c, m.entries[e], loc) && p in c
    requires var q := Loc(m, e, loc) + [v];
             q <= p && p !in Store(sch, c, m.entries[e].children, Get(sch, c, m.entries[e].children, q), q)
    ensures loc <= p && p !in Store(sch, c, m, Get(sch, c, m, loc), loc)
  {
    var d, q := Get(sch, c, m, loc), Loc(m, e, loc) + [v];
    GetValuesOf(sch, c, m, loc, e);
    assert ValuesOf(d, e)[v] == Get(sch, c, m.entries[e].children, q);
    if |q| < |p| {
      StoreBelow(sch, c, m, d, loc, e, v, p);
    } else {
      assert p == q && p[|q| - 1] == v;
      RemovedSelf(sch, m.entries[e].children, ValuesOf(d, e)[v], q);
      assert RemovedBy(sch, m.entries[e], ValuesOf(d, e), loc, p);
      if p in Added(sch, m, d, loc) { AddedUnder(sch, m, d, loc, e, v, p); }
    }
  }

  /**
   Writing back the form just read leaves the configuration unchanged exactly when no
   mapped node is there without a value that is read.
   */
  lemma GetStore(sch: Schema, c: set<Path>, m: FieldMap, loc: Path)
    requires WellMapped(sch, m, loc) && Closed(c)
    ensures Store(sch, c, m, Get(sch, c, m, loc), loc) == c <==> NoBare(sch, c, m, loc)
  {
    if NoBare(sch, c, m, loc) {
      forall p | p in c ensures !Removed(sch, m, Get(sch, c, m, loc), loc, p) { NothingRemoved(sch, c, m, loc, p); }
      forall p | p in Added(sch, m, Get(sch, c, m, loc), loc) ensures p in c { NothingNew(sch, c, m, loc, p); }
    } else {
      var p := BareIsLost(sch, c, m, loc);
    }
  }

  // ------------------------------------------------------------------ frame

  /** `q` is a mapped location reached by walking map and form together; `vals` is what the form holds there. */
  ghost predicate Governs(m: FieldMap, d: Form, loc: Path, q: Path, vals: map<string, Form>)
    decreases m
  {
    exists e :: Located(m, e) &&
      (|| (q == Loc(m, e, loc) && vals == ValuesOf(d, e))
       || exists v :: v in ValuesOf(d, e) &&
            Governs(m.entries[e].children, ValuesOf(d, e)[v], Loc(m, e, loc) + [v], q, vals))
  }

  lemma {:induction false} RemovedWhere(sch: Schema, m: FieldMap, d: Form, loc: Path, p: Path)
    returns (q: Path, vals: map<string, Form>)
    requires Removed(sch, m, d, loc, p)
    ensures Governs(m, d, loc, q, vals) && q <= p
    ensures if |p| == |q| then sch(q) !in {Tag, Multi} && vals == map[] else p[|q|] !in vals
    decreases m
  {
    var e :| e in m.entries && RemovedBy(sch, m.entries[e], ValuesOf(d, e), loc, p);
    q, vals := Loc(m, e, loc), ValuesOf(d, e);
    if |q| < |p| && p[|q|] in vals {
      var v, qe := p[|q|], q;
      q, vals := RemovedWhere(sch, m.entries[e].children, vals[v], qe + [v], p);
      assert v in ValuesOf(d, e);
    }
  }

  lemma {:induction false} AddedWhere(sch: Schema, m: FieldMap, d: Form, loc: Path, p: Path)
    returns (q: Path, vals: map<string, Form>, v: string)
    requires p in Added(sch, m, d, loc)
    ensures Governs(m, d, loc, q, vals) && v in vals && p <= q + [v]
    decreases m
  {
    var e :| e in m.entries && p in AddedBy(sch, m.entries[e], ValuesOf(d, e), loc);
    q, vals := Loc(m, e, loc), ValuesOf(d, e);
    v := AddedByCases(sch, m.entries[e], vals, loc, p);
    if !(p <= q + [v]) {
      var w, qe := v, q;
      q, vals, v := AddedWhere(sch, m.entries[e].children, vals[w], qe + [w], p);
      assert w in ValuesOf(d, e);
    }
  }

  /**
   The frame of a write: a path disappears only below a value that the form dropped
   at a mapped location (or with a single-valued node left empty), and appears only
   as part of a value that the form holds.
   */
  lemma StoreFrame(sch: Schema, c: set<Path>, m: FieldMap, d: Form, loc: Path, p: Path)
    ensures p in c && p !in Store(sch, c, m, d, loc) ==>
            exists q, vals :: Governs(m, d, loc, q, vals) && q <= p &&
              if |p| == |q| then sch(q) !in {Tag, Multi} && vals == map[] else p[|q|] !in vals
    ensures p !in c && p in Store(sch, c, m, d, loc) ==>
            exists q, vals, v :: Governs(m, d, loc, q, vals) && v in vals && p <= q + [v]
  {
    if p in c && p !in Store(sch, c, m, d, loc) {
      var q, vals := RemovedWhere(sch, m, d, loc, p);
    }
    if p !in c && p in Store(sch, c, m, d, loc) {
      var q, vals, v := AddedWhere(sch, m, d, loc, p);
    }
  }

  // ------------------------------------------------------------------ what a write keeps

  lemma {:induction false} RemovedUpward(sch: Schema, m: FieldMap, d: Form, loc: Path, r: Path, p: Path)
    requires Removed(sch, m, d, loc, r) && r <= p
    ensures Removed(sch, m, d, loc, p)
    decreases m
  {
    var e :| e in m.entries && RemovedBy(sch, m.entries[e], ValuesOf(d, e), loc, r);
    var q, vals := Loc(m, e, loc), ValuesOf(d, e);
    if |q| < |r| && r[|q|] in vals {
      RemovedUpward(sch, m.entries[e].children, vals[r[|q|]], q + [r[|q|]], r, p);
    }
    assert RemovedBy(sch, m.entries[e], vals, loc, p);
  }

  lemma KeptDownward(sch: Schema, m: FieldMap, d: Form, q: Path, r: Path, p: Path)
    requires p in Kept(sch, m, d, q) && r <= p && (p <= q || r in Added(sch, m, d, q))
    ensures r in Kept(sch, m, d, q)
  {
    if p <= q {
      assert r <= q;
      assert r == q ==> p == q;
    }
  }

  lemma {:induction false} AddedDownward(sch: Schema, m: FieldMap, d: Form, loc: Path, r: Path, p: Path)
    requires p in Added(sch, m, d, loc) && r <= p
    ensures r in Added(sch, m, d, loc)
    decreases m
  {
    var e :| e in m.entries && p in AddedBy(sch, m.entries[e], ValuesOf(d, e), loc);
    var q, vals := Loc(m, e, loc), ValuesOf(d, e);
    var v := AddedByCases(sch, m.entries[e], vals, loc, p);
    if !(p <= q + [v]) { AddedDownward(sch, m.entries[e].children, vals[v], q + [v], r, p); }
    KeptDownward(sch, m.entries[e].children, vals[v], q + [v], r, p);
    assert r in AddedBy(sch, m.entries[e], vals, loc);
  }

  lemma StoreClosed(sch: Schema, c: set<Path>, m: FieldMap, d: Form, loc: Path)
    requires Closed(c)
    ensures Closed(Store(sch, c, m, d, loc))
  {
    forall r, p | p in Store(sch, c, m, d, loc) && r <= p ensures r in Store(sch, c, m, d, loc) {
      if p in Added(sch, m, d, loc) {
        AddedDownward(sch, m, d, loc, r, p);
      } else if Removed(sch, m, d, loc, r) {
        RemovedUpward(sch, m, d, loc, r, p);
      }
    }
  }
}
