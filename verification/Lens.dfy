/**
 The lens laws of the reconciler: reading back what was written, writing back what was
 read, the frame of a write, and exactly when they hold.
 */
module Lens {
  import opened Text
  import opened Config
  import opened Reconcile
  import opened Laws

  // ------------------------------------------------------------------ forms

  /** What is left of a value at a node. */
  function Left(sch: Schema, q: Path, v: string): string
  {
    if sch(q) in {Tag, Multi} then v else StripRight(v)
  }

  /**
   At a node that is neither tag nor multi it does not matter which value the code picks: all
   are the same when stripped, and there is only one where elements are mapped below it.  A
   node without a type takes none.
   */
  ghost predicate FitsAt(sch: Schema, en: Entry, vals: map<string, Form>, q: Path)
  {
    && (sch(q) !in {Tag, Multi} ==>
          forall v, w :: v in vals && w in vals ==>
            StripRight(v) == StripRight(w) && (en.children.entries != map[] ==> v == w))
    && (sch(q) == Container ==> forall v :: v in vals ==> StripRight(v) == "")
    && forall v :: v in vals ==> Fits(sch, en.children, vals[v], q + [Left(sch, q, v)])
  }

  ghost predicate Fits(sch: Schema, m: FieldMap, d: Form, loc: Path)
  {
    forall e :: Located(m, e) ==> FitsAt(sch, m.entries[e], ValuesOf(d, e), Loc(m, e, loc))
  }

  /** No value that is read at a node neither tag nor multi is empty or ends in a blank. */
  ghost predicate NeatAt(sch: Schema, en: Entry, vals: map<string, Form>, q: Path)
  {
    && (sch(q) !in {Tag, Multi} ==> forall v :: v in vals ==> Trim(v))
    && forall v :: v in vals ==> Neat(sch, en.children, vals[v], q + [v])
  }

  ghost predicate Neat(sch: Schema, m: FieldMap, d: Form, loc: Path)
  {
    forall e :: e in m.entries && Readable(m.entries[e]) ==> NeatAt(sch, m.entries[e], ValuesOf(d, e), Loc(m, e, loc))
  }

  lemma StripTrim(v: string)
    ensures Trim(v) <==> StripRight(v) == v && v != ""
    ensures StripRight(v) != "" ==> Trim(StripRight(v))
  {
  }

  /** What is left of values are the texts of which they are, with blanks behind or without. */
  lemma TextsExactly(vals: set<string>, w: string)
    ensures w in Texts(vals) <==> Trim(w) && exists b :: Blanks(b) && w + b in vals
  {
    if w in Texts(vals) {
      var v :| v in vals && StripRight(v) == w;
      StripTrim(v);
      assert v == w + v[|w|..] && Blanks(v[|w|..]);
    }
    if b :| Trim(w) && Blanks(b) && w + b in vals { StripExactly(w, b); }
  }

  lemma TrimmedValues(sch: Schema, m: FieldMap, d: Form, loc: Path, e: string)
    requires Located(m, e)
    ensures ValuesOf(Trimmed(sch, m, d, loc), e) == TrimmedVals(sch, m.entries[e], ValuesOf(d, e), Loc(m, e, loc))
  {
    if e !in d.fields { assert TrimmedVals(sch, m.entries[e], map[], Loc(m, e, loc)) == map[]; }
  }

  /** A value that stripping leaves is in the form as it is, if all there are of that kind. */
  lemma SourceSelf(vals: map<string, Form>, w: string)
    requires w in Texts(vals.Keys) && forall v :: v in vals ==> Trim(v)
    ensures Source(vals, w) == w && w in vals
  {
    StripTrim(Source(vals, w));
  }

  lemma NeatTexts(vals: set<string>)
    requires forall v :: v in vals ==> Trim(v)
    ensures Texts(vals) == vals
  {
    forall v | v in vals ensures StripRight(v) == v && v in Texts(vals) { StripTrim(v); }
    forall w | w in Texts(vals) ensures w in vals {
      var v :| v in vals && StripRight(v) == w;
    }
  }

  lemma {:induction false} TrimmedNeat(sch: Schema, m: FieldMap, d: Form, loc: Path)
    ensures Neat(sch, m, Trimmed(sch, m, d, loc), loc)
    decreases m
  {
    var t := Trimmed(sch, m, d, loc);
    forall e | e in m.entries && Readable(m.entries[e])
      ensures NeatAt(sch, m.entries[e], ValuesOf(t, e), Loc(m, e, loc))
    {
      TrimmedValues(sch, m, d, loc, e);
      TrimmedNeatAt(sch, m.entries[e], ValuesOf(d, e), Loc(m, e, loc));
    }
  }

  lemma {:induction false} TrimmedNeatAt(sch: Schema, en: Entry, vals: map<string, Form>, q: Path)
    ensures NeatAt(sch, en, TrimmedVals(sch, en, vals, q), q)
    decreases en
  {
    var t := TrimmedVals(sch, en, vals, q);
    forall w | w in t ensures (sch(q) !in {Tag, Multi} ==> Trim(w)) && Neat(sch, en.children, t[w], q + [w]) {
      if sch(q) in {Tag, Multi} {
        TrimmedNeat(sch, en.children, vals[w], q + [w]);
      } else {
        StripTrim(Source(vals, w));
        TrimmedNeat(sch, en.children, vals[Source(vals, w)], q + [w]);
      }
    }
  }

  /** Stripping changes nothing that the map shows of a neat form. */
  lemma {:induction false} NeatTrimmed(sch: Schema, m: FieldMap, d: Form, loc: Path)
    requires Neat(sch, m, d, loc)
    ensures Canon(m, Trimmed(sch, m, d, loc)) == Canon(m, d)
    decreases m
  {
    var t := Trimmed(sch, m, d, loc);
    forall e | e in m.entries && Readable(m.entries[e])
      ensures CanonEntry(m.entries[e], ValuesOf(t, e)) == CanonEntry(m.entries[e], ValuesOf(d, e))
    {
      TrimmedValues(sch, m, d, loc, e);
      NeatTrimmedAt(sch, m.entries[e], ValuesOf(d, e), Loc(m, e, loc));
    }
  }

  /** Neat values keep their texts, and each its own form. */
  lemma NeatVals(sch: Schema, en: Entry, vals: map<string, Form>, q: Path)
    requires sch(q) !in {Tag, Multi} ==> forall v :: v in vals ==> Trim(v)
    ensures var t := TrimmedVals(sch, en, vals, q);
            t.Keys == vals.Keys && forall v :: v in vals ==> t[v] == Trimmed(sch, en.children, vals[v], q + [v])
  {
    if sch(q) !in {Tag, Multi} {
      NeatTexts(vals.Keys);
      forall v | v in vals ensures Source(vals, v) == v { SourceSelf(vals, v); }
    }
  }

  lemma {:induction false} NeatTrimmedAt(sch: Schema, en: Entry, vals: map<string, Form>, q: Path)
    requires NeatAt(sch, en, vals, q)
    ensures CanonEntry(en, TrimmedVals(sch, en, vals, q)) == CanonEntry(en, vals)
    decreases en
  {
    var t := TrimmedVals(sch, en, vals, q);
    NeatVals(sch, en, vals, q);
    forall v | v in vals ensures Canon(en.children, t[v]) == Canon(en.children, vals[v]) {
      NeatTrimmed(sch, en.children, vals[v], q + [v]);
    }
  }

  lemma {:induction false} CanonNeat(sch: Schema, m: FieldMap, d: Form, loc: Path)
    requires Neat(sch, m, Canon(m, d), loc)
    ensures Neat(sch, m, d, loc)
    decreases m
  {
    forall e | e in m.entries && Readable(m.entries[e])
      ensures NeatAt(sch, m.entries[e], ValuesOf(d, e), Loc(m, e, loc))
    {
      CanonNeatAt(sch, m, d, loc, e);
    }
  }

  lemma {:induction false} CanonNeatAt(sch: Schema, m: FieldMap, d: Form, loc: Path, e: string)
    requires Neat(sch, m, Canon(m, d), loc) && e in m.entries && Readable(m.entries[e])
    ensures NeatAt(sch, m.entries[e], ValuesOf(d, e), Loc(m, e, loc))
    decreases m, 0
  {
    var en, q, vals, shown := m.entries[e], Loc(m, e, loc), ValuesOf(d, e), CanonEntry(m.entries[e], ValuesOf(d, e));
    assert ValuesOf(Canon(m, d), e) == shown && NeatAt(sch, en, shown, q);
    forall v | v in vals ensures Neat(sch, en.children, vals[v], q + [v]) && (sch(q) !in {Tag, Multi} ==> Trim(v)) {
      assert v in shown && shown[v] == Canon(en.children, vals[v]);
      CanonNeat(sch, en.children, vals[v], q + [v]);
    }
  }

  lemma {:induction false} TrimmedFits(sch: Schema, m: FieldMap, d: Form, loc: Path)
    requires Fits(sch, m, d, loc)
    ensures FormFits(sch, m, Trimmed(sch, m, d, loc), loc)
    decreases m
  {
    var t := Trimmed(sch, m, d, loc);
    forall e | Located(m, e) ensures FormFitsAt(sch, m.entries[e], ValuesOf(t, e), Loc(m, e, loc)) {
      TrimmedValues(sch, m, d, loc, e);
      TrimmedFitsAt(sch, m.entries[e], ValuesOf(d, e), Loc(m, e, loc));
    }
  }

  lemma {:induction false} TrimmedFitsAt(sch: Schema, en: Entry, vals: map<string, Form>, q: Path)
    requires FitsAt(sch, en, vals, q)
    ensures FormFitsAt(sch, en, TrimmedVals(sch, en, vals, q), q)
    decreases en
  {
    var t := TrimmedVals(sch, en, vals, q);
    forall w | w in t ensures FormFits(sch, en.children, t[w], q + [w]) {
      var v := if sch(q) in {Tag, Multi} then w else Source(vals, w);
      TrimmedFits(sch, en.children, vals[v], q + [w]);
    }
    if sch(q) !in {Tag, Multi} {
      forall w, w' | w in t && w' in t ensures w == w' {
        assert StripRight(Source(vals, w)) == StripRight(Source(vals, w'));
      }
      if sch(q) == Container { assert Texts(vals.Keys) == {}; }
    }
  }

  // ------------------------------------------------------------------ PutGet

  /** After a write, the values at a mapped location are those left of the form whose node is not cleared again. */
  lemma PutValues(sch: Schema, c: set<Path>, m: FieldMap, d: Form, loc: Path, e: string, v: string)
    requires PrefixFree(m) && Located(m, e)
    ensures var q := Loc(m, e, loc); var left := TrimmedVals(sch, m.entries[e], ValuesOf(d, e), q);
            && (v in Values(Put(sch, c, m, d, loc), q) <==>
                  v in left && !Clears(sch, m.entries[e].children, left[v], q + [v]))
            && (v in left <==> if sch(q) in {Tag, Multi} then v in ValuesOf(d, e)
                               else Trim(v) && exists b :: Blanks(b) && v + b in ValuesOf(d, e))
  {
    TrimmedValues(sch, m, d, loc, e);
    TextsExactly(ValuesOf(d, e).Keys, v);
    StoreValues(sch, c, m, Trimmed(sch, m, d, loc), loc, e, v);
  }

  /** Storing neat values makes neat values to read. */
  lemma {:induction false} ReadNeat(sch: Schema, c: set<Path>, m: FieldMap, d: Form, loc: Path)
    requires WellMapped(sch, m, loc) && Neat(sch, m, d, loc)
    ensures Neat(sch, m, Get(sch, Store(sch, c, m, d, loc), m, loc), loc)
    decreases m, 1
  {
    var got := Get(sch, Store(sch, c, m, d, loc), m, loc);
    forall e | e in m.entries && Readable(m.entries[e])
      ensures NeatAt(sch, m.entries[e], ValuesOf(got, e), Loc(m, e, loc))
    {
      ReadNeatAt(sch, c, m, d, loc, e);
    }
  }

  lemma {:induction false} ReadNeatAt(sch: Schema, c: set<Path>, m: FieldMap, d: Form, loc: Path, e: string)
    requires WellMapped(sch, m, loc) && Neat(sch, m, d, loc) && e in m.entries && Readable(m.entries[e])
    ensures NeatAt(sch, m.entries[e], ValuesOf(Get(sch, Store(sch, c, m, d, loc), m, loc), e), Loc(m, e, loc))
    decreases m, 0
  {
    var r, en, q, vals := Store(sch, c, m, d, loc), m.entries[e], Loc(m, e, loc), ValuesOf(d, e);
    var got := GetEntry(sch, r, en, loc);
    GetValuesOf(sch, r, m, loc, e);
    assert NeatAt(sch, en, vals, q);
    forall v | v in got ensures (sch(q) !in {Tag, Multi} ==> Trim(v)) && Neat(sch, en.children, got[v], q + [v]) {
      StoreValues(sch, c, m, d, loc, e, v);
      ReadNeatBelow(sch, c, m, d, loc, e, v);
    }
  }

  lemma {:induction false} ReadNeatBelow(sch: Schema, c: set<Path>, m: FieldMap, d: Form, loc: Path,
                                         e: string, v: string)
    requires WellMapped(sch, m, loc) && Located(m, e) && v in ValuesOf(d, e)
    requires Neat(sch, m.entries[e].children, ValuesOf(d, e)[v], Loc(m, e, loc) + [v])
    ensures var q := Loc(m, e, loc) + [v];
            Neat(sch, m.entries[e].children, Get(sch, Store(sch, c, m, d, loc), m.entries[e].children, q), q)
    decreases m, 0, 0
  {
    var en, q := m.entries[e], Loc(m, e, loc) + [v];
    var r, r' := Store(sch, c, m, d, loc), Store(sch, c, en.children, ValuesOf(d, e)[v], q);
    forall p | q <= p && |q| < |p| ensures p in r <==> p in r' { StoreBelow(sch, c, m, d, loc, e, v, p); }
    GetLocal(sch, r, r', en.children, q);
    ReadNeat(sch, c, en.children, ValuesOf(d, e)[v], q);
  }

  /**
   Reading back a written form gives exactly that form, at every depth, if and only if no
   single value in it is empty or ends in a blank, and no value is cleared again by an
   element below it with an empty location.
   */
  lemma PutGet(sch: Schema, c: set<Path>, m: FieldMap, d: Form, loc: Path)
    requires WellMapped(sch, m, loc) && Fits(sch, m, d, loc)
    ensures Get(sch, Put(sch, c, m, d, loc), m, loc) == Canon(m, d) <==>
            Neat(sch, m, d, loc) && Survives(sch, m, Trimmed(sch, m, d, loc), loc)
  {
    var t := Trimmed(sch, m, d, loc);
    TrimmedFits(sch, m, d, loc);
    StoreGet(sch, c, m, t, loc);
    if Neat(sch, m, d, loc) { NeatTrimmed(sch, m, d, loc); }
    if Get(sch, Put(sch, c, m, d, loc), m, loc) == Canon(m, d) {
      TrimmedNeat(sch, m, d, loc);
      ReadNeat(sch, c, m, t, loc);
      CanonNeat(sch, m, d, loc);
    }
  }

  // ------------------------------------------------------------------ GetPut

  /** Stripping changes nothing at all in a neat form just read. */
  lemma {:induction false} TrimmedGet(sch: Schema, c: set<Path>, m: FieldMap, loc: Path)
    requires Neat(sch, m, Get(sch, c, m, loc), loc)
    ensures Trimmed(sch, m, Get(sch, c, m, loc), loc) == Get(sch, c, m, loc)
    decreases m
  {
    var d := Get(sch, c, m, loc);
    forall e | e in d.fields ensures TrimmedVals(sch, m.entries[e], d.fields[e], Loc(m, e, loc)) == d.fields[e] {
      GetValuesOf(sch, c, m, loc, e);
      assert NeatAt(sch, m.entries[e], ValuesOf(d, e), Loc(m, e, loc));
      TrimmedGetEntry(sch, c, m.entries[e], loc);
    }
  }

  lemma {:induction false} TrimmedGetEntry(sch: Schema, c: set<Path>, en: Entry, loc: Path)
    requires en.location.Some? && NeatAt(sch, en, GetEntry(sch, c, en, loc), loc + en.location.value)
    ensures TrimmedVals(sch, en, GetEntry(sch, c, en, loc), loc + en.location.value) == GetEntry(sch, c, en, loc)
    decreases en
  {
    var q, vals := loc + en.location.value, GetEntry(sch, c, en, loc);
    var t := TrimmedVals(sch, en, vals, q);
    NeatVals(sch, en, vals, q);
    forall v | v in vals ensures t[v] == vals[v] {
      TrimmedGet(sch, c, en.children, q + [v]);
    }
  }

  /** A single value that is read and not neat is lost by writing it back. */
  lemma {:induction false} BlankIsLost(sch: Schema, c: set<Path>, m: FieldMap, loc: Path) returns (p: Path)
    requires WellMapped(sch, m, loc) && Closed(c) && !Neat(sch, m, Get(sch, c, m, loc), loc)
    ensures loc <= p && |loc| < |p| && p in c && p !in Put(sch, c, m, Get(sch, c, m, loc), loc)
    decreases m, 1
  {
    var d := Get(sch, c, m, loc);
    var e :| e in m.entries && Readable(m.entries[e]) && !NeatAt(sch, m.entries[e], ValuesOf(d, e), Loc(m, e, loc));
    p := BlankIsLostAt(sch, c, m, loc, e);
  }

  lemma {:induction false} BlankIsLostAt(sch: Schema, c: set<Path>, m: FieldMap, loc: Path, e: string) returns (p: Path)
    requires WellMapped(sch, m, loc) && Closed(c) && e in m.entries && Readable(m.entries[e])
    requires !NeatAt(sch, m.entries[e], ValuesOf(Get(sch, c, m, loc), e), Loc(m, e, loc))
    ensures loc <= p && |loc| < |p| && p in c && p !in Put(sch, c, m, Get(sch, c, m, loc), loc)
    decreases m, 0
  {
    var en, q, d := m.entries[e], Loc(m, e, loc), Get(sch, c, m, loc);
    var vals := GetEntry(sch, c, en, loc);
    GetValuesOf(sch, c, m, loc, e);
    if v :| sch(q) !in {Tag, Multi} && v in vals && !Trim(v) {
      ClosedValues(c, q, v);
      p := q + [v];
      NotNeatLost(sch, c, m, d, loc, e, v);
    } else {
      var v :| v in vals && !Neat(sch, en.children, vals[v], q + [v]);
      p := BlankIsLost(sch, c, en.children, q + [v]);
      NeatLostBelow(sch, c, m, loc, e, v, p);
    }
  }

  lemma NotNeatLost(sch: Schema, c: set<Path>, m: FieldMap, d: Form, loc: Path, e: string, v: string)
    requires PrefixFree(m) && Located(m, e) && sch(Loc(m, e, loc)) !in {Tag, Multi} && !Trim(v)
    ensures Loc(m, e, loc) + [v] !in Put(sch, c, m, d, loc)
  {
    var q, t := Loc(m, e, loc), Trimmed(sch, m, d, loc);
    TrimmedValues(sch, m, d, loc, e);
    if v in ValuesOf(t, e) { StripTrim(Source(ValuesOf(d, e), v)); }
    NoneUnder(sch, c, m, t, loc, e, v, q + [v]);
  }

  lemma {:induction false} NeatLostBelow(sch: Schema, c: set<Path>, m: FieldMap, loc: Path,
                                         e: string, v: string, p: Path)
    requires WellMapped(sch, m, loc) && Located(m, e) && v in GetEntry(sch, c, m.entries[e], loc)
    requires sch(Loc(m, e, loc)) !in {Tag, Multi} ==> forall w :: w in GetEntry(sch, c, m.entries[e], loc) ==> Trim(w)
    requires var q := Loc(m, e, loc) + [v];
             && q <= p && |q| < |p|
             && p !in Put(sch, c, m.entries[e].children, Get(sch, c, m.entries[e].children, q), q)
    ensures loc <= p && |loc| < |p| && p !in Put(sch, c, m, Get(sch, c, m, loc), loc)
  {
    var en, q, d := m.entries[e], Loc(m, e, loc), Get(sch, c, m, loc);
    var vals, t := GetEntry(sch, c, en, loc), Trimmed(sch, m, d, loc);
    GetValuesOf(sch, c, m, loc, e);
    TrimmedValues(sch, m, d, loc, e);
    NeatVals(sch, en, vals, q);
    assert ValuesOf(t, e)[v] == Trimmed(sch, en.children, Get(sch, c, en.children, q + [v]), q + [v]);
    StoreBelow(sch, c, m, t, loc, e, v, p);
  }

  /**
   Writing back the form just read leaves the configuration unchanged if and only if no
   mapped node is there without a value that is read, and no single value that is read is
   empty or ends in a blank.
   */
  lemma GetPut(sch: Schema, c: set<Path>, m: FieldMap, loc: Path)
    requires WellMapped(sch, m, loc) && Closed(c)
    ensures Put(sch, c, m, Get(sch, c, m, loc), loc) == c <==>
            NoBare(sch, c, m, loc) && Neat(sch, m, Get(sch, c, m, loc), loc)
  {
    if Neat(sch, m, Get(sch, c, m, loc), loc) {
      TrimmedGet(sch, c, m, loc);
      GetStore(sch, c, m, loc);
    } else {
      var p := BlankIsLost(sch, c, m, loc);
    }
  }

  // ------------------------------------------------------------------ frame

  /**
   The frame of a write: a path disappears only below a value that is not left of the form
   at a mapped location (or with a node emptied), and appears only as part of a value that
   is left of it.
   */
  lemma PutFrame(sch: Schema, c: set<Path>, m: FieldMap, d: Form, loc: Path, p: Path)
    ensures p in c && p !in Put(sch, c, m, d, loc) ==>
            exists q, vals :: Governs(m, Trimmed(sch, m, d, loc), loc, q, vals) && q <= p &&
              if |p| == |q| then sch(q) !in {Tag, Multi} && vals == map[] else p[|q|] !in vals
    ensures p !in c && p in Put(sch, c, m, d, loc) ==>
            exists q, vals, v :: Governs(m, Trimmed(sch, m, d, loc), loc, q, vals) && v in vals && p <= q + [v]
  {
    StoreFrame(sch, c, m, Trimmed(sch, m, d, loc), loc, p);
  }

  lemma PutClosed(sch: Schema, c: set<Path>, m: FieldMap, d: Form, loc: Path)
    requires Closed(c)
    ensures Closed(Put(sch, c, m, d, loc))
  {
    StoreClosed(sch, c, m, Trimmed(sch, m, d, loc), loc);
  }

  // ------------------------------------------------------------------ what is lost

  /** One element mapped to a location, with nothing below it. */
  function OneField(e: string, loc: Path): FieldMap
  {
    FieldMap(map[e := Entry(Some(loc), FieldMap(map[]))])
  }

  /** One value of one element. */
  function OneValueForm(e: string, v: string): Form
  {
    Form(map[e := map[v := NO_FORM]])
  }

  lemma OneFieldFits(sch: Schema, e: string, q: Path, loc: Path)
    requires loc + q != []
    ensures WellMapped(sch, OneField(e, q), loc)
  {
    var m := OneField(e, q);
    forall f | Located(m, f) ensures Loc(m, f, loc) != [] && m.entries[f].children == FieldMap(map[]) {}
    assert forall l :: WellMapped(sch, FieldMap(map[]), l);
  }

  lemma OneFieldOnly(e: string, q: Path, f: string)
    ensures Located(OneField(e, q), f) <==> f == e
    ensures Loc(OneField(e, q), e, []) == q
  {
    assert [] + q == q;
  }

  lemma StoreNothing(sch: Schema, c: set<Path>, q: Path, t: Form)
    requires q != [] && sch(q) !in {Tag, Multi} && ValuesOf(t, "f") == map[]
    ensures forall p :: p in Store(sch, c, OneField("f", q), t, []) <==> p in c && !(q <= p)
  {
    var m := OneField("f", q);
    assert [] + q == q;
    assert AddedBy(sch, m.entries["f"], ValuesOf(t, "f"), []) == {};
    forall p ensures Removed(sch, m, t, [], p) <==> q <= p {
      assert RemovedBy(sch, m.entries["f"], ValuesOf(t, "f"), [], p) <==> q <= p;
    }
  }

  /** Writing no value to a node that is neither tag nor multi deletes it with all below it and nothing else. */
  lemma NothingWritten(sch: Schema, c: set<Path>, q: Path, d: Form)
    requires q != [] && sch(q) !in {Tag, Multi} && Texts(ValuesOf(d, "f").Keys) == {}
    ensures forall p :: p in Put(sch, c, OneField("f", q), d, []) <==> p in c && !(q <= p)
  {
    var m := OneField("f", q);
    OneFieldOnly("f", q, "f");
    TrimmedValues(sch, m, d, [], "f");
    StoreNothing(sch, c, q, Trimmed(sch, m, d, []));
  }

  /** A mapped node without a type reads as empty, and writing that back deletes it with all below it. */
  lemma TypelessIsLost(sch: Schema, c: set<Path>, q: Path)
    requires Closed(c) && q in c && q != [] && sch(q) == Container
    ensures var m := OneField("f", q);
            && WellMapped(sch, m, []) && Get(sch, c, m, []) == Form(map["f" := map[]])
            && forall p :: p in Put(sch, c, m, Get(sch, c, m, []), []) <==> p in c && !(q <= p)
  {
    var m := OneField("f", q);
    assert [] + q == q;
    OneFieldFits(sch, "f", q, []);
    assert Readable(m.entries["f"]) && GetEntry(sch, c, m.entries["f"], []) == map[];
    NothingWritten(sch, c, q, Get(sch, c, m, []));
  }

  lemma OneValueFits(sch: Schema, q: Path, v: string)
    requires q != [] && sch(q) == Single
    ensures var m, d := OneField("f", q), OneValueForm("f", v);
            WellMapped(sch, m, []) && Fits(sch, m, d, []) && Survives(sch, m, d, [])
  {
    var m, d := OneField("f", q), OneValueForm("f", v);
    OneFieldFits(sch, "f", q, []);
    forall f | Located(m, f) ensures FitsAt(sch, m.entries[f], ValuesOf(d, f), Loc(m, f, [])) {
      OneFieldOnly("f", q, f);
    }
  }

  /** Nothing below a node is nothing to read. */
  lemma NothingRead(sch: Schema, r: set<Path>, q: Path)
    requires q != [] && forall p :: p in r ==> !(q <= p)
    ensures Get(sch, r, OneField("f", q), []) == Form(map["f" := map[]])
  {
    var m := OneField("f", q);
    OneFieldOnly("f", q, "f");
    assert Values(r, q) == {};
    assert Readable(m.entries["f"]) && GetEntry(sch, r, m.entries["f"], []) == map[];
  }

  /** An empty value for a single-valued node deletes the node, and nothing is read back. */
  lemma EmptyValueIsLost(sch: Schema, c: set<Path>, q: Path)
    requires q != [] && sch(q) == Single
    ensures var m, d := OneField("f", q), OneValueForm("f", "");
            && WellMapped(sch, m, []) && Fits(sch, m, d, []) && Survives(sch, m, d, [])
            && (forall p :: p in Put(sch, c, m, d, []) <==> p in c && !(q <= p))
            && Get(sch, Put(sch, c, m, d, []), m, []) == Form(map["f" := map[]])
  {
    var m, d := OneField("f", q), OneValueForm("f", "");
    OneValueFits(sch, q, "");
    assert Texts(ValuesOf(d, "f").Keys) == {};
    NothingWritten(sch, c, q, d);
    NothingRead(sch, Put(sch, c, m, d, []), q);
  }

  lemma BlankEndRead(sch: Schema, c: set<Path>, q: Path, v: string)
    requires Closed(c) && q != [] && sch(q) == Single && q + [v] in c
    ensures var m := OneField("f", q);
            && WellMapped(sch, m, []) && NoBare(sch, c, m, []) && v in ValuesOf(Get(sch, c, m, []), "f")
  {
    var m := OneField("f", q);
    OneFieldOnly("f", q, "f");
    OneFieldFits(sch, "f", q, []);
    ClosedValues(c, q, v);
    GetValuesOf(sch, c, m, [], "f");
    assert Readable(m.entries["f"]) && NoBareAt(sch, c, m.entries["f"], []);
    forall f | Located(m, f) ensures NoBareAt(sch, c, m.entries[f], []) { OneFieldOnly("f", q, f); }
  }

  lemma StrippedIsPut(sch: Schema, c: set<Path>, q: Path, d: Form, v: string)
    requires Closed(c) && q != [] && sch(q) == Single && v in ValuesOf(d, "f") && StripRight(v) != ""
    ensures q + [StripRight(v)] in Put(sch, c, OneField("f", q), d, [])
  {
    var m := OneField("f", q);
    OneFieldOnly("f", q, "f");
    OneFieldFits(sch, "f", q, []);
    PutValues(sch, c, m, d, [], "f", StripRight(v));
    PutClosed(sch, c, m, d, []);
    ClosedValues(Put(sch, c, m, d, []), q, StripRight(v));
  }

  /** A single value that ends in a blank is read, and writing it back puts the text before the blanks in its place. */
  lemma BlankEndIsLost(sch: Schema, c: set<Path>, q: Path, w: string, b: string)
    requires Closed(c) && q != [] && sch(q) == Single && q + [w + b] in c && Trim(w) && Blanks(b) && b != ""
    ensures var m := OneField("f", q); var r := Put(sch, c, m, Get(sch, c, m, []), []);
            && WellMapped(sch, m, []) && NoBare(sch, c, m, [])
            && q + [w + b] !in r && q + [w] in r
  {
    var v := w + b;
    StripExactly(w, b);
    assert v[|v| - 1] == b[|b| - 1];
    var m := OneField("f", q);
    var d := Get(sch, c, m, []);
    OneFieldOnly("f", q, "f");
    BlankEndRead(sch, c, q, v);
    NotNeatLost(sch, c, m, d, [], "f", v);
    StrippedIsPut(sch, c, q, d, v);
  }

  /**
   An element below a tag entry with an empty location: no field is shown for it, and
   writing back what was read deletes the entry with all below it.
   */
  lemma EmptyLocationIsLost(sch: Schema, c: set<Path>, q: Path, v: string)
    requires Closed(c) && q + [v] in c && q != [] && sch(q) == Tag && sch(q + [v]) == Container
    ensures var below := OneField("g", []);
            var m := FieldMap(map["f" := Entry(Some(q), below)]);
            && WellMapped(sch, m, []) && v in Read(sch, c, q) && Get(sch, c, below, q + [v]) == NO_FORM
            && forall p :: q + [v] <= p ==> p !in Put(sch, c, m, Get(sch, c, m, []), [])
  {
    var below := OneField("g", []);
    var m := FieldMap(map["f" := Entry(Some(q), below)]);
    var d, en := Get(sch, c, m, []), m.entries["f"];
    assert [] + q == q && Located(m, "f") && Loc(m, "f", []) == q && Readable(en);
    forall f | Located(m, f) ensures f == "f" && Loc(m, f, []) == q {}
    forall w ensures WellMapped(sch, below, q + [w]) { OneFieldFits(sch, "g", [], q + [w]); }
    ClosedValues(c, q, v);
    GetValuesOf(sch, c, m, [], "f");
    TrimmedValues(sch, m, d, [], "f");
    var t := Trimmed(sch, m, d, []);
    assert ValuesOf(d, "f")[v] == Get(sch, c, below, q + [v]) == NO_FORM;
    assert ValuesOf(t, "f")[v] == Trimmed(sch, below, NO_FORM, q + [v]) == NO_FORM;
    assert "g" in below.entries && below.entries["g"].location == Some([]) && ValuesOf(NO_FORM, "g") == map[];
    forall p | q + [v] <= p ensures p !in Put(sch, c, m, d, []) { NoneUnder(sch, c, m, t, [], "f", v, p); }
  }
}
