/**
 The form/configuration reconciler of `App::MsgSimple`: what `_get_elem` reads and
 what `_set_elem` leaves behind, as functions on values, with the laws that relate
 them.  `MsgSimple` proves the in-place subs against these functions.
 */
module Reconcile {
  import opened Text
  import opened Config

  /** The location map built by `App::MapSimple`: element name to location and nested elements. */
  datatype FieldMap = FieldMap(entries: map<string, Entry>)
  datatype Entry = Entry(location: Option<Path>, children: FieldMap)

  /** The nested form: element name to its `_values`, each value to the form below it. */
  datatype Form = Form(fields: map<string, map<string, Form>>)

  const NO_FORM := Form(map[])

  function ValuesOf(d: Form, e: string): map<string, Form>
  {
    if e in d.fields then d.fields[e] else map[]
  }

  predicate Located(m: FieldMap, e: string)
  {
    e in m.entries && m.entries[e].location.Some?
  }

  function Loc(m: FieldMap, e: string, loc: Path): Path
    requires Located(m, e)
  {
    loc + m.entries[e].location.value
  }

  // ------------------------------------------------------------------ reading

  /** `_get_elem` passes over an empty location, which `_set_elem` does not. */
  predicate Readable(en: Entry)
  {
    en.location.Some? && en.location.value != []
  }

  /** What `_get_values` finds at a node: a node without a type has no values. */
  function Read(sch: Schema, c: set<Path>, q: Path): set<string>
  {
    if sch(q) == Container then {} else Values(c, q)
  }

  function Shown(sch: Schema, c: set<Path>, en: Entry, loc: Path): set<string>
    requires en.location.Some?
  {
    if Readable(en) then Read(sch, c, loc + en.location.value) else {}
  }

  function Get(sch: Schema, c: set<Path>, m: FieldMap, loc: Path): Form
  {
    Form(map e | e in m.entries && Readable(m.entries[e]) :: GetEntry(sch, c, m.entries[e], loc))
  }

  function GetEntry(sch: Schema, c: set<Path>, en: Entry, loc: Path): map<string, Form>
    requires en.location.Some?
  {
    map v | v in Shown(sch, c, en, loc) :: Get(sch, c, en.children, loc + en.location.value + [v])
  }

  // ------------------------------------------------------------------ writing

  /** Path `p` is swept away by writing `d` through `m` at `loc`. */
  predicate Removed(sch: Schema, m: FieldMap, d: Form, loc: Path, p: Path)
  {
    exists e :: e in m.entries && RemovedBy(sch, m.entries[e], ValuesOf(d, e), loc, p)
  }

  predicate RemovedBy(sch: Schema, en: Entry, vals: map<string, Form>, loc: Path, p: Path)
  {
    en.location.Some? &&
    var q := loc + en.location.value;
    q <= p &&
    if |p| == |q| then sch(q) !in {Tag, Multi} && vals == map[]
    else p[|q|] !in vals || Removed(sch, en.children, vals[p[|q|]], q + [p[|q|]], p)
  }

  function Added(sch: Schema, m: FieldMap, d: Form, loc: Path): set<Path>
    decreases m, 0
  {
    set e, p | e in m.entries && p in AddedBy(sch, m.entries[e], ValuesOf(d, e), loc) :: p
  }

  function AddedBy(sch: Schema, en: Entry, vals: map<string, Form>, loc: Path): set<Path>
    decreases en
  {
    if en.location.None? then {}
    else
      var q := loc + en.location.value;
      set v, p | v in vals && p in Kept(sch, en.children, vals[v], q + [v]) :: p
  }

  /** An element with an empty location and no value: the node at `loc` itself is deleted. */
  predicate Clears(sch: Schema, m: FieldMap, d: Form, loc: Path)
  {
    sch(loc) !in {Tag, Multi} &&
    exists e :: e in m.entries && m.entries[e].location == Some([]) && ValuesOf(d, e) == map[]
  }

  /** The node `q` itself with all its ancestors, and whatever the form wants below it. */
  function Kept(sch: Schema, m: FieldMap, d: Form, q: Path): set<Path>
    decreases m, 1
  {
    if Clears(sch, m, d, q) then Prefixes(q) - {q} else Prefixes(q) + Added(sch, m, d, q)
  }

  /** The configuration after storing `d` through `m` at `loc`, its values as they stand. */
  function Store(sch: Schema, c: set<Path>, m: FieldMap, d: Form, loc: Path): set<Path>
  {
    (set p | p in c && !Removed(sch, m, d, loc, p)) + Added(sch, m, d, loc)
  }

  // ------------------------------------------------------------------ stripping

  /** What a node that is neither tag nor multi takes of its values: blanks at the end go, and nothing is no value. */
  function Texts(vals: set<string>): set<string>
  {
    set v | v in vals && StripRight(v) != "" :: StripRight(v)
  }

  /** The value of which `w` is left. */
  ghost function Source(vals: map<string, Form>, w: string): (v: string)
    requires w in Texts(vals.Keys)
    ensures v in vals && StripRight(v) == w
  {
    var v :| v in vals && StripRight(v) == w;
    v
  }

  ghost function TrimmedVals(sch: Schema, en: Entry, vals: map<string, Form>, q: Path): map<string, Form>
    decreases en
  {
    if sch(q) in {Tag, Multi} then map v | v in vals :: Trimmed(sch, en.children, vals[v], q + [v])
    else map w | w in Texts(vals.Keys) :: Trimmed(sch, en.children, vals[Source(vals, w)], q + [w])
  }

  /** The form as `_set_elem` takes it. */
  ghost function Trimmed(sch: Schema, m: FieldMap, d: Form, loc: Path): Form
    decreases m
  {
    Form(map e | e in d.fields ::
           if Located(m, e) then TrimmedVals(sch, m.entries[e], d.fields[e], Loc(m, e, loc)) else d.fields[e])
  }

  /** The configuration after writing `d` through `m` at `loc`. */
  ghost function Put(sch: Schema, c: set<Path>, m: FieldMap, d: Form, loc: Path): set<Path>
  {
    Store(sch, c, m, Trimmed(sch, m, d, loc), loc)
  }
}
