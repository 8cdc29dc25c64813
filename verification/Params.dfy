/**
 Edited parameter trees of `App::Param`: the walk of `MsgParser::iterateParams`, the
 commands of `Param::Base::getConfigCommands`, and the configurations that the old
 and the new values of a tree stand for.
 */
module Params {
  import opened Text
  import opened Config

  datatype Status = Unchanged | Changed | New | Deleted

  /**
   `present` says whether a typeless or tag node is in the old configuration; the
   presence of the other kinds follows from their values and their status.
   */
  datatype Param =
    | Leaf(rel: Path, value: Option<string>, newValue: Option<string>, status: Status)
    | MultiLeaf(rel: Path, values: seq<string>, newValues: Option<seq<string>>, status: Status)
    | Typeless(rel: Path, present: bool, status: Status, children: seq<Param>)
    | TagNode(rel: Path, present: bool, status: Status, children: seq<Param>)
    | TagEntry(name: string, newName: Option<string>, status: Status, children: seq<Param>)

  /** The name that `getMappedPath` puts into every path: the new one if there is one. */
  function Name(p: Param): string
    requires p.TagEntry?
  {
    if p.newName.Some? then p.newName.value else p.name
  }

  function MappedPath(p: Param, parent: Path): Path
  {
    parent + if p.TagEntry? then [Name(p)] else p.rel
  }

  /** A node with a subtree: children, or the entries of a tag node. */
  predicate Inner(p: Param)
  {
    !p.Leaf? && !p.MultiLeaf?
  }

  // ------------------------------------------------------------------ walk and commands

  datatype Located = Located(parent: Path, param: Param)

  /** `_recursiveWalk`: the node before its subtree, nothing below a deleted node. */
  function Walk(p: Param, parent: Path): seq<Located>
    decreases p, 1
  {
    [Located(parent, p)] +
    if p.status == Deleted || !Inner(p) then [] else WalkAll(p.children, MappedPath(p, parent))
  }

  function WalkAll(ps: seq<Param>, parent: Path): seq<Located>
    decreases ps, 0
  {
    if ps == [] then [] else Walk(ps[0], parent) + WalkAll(ps[1..], parent)
  }

  function SetAll(path: Path, vals: seq<string>): seq<Command>
  {
    if vals == [] then [] else [Set(path + [vals[0]])] + SetAll(path, vals[1..])
  }

  /** `getConfigCommands` of one node. */
  function Commands(l: Located): seq<Command>
  {
    var p, path := l.param, MappedPath(l.param, l.parent);
    if p.status == Unchanged then []
    else if p.status == Deleted then [Delete(path)]
    else
      match p
      case Typeless(_, _, status, _) => if status == New then [Set(path)] else []
      case TagEntry(name, newName, status, _) =>
        if status == New then [Set(path)]
        else if newName.None? then []
        else [Move(l.parent, name, newName.value)]
      case MultiLeaf(_, _, newValues, _) =>
        if newValues.None? then [] else [Delete(path)] + SetAll(path, newValues.value)
      case Leaf(_, _, newValue, _) =>
        if newValue.None? then [] else [Set(path + [newValue.value])]
      case TagNode(_, _, _, _) => []
  }

  function AllCommands(ls: seq<Located>): seq<Command>
  {
    if ls == [] then [] else Commands(ls[0]) + AllCommands(ls[1..])
  }

  // ------------------------------------------------------------------ what a tree stands for

  function Node(path: Path, here: bool, below: set<Path>): set<Path>
  {
    (if here then {path} else {}) + below
  }

  function ValueNodes(path: Path, vals: seq<string>): set<Path>
  {
    if vals == [] then {} else {path} + set v | v in vals :: path + [v]
  }

  function AsValues(v: Option<string>): seq<string>
  {
    if v.Some? then [v.value] else []
  }

  function UpClosure(s: set<Path>): set<Path>
  {
    set p, q | p in s && q in Prefixes(p) :: q
  }

  /** The paths of `s` that lie strictly below `path`, and the nodes on the way to them. */
  function Below(s: set<Path>, path: Path): set<Path>
  {
    set q | q in UpClosure(s) && path <= q && q != path
  }

  /** The paths of the old values of `p`, below `parent`. */
  function Old(p: Param, parent: Path): set<Path>
    decreases p, 1
  {
    match p
    case Leaf(rel, value, _, _) => ValueNodes(parent + rel, AsValues(value))
    case MultiLeaf(rel, values, _, _) => ValueNodes(parent + rel, values)
    case Typeless(rel, present, _, children) => Node(parent + rel, present, OldBelow(children, parent + rel))
    case TagNode(rel, present, _, children) => Node(parent + rel, present, OldBelow(children, parent + rel))
    case TagEntry(name, _, status, children) =>
      if status == New then {} else Node(parent + [name], true, OldBelow(children, parent + [name]))
  }

  function OldAll(ps: seq<Param>, parent: Path): set<Path>
    decreases ps, 0
  {
    if ps == [] then {} else Old(ps[0], parent) + OldAll(ps[1..], parent)
  }

  /** The old values with the nodes between `parent` and them: a relative path may have several words. */
  function OldBelow(ps: seq<Param>, parent: Path): set<Path>
    decreases ps, 1
  {
    Below(OldAll(ps, parent), parent)
  }

  /** The old nodes between `parent` and its parameters, which no command deletes. */
  function Between(ps: seq<Param>, parent: Path): set<Path>
    decreases ps, 2
  {
    set q | q in OldBelow(ps, parent) && !InRegions(ps, parent, q)
  }

  /** The paths of the new values of `p`, below `parent`, under new names. */
  function Now(p: Param, parent: Path): set<Path>
    decreases p, 1
  {
    if p.status == Deleted then {}
    else
      var path := MappedPath(p, parent);
      match p
      case Leaf(_, value, newValue, status) =>
        ValueNodes(path, AsValues(if status != Unchanged && newValue.Some? then newValue else value))
      case MultiLeaf(_, values, newValues, status) =>
        ValueNodes(path, if status != Unchanged && newValues.Some? then newValues.value else values)
      case Typeless(_, present, status, children) =>
        var below := NowBelow(children, path);
        Node(path, present || status == New || below != {}, below)
      case TagNode(_, present, _, children) =>
        var below := NowBelow(children, path);
        Node(path, present || below != {}, below)
      case TagEntry(_, _, _, children) => Node(path, true, NowBelow(children, path))
  }

  function NowAll(ps: seq<Param>, parent: Path): set<Path>
    decreases ps, 0
  {
    if ps == [] then {} else Now(ps[0], parent) + NowAll(ps[1..], parent)
  }

  function NowBelow(ps: seq<Param>, parent: Path): set<Path>
    decreases ps, 3
  {
    NowAll(ps, parent) + Between(ps, parent)
  }

  // ------------------------------------------------------------------ well-formed edits

  /** The places a node speaks about: its own, and for a renamed tag entry the old one too. */
  function Heads(p: Param): set<Path>
  {
    if p.TagEntry? then {[p.name], [Name(p)]} else {p.rel}
  }

  predicate Apart(p: Param, q: Param)
  {
    forall a, b :: a in Heads(p) && b in Heads(q) ==> !Comparable(a, b)
  }

  /**
   The templates agree with the kinds, siblings (with their old and new names) do not
   collide, and nothing old hangs below a node that was not there.
   */
  predicate WellFormed(sch: Schema, p: Param, parent: Path)
    decreases p, 1
  {
    var path := MappedPath(p, parent);
    && (p.TagEntry? || p.rel != [])
    && (Inner(p) ==> WellFormedAll(sch, p.children, path))
    && match p
       case Leaf(_, _, _, _) => sch(path) == Single
       case MultiLeaf(_, _, _, _) => sch(path) != Single
       case Typeless(_, present, _, children) =>
         sch(path[..|path| - 1]) != Single && (present || OldAll(children, path) == {})
       case TagNode(_, present, _, children) => present || OldAll(children, path) == {}
       case TagEntry(_, _, status, children) =>
         && sch(parent) != Single
         && (status == New ==> OldAll(children, path) == {})
  }

  predicate WellFormedAll(sch: Schema, ps: seq<Param>, parent: Path)
    decreases ps, 0
  {
    ps == [] ||
    (&& WellFormed(sch, ps[0], parent)
     && WellFormedAll(sch, ps[1..], parent)
     && forall p :: p in ps[1..] ==> Apart(ps[0], p))
  }

  /** An entry that is neither new nor renamed carries no other name than its own, so far as the walk goes. */
  predicate Settled(p: Param)
    decreases p, 1
  {
    && (p.TagEntry? && p.status in {Unchanged, Deleted} ==> Name(p) == p.name)
    && (Inner(p) && p.status != Deleted ==> SettledAll(p.children))
  }

  predicate SettledAll(ps: seq<Param>)
    decreases ps, 0
  {
    ps == [] || (Settled(ps[0]) && SettledAll(ps[1..]))
  }

  /** The node, its old place and everything below them. */
  predicate InRegion(p: Param, parent: Path, q: Path)
  {
    if p.TagEntry? then parent + [p.name] <= q || parent + [Name(p)] <= q else parent + p.rel <= q
  }

  predicate InRegions(ps: seq<Param>, parent: Path, q: Path)
  {
    exists p :: p in ps && InRegion(p, parent, q)
  }

  /** The configuration after an edit: nothing left of the region but the new values, with their ancestors. */
  function After(c: set<Path>, p: Param, parent: Path): set<Path>
  {
    (set q | q in c && !InRegion(p, parent, q)) + UpClosure(Now(p, parent))
  }

  function AfterAll(c: set<Path>, ps: seq<Param>, parent: Path): set<Path>
  {
    (set q | q in c && !InRegions(ps, parent, q)) + UpClosure(NowAll(ps, parent))
  }

  // ------------------------------------------------------------------ regions

  lemma HeadsComparable(parent: Path, a: Path, b: Path, q: Path)
    requires parent + a <= q && parent + b <= q
    ensures Comparable(a, b)
  {
    assert q[|parent|..][..|a|] == a && q[|parent|..][..|b|] == b;
  }

  lemma RegionsApart(p: Param, p': Param, parent: Path, q: Path)
    requires Apart(p, p') && InRegion(p, parent, q)
    ensures !InRegion(p', parent, q)
  {
    forall a, b | a in Heads(p) && b in Heads(p') && parent + a <= q ensures !(parent + b <= q) {
      if parent + b <= q { HeadsComparable(parent, a, b, q); }
    }
    if p.TagEntry? { assert [p.name] in Heads(p) && [Name(p)] in Heads(p); } else { assert p.rel in Heads(p); }
    if p'.TagEntry? { assert [p'.name] in Heads(p') && [Name(p')] in Heads(p'); } else { assert p'.rel in Heads(p'); }
  }

  lemma {:induction false} OldIn(p: Param, parent: Path, q: Path)
    requires q in Old(p, parent)
    ensures InRegion(p, parent, q)
  {
  }

  lemma {:induction false} OldAllIn(ps: seq<Param>, parent: Path, q: Path)
    requires q in OldAll(ps, parent)
    ensures parent <= q && InRegions(ps, parent, q)
    decreases ps, 0
  {
    if q in Old(ps[0], parent) { OldIn(ps[0], parent, q); } else { OldAllIn(ps[1..], parent, q); }
  }

  lemma {:induction false} NowIn(p: Param, parent: Path, q: Path)
    requires q in Now(p, parent)
    ensures MappedPath(p, parent) <= q
    decreases p, 1
  {
    if Inner(p) && q in NowAll(p.children, MappedPath(p, parent)) { NowAllIn(p.children, MappedPath(p, parent), q); }
  }

  lemma {:induction false} NowAllIn(ps: seq<Param>, parent: Path, q: Path)
    requires q in NowAll(ps, parent)
    ensures parent <= q && InRegions(ps, parent, q)
    decreases ps, 0
  {
    if q in Now(ps[0], parent) {
      NowIn(ps[0], parent, q);
      assert InRegion(ps[0], parent, q) && parent <= MappedPath(ps[0], parent);
    } else {
      NowAllIn(ps[1..], parent, q);
    }
  }

  lemma {:induction false} NowBelowIn(ps: seq<Param>, parent: Path, q: Path)
    requires q in NowBelow(ps, parent)
    ensures parent <= q
  {
    if q in NowAll(ps, parent) { NowAllIn(ps, parent, q); }
  }

  /** The old values of a subtree move with the entry they hang below. */
  lemma {:induction false} OldShift(p: Param, base: Path, base': Path, s: Path)
    requires base + s in Old(p, base)
    ensures base' + s in Old(p, base')
    decreases p, 1
  {
    match p {
      case Leaf(rel, value, _, _) => ValueShift(base, base', rel, AsValues(value), s);
      case MultiLeaf(rel, values, _, _) => ValueShift(base, base', rel, values, s);
      case Typeless(rel, _, _, children) => NodeShift(children, base, base', rel, s);
      case TagNode(rel, _, _, children) => NodeShift(children, base, base', rel, s);
      case TagEntry(name, _, _, children) => NodeShift(children, base, base', [name], s);
    }
  }

  lemma ValueShift(base: Path, base': Path, rel: Path, vals: seq<string>, s: Path)
    requires base + s in ValueNodes(base + rel, vals)
    ensures base' + s in ValueNodes(base' + rel, vals)
  {
    assert (base + s)[|base|..] == s;
    if base + s == base + rel {
      assert (base + rel)[|base|..] == rel;
    } else {
      var v :| v in vals && base + s == base + rel + [v];
      assert (base + rel + [v])[|base|..] == rel + [v];
      assert base' + s == base' + rel + [v];
    }
  }

  lemma {:induction false} NodeShift(ps: seq<Param>, base: Path, base': Path, rel: Path, s: Path)
    ensures base + s == base + rel ==> base' + s == base' + rel
    ensures base + s in OldBelow(ps, base + rel) ==> base' + s in OldBelow(ps, base' + rel)
    decreases ps, 2
  {
    assert (base + s)[|base|..] == s && (base + rel)[|base|..] == rel;
    if base + s in OldBelow(ps, base + rel) {
      var r := (base + s)[|base + rel|..];
      assert base + s == base + rel + r;
      OldBelowShift(ps, base + rel, base' + rel, r);
      assert (base + rel + r)[|base|..] == rel + r;
      assert base' + s == base' + rel + r;
    }
  }

  lemma {:induction false} OldBelowShift(ps: seq<Param>, base: Path, base': Path, s: Path)
    requires base + s in OldBelow(ps, base)
    ensures base' + s in OldBelow(ps, base')
    decreases ps, 1
  {
    var v :| v in OldAll(ps, base) && base + s in Prefixes(v);
    var t := v[|base|..];
    assert v == base + t && s <= t by { assert (base + s)[|base|..] == s; }
    OldAllShift(ps, base, base', t);
    assert base' + s in Prefixes(base' + t);
    assert s != [] by { assert base + [] == base; }
  }

  lemma {:induction false} OldAllShift(ps: seq<Param>, base: Path, base': Path, s: Path)
    requires base + s in OldAll(ps, base)
    ensures base' + s in OldAll(ps, base')
    decreases ps, 0
  {
    if base + s in Old(ps[0], base) { OldShift(ps[0], base, base', s); } else { OldAllShift(ps[1..], base, base', s); }
  }
}
