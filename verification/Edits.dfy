/**
 Running the commands of an edited parameter tree, in the order of the walk, turns
 the configuration of the old values into that of the new values.
 */
module Edits {
  import opened Text
  import opened Config
  import opened Params

  /** Inside the region of `p`, configuration `c` holds exactly the old values. */
  ghost predicate Holds(c: set<Path>, p: Param, parent: Path)
  {
    forall q :: InRegion(p, parent, q) ==> (q in c <==> q in Old(p, parent))
  }

  ghost predicate HoldsAll(c: set<Path>, ps: seq<Param>, parent: Path)
  {
    forall q :: InRegions(ps, parent, q) ==> (q in c <==> q in OldAll(ps, parent))
  }

  lemma {:induction false} AllCommandsConcat(a: seq<Located>, b: seq<Located>)
    ensures AllCommands(a + b) == AllCommands(a) + AllCommands(b)
  {
    if a == [] {
      assert a + b == b;
    } else {
      assert (a + b)[1..] == a[1..] + b;
      AllCommandsConcat(a[1..], b);
    }
  }

  lemma ExecOne(sch: Schema, c: set<Path>, cmd: Command)
    ensures ExecAll(sch, c, [cmd]) == Exec(sch, c, cmd)
  {
    assert ExecAll(sch, Exec(sch, c, cmd), []) == Exec(sch, c, cmd);
  }

  lemma InUpClosure(s: set<Path>, q: Path, p: Path)
    requires p in s && q <= p
    ensures q in UpClosure(s)
  {
    assert q in Prefixes(p);
  }

  lemma UpClosureUnion(s: set<Path>, s': set<Path>)
    ensures UpClosure(s + s') == UpClosure(s) + UpClosure(s')
  {
    forall q | q in UpClosure(s) + UpClosure(s') ensures q in UpClosure(s + s') {
      var p :| p in s + s' && q <= p;
      InUpClosure(s + s', q, p);
    }
  }

  lemma UpClosureSingle(p: Path)
    ensures UpClosure({p}) == Prefixes(p)
  {
    forall q | q in Prefixes(p) ensures q in UpClosure({p}) { InUpClosure({p}, q, p); }
  }

  lemma UpClosureIn(s: set<Path>, c: set<Path>)
    requires s <= c && Closed(c)
    ensures UpClosure(s) <= c
  {
  }

  // ------------------------------------------------------------------ leaves

  lemma {:induction false} ExecSetAll(sch: Schema, c: set<Path>, path: Path, vals: seq<string>)
    requires sch(path) != Single
    ensures ExecAll(sch, c, SetAll(path, vals)) == c + UpClosure(ValueNodes(path, vals))
    decreases |vals|
  {
    if vals == [] {
    } else {
      var p := path + [vals[0]];
      assert p[..|p| - 1] == path;
      ExecSetAll(sch, c + Prefixes(p), path, vals[1..]);
      assert Exec(sch, c, Set(p)) == c + Prefixes(p);
      assert SetAll(path, vals)[1..] == SetAll(path, vals[1..]);
      ValuesSplit(path, vals);
    }
  }

  lemma ValuesSplit(path: Path, vals: seq<string>)
    requires vals != []
    ensures UpClosure(ValueNodes(path, vals)) == Prefixes(path + [vals[0]]) + UpClosure(ValueNodes(path, vals[1..]))
  {
    var p := path + [vals[0]];
    forall q | q in Prefixes(p) + UpClosure(ValueNodes(path, vals[1..]))
      ensures q in UpClosure(ValueNodes(path, vals))
    {
      if q in Prefixes(p) {
        InUpClosure(ValueNodes(path, vals), q, p);
      } else {
        var r :| r in ValueNodes(path, vals[1..]) && q <= r;
        InUpClosure(ValueNodes(path, vals), q, r);
      }
    }
    forall q | q in UpClosure(ValueNodes(path, vals))
      ensures q in Prefixes(p) + UpClosure(ValueNodes(path, vals[1..]))
    {
      var r :| r in ValueNodes(path, vals) && q <= r;
      if r == path {
        assert q <= p;
      } else {
        var v :| v in vals && r == path + [v];
        if v != vals[0] { InUpClosure(ValueNodes(path, vals[1..]), q, r); }
      }
    }
  }

  lemma EditDeleted(sch: Schema, c: set<Path>, p: Param, parent: Path)
    requires WellFormed(sch, p, parent) && p.status == Deleted && Settled(p)
    ensures ExecAll(sch, c, AllCommands(Walk(p, parent))) == After(c, p, parent)
  {
    assert Walk(p, parent) == [Located(parent, p)];
    assert AllCommands(Walk(p, parent)) == [Delete(MappedPath(p, parent))];
  }

  lemma KeepLeaf(sch: Schema, c: set<Path>, p: Param, parent: Path)
    requires WellFormed(sch, p, parent) && p.Leaf?
    requires p.status == Unchanged || (p.status != Deleted && p.newValue.None?)
    requires Closed(c) && Holds(c, p, parent)
    ensures AllCommands(Walk(p, parent)) == [] && c == After(c, p, parent)
  {
    assert Walk(p, parent) == [Located(parent, p)];
    UpClosureIn(Old(p, parent), c);
    forall q | q in Old(p, parent) ensures q in UpClosure(Now(p, parent)) { InUpClosure(Now(p, parent), q, q); }
  }

  lemma SetLeaf(sch: Schema, c: set<Path>, p: Param, parent: Path)
    requires WellFormed(sch, p, parent) && p.Leaf? && p.status in {New, Changed} && p.newValue.Some?
    requires Closed(c) && Holds(c, p, parent)
    ensures var n := MappedPath(p, parent) + [p.newValue.value];
            AllCommands(Walk(p, parent)) == [Set(n)] && Exec(sch, c, Set(n)) == After(c, p, parent)
  {
    var path := MappedPath(p, parent);
    var n := path + [p.newValue.value];
    assert Walk(p, parent) == [Located(parent, p)];
    assert n[..|n| - 1] == path;
    ValuesSplit(path, [p.newValue.value]);
    assert UpClosure(Now(p, parent)) == Prefixes(n);
    forall q | q in c && !Replaced(sch, n, q) && path <= q ensures q in Prefixes(n) {
      assert q in Old(p, parent);
      if q != path { assert |path| < |q| && q[|path|] == n[|path|] && q == path + [q[|path|]]; }
    }
  }

  lemma EditLeaf(sch: Schema, c: set<Path>, p: Param, parent: Path)
    requires WellFormed(sch, p, parent) && p.Leaf? && p.status != Deleted
    requires Closed(c) && Holds(c, p, parent)
    ensures ExecAll(sch, c, AllCommands(Walk(p, parent))) == After(c, p, parent)
  {
    if p.status == Unchanged || p.newValue.None? {
      KeepLeaf(sch, c, p, parent);
    } else {
      SetLeaf(sch, c, p, parent);
      ExecOne(sch, c, Set(MappedPath(p, parent) + [p.newValue.value]));
    }
  }

  lemma EditMulti(sch: Schema, c: set<Path>, p: Param, parent: Path)
    requires WellFormed(sch, p, parent) && p.MultiLeaf? && p.status != Deleted
    requires Closed(c) && Holds(c, p, parent)
    ensures ExecAll(sch, c, AllCommands(Walk(p, parent))) == After(c, p, parent)
  {
    var path := MappedPath(p, parent);
    assert Walk(p, parent) == [Located(parent, p)];
    if p.status == Unchanged || p.newValues.None? {
      assert AllCommands(Walk(p, parent)) == [];
      UpClosureIn(Old(p, parent), c);
      forall q | q in Old(p, parent) ensures q in UpClosure(Now(p, parent)) { InUpClosure(Now(p, parent), q, q); }
    } else {
      var sets := SetAll(path, p.newValues.value);
      var cmds := [Delete(path)] + sets;
      assert AllCommands(Walk(p, parent)) == cmds;
      assert cmds[1..] == sets;
      ExecSetAll(sch, Exec(sch, c, Delete(path)), path, p.newValues.value);
    }
  }

  // ------------------------------------------------------------------ inner nodes

  lemma RegionsBelow(sch: Schema, ps: seq<Param>, parent: Path, q: Path)
    requires WellFormedAll(sch, ps, parent) && InRegions(ps, parent, q)
    ensures parent <= q && |parent| < |q|
    decreases |ps|
  {
    var p :| p in ps && InRegion(p, parent, q);
    if p != ps[0] { RegionsBelow(sch, ps[1..], parent, q); }
  }

  /** What the command of an inner node itself leaves: the old subtree at the new place, and the node if `here`. */
  ghost predicate Moved(c: set<Path>, c1: set<Path>, p: Param, parent: Path, here: bool)
    requires Inner(p)
  {
    var path := MappedPath(p, parent);
    && Closed(c1)
    && (forall q :: path <= q ==> (q in c1 <==> q in Node(path, here, OldBelow(p.children, path))))
    && forall q :: !(path <= q) ==> (q in c1 <==> (q in c && !InRegion(p, parent, q)) || (here && q <= path))
  }

  lemma BelowClosed(s: set<Path>, path: Path, q: Path, r: Path)
    requires r in Below(s, path) && q <= r && path <= q && q != path
    ensures q in Below(s, path)
  {
    var v :| v in s && r in Prefixes(v);
    InUpClosure(s, q, v);
  }

  /** Inside its region the old values of a parameter leave no node out. */
  lemma OldClosed(sch: Schema, p: Param, parent: Path, q: Path, r: Path)
    requires WellFormed(sch, p, parent) && r in Old(p, parent) && q <= r && InRegion(p, parent, q)
    ensures q in Old(p, parent)
  {
    if Inner(p) {
      var path := parent + if p.TagEntry? then [p.name] else p.rel;
      assert path <= r;
      if p.TagEntry? { assert q[..|parent| + 1] == r[..|parent| + 1] == path; }
      if q == path {
        if r != path { OldSomething(p.children, path, r); }
      } else if r != path {
        BelowClosed(OldAll(p.children, path), path, q, r);
      }
    } else {
      ValuesClosed(parent + p.rel, if p.Leaf? then AsValues(p.value) else p.values, q, r);
    }
  }

  lemma ValuesClosed(path: Path, vals: seq<string>, q: Path, r: Path)
    requires r in ValueNodes(path, vals) && path <= q <= r
    ensures q in ValueNodes(path, vals)
  {
    assert |r| <= |path| + 1 && q == r[..|q|];
    assert |q| == |path| ==> q == path;
    assert |q| == |r| ==> q == r;
  }

  lemma OldSomething(ps: seq<Param>, path: Path, r: Path)
    requires r in OldBelow(ps, path)
    ensures OldAll(ps, path) != {}
  {
    var v :| v in OldAll(ps, path) && r in Prefixes(v);
  }

  lemma {:induction false} OldOwner(ps: seq<Param>, parent: Path, r: Path) returns (p: Param)
    requires r in OldAll(ps, parent)
    ensures p in ps && r in Old(p, parent)
    decreases |ps|
  {
    if r in Old(ps[0], parent) { p := ps[0]; } else { p := OldOwner(ps[1..], parent, r); }
  }

  lemma {:induction false} OldMember(ps: seq<Param>, parent: Path, p: Param, r: Path)
    requires p in ps && r in Old(p, parent)
    ensures r in OldAll(ps, parent)
    decreases |ps|
  {
    if p != ps[0] { OldMember(ps[1..], parent, p, r); }
  }

  lemma {:induction false} MemberFits(sch: Schema, ps: seq<Param>, parent: Path, p: Param)
    requires WellFormedAll(sch, ps, parent) && p in ps
    ensures WellFormed(sch, p, parent)
    decreases |ps|
  {
    if p != ps[0] { MemberFits(sch, ps[1..], parent, p); }
  }

  lemma {:induction false} SameRegion(sch: Schema, ps: seq<Param>, parent: Path, p: Param, p': Param, r: Path)
    requires WellFormedAll(sch, ps, parent) && p in ps && p' in ps
    requires InRegion(p, parent, r) && InRegion(p', parent, r)
    ensures p == p'
    decreases |ps|
  {
    if p != p' {
      if p == ps[0] {
        RegionsApart(p, p', parent, r);
      } else if p' == ps[0] {
        RegionsApart(p', p, parent, r);
      } else {
        SameRegion(sch, ps[1..], parent, p, p', r);
      }
    }
  }

  /** In the regions of the parameters, the old values and the old values with the nodes on the way are the same. */
  lemma OldBelowRegions(sch: Schema, ps: seq<Param>, parent: Path, q: Path)
    requires WellFormedAll(sch, ps, parent) && InRegions(ps, parent, q)
    ensures q in OldBelow(ps, parent) <==> q in OldAll(ps, parent)
  {
    RegionsBelow(sch, ps, parent, q);
    if q in OldAll(ps, parent) { InUpClosure(OldAll(ps, parent), q, q); }
    if q in OldBelow(ps, parent) {
      var r :| r in OldAll(ps, parent) && q in Prefixes(r);
      var p :| p in ps && InRegion(p, parent, q);
      var p' := OldOwner(ps, parent, r);
      OldIn(p', parent, r);
      SameRegion(sch, ps, parent, p, p', r);
      MemberFits(sch, ps, parent, p);
      OldClosed(sch, p, parent, q, r);
      OldMember(ps, parent, p, q);
    }
  }

  lemma MovedHolds(sch: Schema, c: set<Path>, c1: set<Path>, p: Param, parent: Path, here: bool)
    requires WellFormed(sch, p, parent) && Inner(p) && Moved(c, c1, p, parent, here)
    ensures HoldsAll(c1, p.children, MappedPath(p, parent))
  {
    var path := MappedPath(p, parent);
    forall q | InRegions(p.children, path, q) ensures q in c1 <==> q in OldAll(p.children, path) {
      RegionsBelow(sch, p.children, path, q);
      OldBelowRegions(sch, p.children, path, q);
    }
  }

  lemma NodeClosure(path: Path, here: bool, below: set<Path>)
    requires forall q :: q in below ==> path <= q
    ensures UpClosure(Node(path, here || below != {}, below)) ==
            (if here then Prefixes(path) else {}) + UpClosure(below)
  {
    UpClosureUnion(if here || below != {} then {path} else {}, below);
    UpClosureSingle(path);
    if below != {} {
      var r :| r in below;
      forall q | q in Prefixes(path) ensures q in UpClosure(below) { InUpClosure(below, q, r); }
    }
  }

  lemma BetweenClosure(ps: seq<Param>, path: Path, q: Path)
    requires q in UpClosure(Between(ps, path)) && path <= q && q != path
    ensures q in Between(ps, path)
  {
    var r :| r in Between(ps, path) && q in Prefixes(r);
    BelowClosed(OldAll(ps, path), path, q, r);
    if InRegions(ps, path, q) { RegionsDown(ps, path, q, r); }
  }

  lemma RegionsDown(ps: seq<Param>, parent: Path, q: Path, r: Path)
    requires InRegions(ps, parent, q) && q <= r
    ensures InRegions(ps, parent, r)
  {
    var p :| p in ps && InRegion(p, parent, q);
    assert InRegion(p, parent, r);
  }

  lemma BelowAbove(ps: seq<Param>, path: Path, q: Path)
    requires q in UpClosure(Between(ps, path)) && !(path <= q && q != path)
    ensures q <= path && Between(ps, path) != {}
  {
    var r :| r in Between(ps, path) && q in Prefixes(r);
    assert path <= r;
    assert q == r[..|q|] && path == r[..|path|];
  }

  /** The closure of what is left below a node, with the node itself. */
  lemma InnerClosure(ps: seq<Param>, path: Path, here: bool, q: Path)
    requires Between(ps, path) != {} ==> here
    ensures q in UpClosure(Node(path, here || NowBelow(ps, path) != {}, NowBelow(ps, path))) <==>
            q in UpClosure(NowAll(ps, path)) || q in Between(ps, path) || (here && q <= path)
  {
    forall r | r in NowBelow(ps, path) ensures path <= r { NowBelowIn(ps, path, r); }
    NodeClosure(path, here, NowBelow(ps, path));
    UpClosureUnion(NowAll(ps, path), Between(ps, path));
    if q in UpClosure(Between(ps, path)) {
      if path <= q && q != path { BetweenClosure(ps, path, q); } else { BelowAbove(ps, path, q); }
    }
    if q in Between(ps, path) { InUpClosure(Between(ps, path), q, q); }
  }

  lemma InnerDone(sch: Schema, c: set<Path>, c1: set<Path>, p: Param, parent: Path, here: bool)
    requires WellFormed(sch, p, parent) && Inner(p) && p.status != Deleted && Moved(c, c1, p, parent, here)
    requires var path := MappedPath(p, parent); var below := NowBelow(p.children, path);
             Now(p, parent) == Node(path, here || below != {}, below) && (Between(p.children, path) != {} ==> here)
    ensures AfterAll(c1, p.children, MappedPath(p, parent)) == After(c, p, parent)
  {
    var path := MappedPath(p, parent);
    forall q ensures q in AfterAll(c1, p.children, path) <==> q in After(c, p, parent) {
      InnerClosure(p.children, path, here, q);
      Untouched(sch, c, c1, p, parent, here, q);
    }
  }

  lemma Untouched(sch: Schema, c: set<Path>, c1: set<Path>, p: Param, parent: Path, here: bool, q: Path)
    requires WellFormed(sch, p, parent) && Inner(p) && Moved(c, c1, p, parent, here)
    ensures var path := MappedPath(p, parent);
            q in c1 && !InRegions(p.children, path, q) <==>
            (q in c && !InRegion(p, parent, q)) || (here && q <= path) || q in Between(p.children, path)
  {
    var path := MappedPath(p, parent);
    if InRegions(p.children, path, q) { RegionsBelow(sch, p.children, path, q); }
    assert path <= q ==> InRegion(p, parent, q);
  }

  lemma OwnFirst(p: Param, parent: Path)
    requires Inner(p) && p.status != Deleted
    ensures AllCommands(Walk(p, parent)) ==
            Commands(Located(parent, p)) + AllCommands(WalkAll(p.children, MappedPath(p, parent)))
  {
    var tail := WalkAll(p.children, MappedPath(p, parent));
    assert ([Located(parent, p)] + tail)[1..] == tail;
  }

  lemma MovedInPlace(sch: Schema, c: set<Path>, p: Param, parent: Path)
    requires WellFormed(sch, p, parent) && (p.Typeless? || p.TagNode?) && p.status != Deleted
    requires Closed(c) && Holds(c, p, parent)
    ensures Moved(c, ExecAll(sch, c, Commands(Located(parent, p))), p, parent,
                  p.present || (p.Typeless? && p.status == New))
  {
    var path := MappedPath(p, parent);
    var here := p.present || (p.Typeless? && p.status == New);
    var c1 := ExecAll(sch, c, Commands(Located(parent, p)));
    if p.Typeless? && p.status == New {
      assert Commands(Located(parent, p)) == [Set(path)];
      ExecOne(sch, c, Set(path));
      assert forall q :: !Replaced(sch, path, q);
      assert c1 == c + Prefixes(path);
    } else {
      assert c1 == c;
    }
    assert p.present ==> path in Old(p, parent) && path in c;
    assert Closed(c1);
    forall q | path <= q ensures q in c1 <==> q in Node(path, here, OldBelow(p.children, path)) {
      assert InRegion(p, parent, q);
      assert Old(p, parent) == Node(path, p.present, OldBelow(p.children, path));
      assert q <= path ==> q == path;
    }
  }

  lemma MovedNew(sch: Schema, c: set<Path>, p: Param, parent: Path)
    requires WellFormed(sch, p, parent) && p.TagEntry? && p.status == New
    requires Closed(c) && Holds(c, p, parent)
    ensures Moved(c, ExecAll(sch, c, Commands(Located(parent, p))), p, parent, true)
  {
    var path := MappedPath(p, parent);
    assert path[..|path| - 1] == parent;
    var c1 := ExecAll(sch, c, Commands(Located(parent, p)));
    assert Commands(Located(parent, p)) == [Set(path)];
    ExecOne(sch, c, Set(path));
    assert c1 == c + Prefixes(path);
    forall q | InRegion(p, parent, q) ensures q !in c { assert q !in Old(p, parent); }
    forall q | path <= q ensures q in c1 <==> q in Node(path, true, OldBelow(p.children, path)) {
      assert InRegion(p, parent, q);
      assert q <= path ==> q == path;
    }
  }

  lemma MovedKept(sch: Schema, c: set<Path>, p: Param, parent: Path)
    requires WellFormed(sch, p, parent) && p.TagEntry? && Name(p) == p.name
    requires p.status == Unchanged || (p.status == Changed && p.newName.None?)
    requires Closed(c) && Holds(c, p, parent)
    ensures Moved(c, ExecAll(sch, c, Commands(Located(parent, p))), p, parent, true)
  {
    var path := MappedPath(p, parent);
    assert Commands(Located(parent, p)) == [];
    assert path in Old(p, parent) && InRegion(p, parent, path);
  }

  lemma RenamedBack(parent: Path, from: string, to: string, q: Path)
    requires parent + [to] <= q
    ensures var r := parent + [from] + q[|parent| + 1..];
            parent + [from] <= r && Renamed(parent, from, to, r) == q
  {
    var r := parent + [from] + q[|parent| + 1..];
    assert r[|parent| + 1..] == q[|parent| + 1..];
    assert parent + [to] + q[|parent| + 1..] == q;
  }

  lemma OldMoves(p: Param, parent: Path, q: Path)
    requires p.TagEntry? && p.status == Changed && p.newName.Some? && MappedPath(p, parent) <= q
    ensures var r := parent + [p.name] + q[|parent| + 1..];
            r in Old(p, parent) <==> q in Node(MappedPath(p, parent), true, OldBelow(p.children, MappedPath(p, parent)))
  {
    var base, base', s := parent + [p.name], MappedPath(p, parent), q[|parent| + 1..];
    assert q == base' + s;
    if base + s in OldBelow(p.children, base) { OldBelowShift(p.children, base, base', s); }
    if base' + s in OldBelow(p.children, base') { OldBelowShift(p.children, base', base, s); }
    assert base + s == base <==> s == [];
    assert base' + s == base' <==> s == [];
  }

  /** After the `move`, the old subtree stands under the new name and nothing under the old one. */
  lemma MovedRenamed(sch: Schema, c: set<Path>, p: Param, parent: Path)
    requires WellFormed(sch, p, parent) && p.TagEntry? && p.status == Changed && p.newName.Some?
    requires Closed(c) && Holds(c, p, parent)
    ensures Moved(c, ExecAll(sch, c, Commands(Located(parent, p))), p, parent, true)
  {
    var path, from, to := MappedPath(p, parent), p.name, p.newName.value;
    var c1 := ExecAll(sch, c, Commands(Located(parent, p)));
    assert Commands(Located(parent, p)) == [Move(parent, from, to)];
    ExecOne(sch, c, Move(parent, from, to));
    assert parent + [from] in Old(p, parent) && InRegion(p, parent, parent + [from]);
    forall q | path <= q ensures q in c1 <==> q in Node(path, true, OldBelow(p.children, path)) {
      var r := parent + [from] + q[|parent| + 1..];
      RenamedBack(parent, from, to, q);
      OldMoves(p, parent, q);
      assert InRegion(p, parent, r);
      if q in c1 {
        var o :| o in c && Renamed(parent, from, to, o) == q;
        RenamedSource(c, p, parent, o, q);
      }
    }
    forall q | !(path <= q) ensures q in c1 <==> (q in c && !InRegion(p, parent, q)) || q <= path {
      RenamedOutside(c, p, parent, q);
    }
    RenamedClosed(c, c1, p, parent);
  }

  /** Only the old name is renamed into the new one. */
  lemma RenamedSource(c: set<Path>, p: Param, parent: Path, o: Path, q: Path)
    requires p.TagEntry? && p.status == Changed && p.newName.Some? && Holds(c, p, parent)
    requires o in c && Renamed(parent, p.name, p.newName.value, o) == q && parent + [p.newName.value] <= q
    ensures o == parent + [p.name] + q[|parent| + 1..]
  {
    if parent + [p.name] <= o {
      assert o == parent + [p.name] + o[|parent| + 1..];
      assert q[|parent| + 1..] == o[|parent| + 1..];
    } else {
      assert InRegion(p, parent, o);
      assert o in Old(p, parent);
      OldUnderName(p, parent, o);
    }
  }

  lemma OldUnderName(p: Param, parent: Path, q: Path)
    requires p.TagEntry? && q in Old(p, parent)
    ensures parent + [p.name] <= q
  {
  }

  lemma RenamedOutside(c: set<Path>, p: Param, parent: Path, q: Path)
    requires p.TagEntry? && p.status == Changed && p.newName.Some? && Closed(c) && Holds(c, p, parent)
    requires !(MappedPath(p, parent) <= q)
    ensures q in Rename(c, parent, p.name, p.newName.value) <==>
            (q in c && !InRegion(p, parent, q)) || q <= MappedPath(p, parent)
  {
    var from, to := p.name, p.newName.value;
    var c1 := Rename(c, parent, from, to);
    assert parent + [from] in Old(p, parent) && InRegion(p, parent, parent + [from]);
    if q in c1 {
      var o :| o in c && Renamed(parent, from, to, o) == q;
      assert parent + [from] <= o ==> parent + [to] <= Renamed(parent, from, to, o);
    }
    if q <= MappedPath(p, parent) {
      assert q <= parent;
      assert q <= parent + [from];
      assert !(parent + [from] <= q);
    }
    if (q in c && !InRegion(p, parent, q)) || q <= MappedPath(p, parent) {
      assert q in c && Renamed(parent, from, to, q) == q;
    }
  }

  lemma RenamedClosed(c: set<Path>, c1: set<Path>, p: Param, parent: Path)
    requires p.TagEntry? && p.status == Changed && p.newName.Some? && Closed(c) && Holds(c, p, parent)
    requires c1 == Rename(c, parent, p.name, p.newName.value)
    ensures Closed(c1)
  {
    var path, from, to := MappedPath(p, parent), p.name, p.newName.value;
    forall r, q | q in c1 && r <= q ensures r in c1 {
      var o :| o in c && Renamed(parent, from, to, o) == q;
      if path <= r {
        RenamedSource(c, p, parent, o, q);
        RenamedBack(parent, from, to, r);
        var r' := parent + [from] + r[|parent| + 1..];
        assert r' <= o;
      } else {
        RenamedOutside(c, p, parent, r);
        if path <= q {
          assert r <= parent;
        } else {
          RenamedOutside(c, p, parent, q);
          assert q <= path ==> r <= path;
        }
      }
    }
  }

  // ------------------------------------------------------------------ whole trees

  /** The command of an inner node itself; `here` tells whether the node is there afterwards in any case. */
  lemma InnerMoved(sch: Schema, c: set<Path>, p: Param, parent: Path) returns (here: bool)
    requires WellFormed(sch, p, parent) && Inner(p) && p.status != Deleted && Closed(c) && Holds(c, p, parent)
    requires p.TagEntry? && p.status == Unchanged ==> Name(p) == p.name
    ensures Moved(c, ExecAll(sch, c, Commands(Located(parent, p))), p, parent, here)
    ensures var path := MappedPath(p, parent); var below := NowBelow(p.children, path);
            Now(p, parent) == Node(path, here || below != {}, below) && (Between(p.children, path) != {} ==> here)
  {
    here := p.TagEntry? || p.present || (p.Typeless? && p.status == New);
    if !p.TagEntry? {
      MovedInPlace(sch, c, p, parent);
    } else if p.status == New {
      MovedNew(sch, c, p, parent);
    } else if p.status == Unchanged || p.newName.None? {
      MovedKept(sch, c, p, parent);
    } else {
      MovedRenamed(sch, c, p, parent);
    }
    if r :| r in Between(p.children, MappedPath(p, parent)) { OldSomething(p.children, MappedPath(p, parent), r); }
  }

  lemma {:induction false} EditOne(sch: Schema, c: set<Path>, p: Param, parent: Path)
    requires WellFormed(sch, p, parent) && Settled(p) && Closed(c) && Holds(c, p, parent)
    ensures ExecAll(sch, c, AllCommands(Walk(p, parent))) == After(c, p, parent)
    decreases p, 1
  {
    if p.status == Deleted {
      EditDeleted(sch, c, p, parent);
    } else if p.Leaf? {
      EditLeaf(sch, c, p, parent);
    } else if p.MultiLeaf? {
      EditMulti(sch, c, p, parent);
    } else {
      var own, path := Commands(Located(parent, p)), MappedPath(p, parent);
      var c1 := ExecAll(sch, c, own);
      var here := InnerMoved(sch, c, p, parent);
      OwnFirst(p, parent);
      ExecAllConcat(sch, c, own, AllCommands(WalkAll(p.children, path)));
      MovedHolds(sch, c, c1, p, parent, here);
      EditAll(sch, c1, p.children, path);
      InnerDone(sch, c, c1, p, parent, here);
    }
  }

  /**
   Running the commands of the whole tree in the order of `iterateParams` replaces the
   old values by the new ones and touches nothing else, whatever the order of siblings.
   */
  lemma {:induction false} EditAll(sch: Schema, c: set<Path>, ps: seq<Param>, parent: Path)
    requires WellFormedAll(sch, ps, parent) && SettledAll(ps) && Closed(c) && HoldsAll(c, ps, parent)
    ensures ExecAll(sch, c, AllCommands(WalkAll(ps, parent))) == AfterAll(c, ps, parent)
    decreases ps, 0
  {
    if ps != [] {
      var c1 := After(c, ps[0], parent);
      HeadHolds(c, ps, parent);
      EditOne(sch, c, ps[0], parent);
      TailHolds(sch, c, ps, parent);
      AfterClosed(c, ps[0], parent);
      EditAll(sch, c1, ps[1..], parent);
      AllCommandsConcat(Walk(ps[0], parent), WalkAll(ps[1..], parent));
      ExecAllConcat(sch, c, AllCommands(Walk(ps[0], parent)), AllCommands(WalkAll(ps[1..], parent)));
      AfterSplit(sch, c, ps, parent);
    } else {
      assert AfterAll(c, ps, parent) == c;
    }
  }

  lemma HeadAlone(ps: seq<Param>, parent: Path, q: Path)
    requires ps != [] && (forall p :: p in ps[1..] ==> Apart(ps[0], p)) && InRegion(ps[0], parent, q)
    ensures !InRegions(ps[1..], parent, q)
  {
    forall p | p in ps[1..] ensures !InRegion(p, parent, q) { RegionsApart(ps[0], p, parent, q); }
  }

  lemma HeadHolds(c: set<Path>, ps: seq<Param>, parent: Path)
    requires ps != [] && (forall p :: p in ps[1..] ==> Apart(ps[0], p)) && HoldsAll(c, ps, parent)
    ensures Holds(c, ps[0], parent)
  {
    forall q | InRegion(ps[0], parent, q) ensures q in c <==> q in Old(ps[0], parent) {
      HeadAlone(ps, parent, q);
      assert InRegions(ps, parent, q);
      if q in OldAll(ps[1..], parent) { OldAllIn(ps[1..], parent, q); }
    }
  }

  lemma TailHolds(sch: Schema, c: set<Path>, ps: seq<Param>, parent: Path)
    requires ps != [] && WellFormedAll(sch, ps, parent) && HoldsAll(c, ps, parent)
    ensures HoldsAll(After(c, ps[0], parent), ps[1..], parent)
  {
    forall q | InRegions(ps[1..], parent, q)
      ensures q in After(c, ps[0], parent) <==> q in OldAll(ps[1..], parent)
    {
      TailApart(sch, ps, parent, q);
      var p :| p in ps[1..] && InRegion(p, parent, q);
      assert p in ps && InRegions(ps, parent, q);
      if q in Old(ps[0], parent) { OldIn(ps[0], parent, q); }
    }
  }

  /** New values of the first sibling do not reach into the regions of the others. */
  lemma TailApart(sch: Schema, ps: seq<Param>, parent: Path, q: Path)
    requires ps != [] && WellFormedAll(sch, ps, parent) && InRegions(ps[1..], parent, q)
    ensures !InRegion(ps[0], parent, q) && q !in UpClosure(Now(ps[0], parent))
  {
    if InRegion(ps[0], parent, q) { HeadAlone(ps, parent, q); }
    if q in UpClosure(Now(ps[0], parent)) {
      var r :| r in Now(ps[0], parent) && q <= r;
      NowIn(ps[0], parent, r);
      var p :| p in ps[1..] && InRegion(p, parent, q);
      assert InRegion(p, parent, r);
      RegionsApart(ps[0], p, parent, r);
    }
  }

  lemma AfterClosed(c: set<Path>, p: Param, parent: Path)
    requires Closed(c)
    ensures Closed(After(c, p, parent))
  {
    forall r, q | q in After(c, p, parent) && r <= q ensures r in After(c, p, parent) {
      if q in UpClosure(Now(p, parent)) {
        var o :| o in Now(p, parent) && q <= o;
        InUpClosure(Now(p, parent), r, o);
      } else if InRegion(p, parent, r) {
        assert InRegion(p, parent, q);
      }
    }
  }

  lemma AfterSplit(sch: Schema, c: set<Path>, ps: seq<Param>, parent: Path)
    requires ps != [] && WellFormedAll(sch, ps, parent)
    ensures AfterAll(After(c, ps[0], parent), ps[1..], parent) == AfterAll(c, ps, parent)
  {
    UpClosureUnion(Now(ps[0], parent), NowAll(ps[1..], parent));
    forall q ensures InRegions(ps, parent, q) <==> InRegion(ps[0], parent, q) || InRegions(ps[1..], parent, q) {
      if InRegions(ps[1..], parent, q) {
        var p :| p in ps[1..] && InRegion(p, parent, q);
        assert p in ps;
      }
    }
    forall q | InRegions(ps[1..], parent, q) ensures q !in UpClosure(Now(ps[0], parent)) {
      TailApart(sch, ps, parent, q);
    }
  }

  // ------------------------------------------------------------------ a name without a rename

  /** Commands of a parameter take nothing away outside its region. */
  lemma {:induction false} Spares(sch: Schema, c: set<Path>, p: Param, parent: Path, x: Path)
    requires WellFormed(sch, p, parent) && !InRegion(p, parent, x) && x in c
    ensures x in ExecAll(sch, c, AllCommands(Walk(p, parent)))
    decreases p, 1
  {
    var own, path := Commands(Located(parent, p)), MappedPath(p, parent);
    var c1 := ExecAll(sch, c, own);
    OwnSpares(sch, c, p, parent, x);
    if p.status == Deleted || !Inner(p) {
      assert Walk(p, parent) == [Located(parent, p)];
      assert AllCommands(Walk(p, parent)) == own + [] == own;
    } else {
      OwnFirst(p, parent);
      ExecAllConcat(sch, c, own, AllCommands(WalkAll(p.children, path)));
      if InRegions(p.children, path, x) { RegionsBelow(sch, p.children, path, x); }
      SparesAll(sch, c1, p.children, path, x);
    }
  }

  lemma {:induction false} SparesAll(sch: Schema, c: set<Path>, ps: seq<Param>, parent: Path, x: Path)
    requires WellFormedAll(sch, ps, parent) && !InRegions(ps, parent, x) && x in c
    ensures x in ExecAll(sch, c, AllCommands(WalkAll(ps, parent)))
    decreases ps, 0
  {
    if ps != [] {
      Spares(sch, c, ps[0], parent, x);
      SparesAll(sch, ExecAll(sch, c, AllCommands(Walk(ps[0], parent))), ps[1..], parent, x);
      AllCommandsConcat(Walk(ps[0], parent), WalkAll(ps[1..], parent));
      ExecAllConcat(sch, c, AllCommands(Walk(ps[0], parent)), AllCommands(WalkAll(ps[1..], parent)));
    }
  }

  lemma OwnSpares(sch: Schema, c: set<Path>, p: Param, parent: Path, x: Path)
    requires WellFormed(sch, p, parent) && !InRegion(p, parent, x) && x in c
    ensures x in ExecAll(sch, c, Commands(Located(parent, p)))
  {
    var cmds, path := Commands(Located(parent, p)), MappedPath(p, parent);
    assert !(path <= x);
    if p.MultiLeaf? && p.status in {New, Changed} && p.newValues.Some? {
      ExecAllConcat(sch, c, [Delete(path)], SetAll(path, p.newValues.value));
      ExecOne(sch, c, Delete(path));
      ExecSetAll(sch, Exec(sch, c, Delete(path)), path, p.newValues.value);
    } else if cmds != [] {
      assert cmds == [cmds[0]];
      ExecOne(sch, c, cmds[0]);
      OneSpares(sch, c, p, parent, x, cmds[0]);
    }
  }

  lemma OneSpares(sch: Schema, c: set<Path>, p: Param, parent: Path, x: Path, cmd: Command)
    requires WellFormed(sch, p, parent) && !InRegion(p, parent, x) && x in c && Commands(Located(parent, p)) == [cmd]
    requires !p.MultiLeaf? || p.status == Deleted
    ensures x in Exec(sch, c, cmd)
  {
    var path := MappedPath(p, parent);
    match cmd
    case Delete(d) =>
    case Move(_, from, to) => assert Renamed(parent, from, to, x) == x;
    case Set(n) =>
      if p.Leaf? {
        assert n[..|n| - 1] == path;
      } else if p.TagEntry? {
        assert n[..|n| - 1] == parent;
      }
  }

  /**
   A deleted or unchanged entry that carries another name leaves its old name behind: no
   `move` is emitted, and a `delete` goes to the new name.
   */
  lemma StaleName(sch: Schema, c: set<Path>, p: Param, parent: Path)
    requires WellFormed(sch, p, parent) && Holds(c, p, parent)
    requires p.TagEntry? && p.status in {Unchanged, Deleted} && Name(p) != p.name
    ensures var x := parent + [p.name];
            && InRegion(p, parent, x) && x !in UpClosure(Now(p, parent))
            && x in ExecAll(sch, c, AllCommands(Walk(p, parent)))
  {
    var x, path := parent + [p.name], MappedPath(p, parent);
    assert x in Old(p, parent) && x in c;
    assert !(path <= x) by { assert x[|parent|] != path[|parent|]; }
    forall r | r in Now(p, parent) ensures !(x <= r) { NowIn(p, parent, r); }
    if p.status == Deleted {
      DeleteAlone(p, parent);
      ExecOne(sch, c, Delete(path));
    } else {
      OwnFirst(p, parent);
      assert AllCommands(Walk(p, parent)) == AllCommands(WalkAll(p.children, path));
      if InRegions(p.children, path, x) { RegionsBelow(sch, p.children, path, x); }
      SparesAll(sch, c, p.children, path, x);
    }
  }

  /** Somewhere in the region of `p` a path is left that the new values do not have. */
  lemma {:induction false} LeftBehind(sch: Schema, c: set<Path>, p: Param, parent: Path) returns (x: Path)
    requires WellFormed(sch, p, parent) && !Settled(p) && Closed(c) && Holds(c, p, parent)
    ensures InRegion(p, parent, x) && x !in UpClosure(Now(p, parent))
    ensures x in ExecAll(sch, c, AllCommands(Walk(p, parent)))
    decreases p, 1
  {
    if p.TagEntry? && p.status in {Unchanged, Deleted} && Name(p) != p.name {
      x := parent + [p.name];
      StaleName(sch, c, p, parent);
    } else {
      var own, path := Commands(Located(parent, p)), MappedPath(p, parent);
      var here := InnerMoved(sch, c, p, parent);
      OwnFirst(p, parent);
      ExecAllConcat(sch, c, own, AllCommands(WalkAll(p.children, path)));
      MovedHolds(sch, c, ExecAll(sch, c, own), p, parent, here);
      x := LeftBehindAll(sch, ExecAll(sch, c, own), p.children, path);
      RegionsBelow(sch, p.children, path, x);
      InnerClosure(p.children, path, here, x);
    }
  }

  lemma {:induction false} LeftBehindAll(sch: Schema, c: set<Path>, ps: seq<Param>, parent: Path) returns (x: Path)
    requires WellFormedAll(sch, ps, parent) && !SettledAll(ps) && Closed(c) && HoldsAll(c, ps, parent)
    ensures InRegions(ps, parent, x) && x !in UpClosure(NowAll(ps, parent))
    ensures x in ExecAll(sch, c, AllCommands(WalkAll(ps, parent)))
    decreases ps, 0
  {
    var c1 := ExecAll(sch, c, AllCommands(Walk(ps[0], parent)));
    HeadHolds(c, ps, parent);
    AllCommandsConcat(Walk(ps[0], parent), WalkAll(ps[1..], parent));
    ExecAllConcat(sch, c, AllCommands(Walk(ps[0], parent)), AllCommands(WalkAll(ps[1..], parent)));
    UpClosureUnion(Now(ps[0], parent), NowAll(ps[1..], parent));
    if Settled(ps[0]) {
      EditOne(sch, c, ps[0], parent);
      TailHolds(sch, c, ps, parent);
      AfterClosed(c, ps[0], parent);
      x := LeftBehindAll(sch, c1, ps[1..], parent);
      TailApart(sch, ps, parent, x);
    } else {
      x := LeftBehind(sch, c, ps[0], parent);
      HeadAlone(ps, parent, x);
      SparesAll(sch, c1, ps[1..], parent, x);
      HeadApart(ps, parent, x);
    }
  }

  lemma HeadApart(ps: seq<Param>, parent: Path, x: Path)
    requires ps != [] && (forall p :: p in ps[1..] ==> Apart(ps[0], p)) && InRegion(ps[0], parent, x)
    ensures x !in UpClosure(NowAll(ps[1..], parent))
  {
    if x in UpClosure(NowAll(ps[1..], parent)) {
      var r :| r in NowAll(ps[1..], parent) && x in Prefixes(r);
      NowAllIn(ps[1..], parent, r);
      HeadAlone(ps, parent, r);
    }
  }

  /**
   The commands turn the old values into the new ones if and only if no deleted or
   unchanged entry that the walk comes to carries another name than its own.
   */
  lemma EditExactly(sch: Schema, c: set<Path>, ps: seq<Param>, parent: Path)
    requires WellFormedAll(sch, ps, parent) && Closed(c) && HoldsAll(c, ps, parent)
    ensures ExecAll(sch, c, AllCommands(WalkAll(ps, parent))) == AfterAll(c, ps, parent) <==> SettledAll(ps)
  {
    if SettledAll(ps) {
      EditAll(sch, c, ps, parent);
    } else {
      var x := LeftBehindAll(sch, c, ps, parent);
      assert x !in AfterAll(c, ps, parent);
    }
  }

  /** A deletion that also brings a new name deletes a node that is not there, and the entry stays. */
  lemma DeletedElsewhere()
    ensures var sch: Schema := _ => Tag;
            var p, c := TagEntry("a", Some("b"), Deleted, []), Prefixes(["n", "a"]);
            && WellFormed(sch, p, ["n"]) && Closed(c) && Holds(c, p, ["n"])
            && AllCommands(Walk(p, ["n"])) == [Delete(["n", "b"])]
            && ExecAll(sch, c, AllCommands(Walk(p, ["n"]))) == c
            && ["n", "a"] in c && ["n", "a"] !in After(c, p, ["n"])
  {
    var sch: Schema := _ => Tag;
    var p, c := TagEntry("a", Some("b"), Deleted, []), Prefixes(["n", "a"]);
    assert ["n"] + ["a"] == ["n", "a"] && ["n"] + ["b"] == ["n", "b"];
    DeleteAlone(p, ["n"]);
    ExecOne(sch, c, Delete(["n", "b"]));
    assert OldBelow([], ["n", "a"]) == {};
    assert Old(p, ["n"]) == {["n", "a"]};
    forall q | q in c ensures !(["n", "b"] <= q) && (["n", "a"] <= q ==> q == ["n", "a"]) {
      assert |q| == 2 ==> q[1] == "a";
    }
  }

  // ------------------------------------------------------------------ order of the commands

  function Target(cmd: Command): Path
  {
    match cmd
    case Set(p) => p
    case Delete(p) => p
    case Move(parent, _, to) => parent + [to]
  }

  predicate AllUnder(cmds: seq<Command>, path: Path)
  {
    forall cmd :: cmd in cmds ==> path <= Target(cmd)
  }

  lemma {:induction false} SetAllUnder(path: Path, vals: seq<string>)
    ensures AllUnder(SetAll(path, vals), path)
    decreases |vals|
  {
    if vals != [] { SetAllUnder(path, vals[1..]); }
  }

  /** Every command of a subtree works at or below the mapped path of its root, new names included. */
  lemma {:induction false} CommandsUnder(p: Param, parent: Path)
    ensures AllUnder(AllCommands(Walk(p, parent)), MappedPath(p, parent))
    decreases p, 1
  {
    var path := MappedPath(p, parent);
    if p.MultiLeaf? && p.newValues.Some? { SetAllUnder(path, p.newValues.value); }
    assert AllUnder(Commands(Located(parent, p)), path);
    if Inner(p) && p.status != Deleted {
      OwnFirst(p, parent);
      AllCommandsUnder(p.children, path);
    } else {
      assert AllCommands(Walk(p, parent)) == Commands(Located(parent, p));
    }
  }

  lemma {:induction false} AllCommandsUnder(ps: seq<Param>, parent: Path)
    ensures AllUnder(AllCommands(WalkAll(ps, parent)), parent)
    decreases ps, 0
  {
    if ps != [] {
      CommandsUnder(ps[0], parent);
      AllCommandsUnder(ps[1..], parent);
      AllCommandsConcat(Walk(ps[0], parent), WalkAll(ps[1..], parent));
      assert parent <= MappedPath(ps[0], parent);
    }
  }

  /** A rename comes before every command of its subtree, and they all use the new name. */
  lemma RenameFirst(p: Param, parent: Path)
    requires p.TagEntry? && p.status == Changed && p.newName.Some?
    ensures var cmds := AllCommands(Walk(p, parent));
            cmds != [] && cmds[0] == Move(parent, p.name, p.newName.value) &&
            AllUnder(cmds[1..], parent + [p.newName.value])
  {
    var rest := AllCommands(WalkAll(p.children, MappedPath(p, parent)));
    OwnFirst(p, parent);
    assert ([Move(parent, p.name, p.newName.value)] + rest)[1..] == rest;
    AllCommandsUnder(p.children, MappedPath(p, parent));
  }

  /** Nothing below a deleted node is emitted. */
  lemma DeleteAlone(p: Param, parent: Path)
    requires p.status == Deleted
    ensures AllCommands(Walk(p, parent)) == [Delete(MappedPath(p, parent))]
  {
    assert Walk(p, parent) == [Located(parent, p)];
  }
}
