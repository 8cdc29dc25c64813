/**
 A configuration as the daemon behind `Vyatta::Config` and `cfgcli` keeps it: a
 finite tree of words, given by the prefix-closed set of its node paths.  A value
 of a leaf and the name of a tag entry are words below their node.
 */
module Config {

  type Path = seq<string>

  datatype Kind = Container | Single | Multi | Tag

  /** The templates: what `parseTmplAll` says about each path. */
  type Schema = Path -> Kind

  datatype Command = Set(path: Path) | Delete(path: Path) | Move(parent: Path, from: string, to: string)

  ghost predicate Closed(c: set<Path>)
  {
    forall p, q :: q in c && p <= q ==> p in c
  }

  /** No single-valued leaf has two values. */
  ghost predicate OneValue(sch: Schema, c: set<Path>)
  {
    forall p, q, k {:trigger p[..k], q[..k]} ::
      p in c && q in c && 0 <= k < |p| && k < |q| && p[..k] == q[..k] && sch(p[..k]) == Single ==> p[k] == q[k]
  }

  predicate Comparable(p: Path, q: Path)
  {
    p <= q || q <= p
  }

  function Prefixes(p: Path): (r: set<Path>)
    ensures forall q :: q in r <==> q <= p
  {
    var r := set k | 0 <= k <= |p| :: p[..k];
    assert forall q :: q <= p ==> q == p[..|q|];
    r
  }

  /** The words directly below `q`: tag entries or leaf values. */
  function Values(c: set<Path>, q: Path): (r: set<string>)
    ensures forall v :: v in r <==> exists p :: p in c && |q| < |p| && q <= p && p[|q|] == v
  {
    set p | p in c && |q| < |p| && q <= p :: p[|q|]
  }

  /** Setting the value of a single-valued leaf replaces the old one. */
  predicate Replaced(sch: Schema, p: Path, q: Path)
  {
    p != [] &&
    var parent := p[..|p| - 1];
    sch(parent) == Single && |parent| < |q| && parent <= q && q[|parent|] != p[|p| - 1]
  }

  function Renamed(parent: Path, from: string, to: string, p: Path): Path
  {
    if parent + [from] <= p then parent + [to] + p[|parent| + 1..] else p
  }

  function Rename(c: set<Path>, parent: Path, from: string, to: string): set<Path>
  {
    set q | q in c :: Renamed(parent, from, to, q)
  }

  function Exec(sch: Schema, c: set<Path>, cmd: Command): set<Path>
  {
    match cmd
    case Set(p) => (set q | q in c && !Replaced(sch, p, q)) + Prefixes(p)
    case Delete(p) => set q | q in c && !(p <= q)
    case Move(parent, from, to) => Rename(c, parent, from, to)
  }

  function ExecAll(sch: Schema, c: set<Path>, cmds: seq<Command>): set<Path>
    decreases |cmds|
  {
    if cmds == [] then c else ExecAll(sch, Exec(sch, c, cmds[0]), cmds[1..])
  }

  lemma {:induction false} ExecAllConcat(sch: Schema, c: set<Path>, a: seq<Command>, b: seq<Command>)
    ensures ExecAll(sch, c, a + b) == ExecAll(sch, ExecAll(sch, c, a), b)
    decreases |a|
  {
    if a == [] {
      assert a + b == b;
    } else {
      assert (a + b)[1..] == a[1..] + b;
      ExecAllConcat(sch, Exec(sch, c, a[0]), a[1..], b);
    }
  }

  lemma ClosedValues(c: set<Path>, q: Path, v: string)
    requires Closed(c)
    ensures v in Values(c, q) <==> q + [v] in c
  {
    var child := q + [v];
    assert |q| < |child| && q <= child && child[|q|] == v;
    if v in Values(c, q) {
      var p :| p in c && |q| < |p| && q <= p && p[|q|] == v;
      assert child <= p;
    }
  }
}
