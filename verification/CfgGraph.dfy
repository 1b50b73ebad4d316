/** Control-flow graphs and paths in them. */
module CfgGraph {

  type Block = nat

  /** The successor list of every block, with duplicates where a terminator names a block twice.
      Block 0 is the entry. */
  datatype Function = Function(succ: seq<seq<Block>>) {
    ghost predicate Valid() {
      && |succ| > 0
      && forall b, i :: 0 <= b < |succ| && 0 <= i < |succ[b]| ==> succ[b][i] < |succ|
    }

    predicate Has(b: Block) { b < |succ| }

    ghost predicate Edge(a: Block, b: Block) {
      a < |succ| && b in succ[a]
    }

    /** A walk along edges, given by the blocks it visits. */
    ghost predicate Path(p: seq<Block>) {
      && p != [] && p[0] < |succ|
      && forall i :: 0 <= i < |p| - 1 ==> Edge(p[i], p[i + 1])
    }

    ghost predicate PathBetween(a: Block, p: seq<Block>, b: Block) {
      Path(p) && p[0] == a && p[|p| - 1] == b
    }

    ghost predicate Reaches(a: Block, b: Block) {
      exists p :: PathBetween(a, p, b)
    }
  }

  lemma ReachesItself(f: Function, a: Block)
    requires a < |f.succ|
    ensures f.Reaches(a, a)
  {
    assert f.PathBetween(a, [a], a);
  }

  lemma PathThenEdge(f: Function, a: Block, p: seq<Block>, b: Block, c: Block)
    requires f.PathBetween(a, p, b) && f.Edge(b, c)
    ensures f.PathBetween(a, p + [c], c)
  {
    var q := p + [c];
    forall i | 0 <= i < |q| - 1
      ensures f.Edge(q[i], q[i + 1])
    {
      if i < |p| - 1 {
        assert f.Edge(p[i], p[i + 1]);
      }
    }
  }

  lemma ReachesThenEdge(f: Function, a: Block, b: Block, c: Block)
    requires f.Reaches(a, b) && f.Edge(b, c)
    ensures f.Reaches(a, c)
  {
    var p :| f.PathBetween(a, p, b);
    PathThenEdge(f, a, p, b, c);
  }

  lemma PathJoin(f: Function, a: Block, p: seq<Block>, b: Block, q: seq<Block>, c: Block)
    requires f.PathBetween(a, p, b) && f.PathBetween(b, q, c)
    ensures f.PathBetween(a, p + q[1..], c)
  {
    var r := p + q[1..];
    forall i | 0 <= i < |r| - 1
      ensures f.Edge(r[i], r[i + 1])
    {
      if i < |p| - 1 {
        assert f.Edge(p[i], p[i + 1]);
      } else {
        assert f.Edge(q[i - |p| + 1], q[i - |p| + 2]);
      }
    }
  }

  lemma ReachesTransitive(f: Function, a: Block, b: Block, c: Block)
    requires f.Reaches(a, b) && f.Reaches(b, c)
    ensures f.Reaches(a, c)
  {
    var p :| f.PathBetween(a, p, b);
    var q :| f.PathBetween(b, q, c);
    PathJoin(f, a, p, b, q, c);
  }

  lemma PathSuffix(f: Function, p: seq<Block>, i: nat)
    requires f.Path(p) && i < |p| && f.Valid()
    ensures f.Path(p[i..])
  {
    if i > 0 {
      assert f.Edge(p[i - 1], p[i]);
      var k :| 0 <= k < |f.succ[p[i - 1]]| && f.succ[p[i - 1]][k] == p[i];
    }
    var q := p[i..];
    forall k | 0 <= k < |q| - 1
      ensures f.Edge(q[k], q[k + 1])
    {
      assert f.Edge(p[i + k], p[i + k + 1]);
    }
  }

  /** A set closed under edges contains everything reachable from its members. */
  lemma {:induction false} ClosedContainsPath(f: Function, s: set<Block>, p: seq<Block>)
    requires f.Path(p) && p[0] in s
    requires forall a, b :: a in s && f.Edge(a, b) ==> b in s
    ensures p[|p| - 1] in s
    decreases |p|
  {
    if |p| > 1 {
      ClosedContainsPath(f, s, p[..|p| - 1]);
      assert f.Edge(p[|p| - 2], p[|p| - 1]);
    }
  }
}
