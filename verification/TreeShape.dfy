/**
 What `Tree` buys: every live directory has exactly one chain of entries from the root, and no chain
 ever comes back to where it started.
 */
module TreeShape {
  import opened Basics
  import opened Engine
  import opened Namespace
  import opened Visible

  /** Each node of the chain is an entry of the one before. */
  ghost predicate IsChain(nodes: map<Id, Node>, path: seq<Id>) {
    && path != []
    && forall i :: 0 <= i < |path| - 1 ==> KidOf(nodes, path[i], path[i + 1])
  }

  ghost predicate ChainTo(nodes: map<Id, Node>, d: Id, path: seq<Id>, x: Id) {
    IsChain(nodes, path) && path[0] == d && path[|path| - 1] == x
  }

  /** `x` is `d` or lies somewhere below it. */
  ghost predicate Inside(nodes: map<Id, Node>, d: Id, x: Id) {
    exists path :: ChainTo(nodes, d, path, x)
  }

  lemma {:induction false} InsideSelf(nodes: map<Id, Node>, d: Id)
    ensures Inside(nodes, d, d)
  {
    assert ChainTo(nodes, d, [d], d);
  }

  lemma {:induction false} InsideKid(nodes: map<Id, Node>, d: Id, p: Id, x: Id)
    requires Inside(nodes, d, p) && KidOf(nodes, p, x)
    ensures Inside(nodes, d, x)
  {
    var path :| ChainTo(nodes, d, path, p);
    var longer := path + [x];
    forall i | 0 <= i < |longer| - 1 ensures KidOf(nodes, longer[i], longer[i + 1]) {
      if i < |path| - 1 {
        assert KidOf(nodes, path[i], path[i + 1]);
      }
    }
    assert ChainTo(nodes, d, longer, x);
  }

  /** Every directory is reached from the root. */
  lemma {:induction false} RootReaches(nodes: map<Id, Node>, rank: map<Id, nat>, x: Id)
    requires Tree(nodes) && Ranked(nodes, rank) && IsDir(nodes, x)
    ensures Inside(nodes, ROOT, x)
    decreases if x in rank then rank[x] else 0
  {
    if x == ROOT {
      InsideSelf(nodes, ROOT);
    } else {
      assert HasName(nodes, x);
      var p, n :| Named(nodes, p, n, x);
      assert rank[p] < rank[x];
      RootReaches(nodes, rank, p);
      InsideKid(nodes, ROOT, p, x);
    }
  }

  /** Ranks grow along a chain of directories. */
  lemma {:induction false} ChainRanks(nodes: map<Id, Node>, rank: map<Id, nat>, path: seq<Id>)
    requires Tree(nodes) && Ranked(nodes, rank) && IsChain(nodes, path) && IsDir(nodes, path[|path| - 1])
    requires |path| > 1
    ensures path[0] in rank && path[|path| - 1] in rank && rank[path[0]] < rank[path[|path| - 1]]
    decreases |path|
  {
    assert KidOf(nodes, path[0], path[1]);
    if |path| > 2 {
      var rest := path[1..];
      forall i | 0 <= i < |rest| - 1 ensures KidOf(nodes, rest[i], rest[i + 1]) {
        assert KidOf(nodes, path[i + 1], path[i + 2]);
      }
      ChainRanks(nodes, rank, rest);
      assert KidOf(nodes, path[1], path[2]);
      assert IsDir(nodes, path[1]);
    }
  }

  /** No directory is below itself. */
  lemma {:induction false} NoCycles(nodes: map<Id, Node>, path: seq<Id>)
    requires Tree(nodes) && IsChain(nodes, path) && |path| > 1 && IsDir(nodes, path[|path| - 1])
    ensures path[0] != path[|path| - 1]
  {
    var rank :| Ranked(nodes, rank);
    ChainRanks(nodes, rank, path);
  }

  /** There is only one chain from the root to a node: no node has two names, at any depth. */
  lemma {:induction false} OneChain(nodes: map<Id, Node>, a: seq<Id>, b: seq<Id>)
    requires Tree(nodes) && IsChain(nodes, a) && IsChain(nodes, b)
    requires a[0] == ROOT && b[0] == ROOT && a[|a| - 1] == b[|b| - 1]
    ensures a == b
    decreases |a|
  {
    if a[|a| - 1] == ROOT {
      RootEndsChain(nodes, a);
      RootEndsChain(nodes, b);
    } else {
      var a', b' := a[..|a| - 1], b[..|b| - 1];
      LastHasParent(nodes, a);
      LastHasParent(nodes, b);
      ChainPrefix(nodes, a);
      ChainPrefix(nodes, b);
      OneChain(nodes, a', b');
      assert a == a' + [a[|a| - 1]] && b == b' + [b[|b| - 1]];
    }
  }

  /** Nothing has the root in it. */
  lemma {:induction false} RootEndsChain(nodes: map<Id, Node>, a: seq<Id>)
    requires Tree(nodes) && IsChain(nodes, a) && a[|a| - 1] == ROOT
    ensures |a| == 1
  {
    assert forall p :: !KidOf(nodes, p, ROOT);
    if |a| > 1 {
      LastHasParent(nodes, a);
    }
  }

  lemma {:induction false} LastHasParent(nodes: map<Id, Node>, a: seq<Id>)
    requires IsChain(nodes, a) && |a| > 1
    ensures KidOf(nodes, a[|a| - 2], a[|a| - 1])
  {
    assert KidOf(nodes, a[|a| - 2], a[|a| - 2 + 1]);
  }

  lemma {:induction false} ChainPrefix(nodes: map<Id, Node>, a: seq<Id>)
    requires IsChain(nodes, a) && |a| > 1
    ensures IsChain(nodes, a[..|a| - 1])
  {
    var a' := a[..|a| - 1];
    forall i | 0 <= i < |a'| - 1 ensures KidOf(nodes, a'[i], a'[i + 1]) {
      assert KidOf(nodes, a[i], a[i + 1]);
    }
  }

  ghost predicate OnlyChain(nodes: map<Id, Node>, path: seq<Id>, x: Id) {
    ChainTo(nodes, ROOT, path, x) && forall other :: ChainTo(nodes, ROOT, other, x) ==> other == path
  }

  ghost predicate OnlyName(nodes: map<Id, Node>, p: Id, n: Bytes, x: Id) {
    Named(nodes, p, n, x) && forall q, m :: Named(nodes, q, m, x) ==> q == p && m == n
  }

  /**
   The namespace is a tree: each live directory but the root is named by exactly one entry of one live
   directory, and exactly one chain of entries leads to it from the root.
   */
  lemma {:induction false} NamespaceIsTree(nodes: map<Id, Node>, x: Id)
    requires Tree(nodes) && IsDir(nodes, x)
    ensures exists path :: OnlyChain(nodes, path, x)
    ensures if x == ROOT then !HasName(nodes, ROOT) else exists p, n :: OnlyName(nodes, p, n, x)
  {
    var rank :| Ranked(nodes, rank);
    RootReaches(nodes, rank, x);
    var path :| ChainTo(nodes, ROOT, path, x);
    forall other | ChainTo(nodes, ROOT, other, x) ensures other == path {
      OneChain(nodes, other, path);
    }
    assert OnlyChain(nodes, path, x);
    if x != ROOT {
      assert HasName(nodes, x);
      var p, n :| Named(nodes, p, n, x);
      assert OnlyName(nodes, p, n, x);
    }
  }
}
