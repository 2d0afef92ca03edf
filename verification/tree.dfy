/** The directory tree without bytes: nodes, directories, and how entries come and go. */
module Tree {
  import opened Wrappers
  import opened Bytes
  import opened DirCodec
  import opened ClientSpec
  import opened StoreSpec

  datatype Tree = Tree(nodes: set<nat>, dirs: map<nat, seq<Dirent>>)

  // ---- Entry lists as finite maps ----------------------------------------------------------------

  ghost predicate NamesDistinct(es: seq<Dirent>) {
    forall k, l :: 0 <= k < l < |es| ==> es[k].name != es[l].name
  }

  /** What the entries bind; the first entry of a name counts. */
  function Bindings(es: seq<Dirent>): map<seq<Byte>, U64> {
    if es == [] then map[] else Bindings(es[1..])[es[0].name := es[0].inum]
  }

  lemma {:induction false} BindingsDomain(es: seq<Dirent>, name: seq<Byte>)
    ensures name in Bindings(es) <==> exists k :: 0 <= k < |es| && es[k].name == name
    ensures LookupIn(es, name) == if name in Bindings(es) then Some(Bindings(es)[name]) else None
    ensures LookupIn(es, name).Some? ==>
      exists k :: 0 <= k < |es| && es[k].name == name && es[k].inum == LookupIn(es, name).value
  {
    if es != [] {
      BindingsDomain(es[1..], name);
      forall k | 0 <= k < |es| - 1 ensures es[1..][k] == es[k + 1] {
      }
      assert forall k :: 1 <= k < |es| ==> es[k] == es[1..][k - 1];
    }
  }

  lemma {:induction false} BindingsAppend(es: seq<Dirent>, e: Dirent)
    requires e.name !in Bindings(es)
    ensures Bindings(es + [e]) == Bindings(es)[e.name := e.inum]
  {
    if es != [] {
      assert (es + [e])[1..] == es[1..] + [e];
      BindingsAppend(es[1..], e);
    }
  }

  /** Among distinct names, `Without` drops one entry and keeps the order of the rest. */
  lemma {:induction false} WithoutAt(es: seq<Dirent>, k: nat)
    requires NamesDistinct(es) && k < |es|
    ensures Without(es, es[k].name) == es[..k] + es[k + 1..]
  {
    var name := es[k].name;
    if k == 0 {
      WithoutAbsent(es[1..], name);
    } else {
      WithoutAt(es[1..], k - 1);
      assert es[..k] + es[k + 1..] == [es[0]] + (es[1..][..k - 1] + es[1..][k..]);
    }
  }

  /** `Without` drops exactly the binding of the name. */
  lemma {:induction false} WithoutUnbinds(es: seq<Dirent>, name: seq<Byte>)
    ensures Bindings(Without(es, name)) == Bindings(es) - {name}
  {
    if es != [] {
      WithoutUnbinds(es[1..], name);
      if es[0].name != name {
        assert ([es[0]] + Without(es[1..], name))[1..] == Without(es[1..], name);
        assert Bindings(es) - {name} == (Bindings(es[1..]) - {name})[es[0].name := es[0].inum];
      } else {
        assert Without(es, name) == Without(es[1..], name);
        assert Bindings(es) - {name} == Bindings(es[1..]) - {name};
      }
    }
  }

  lemma {:induction false} WithoutAbsent(es: seq<Dirent>, name: seq<Byte>)
    requires forall k :: 0 <= k < |es| ==> es[k].name != name
    ensures Without(es, name) == es
  {
    if es != [] {
      WithoutAbsent(es[1..], name);
    }
  }

  // ---- The invariant -------------------------------------------------------------------------------

  ghost predicate Edge(t: Tree, i: nat, n: nat) {
    i in t.dirs && exists k :: 0 <= k < |t.dirs[i]| && t.dirs[i][k].inum == n
  }

  ghost predicate Path(t: Tree, p: seq<nat>) {
    p != [] && p[0] == ROOT && forall q :: 0 <= q < |p| - 1 ==> Edge(t, p[q], p[q + 1])
  }

  ghost predicate Reachable(t: Tree, n: nat) {
    exists p :: Path(t, p) && p[|p| - 1] == n
  }

  ghost predicate DirOk(t: Tree, es: seq<Dirent>) {
    && NamesDistinct(es)
    && Printable(es)
    && forall k :: 0 <= k < |es| ==> es[k].inum in t.nodes && es[k].inum != ROOT
  }

  /** No inode has two names. */
  ghost predicate OneName(t: Tree) {
    forall i, k, j, l ::
      i in t.dirs && j in t.dirs && 0 <= k < |t.dirs[i]| && 0 <= l < |t.dirs[j]| ==>
      t.dirs[i][k].inum == t.dirs[j][l].inum ==> i == j && k == l
  }

  ghost predicate TreeInv(t: Tree) {
    && ROOT in t.dirs
    && t.dirs.Keys <= t.nodes
    && (forall i :: i in t.dirs ==> DirOk(t, t.dirs[i]))
    && OneName(t)
    && (forall n :: n in t.nodes ==> Reachable(t, n))
  }

  /** Every node but the root stands in a directory: it is the target of the last edge of its path. */
  lemma EveryNodeNamed(t: Tree, n: nat)
    requires TreeInv(t) && n in t.nodes && n != ROOT
    ensures exists i :: Edge(t, i, n)
  {
    var p :| Path(t, p) && p[|p| - 1] == n;
    assert Edge(t, p[|p| - 2], p[|p| - 2 + 1]);
  }

  // ---- Adding a leaf ---------------------------------------------------------------------------------

  function AddLeaf(t: Tree, i: nat, e: Dirent, isDir: bool): Tree
    requires i in t.dirs
  {
    var dirs := t.dirs[i := t.dirs[i] + [e]];
    Tree(t.nodes + {e.inum as nat}, if isDir then dirs[e.inum := []] else dirs)
  }

  ghost predicate CanAdd(t: Tree, i: nat, e: Dirent) {
    i in t.dirs && e.inum !in t.nodes && e.name !in Bindings(t.dirs[i]) && SlashFree(e.name)
  }

  lemma AddLeafPaths(t: Tree, i: nat, e: Dirent, isDir: bool)
    requires TreeInv(t) && CanAdd(t, i, e)
    ensures forall n :: n in AddLeaf(t, i, e, isDir).nodes ==> Reachable(AddLeaf(t, i, e, isDir), n)
  {
    var t' := AddLeaf(t, i, e, isDir);
    assert e.inum != i;
    forall u, v | Edge(t, u, v) ensures Edge(t', u, v) {
      var k :| 0 <= k < |t.dirs[u]| && t.dirs[u][k].inum == v;
      assert u != e.inum && t'.dirs[u][k] == t.dirs[u][k];
    }
    forall n | n in t.nodes ensures Reachable(t', n) {
      var p :| Path(t, p) && p[|p| - 1] == n;
      assert Path(t', p);
    }
    var p :| Path(t', p) && p[|p| - 1] == i;
    var q := p + [e.inum as nat];
    assert t'.dirs[i][|t.dirs[i]|] == e;
    assert Edge(t', i, e.inum);
    assert Path(t', q);
  }

  lemma AddLeafOneName(t: Tree, i: nat, e: Dirent, isDir: bool)
    requires TreeInv(t) && CanAdd(t, i, e)
    ensures OneName(AddLeaf(t, i, e, isDir))
  {
    var t' := AddLeaf(t, i, e, isDir);
    forall a, k, b, l | a in t'.dirs && b in t'.dirs && 0 <= k < |t'.dirs[a]| && 0 <= l < |t'.dirs[b]| &&
        t'.dirs[a][k].inum == t'.dirs[b][l].inum
      ensures a == b && k == l
    {
      AddLeafEntry(t, i, e, isDir, a, k);
      AddLeafEntry(t, i, e, isDir, b, l);
    }
  }

  /** An entry of the new tree is an old one or the new leaf's. */
  lemma AddLeafEntry(t: Tree, i: nat, e: Dirent, isDir: bool, a: nat, k: nat)
    requires TreeInv(t) && CanAdd(t, i, e)
    requires a in AddLeaf(t, i, e, isDir).dirs && k < |AddLeaf(t, i, e, isDir).dirs[a]|
    ensures var d := AddLeaf(t, i, e, isDir).dirs[a][k];
      if a == i && k == |t.dirs[i]| then d == e
      else a in t.dirs && k < |t.dirs[a]| && d == t.dirs[a][k] && d.inum in t.nodes && d.inum != e.inum
  {
  }

  /** A fresh leaf under an unbound name keeps the tree a tree. */
  lemma AddLeafInv(t: Tree, i: nat, e: Dirent, isDir: bool)
    requires TreeInv(t) && CanAdd(t, i, e) && e.inum != ROOT
    ensures TreeInv(AddLeaf(t, i, e, isDir))
  {
    hide OneName, Reachable;
    AddLeafPaths(t, i, e, isDir);
    AddLeafOneName(t, i, e, isDir);
    AddLeafDirs(t, i, e, isDir);
  }

  lemma AddLeafDirs(t: Tree, i: nat, e: Dirent, isDir: bool)
    requires TreeInv(t) && CanAdd(t, i, e) && e.inum != ROOT
    ensures var t' := AddLeaf(t, i, e, isDir); forall a :: a in t'.dirs ==> DirOk(t', t'.dirs[a])
  {
    hide OneName, Reachable, Bindings;
    var t' := AddLeaf(t, i, e, isDir);
    forall a | a in t'.dirs ensures DirOk(t', t'.dirs[a]) {
      if a in t.dirs {
        assert DirOk(t, t.dirs[a]);
        BindingsDomain(t.dirs[i], e.name);
      }
    }
  }

  // ---- Removing a leaf ---------------------------------------------------------------------------------

  function RemoveLeaf(t: Tree, i: nat, k: nat): Tree
    requires i in t.dirs && k < |t.dirs[i]|
  {
    Tree(t.nodes - {t.dirs[i][k].inum as nat}, t.dirs[i := t.dirs[i][..k] + t.dirs[i][k + 1..]])
  }

  /** An entry that stays was there before, at its place in the old list. */
  function OldIndex(i: nat, k: nat, a: nat, l: nat): nat {
    if a == i && l >= k then l + 1 else l
  }

  lemma RemoveLeafEntry(t: Tree, i: nat, k: nat, a: nat, l: nat)
    requires TreeInv(t) && i in t.dirs && k < |t.dirs[i]| && t.dirs[i][k].inum !in t.dirs
    requires a in t.dirs && l < |RemoveLeaf(t, i, k).dirs[a]|
    ensures var d, m := RemoveLeaf(t, i, k).dirs[a][l], OldIndex(i, k, a, l);
      m < |t.dirs[a]| && d == t.dirs[a][m] && d.inum != t.dirs[i][k].inum
  {
    assert OneName(t);
  }

  lemma RemoveLeafPaths(t: Tree, i: nat, k: nat, n: nat)
    requires TreeInv(t) && i in t.dirs && k < |t.dirs[i]| && t.dirs[i][k].inum !in t.dirs
    requires n in t.nodes && n != t.dirs[i][k].inum
    ensures Reachable(RemoveLeaf(t, i, k), n)
  {
    hide DirOk, OneName, RemoveLeaf;
    var t' := RemoveLeaf(t, i, k);
    var gone: nat := t.dirs[i][k].inum;
    var p :| Path(t, p) && p[|p| - 1] == n;
    forall q | 0 <= q < |p| - 1 ensures Edge(t', p[q], p[q + 1]) {
      if q + 1 < |p| - 1 {
        assert Edge(t, p[q + 1], p[q + 1 + 1]);
      }
      EdgeStays(t, i, k, p[q], p[q + 1]);
    }
    assert Path(t', p);
  }

  lemma EdgeStays(t: Tree, i: nat, k: nat, u: nat, v: nat)
    requires i in t.dirs && k < |t.dirs[i]| && Edge(t, u, v) && v != t.dirs[i][k].inum
    ensures Edge(RemoveLeaf(t, i, k), u, v)
  {
    var l :| 0 <= l < |t.dirs[u]| && t.dirs[u][l].inum == v;
    if u == i {
      assert RemoveLeaf(t, i, k).dirs[i][if l < k then l else l - 1] == t.dirs[i][l];
    }
  }

  /** Removing a file's only name with the file keeps the tree a tree. */
  lemma RemoveLeafInv(t: Tree, i: nat, k: nat)
    requires TreeInv(t) && i in t.dirs && k < |t.dirs[i]| && t.dirs[i][k].inum !in t.dirs
    ensures TreeInv(RemoveLeaf(t, i, k))
  {
    var t' := RemoveLeaf(t, i, k);
    assert DirOk(t, t.dirs[i]);
    forall n | n in t'.nodes ensures Reachable(t', n) {
      RemoveLeafPaths(t, i, k, n);
    }
    forall a, l, b, m | a in t'.dirs && b in t'.dirs && 0 <= l < |t'.dirs[a]| && 0 <= m < |t'.dirs[b]| &&
        t'.dirs[a][l].inum == t'.dirs[b][m].inum
      ensures a == b && l == m
    {
      RemoveLeafEntry(t, i, k, a, l);
      RemoveLeafEntry(t, i, k, b, m);
    }
    forall a | a in t'.dirs ensures DirOk(t', t'.dirs[a]) {
      RemoveLeafDir(t, i, k, a);
    }
  }

  lemma RemoveLeafDir(t: Tree, i: nat, k: nat, a: nat)
    requires TreeInv(t) && i in t.dirs && k < |t.dirs[i]| && t.dirs[i][k].inum !in t.dirs && a in t.dirs
    ensures DirOk(RemoveLeaf(t, i, k), RemoveLeaf(t, i, k).dirs[a])
  {
    var t' := RemoveLeaf(t, i, k);
    var es := t'.dirs[a];
    assert DirOk(t, t.dirs[a]);
    forall l | 0 <= l < |es| ensures es[l].inum in t'.nodes && es[l].inum != ROOT && SlashFree(es[l].name) {
      RemoveLeafEntry(t, i, k, a, l);
    }
  }
}
