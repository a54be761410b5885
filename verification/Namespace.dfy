/** The namespace of memoryshare/memory_fs.go on values: a graph of nodes with per-directory maps and
    parent pointers, the changes the operations make to it, and the flat map from paths to nodes that
    the graph stands for. */
module Namespace {
  import opened Bytes

  /** A cleaned absolute path: its components, outermost first. The root is []. */
  type Path = seq<string>

  /** The fields of a MemoryNode. N identifies nodes. */
  datatype Node<N> = Node(
    name: string,
    isDir: bool,
    content: Bytes,
    size: nat,
    kids: map<string, N>,
    parent: Option<N>,
    inode: nat,
    xattrs: map<string, Bytes>)

  type Graph<N> = map<N, Node<N>>

  /** path.Dir and path.Base; both give the root for the root. */
  function Dir(p: Path): Path { if p == [] then [] else p[..|p| - 1] }
  function Base(p: Path): string { if p == [] then "/" else p[|p| - 1] }

  /** The node reached from n by following the components of p. */
  ghost function Walk<N>(g: Graph<N>, n: N, p: Path): Option<N>
    decreases |p|
  {
    if p == [] then Some(n)
    else if n !in g || p[0] !in g[n].kids then None
    else Walk(g, g[n].kids[p[0]], p[1..])
  }

  /** One more component. */
  ghost function Step<N>(g: Graph<N>, from: Option<N>, k: string): Option<N> {
    if from.None? || from.value !in g || k !in g[from.value].kids then None else Some(g[from.value].kids[k])
  }

  lemma {:induction false} WalkSnoc<N>(g: Graph<N>, n: N, p: Path, k: string)
    ensures Walk(g, n, p + [k]) == Step(g, Walk(g, n, p), k)
    decreases |p|
  {
    if p == [] {
      assert ([] + [k])[1..] == [];
    } else {
      assert (p + [k])[1..] == p[1..] + [k];
      if n in g && p[0] in g[n].kids { WalkSnoc(g, g[n].kids[p[0]], p[1..], k); }
    }
  }

  lemma {:induction false} WalkConcat<N>(g: Graph<N>, n: N, p: Path, q: Path)
    ensures Walk(g, n, p + q) == if Walk(g, n, p).None? then None else Walk(g, Walk(g, n, p).value, q)
    decreases |q|
  {
    if q == [] {
      assert p + q == p;
    } else {
      var q0, k := q[..|q| - 1], q[|q| - 1];
      assert p + q == p + q0 + [k] && q == q0 + [k];
      WalkConcat(g, n, p, q0);
      WalkSnoc(g, n, p + q0, k);
      if Walk(g, n, p).Some? { WalkSnoc(g, Walk(g, n, p).value, q0, k); }
    }
  }

  // ----- the link invariant -----

  /** Every directory entry (d, k) -> c has c.name == k and c.parent == d; entries stay inside the graph. */
  ghost predicate Links<N>(g: Graph<N>) {
    forall d, k :: d in g && k in g[d].kids ==> Linked(g, d, k)
  }

  ghost predicate Linked<N>(g: Graph<N>, d: N, k: string)
    requires d in g && k in g[d].kids
  {
    var c := g[d].kids[k];
    c in g && g[c].name == k && g[c].parent == Some(d)
  }

  /** The root is a directory that was never moved below anything. */
  ghost predicate Rooted<N>(g: Graph<N>, root: N) {
    root in g && g[root].parent == None && g[root].isDir
  }

  /** Only directories have entries. */
  ghost predicate FilesAreLeaves<N>(g: Graph<N>) {
    forall d, k :: d in g && k in g[d].kids ==> g[d].isDir
  }

  /** No node has two directory entries. */
  lemma SingleEntry<N>(g: Graph<N>, d: N, k: string, e: N, l: string)
    requires Links(g) && d in g && e in g && k in g[d].kids && l in g[e].kids
    requires g[d].kids[k] == g[e].kids[l]
    ensures d == e && k == l
  {
    assert Linked(g, d, k) && Linked(g, e, l);
  }

  lemma {:induction false} WalkStays<N>(g: Graph<N>, n: N, p: Path)
    requires Links(g) && n in g
    ensures Walk(g, n, p).Some? ==> Walk(g, n, p).value in g
    decreases |p|
  {
    if p != [] && p[0] in g[n].kids {
      assert Linked(g, n, p[0]);
      WalkStays(g, g[n].kids[p[0]], p[1..]);
    }
  }

  /** From an unmoved root every node is reached by at most one path: what hangs below the root is a tree,
      with no sharing and no cycle. */
  lemma {:induction false} UniquePath<N>(g: Graph<N>, root: N, p: Path, q: Path)
    requires Links(g) && Rooted(g, root)
    requires Walk(g, root, p).Some? && Walk(g, root, p) == Walk(g, root, q)
    ensures p == q
    decreases |p| + |q|
  {
    if p == [] && q == [] {
    } else if p == [] || q == [] {
      LastStep(g, root, if p == [] then q else p);
    } else {
      LastStep(g, root, p);
      LastStep(g, root, q);
      UniquePath(g, root, Dir(p), Dir(q));
      assert p == Dir(p) + [Base(p)] && q == Dir(q) + [Base(q)];
    }
  }

  /** The last step of a successful walk is a linked entry. */
  lemma LastStep<N>(g: Graph<N>, root: N, p: Path)
    requires Links(g) && root in g && p != [] && Walk(g, root, p).Some?
    ensures var d := Walk(g, root, Dir(p)); d.Some? && d.value in g && Base(p) in g[d.value].kids
    ensures var c := Walk(g, root, p).value; c in g && g[c].name == Base(p) && g[c].parent == Walk(g, root, Dir(p))
  {
    assert p == Dir(p) + [Base(p)];
    WalkSnoc(g, root, Dir(p), Base(p));
    WalkStays(g, root, Dir(p));
    assert Linked(g, Walk(g, root, Dir(p)).value, Base(p));
  }

  // ----- the changes -----

  /** children[name] = child in directory d, for a child that is already a node. */
  ghost function Attach<N>(g: Graph<N>, d: N, name: string, child: N): Graph<N>
    requires d in g && child in g
  {
    var g1 := g[child := g[child].(name := name, parent := Some(d))];
    g1[d := g1[d].(kids := g1[d].kids[name := child])]
  }

  /** delete(parent.children, n.name) */
  ghost function Detach<N>(g: Graph<N>, n: N): Graph<N>
    requires n in g && g[n].parent.Some? && g[n].parent.value in g
  {
    var d := g[n].parent.value;
    g[d := g[d].(kids := g[d].kids - {g[n].name})]
  }

  /** A new node: no children yet, entered under its name in d. */
  ghost function Create<N>(g: Graph<N>, d: N, fresh_: N, node: Node<N>): Graph<N>
    requires d in g && fresh_ !in g
  {
    Attach(g[fresh_ := node.(kids := map[])], d, node.name, fresh_)
  }

  /** What Rename does once its checks have passed. */
  ghost function Move<N>(g: Graph<N>, n: N, d: N, name: string): Graph<N>
    requires n in g && d in g
    requires g[n].parent.Some? ==> g[n].parent.value in g
  {
    Attach(if g[n].parent.Some? then Detach(g, n) else g, d, name, n)
  }

  /** Parent pointers stay inside the graph, also those of unlinked and replaced nodes. */
  ghost predicate ParentsInside<N>(g: Graph<N>) {
    forall n :: n in g && g[n].parent.Some? ==> g[n].parent.value in g
  }

  /** Creation, node by node. */
  lemma CreateAt<N>(g: Graph<N>, d: N, n: N, node: Node<N>)
    requires d in g && n !in g
    ensures var g' := Create(g, d, n, node);
            && g'.Keys == g.Keys + {n}
            && g'[n] == node.(kids := map[], parent := Some(d))
            && g'[d] == g[d].(kids := g[d].kids[node.name := n])
            && forall m :: m in g && m != d ==> g'[m] == g[m]
  {
  }

  /** Attachment, node by node. */
  lemma AttachAt<N>(g: Graph<N>, d: N, name: string, child: N)
    requires d in g && child in g
    ensures var g' := Attach(g, d, name, child);
            && g'.Keys == g.Keys
            && g'[child].name == name && g'[child].parent == Some(d)
            && g'[d].kids == g[d].kids[name := child]
            && (forall m :: m in g && m != d ==> g'[m].kids == g[m].kids)
            && (forall m :: m in g && m != child ==> g'[m].name == g[m].name && g'[m].parent == g[m].parent)
            && (forall m :: m in g ==> g'[m].inode == g[m].inode && g'[m].isDir == g[m].isDir &&
                                       g'[m].size == g[m].size && g'[m].content == g[m].content)
  {
  }

  lemma CreateKeys<N>(g: Graph<N>, d: N, n: N, node: Node<N>)
    requires d in g && n !in g
    ensures Create(g, d, n, node).Keys == g.Keys + {n}
  {
  }

  /** Every node, linked or not, keeps the invariant through a creation. */
  lemma CreateKeepsLinks<N>(g: Graph<N>, d: N, n: N, node: Node<N>)
    requires Links(g) && ParentsInside(g) && d in g && n !in g
    ensures Links(Create(g, d, n, node)) && ParentsInside(Create(g, d, n, node))
  {
    var g' := Create(g, d, n, node);
    forall e, k | e in g' && k in g'[e].kids ensures Linked(g', e, k) {
      if e != n && !(e == d && k == node.name) { assert Linked(g, e, k); }
    }
  }

  lemma DetachKeepsLinks<N>(g: Graph<N>, n: N)
    requires Links(g) && ParentsInside(g) && n in g && g[n].parent.Some?
    ensures var g' := Detach(g, n); Links(g') && ParentsInside(g')
    ensures var g' := Detach(g, n); forall d, k :: d in g' && k in g'[d].kids ==> g'[d].kids[k] != n
  {
    var g' := Detach(g, n);
    forall e, k | e in g' && k in g'[e].kids ensures Linked(g', e, k) && g'[e].kids[k] != n {
      assert Linked(g, e, k);
    }
  }

  /** Moving any node anywhere - detached, replaced, the root, or below itself - keeps every link. */
  lemma MoveKeepsLinks<N>(g: Graph<N>, n: N, d: N, name: string)
    requires Links(g) && ParentsInside(g) && n in g && d in g
    ensures var g' := Move(g, n, d, name); Links(g') && ParentsInside(g')
  {
    hide Detach, Attach;
    if g[n].parent.Some? {
      DetachKeepsLinks(g, n);
      DetachKeys(g, n);
      AttachKeepsLinks(Detach(g, n), d, name, n);
    } else {
      hide Links;
      NoEntryToRoot(g, n);
      AttachKeepsLinks(g, d, name, n);
    }
  }

  lemma DetachKeys<N>(g: Graph<N>, n: N)
    requires n in g && g[n].parent.Some? && g[n].parent.value in g
    ensures Detach(g, n).Keys == g.Keys
  {
  }

  lemma NoEntryToRoot<N>(g: Graph<N>, n: N)
    requires Links(g) && n in g && g[n].parent.None?
    ensures forall d, k :: d in g && k in g[d].kids ==> g[d].kids[k] != n
  {
    forall d, k | d in g && k in g[d].kids ensures g[d].kids[k] != n { assert Linked(g, d, k); }
  }

  /** Entering a node that no entry leads to. */
  lemma AttachKeepsLinks<N>(g: Graph<N>, d: N, name: string, n: N)
    requires Links(g) && ParentsInside(g) && n in g && d in g
    requires forall e, k :: e in g && k in g[e].kids ==> g[e].kids[k] != n
    ensures var g' := Attach(g, d, name, n); Links(g') && ParentsInside(g')
  {
    var g' := Attach(g, d, name, n);
    forall e, k | e in g' && k in g'[e].kids ensures Linked(g', e, k) {
      if !(e == d && k == name) {
        assert Linked(g, e, k);
        assert g[e].kids[k] != n;
      }
    }
  }

  // ----- the flat map -----

  lemma PrefixSnoc(p: Path, q: Path, k: string)
    ensures p <= q + [k] <==> p <= q || p == q + [k]
  {
    if p <= q + [k] && p != q + [k] { assert p == (q + [k])[..|p|] == q[..|p|]; }
    if p <= q { assert p == q[..|p|] == (q + [k])[..|p|]; }
  }

  lemma SnocInjective(p: Path, k: string, q: Path, l: string)
    requires p + [k] == q + [l]
    ensures p == q && k == l
  {
    assert p == (p + [k])[..|p|] == (q + [l])[..|q|] == q;
    assert k == (p + [k])[|p|] == (q + [l])[|q|] == l;
  }

  lemma CreateStep<N>(g: Graph<N>, d: N, n: N, node: Node<N>, m: N, k: string)
    requires d in g && n !in g && m != n
    ensures Step(Create(g, d, n, node), Some(m), k) ==
            if m == d && k == node.name then Some(n) else Step(g, Some(m), k)
    ensures Step(Create(g, d, n, node), Some(n), k) == None
  {
  }

  /** Creation adds the one path, and hides what was below that path before. */
  lemma {:induction false} CreateMap<N>(g: Graph<N>, root: N, at: Path, d: N, n: N, node: Node<N>, q: Path)
    requires Links(g) && Rooted(g, root) && n !in g
    requires Walk(g, root, at) == Some(d) && d in g
    ensures Walk(Create(g, d, n, node), root, q) ==
            if at + [node.name] <= q then (if q == at + [node.name] then Some(n) else None) else Walk(g, root, q)
    decreases |q|
  {
    var new_ := at + [node.name];
    if q != [] {
      hide Walk, Links;
      var q0, k := Dir(q), Base(q);
      assert q == q0 + [k];
      CreateMap(g, root, at, d, n, node, q0);
      WalkSnoc(Create(g, d, n, node), root, q0, k);
      WalkSnoc(g, root, q0, k);
      PrefixSnoc(new_, q0, k);
      if new_ <= q0 {
        CreateStep(g, d, n, node, d, k);
      } else if Walk(g, root, q0).Some? {
        WalkStays(g, root, q0);
        CreateStep(g, d, n, node, Walk(g, root, q0).value, k);
        if Walk(g, root, q0).value == d { UniquePath(g, root, q0, at); }
        if q == new_ { SnocInjective(q0, k, at, node.name); }
      } else if q == new_ {
        SnocInjective(q0, k, at, node.name);
      }
    }
  }

  /** Unlinking the node that stands at path p drops exactly the paths under p. */
  lemma {:induction false} DetachMap<N>(g: Graph<N>, root: N, n: N, at: Path, q: Path)
    requires Links(g) && Rooted(g, root) && n in g && g[n].parent.Some? && g[n].parent.value in g
    requires Walk(g, root, at) == g[n].parent
    ensures Walk(Detach(g, n), root, q) == if at + [g[n].name] <= q then None else Walk(g, root, q)
    decreases |q|
  {
    var gone := at + [g[n].name];
    if q != [] {
      hide Walk, Links;
      var q0, k := Dir(q), Base(q);
      assert q == q0 + [k];
      DetachMap(g, root, n, at, q0);
      WalkSnoc(Detach(g, n), root, q0, k);
      WalkSnoc(g, root, q0, k);
      PrefixSnoc(gone, q0, k);
      if !(gone <= q0) && Walk(g, root, q0) == g[n].parent { UniquePath(g, root, q0, at); }
      if q == gone { SnocInjective(q0, k, at, g[n].name); }
    }
  }

  // ----- stale nodes: a node that no longer stands under its name -----

  ghost predicate Reached<N>(g: Graph<N>, root: N, d: N) {
    exists p: Path :: Walk(g, root, p) == Some(d)
  }

  /** The path leads through node n. */
  ghost predicate Through<N>(g: Graph<N>, root: N, q: Path, n: N) {
    exists i :: 0 <= i <= |q| && Walk(g, root, q[..i]) == Some(n)
  }

  /** Another node stands under n's name in n's parent, and the parent is in the tree. */
  ghost predicate Displaced<N>(g: Graph<N>, root: N, n: N) {
    && n in g && g[n].parent.Some? && g[n].parent.value in g && Reached(g, root, g[n].parent.value)
    && var d := g[g[n].parent.value];
       g[n].name in d.kids && d.kids[g[n].name] != n
  }

  /** A path that is no business of n's is lost or changes its node. */
  ghost predicate Harmed<N>(g: Graph<N>, g': Graph<N>, root: N, n: N, q: Path) {
    Walk(g, root, q).Some? && !Through(g, root, q, n) && Walk(g', root, q) != Walk(g, root, q)
  }

  /** A displaced node stands nowhere. */
  lemma DisplacedIsNowhere<N>(g: Graph<N>, root: N, n: N, p: Path)
    requires Links(g) && Rooted(g, root) && Displaced(g, root, n)
    ensures Walk(g, root, p) != Some(n)
  {
    hide Walk, Reached;
    if Walk(g, root, p) == Some(n) {
      RootPath(g, root, p);
      if p != [] {
        LastStep(g, root, p);
        assert p == Dir(p) + [Base(p)];
        WalkSnoc(g, root, Dir(p), Base(p));
      }
    }
  }

  lemma RootPath<N>(g: Graph<N>, root: N, p: Path)
    ensures p == [] ==> Walk(g, root, p) == Some(root)
  {
  }

  lemma {:induction false} DetachUnreached<N>(g: Graph<N>, root: N, n: N, q: Path)
    requires Links(g) && root in g && n in g && g[n].parent.Some? && g[n].parent.value in g
    requires !Reached(g, root, g[n].parent.value)
    ensures Walk(Detach(g, n), root, q) == Walk(g, root, q)
    decreases |q|
  {
    if q != [] {
      hide Walk, Links;
      var q0, k := Dir(q), Base(q);
      assert q == q0 + [k];
      DetachUnreached(g, root, n, q0);
      WalkSnoc(Detach(g, n), root, q0, k);
      WalkSnoc(g, root, q0, k);
      assert Walk(g, root, q0) != g[n].parent;
    }
  }

  /** Removing n's entry harms another path if and only if n is displaced. */
  lemma DetachHarmsIff<N>(g: Graph<N>, root: N, n: N)
    requires Links(g) && Rooted(g, root) && n in g && g[n].parent.Some? && g[n].parent.value in g
    ensures (exists q :: Harmed(g, Detach(g, n), root, n, q)) <==> Displaced(g, root, n)
  {
    hide Walk, Links, Detach, Harmed, Through;
    var d := g[n].parent.value;
    if Reached(g, root, d) {
      var at :| Walk(g, root, at) == Some(d);
      if Displaced(g, root, n) {
        DetachHarms(g, root, n, at);
      } else {
        forall q ensures !Harmed(g, Detach(g, n), root, n, q) { DetachSpares(g, root, n, at, q); }
      }
    } else {
      forall q ensures !Harmed(g, Detach(g, n), root, n, q) {
        DetachUnreached(g, root, n, q);
        Unharmed(g, Detach(g, n), root, n, q);
      }
    }
  }

  lemma Unharmed<N>(g: Graph<N>, g': Graph<N>, root: N, n: N, q: Path)
    requires Walk(g', root, q) == Walk(g, root, q)
    ensures !Harmed(g, g', root, n, q)
  {
  }

  /** The path under n's name in its parent is lost. */
  lemma DetachHarms<N>(g: Graph<N>, root: N, n: N, at: Path)
    requires Links(g) && Rooted(g, root) && Displaced(g, root, n) && Walk(g, root, at) == g[n].parent
    ensures Harmed(g, Detach(g, n), root, n, at + [g[n].name])
  {
    hide Walk, Links, Detach;
    var q := at + [g[n].name];
    DetachMap(g, root, n, at, q);
    WalkSnoc(g, root, at, g[n].name);
    forall i | 0 <= i <= |q| ensures Walk(g, root, q[..i]) != Some(n) { DisplacedIsNowhere(g, root, n, q[..i]); }
  }

  lemma DetachSpares<N>(g: Graph<N>, root: N, n: N, at: Path, q: Path)
    requires Links(g) && Rooted(g, root) && n in g && g[n].parent.Some? && g[n].parent.value in g
    requires Walk(g, root, at) == g[n].parent && !Displaced(g, root, n)
    ensures !Harmed(g, Detach(g, n), root, n, q)
  {
    hide Walk, Links, Detach;
    var gone := at + [g[n].name];
    DetachMap(g, root, n, at, q);
    if gone <= q && Walk(g, root, q).Some? {
      PrefixReached(g, root, gone, q);
      WalkSnoc(g, root, at, g[n].name);
      assert q[..|gone|] == gone;
    }
  }

  /** Away from the new entry an attachment changes no path, if d stands nowhere else. */
  lemma {:induction false} AttachElsewhere<N>(g: Graph<N>, root: N, d: N, to: Path, name: string, n: N, q: Path)
    requires d in g && n in g && !(to + [name] <= q)
    requires forall p :: Walk(g, root, p) == Some(d) ==> p == to
    ensures Walk(Attach(g, d, name, n), root, q) == Walk(g, root, q)
    decreases |q|
  {
    if q != [] {
      hide Walk;
      var q0, k := Dir(q), Base(q);
      assert q == q0 + [k];
      PrefixSnoc(to + [name], q0, k);
      AttachElsewhere(g, root, d, to, name, n, q0);
      WalkSnoc(Attach(g, d, name, n), root, q0, k);
      WalkSnoc(g, root, q0, k);
      AttachAt(g, d, name, n);
      hide Attach;
      assert Walk(g, root, q0) == Some(d) ==> q0 == to;
      assert q0 == to && k == name ==> q == to + [name];
    }
  }

  /** n displaced, and what stands in its place is not under the new path anyway. */
  ghost predicate DisplacedOutside<N>(g: Graph<N>, root: N, n: N, new_: Path) {
    Displaced(g, root, n) && exists at: Path :: Walk(g, root, at) == g[n].parent && !(new_ <= at + [g[n].name])
  }

  /** Moving n harms a path outside the new place if and only if n is displaced and its old place is not under
      the new one. */
  lemma MoveHarmsIff<N>(g: Graph<N>, root: N, n: N, d: N, to: Path, name: string)
    requires Links(g) && Rooted(g, root) && n in g && (g[n].parent.Some? ==> g[n].parent.value in g)
    requires Walk(g, root, to) == Some(d) && d in g
    ensures (exists q :: !(to + [name] <= q) && Harmed(g, Move(g, n, d, name), root, n, q))
            <==> DisplacedOutside(g, root, n, to + [name])
  {
    hide Walk, Links, Detach, Harmed, Through, Attach, Displaced;
    var new_ := to + [name];
    var g1 := if g[n].parent.Some? then Detach(g, n) else g;
    DetachedKeys(g, n);
    forall q | !(new_ <= q) ensures Walk(Move(g, n, d, name), root, q) == Walk(g1, root, q) { MovedElsewhere(g, root, n, d, to, name, q); }
    forall q | !(new_ <= q) ensures Harmed(g, Move(g, n, d, name), root, n, q) == Harmed(g, g1, root, n, q) { SameHarm(g, g1, Move(g, n, d, name), root, n, q); }
    if g[n].parent.None? {
      forall q ensures !Harmed(g, g1, root, n, q) { Unharmed(g, g, root, n, q); }
      NoParent(g, root, n);
    } else {
      DetachHarmsIff(g, root, n);
      if DisplacedOutside(g, root, n, new_) {
        var at: Path :| Walk(g, root, at) == g[n].parent && !(new_ <= at + [g[n].name]);
        DetachHarms(g, root, n, at);
        assert Harmed(g, Move(g, n, d, name), root, n, at + [g[n].name]);
      } else {
        forall q | !(new_ <= q) ensures !Harmed(g, g1, root, n, q) { HarmOutside(g, root, n, new_, q); }
      }
    }
  }

  lemma NoParent<N>(g: Graph<N>, root: N, n: N)
    requires n in g && g[n].parent.None?
    ensures !Displaced(g, root, n)
  {
  }

  lemma DetachedKeys<N>(g: Graph<N>, n: N)
    requires n in g && (g[n].parent.Some? ==> g[n].parent.value in g)
    ensures g[n].parent.Some? ==> Detach(g, n).Keys == g.Keys
  {
  }

  lemma SameHarm<N>(g: Graph<N>, g1: Graph<N>, g2: Graph<N>, root: N, n: N, q: Path)
    requires Walk(g1, root, q) == Walk(g2, root, q)
    ensures Harmed(g, g1, root, n, q) == Harmed(g, g2, root, n, q)
  {
  }

  lemma MovedElsewhere<N>(g: Graph<N>, root: N, n: N, d: N, to: Path, name: string, q: Path)
    requires Links(g) && Rooted(g, root) && n in g && (g[n].parent.Some? ==> g[n].parent.value in g)
    requires Walk(g, root, to) == Some(d) && d in g && !(to + [name] <= q)
    ensures Walk(Move(g, n, d, name), root, q) == Walk(if g[n].parent.Some? then Detach(g, n) else g, root, q)
  {
    hide Walk, Links, Detach, Attach;
    var g1 := if g[n].parent.Some? then Detach(g, n) else g;
    DetachedKeys(g, n);
    forall p | Walk(g1, root, p) == Some(d) ensures p == to {
      if g[n].parent.Some? { DetachOnlyRemoves(g, root, n, p); }
      UniquePath(g, root, p, to);
    }
    AttachElsewhere(g1, root, d, to, name, n, q);
  }

  lemma DetachOnlyRemoves<N>(g: Graph<N>, root: N, n: N, q: Path)
    requires Links(g) && Rooted(g, root) && n in g && g[n].parent.Some? && g[n].parent.value in g
    ensures Walk(Detach(g, n), root, q).Some? ==> Walk(Detach(g, n), root, q) == Walk(g, root, q)
  {
    hide Walk, Links, Detach;
    if Reached(g, root, g[n].parent.value) {
      var at :| Walk(g, root, at) == Some(g[n].parent.value);
      DetachMap(g, root, n, at, q);
    } else {
      DetachUnreached(g, root, n, q);
    }
  }

  lemma HarmOutside<N>(g: Graph<N>, root: N, n: N, new_: Path, q: Path)
    requires Links(g) && Rooted(g, root) && n in g && g[n].parent.Some? && g[n].parent.value in g
    requires !(new_ <= q) && !DisplacedOutside(g, root, n, new_)
    ensures !Harmed(g, Detach(g, n), root, n, q)
  {
    hide Walk, Links, Detach, Harmed, Through;
    if Harmed(g, Detach(g, n), root, n, q) {
      DetachHarmsIff(g, root, n);
      var at :| Walk(g, root, at) == Some(g[n].parent.value);
      HarmedUnder(g, root, n, at, q);
      PrefixTrans(new_, at + [g[n].name], q);
    }
  }

  lemma HarmedUnder<N>(g: Graph<N>, root: N, n: N, at: Path, q: Path)
    requires Links(g) && Rooted(g, root) && n in g && g[n].parent.Some? && g[n].parent.value in g
    requires Walk(g, root, at) == g[n].parent && Harmed(g, Detach(g, n), root, n, q)
    ensures at + [g[n].name] <= q
  {
    DetachMap(g, root, n, at, q);
  }

  lemma PrefixTrans(a: Path, b: Path, c: Path)
    requires a <= b && b <= c
    ensures a <= c
  {
    assert a == b[..|a|] == c[..|a|];
  }

  /** The flat map after moving the node at path p to path new_, from the flat map before. */
  ghost function Rekeyed<N>(g: Graph<N>, root: N, p: Path, new_: Path, q: Path): Option<N> {
    if new_ <= q then Walk(g, root, p + q[|new_|..])
    else if p <= q then None
    else Walk(g, root, q)
  }

  /** Renaming an attached node to a directory outside its own subtree re-keys every path with the old
      prefix, drops what was at the new prefix and leaves all other paths alone. */
  lemma {:induction false} MoveMap<N>(g: Graph<N>, root: N, n: N, p: Path, d: N, to: Path, name: string, q: Path)
    requires Links(g) && Rooted(g, root)
    requires p != [] && Walk(g, root, p) == Some(n) && Walk(g, root, to) == Some(d)
    requires !(p <= to)
    ensures n in g && d in g && (g[n].parent.Some? ==> g[n].parent.value in g)
    ensures Walk(Move(g, n, d, name), root, q) == Rekeyed(g, root, p, to + [name], q)
    decreases |q|
  {
    LastStep(g, root, p);
    WalkStays(g, root, to);
    var g', new_ := Move(g, n, d, name), to + [name];
    if q != [] {
      hide Walk, Links;
      var q0, k := Dir(q), Base(q);
      assert q == q0 + [k];
      MoveMap(g, root, n, p, d, to, name, q0);
      WalkSnoc(g', root, q0, k);
      RekeyedStep(g, root, n, p, d, to, name, q0, k);
      var from := Rekeyed(g, root, p, new_, q0);
      if from.Some? { MoveStep(g, n, d, name, from.value, k); }
    }
  }

  /** One step through the entries as a move leaves them. */
  ghost function StepMoved<N>(g: Graph<N>, n: N, d: N, name: string, from: Option<N>, k: string): Option<N>
    requires n in g && g[n].parent.Some?
  {
    if from == Some(d) && k == name then Some(n)
    else if from == g[n].parent && k == g[n].name then None
    else Step(g, from, k)
  }

  lemma MoveStep<N>(g: Graph<N>, n: N, d: N, name: string, m: N, k: string)
    requires n in g && d in g && g[n].parent.Some? && g[n].parent.value in g
    ensures Step(Move(g, n, d, name), Some(m), k) == StepMoved(g, n, d, name, Some(m), k)
  {
  }

  /** The re-keyed map follows the moved entries one component at a time. */
  lemma RekeyedStep<N>(g: Graph<N>, root: N, n: N, p: Path, d: N, to: Path, name: string, q: Path, k: string)
    requires Links(g) && Rooted(g, root) && n in g
    requires p != [] && Walk(g, root, p) == Some(n) && Walk(g, root, to) == Some(d)
    requires g[n].parent.Some? && g[n].parent == Walk(g, root, Dir(p)) && g[n].name == Base(p)
    requires !(p <= to)
    ensures StepMoved(g, n, d, name, Rekeyed(g, root, p, to + [name], q), k) ==
            Rekeyed(g, root, p, to + [name], q + [k])
  {
    hide Links;
    var new_ := to + [name];
    PrefixSnoc(new_, q, k);
    PrefixSnoc(p, q, k);
    if new_ <= q {
      var source := p + q[|new_|..];
      assert (q + [k])[|new_|..] == q[|new_|..] + [k];
      assert p + (q + [k])[|new_|..] == source + [k];
      WalkSnoc(g, root, source, k);
      StepElsewhere(g, root, n, p, d, to, name, source, k);
    } else if q + [k] == new_ {
      assert q == to && k == name by { assert new_[|to|] == name; assert (q + [k])[..|q|] == q; }
      assert p + (q + [k])[|new_|..] == p;
    } else if !(p <= q) {
      WalkSnoc(g, root, q, k);
      StepElsewhere(g, root, n, p, d, to, name, q, k);
    }
  }

  /** Away from the two changed entries a step is what it was. */
  lemma StepElsewhere<N>(g: Graph<N>, root: N, n: N, p: Path, d: N, to: Path, name: string, q: Path, k: string)
    requires Links(g) && Rooted(g, root) && n in g
    requires p != [] && Walk(g, root, to) == Some(d)
    requires g[n].parent.Some? && g[n].parent == Walk(g, root, Dir(p)) && g[n].name == Base(p)
    requires q + [k] != to + [name]
    ensures StepMoved(g, n, d, name, Walk(g, root, q), k) ==
            if q + [k] == p then None else Step(g, Walk(g, root, q), k)
  {
    hide Walk, Links;
    if Walk(g, root, q) == Some(d) { UniquePath(g, root, q, to); }
    assert p == Dir(p) + [Base(p)];
    if Walk(g, root, q) == g[n].parent { UniquePath(g, root, q, Dir(p)); }
    if q + [k] == p { assert q == p[..|p| - 1] && k == p[|p| - 1]; }
  }

  /** Renaming a directory to a place inside itself cuts the whole subtree off: the paths under it are
      gone, all others stay. */
  lemma {:induction false} MoveBelowItselfMap<N>(g: Graph<N>, root: N, n: N, p: Path, d: N, to: Path, name: string, q: Path)
    requires Links(g) && Rooted(g, root)
    requires p != [] && Walk(g, root, p) == Some(n) && Walk(g, root, to) == Some(d)
    requires p <= to
    ensures n in g && d in g && (g[n].parent.Some? ==> g[n].parent.value in g)
    ensures Walk(Move(g, n, d, name), root, q) == if p <= q then None else Walk(g, root, q)
    decreases |q|
  {
    hide Links, Move;
    LastStep(g, root, p);
    WalkStays(g, root, to);
    if q != [] {
      hide Walk;
      var q0, k := Dir(q), Base(q);
      assert q == q0 + [k] && p == Dir(p) + [Base(p)];
      MoveBelowItselfMap(g, root, n, p, d, to, name, q0);
      WalkSnoc(Move(g, n, d, name), root, q0, k);
      WalkSnoc(g, root, q0, k);
      PrefixSnoc(p, q0, k);
      if !(p <= q0) && Walk(g, root, q0).Some? {
        WalkStays(g, root, q0);
        var m := Walk(g, root, q0).value;
        MoveStep(g, n, d, name, m, k);
        if m == d { UniquePath(g, root, q0, to); }
        if m == g[n].parent.value { UniquePath(g, root, q0, Dir(p)); }
        if q == p { SnocInjective(q0, k, Dir(p), Base(p)); }
      }
    }
  }

  /** A move keeps the root in place exactly when it does not move the root. */
  lemma MoveKeepsRoot<N>(g: Graph<N>, root: N, n: N, d: N, name: string)
    requires Rooted(g, root) && n in g && d in g && ParentsInside(g)
    ensures Rooted(Move(g, n, d, name), root) <==> n != root
  {
  }

  /** The root moved into a directory below itself: the way to its new place leads from the root to the root. */
  lemma MovedRootLoops<N>(g: Graph<N>, root: N, d: N, to: Path, name: string)
    requires Links(g) && Rooted(g, root) && d in g && Walk(g, root, to) == Some(d)
    ensures Walk(Move(g, root, d, name), root, to + [name]) == Some(root)
    ensures !Rooted(Move(g, root, d, name), root)
  {
    WayToTarget(g, root, d, to, name, |to|);
    assert to[..|to|] == to;
    WalkSnoc(Move(g, root, d, name), root, to, name);
  }

  lemma {:induction false} WayToTarget<N>(g: Graph<N>, root: N, d: N, to: Path, name: string, i: nat)
    requires Links(g) && Rooted(g, root) && d in g && Walk(g, root, to) == Some(d) && i <= |to|
    ensures Walk(Move(g, root, d, name), root, to[..i]) == Walk(g, root, to[..i])
  {
    if i > 0 {
      hide Walk, Links;
      var p, k := to[..i - 1], to[i - 1];
      assert to[..i] == p + [k];
      WayToTarget(g, root, d, to, name, i - 1);
      WalkSnoc(g, root, p, k);
      WalkSnoc(Move(g, root, d, name), root, p, k);
      if Walk(g, root, p) == Some(d) { UniquePath(g, root, p, to); }
    }
  }

  // ----- making missing directories -----

  /** A MemoryNode as the source's struct literals make it, before it is entered anywhere. */
  function NewNode<N>(name: string, isDir: bool, content: Bytes, inode: nat): Node<N> {
    Node(name, isDir, content, |content|, map[], None, inode, map[])
  }

  function NewDir<N>(name: string, inode: nat): Node<N> { NewNode(name, true, [], inode) }

  function NewFile<N>(name: string, content: Bytes, inode: nat): Node<N> { NewNode(name, false, content, inode) }

  /** getOrCreateDirPath from directory cur on: the graph it leaves behind and the directory found, or None
      for its error. The nodes it allocates are taken from supply. */
  ghost function MakeDirs<N>(g: Graph<N>, cur: N, parts: Path, supply: seq<N>, inode: nat): (Graph<N>, Option<N>)
    requires cur in g && |supply| == |parts|
    decreases |parts|
  {
    if parts == [] then (g, Some(cur))
    else if parts[0] in g[cur].kids then
      var child := g[cur].kids[parts[0]];
      if child !in g || !g[child].isDir then (g, None)
      else MakeDirs(g, child, parts[1..], supply[1..], inode)
    else if supply[0] in g then (g, None)
    else
      MakeDirs(Create(g, cur, supply[0], NewDir(parts[0], inode)), supply[0], parts[1..], supply[1..], inode + 1)
  }

  ghost predicate FreshSupply<N>(g: Graph<N>, supply: seq<N>) {
    (forall i :: 0 <= i < |supply| ==> supply[i] !in g) &&
    (forall i, j :: 0 <= i < j < |supply| ==> supply[i] != supply[j])
  }

  /** Below a directory without entries nothing can fail. */
  lemma {:induction false} EmptyDirNeverFails<N>(g: Graph<N>, cur: N, parts: Path, supply: seq<N>, inode: nat)
    requires cur in g && |supply| == |parts| && g[cur].kids == map[] && FreshSupply(g, supply)
    ensures MakeDirs(g, cur, parts, supply, inode).1.Some?
    decreases |parts|
  {
    if parts != [] {
      EmptyDirNeverFails(Create(g, cur, supply[0], NewDir(parts[0], inode)), supply[0], parts[1..], supply[1..], inode + 1);
    }
  }

  /** A failing getOrCreateDirPath changes nothing: an obstacle is met before the first directory is made. */
  lemma {:induction false} FailedMakeDirsChangesNothing<N>(g: Graph<N>, cur: N, parts: Path, supply: seq<N>, inode: nat)
    requires cur in g && |supply| == |parts| && FreshSupply(g, supply)
    requires MakeDirs(g, cur, parts, supply, inode).1.None?
    ensures MakeDirs(g, cur, parts, supply, inode).0 == g
    decreases |parts|
  {
    if parts != [] {
      if parts[0] in g[cur].kids {
        var child := g[cur].kids[parts[0]];
        if child in g && g[child].isDir {
          FailedMakeDirsChangesNothing(g, child, parts[1..], supply[1..], inode);
        }
      } else {
        EmptyDirNeverFails(Create(g, cur, supply[0], NewDir(parts[0], inode)), supply[0], parts[1..], supply[1..], inode + 1);
      }
    }
  }

  /** It fails exactly when some ancestor-or-self of the wanted directory is not a directory. */
  ghost predicate Blocked<N>(g: Graph<N>, cur: N, parts: Path) {
    exists i :: 0 < i <= |parts| && BlockedAt(g, cur, parts[..i])
  }

  ghost predicate BlockedAt<N>(g: Graph<N>, cur: N, p: Path) {
    var c := Walk(g, cur, p);
    c.Some? && (c.value !in g || !g[c.value].isDir)
  }

  lemma {:induction false} MakeDirsFailsIffBlocked<N>(g: Graph<N>, cur: N, parts: Path, supply: seq<N>, inode: nat)
    requires cur in g && |supply| == |parts| && FreshSupply(g, supply) && FilesAreLeaves(g) && Links(g)
    ensures MakeDirs(g, cur, parts, supply, inode).1.None? <==> Blocked(g, cur, parts)
    decreases |parts|
  {
    if parts == [] {
    } else if parts[0] in g[cur].kids {
      var child := g[cur].kids[parts[0]];
      assert Linked(g, cur, parts[0]);
      assert parts[..1] == [parts[0]];
      if !g[child].isDir {
        assert BlockedAt(g, cur, parts[..1]);
      } else {
        MakeDirsFailsIffBlocked(g, child, parts[1..], supply[1..], inode);
        forall i | 0 < i <= |parts| ensures Walk(g, cur, parts[..i]) == Walk(g, child, parts[1..][..i - 1]) {
          assert parts[..i][1..] == parts[1..][..i - 1];
        }
        if Blocked(g, cur, parts) {
          var i :| 0 < i <= |parts| && BlockedAt(g, cur, parts[..i]);
          assert i != 1;
          assert BlockedAt(g, child, parts[1..][..i - 1]);
        }
        if Blocked(g, child, parts[1..]) {
          var i :| 0 < i <= |parts[1..]| && BlockedAt(g, child, parts[1..][..i]);
          assert Walk(g, cur, parts[..i + 1]) == Walk(g, child, parts[1..][..i]);
          assert BlockedAt(g, cur, parts[..i + 1]);
        }
      }
    } else {
      EmptyDirNeverFails(Create(g, cur, supply[0], NewDir(parts[0], inode)), supply[0], parts[1..], supply[1..], inode + 1);
      forall i | 0 < i <= |parts| ensures !BlockedAt(g, cur, parts[..i]) {
        assert parts[..i][0] == parts[0];
      }
    }
  }

  lemma NextComponent(at: Path, parts: Path)
    requires parts != []
    ensures at + [parts[0]] + parts[1..] == at + parts && at + [parts[0]] <= at + parts
  {
  }

  lemma PrefixReached<N>(g: Graph<N>, n: N, p: Path, q: Path)
    requires p <= q && Walk(g, n, q).Some?
    ensures Walk(g, n, p).Some?
  {
    assert q == p + q[|p|..];
    WalkConcat(g, n, p, q[|p|..]);
  }

  /** The directory wanted is found, and the tree stays a linked tree. */
  lemma {:induction false} MakeDirsLinks<N>(g: Graph<N>, root: N, at: Path, cur: N, parts: Path, supply: seq<N>, inode: nat)
    requires Links(g) && ParentsInside(g) && Rooted(g, root) && cur in g && Walk(g, root, at) == Some(cur)
    requires |supply| == |parts| && FreshSupply(g, supply)
    ensures var (g', dir) := MakeDirs(g, cur, parts, supply, inode);
            Links(g') && ParentsInside(g') && Rooted(g', root) && (dir.Some? ==> Walk(g', root, at + parts) == dir)
    decreases |parts|
  {
    if parts == [] {
      assert at + parts == at;
    } else {
      var next := at + [parts[0]];
      NextComponent(at, parts);
      WalkSnoc(g, root, at, parts[0]);
      if parts[0] in g[cur].kids {
        assert Linked(g, cur, parts[0]);
        MakeDirsLinks(g, root, next, g[cur].kids[parts[0]], parts[1..], supply[1..], inode);
      } else {
        var node, n := NewDir<N>(parts[0], inode), supply[0];
        MadeFirst(g, root, at, cur, parts, supply, node);
        MakeDirsLinks(Create(g, cur, n, node), root, next, n, parts[1..], supply[1..], inode + 1);
      }
    }
  }

  /** What making directory p may do to the flat map at path q: a path that is there stays, p and its
      missing ancestors are new nodes, nothing else appears. */
  ghost predicate OnlyAdds<N>(g: Graph<N>, g': Graph<N>, root: N, p: Path, supply: seq<N>, q: Path) {
    var before, after := Walk(g, root, q), Walk(g', root, q);
    if before.Some? then after == before
    else if q <= p then after.Some? && after.value in supply
    else after.None?
  }

  lemma {:induction false} MakeDirsMap<N>(g: Graph<N>, root: N, at: Path, cur: N, parts: Path, supply: seq<N>, inode: nat, q: Path)
    requires Links(g) && ParentsInside(g) && Rooted(g, root) && cur in g && Walk(g, root, at) == Some(cur)
    requires |supply| == |parts| && FreshSupply(g, supply)
    requires MakeDirs(g, cur, parts, supply, inode).1.Some?
    ensures OnlyAdds(g, MakeDirs(g, cur, parts, supply, inode).0, root, at + parts, supply, q)
    decreases |parts|
  {
    if parts == [] {
      assert at + parts == at;
      if q <= at { PrefixReached(g, root, q, at); }
    } else {
      var next := at + [parts[0]];
      NextComponent(at, parts);
      WalkSnoc(g, root, at, parts[0]);
      if parts[0] in g[cur].kids {
        assert Linked(g, cur, parts[0]);
        MakeDirsMap(g, root, next, g[cur].kids[parts[0]], parts[1..], supply[1..], inode, q);
      } else {
        var node, n := NewDir<N>(parts[0], inode), supply[0];
        var g1 := Create(g, cur, n, node);
        MadeFirst(g, root, at, cur, parts, supply, node);
        CreateMap(g, root, at, cur, n, node, q);
        MakeDirsMap(g1, root, next, n, parts[1..], supply[1..], inode + 1, q);
        OneMore(g, g1, MakeDirs(g, cur, parts, supply, inode).0, root, next, at + parts, supply, q);
      }
    }
  }

  /** Once the first missing directory is made, the walk goes on inside it. */
  lemma MadeFirst<N>(g: Graph<N>, root: N, at: Path, cur: N, parts: Path, supply: seq<N>, node: Node<N>)
    requires Links(g) && ParentsInside(g) && Rooted(g, root) && cur in g && Walk(g, root, at) == Some(cur)
    requires |supply| == |parts| && FreshSupply(g, supply)
    requires parts != [] && node.name == parts[0] && parts[0] !in g[cur].kids
    ensures var g1 := Create(g, cur, supply[0], node);
            Links(g1) && ParentsInside(g1) && Rooted(g1, root) && FreshSupply(g1, supply[1..]) &&
            Walk(g1, root, at + [parts[0]]) == Some(supply[0])
  {
    CreateKeepsLinks(g, cur, supply[0], node);
    CreateMap(g, root, at, cur, supply[0], node, at + [parts[0]]);
  }

  lemma OneMore<N>(g: Graph<N>, g1: Graph<N>, g': Graph<N>, root: N, next: Path, p: Path, supply: seq<N>, q: Path)
    requires next <= p && Walk(g, root, next).None? && supply != []
    requires Walk(g1, root, q) == if next <= q then (if q == next then Some(supply[0]) else None) else Walk(g, root, q)
    requires OnlyAdds(g1, g', root, p, supply[1..], q)
    ensures OnlyAdds(g, g', root, p, supply, q)
  {
    if next <= q && Walk(g, root, q).Some? { PrefixReached(g, root, next, q); }
    assert forall n :: n in supply[1..] ==> n in supply;
  }

  /** The directory found is a directory, and FilesAreLeaves survives. */
  lemma {:induction false} MakeDirsFindsDir<N>(g: Graph<N>, cur: N, parts: Path, supply: seq<N>, inode: nat)
    requires cur in g && g[cur].isDir && |supply| == |parts| && FreshSupply(g, supply) && FilesAreLeaves(g)
    ensures var (g', dir) := MakeDirs(g, cur, parts, supply, inode);
            FilesAreLeaves(g') && (dir.Some? ==> dir.value in g' && g'[dir.value].isDir)
    ensures var (g', _) := MakeDirs(g, cur, parts, supply, inode);
            forall n :: n in g ==> n in g' && g'[n] == g[n].(kids := g'[n].kids)
    decreases |parts|
  {
    if parts != [] {
      if parts[0] in g[cur].kids {
        var child := g[cur].kids[parts[0]];
        if child in g && g[child].isDir { MakeDirsFindsDir(g, child, parts[1..], supply[1..], inode); }
      } else {
        var g1 := Create(g, cur, supply[0], NewDir(parts[0], inode));
        MakeDirsFindsDir(g1, supply[0], parts[1..], supply[1..], inode + 1);
      }
    }
  }

  /** Nothing disappears, only supplied nodes appear. */
  lemma {:induction false} MakeDirsKeys<N>(g: Graph<N>, cur: N, p: Path, supply: seq<N>, inode: nat)
    requires cur in g && |supply| == |p|
    ensures var (g1, dir) := MakeDirs(g, cur, p, supply, inode);
            && g.Keys <= g1.Keys && (dir.Some? ==> dir.value in g1)
            && (forall n :: n in g1 ==> n in g || n in supply)
    decreases |p|
  {
    if p != [] {
      assert forall n :: n in supply[1..] ==> n in supply;
      if p[0] in g[cur].kids {
        var child := g[cur].kids[p[0]];
        if child in g && g[child].isDir { MakeDirsKeys(g, child, p[1..], supply[1..], inode); }
      } else if supply[0] !in g {
        MakeDirsKeys(Create(g, cur, supply[0], NewDir(p[0], inode)), supply[0], p[1..], supply[1..], inode + 1);
      }
    }
  }

  /** One more component after (g, dir). */
  ghost function OneMoreDir<N>(g: Graph<N>, dir: Option<N>, k: string, x: N, inode: nat): (Graph<N>, Option<N>)
    requires dir.Some? ==> dir.value in g
  {
    if dir.None? then (g, None) else MakeDirs(g, dir.value, [k], [x], inode)
  }

  /** Making a path is making its directory part and then one more component. */
  lemma {:induction false} MakeDirsSnoc<N>(g: Graph<N>, cur: N, p: Path, k: string, supply: seq<N>, x: N, inode: nat)
    requires cur in g && |supply| == |p| && FreshSupply(g, supply)
    ensures var (g1, dir) := MakeDirs(g, cur, p, supply, inode);
            && (dir.Some? ==> dir.value in g1)
            && MakeDirs(g, cur, p + [k], supply + [x], inode) == OneMoreDir(g1, dir, k, x, inode + |g1.Keys - g.Keys|)
    decreases |p|, 1
  {
    MakeDirsKeys(g, cur, p, supply, inode);
    if p == [] {
      assert p + [k] == [k] && supply + [x] == [x];
      assert g.Keys - g.Keys == {};
    } else if p[0] in g[cur].kids {
      hide MakeDirs, OneMoreDir;
      SnocUnfold(g, cur, p, k, supply, x, inode);
      var child := g[cur].kids[p[0]];
      if child in g && g[child].isDir {
        MakeDirsSnoc(g, child, p[1..], k, supply[1..], x, inode);
      } else {
        StuckStays(g, k, x, inode);
      }
    } else {
      MakeDirsSnocMade(g, cur, p, k, supply, x, inode);
    }
  }

  lemma {:induction false} MakeDirsSnocMade<N>(g: Graph<N>, cur: N, p: Path, k: string, supply: seq<N>, x: N, inode: nat)
    requires cur in g && |supply| == |p| && FreshSupply(g, supply) && p != [] && p[0] !in g[cur].kids
    ensures var (g1, dir) := MakeDirs(g, cur, p, supply, inode);
            && (dir.Some? ==> dir.value in g1)
            && MakeDirs(g, cur, p + [k], supply + [x], inode) == OneMoreDir(g1, dir, k, x, inode + |g1.Keys - g.Keys|)
    decreases |p|, 0
  {
    hide MakeDirs, Create, OneMoreDir;
    SnocUnfold(g, cur, p, k, supply, x, inode);
    var g0 := Create(g, cur, supply[0], NewDir(p[0], inode));
    CreateKeys(g, cur, supply[0], NewDir(p[0], inode));
    FreshTail(g, g0, supply);
    MakeDirsSnoc(g0, supply[0], p[1..], k, supply[1..], x, inode + 1);
    MakeDirsKeys(g0, supply[0], p[1..], supply[1..], inode + 1);
    CountMade(g.Keys, g0.Keys, MakeDirs(g0, supply[0], p[1..], supply[1..], inode + 1).0.Keys, supply[0]);
  }

  lemma SnocUnfold<N>(g: Graph<N>, cur: N, p: Path, k: string, supply: seq<N>, x: N, inode: nat)
    requires cur in g && |supply| == |p| && p != [] && supply[0] !in g
    ensures MakeDirs(g, cur, p, supply, inode) == OneDirDown(g, cur, p[0], p[1..], supply[0], supply[1..], inode)
    ensures MakeDirs(g, cur, p + [k], supply + [x], inode) ==
            OneDirDown(g, cur, p[0], p[1..] + [k], supply[0], supply[1..] + [x], inode)
  {
    TailSnoc(p, k);
    TailSnoc(supply, x);
  }

  /** One unfolding of MakeDirs. */
  ghost function OneDirDown<N>(g: Graph<N>, cur: N, k: string, rest: Path, n: N, supply: seq<N>, inode: nat): (Graph<N>, Option<N>)
    requires cur in g && n !in g && |supply| == |rest|
  {
    if k in g[cur].kids then
      var child := g[cur].kids[k];
      if child !in g || !g[child].isDir then (g, None) else MakeDirs(g, child, rest, supply, inode)
    else MakeDirs(Create(g, cur, n, NewDir(k, inode)), n, rest, supply, inode + 1)
  }

  lemma MakeDirsUnfold<N>(g: Graph<N>, cur: N, parts: Path, supply: seq<N>, inode: nat)
    requires cur in g && |supply| == |parts| && parts != [] && supply[0] !in g
    ensures MakeDirs(g, cur, parts, supply, inode) == OneDirDown(g, cur, parts[0], parts[1..], supply[0], supply[1..], inode)
  {
  }

  lemma StuckStays<N>(g: Graph<N>, k: string, x: N, inode: nat)
    ensures forall i: nat {:trigger OneMoreDir(g, None, k, x, i)} :: OneMoreDir(g, None, k, x, i) == (g, None)
  {
  }

  lemma TailSnoc<T>(s: seq<T>, x: T)
    requires s != []
    ensures (s + [x])[0] == s[0] && (s + [x])[1..] == s[1..] + [x]
  {
  }

  lemma FreshTail<N>(g: Graph<N>, g': Graph<N>, supply: seq<N>)
    requires supply != [] && FreshSupply(g, supply) && g'.Keys == g.Keys + {supply[0]}
    ensures FreshSupply(g', supply[1..])
  {
  }

  lemma CountMade<N>(a: set<N>, b: set<N>, c: set<N>, n: N)
    requires n !in a && b == a + {n} && b <= c
    ensures |c - a| == 1 + |c - b|
  {
    assert c - a == (c - b) + {n};
  }

  lemma TakeSnoc(p: Path, i: nat)
    requires i < |p|
    ensures p[..i + 1] == p[..i] + [p[i]]
  {
  }

  // ----- getOrCreateDirPath as the loop runs it -----

  lemma OneMoreFound<N>(g: Graph<N>, cur: N, k: string, x: N, inode: nat)
    requires cur in g && x !in g && k in g[cur].kids && g[cur].kids[k] in g && g[g[cur].kids[k]].isDir
    ensures OneMoreDir(g, Some(cur), k, x, inode) == (g, Some(g[cur].kids[k]))
  {
    assert [k][1..] == [] && [x][1..] == [];
    assert MakeDirs(g, g[cur].kids[k], [], [], inode) == (g, Some(g[cur].kids[k]));
    MakeDirsUnfold(g, cur, [k], [x], inode);
  }

  lemma OneMoreMade<N>(g: Graph<N>, cur: N, k: string, x: N, inode: nat)
    requires cur in g && x !in g && k !in g[cur].kids
    ensures OneMoreDir(g, Some(cur), k, x, inode) == (Create(g, cur, x, NewDir(k, inode)), Some(x))
  {
    assert [k][1..] == [] && [x][1..] == [];
    var g' := Create(g, cur, x, NewDir(k, inode));
    assert MakeDirs(g', x, [], [], inode + 1) == (g', Some(x));
    MakeDirsUnfold(g, cur, [k], [x], inode);
  }

  /** Where the loop stands after i components: the graph, the current directory, the next inode. */
  ghost predicate Making<N>(g0: Graph<N>, root: N, inode0: nat, p: Path, i: nat, supply: seq<N>,
                            g: Graph<N>, current: N, inode: nat) {
    && root in g0 && i <= |p| && |supply| == i && FreshSupply(g0, supply) && current in g
    && MakeDirs(g0, root, p[..i], supply, inode0) == (g, Some(current))
    && inode == inode0 + |g.Keys - g0.Keys|
    && (g == g0 ==> Walk(g0, root, p[..i]) == Some(current))
    && (g == g0 || g[current].kids == map[])
  }

  lemma MakingStarts<N>(g0: Graph<N>, root: N, inode0: nat, p: Path)
    requires root in g0
    ensures Making(g0, root, inode0, p, 0, [], g0, root, inode0)
  {
    assert g0.Keys - g0.Keys == {};
  }

  /** The current directory has the next component: nothing has been made yet, and a file in the way blocks
      the path. */
  lemma MakingChild<N>(g0: Graph<N>, root: N, inode0: nat, p: Path, i: nat, supply: seq<N>,
                       g: Graph<N>, current: N, inode: nat)
    requires Links(g0) && Making(g0, root, inode0, p, i, supply, g, current, inode) && i < |p| && p[i] in g[current].kids
    ensures g == g0 && inode == inode0 && g[current].kids[p[i]] in g
    ensures Walk(g0, root, p[..i + 1]) == Some(g[current].kids[p[i]])
    ensures !g[g[current].kids[p[i]]].isDir ==> Blocked(g0, root, p)
  {
    hide Walk, MakeDirs;
    assert g == g0;
    assert g.Keys - g0.Keys == {};
    assert Linked(g, current, p[i]);
    TakeSnoc(p, i);
    WalkSnoc(g, root, p[..i], p[i]);
    if !g[g[current].kids[p[i]]].isDir { assert BlockedAt(g0, root, p[..i + 1]); }
  }

  lemma MakingInside<N>(g0: Graph<N>, root: N, inode0: nat, p: Path, i: nat, supply: seq<N>,
                        g: Graph<N>, current: N, inode: nat)
    requires Making(g0, root, inode0, p, i, supply, g, current, inode)
    ensures current in g && |supply| == i <= |p| && g0.Keys <= g.Keys
  {
    MakeDirsKeys(g0, root, p[..i], supply, inode0);
  }

  lemma MakingFound<N>(g0: Graph<N>, root: N, inode0: nat, p: Path, i: nat, supply: seq<N>,
                       g: Graph<N>, current: N, inode: nat, unused: N)
    requires Links(g0) && Making(g0, root, inode0, p, i, supply, g, current, inode) && i < |p| && p[i] in g[current].kids
    requires g[current].kids[p[i]] in g && g[g[current].kids[p[i]]].isDir
    requires unused !in g0 && unused !in supply
    ensures Making(g0, root, inode0, p, i + 1, supply + [unused], g, g[current].kids[p[i]], inode)
  {
    hide Walk, MakeDirs, OneMoreDir, Links;
    MakingChild(g0, root, inode0, p, i, supply, g, current, inode);
    TakeSnoc(p, i);
    MakeDirsSnoc(g0, root, p[..i], p[i], supply, unused, inode0);
    OneMoreFound(g, current, p[i], unused, inode);
  }

  lemma MakingCreated<N>(g0: Graph<N>, root: N, inode0: nat, p: Path, i: nat, supply: seq<N>,
                         g: Graph<N>, current: N, inode: nat, child: N)
    requires Making(g0, root, inode0, p, i, supply, g, current, inode) && i < |p| && p[i] !in g[current].kids
    requires child !in g && child !in g0 && child !in supply
    ensures Making(g0, root, inode0, p, i + 1, supply + [child],
                   Create(g, current, child, NewDir(p[i], inode)), child, inode + 1)
  {
    hide Walk, MakeDirs, OneMoreDir, Create;
    var g' := Create(g, current, child, NewDir(p[i], inode));
    TakeSnoc(p, i);
    MakeDirsKeys(g0, root, p[..i], supply, inode0);
    MakeDirsSnoc(g0, root, p[..i], p[i], supply, child, inode0);
    OneMoreMade(g, current, p[i], child, inode);
    CreateAt(g, current, child, NewDir(p[i], inode));
    assert g'.Keys - g0.Keys == (g.Keys - g0.Keys) + {child};
  }
}
