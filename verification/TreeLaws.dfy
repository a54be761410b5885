/** What every run of calls on a MemoryFS keeps: the link invariant of its node graph, distinct inodes, and,
    as long as the root is not renamed, a tree below the root. */
module TreeLaws {
  import opened Bytes
  import opened Namespace
  import opened MemoryModel
  import GhostSpec

  // ----- one call -----

  /** Two graphs with the same nodes, names, parents, entries and inodes. */
  ghost predicate SameLinks<N>(g: Graph<N>, g': Graph<N>) {
    g'.Keys == g.Keys && forall m :: m in g ==> SameNode(g[m], g'[m])
  }

  ghost predicate SameNode<N>(a: Node<N>, b: Node<N>) {
    b.name == a.name && b.isDir == a.isDir && b.kids == a.kids && b.parent == a.parent && b.inode == a.inode
  }

  lemma SameLinksTree<N>(g: Graph<N>, g': Graph<N>, root: N, dummies: set<N>, nextInode: nat)
    requires Tree(g, root) && InodesDistinct(g, dummies, nextInode) && SameLinks(g, g')
    ensures Tree(g', root) && InodesDistinct(g', dummies, nextInode)
  {
    forall n | n in g' ensures n in g && SameNode(g[n], g'[n]) {}
    forall d, k | d in g' && k in g'[d].kids ensures Linked(g', d, k) && g'[d].isDir { assert Linked(g, d, k); }
  }

  /** A change of one node's contents, size or attributes touches no link. */
  lemma UpdateKeepsWF<N>(s: Fs<N>, n: N, node: Node<N>)
    requires WF(s) && n in s.g && node.size < TWO64 && (!s.discard ==> node.size == |node.content|)
    requires SameNode(s.g[n], node)
    ensures WF(s.(g := s.g[n := node]))
  {
    hide Tree, InodesDistinct;
    SameLinksTree(s.g, s.g[n := node], s.root, s.dummies, s.nextInode);
  }

  lemma CreateKeepsTree<N>(g: Graph<N>, root: N, d: N, n: N, node: Node<N>)
    requires Tree(g, root) && d in g && g[d].isDir && n !in g
    ensures Tree(Create(g, d, n, node), root)
  {
    hide Create, Links, ParentsInside;
    CreateKeepsLinks(g, d, n, node);
    CreateAt(g, d, n, node);
    var g' := Create(g, d, n, node);
    forall e, k | e in g' && k in g'[e].kids ensures g'[e].isDir {
      if e != d { assert k in g[e].kids; }
    }
  }

  lemma AddedKeepsWF<N>(s: Fs<N>, d: N, n: N, node: Node<N>)
    requires WF(s) && d in s.g && s.g[d].isDir && n !in s.g
    requires node.size == |node.content| < TWO64
    ensures WF(Added(s, d, n, node))
  {
    hide Create, Tree, InodesDistinct, GhostsKnown;
    var s' := Added(s, d, n, node);
    CreateKeepsTree(s.g, s.root, d, n, node.(inode := s.nextInode));
    AddedInodes(s, d, n, node);
    CreateAt(s.g, d, n, node.(inode := s.nextInode));
    GhostsStayKnown(s, s');
    assert !s.discard ==> SizesExact(s'.g);
  }

  lemma AddedInodes<N>(s: Fs<N>, d: N, n: N, node: Node<N>)
    requires InodesDistinct(s.g, s.dummies, s.nextInode) && d in s.g && n !in s.g
    ensures var s' := Added(s, d, n, node); InodesDistinct(s'.g, s'.dummies, s'.nextInode)
  {
    hide Create;
    CreateAt(s.g, d, n, node.(inode := s.nextInode));
    var g' := Added(s, d, n, node).g;
    forall m | m in g' && m !in s.dummies ensures g'[m].inode == if m == n then s.nextInode else s.g[m].inode {}
  }

  lemma GhostsStayKnown<N>(s: Fs<N>, s': Fs<N>)
    requires GhostsKnown(s) && s'.reg == s.reg && forall m :: m in s.g ==> m in s'.g
    ensures GhostsKnown(s')
  {
  }

  /** Making directories, from directory cur on. */
  lemma {:induction false} MakeDirsKeepsWF<N>(s: Fs<N>, cur: N, parts: Path, supply: seq<N>)
    requires WF(s) && cur in s.g && s.g[cur].isDir && |supply| == |parts| && FreshSupply(s.g, supply)
    ensures var (g', dir) := MakeDirs(s.g, cur, parts, supply, s.nextInode);
            && WF(s.(g := g', nextInode := s.nextInode + |g'.Keys - s.g.Keys|))
            && (dir.Some? ==> dir.value in g' && g'[dir.value].isDir)
    decreases |parts|, 1
  {
    hide WF, Create, FreshSupply;
    if parts == [] {
      NothingMade(s);
    } else {
      hide MakeDirs;
      FreshHead(s.g, supply);
      MakeDirsUnfold(s.g, cur, parts, supply, s.nextInode);
      if parts[0] !in s.g[cur].kids {
        MadeKeepsWF(s, cur, parts, supply);
      } else {
        var child := s.g[cur].kids[parts[0]];
        if child in s.g && s.g[child].isDir {
          FreshRest(s.g, supply);
          MakeDirsKeepsWF(s, child, parts[1..], supply[1..]);
        } else {
          NothingMade(s);
        }
      }
    }
  }

  lemma NothingMade<N>(s: Fs<N>)
    ensures s.(g := s.g, nextInode := s.nextInode + |s.g.Keys - s.g.Keys|) == s
  {
    assert s.g.Keys - s.g.Keys == {};
  }

  lemma {:induction false} MadeKeepsWF<N>(s: Fs<N>, cur: N, parts: Path, supply: seq<N>)
    requires WF(s) && cur in s.g && s.g[cur].isDir && |supply| == |parts| && FreshSupply(s.g, supply)
    requires parts != [] && parts[0] !in s.g[cur].kids
    ensures var (g', dir) := MakeDirs(s.g, cur, parts, supply, s.nextInode);
            && WF(s.(g := g', nextInode := s.nextInode + |g'.Keys - s.g.Keys|))
            && (dir.Some? ==> dir.value in g' && g'[dir.value].isDir)
    decreases |parts|, 0
  {
    hide WF, MakeDirs, Create, FreshSupply;
    FreshHead(s.g, supply);
    MakeDirsUnfold(s.g, cur, parts, supply, s.nextInode);
    var n, node := supply[0], NewDir<N>(parts[0], s.nextInode);
    var s1 := Added(s, cur, n, node);
    AddedKeepsWF(s, cur, n, node);
    CreateAt(s.g, cur, n, node);
    FreshTail(s.g, s1.g, supply);
    MakeDirsKeepsWF(s1, n, parts[1..], supply[1..]);
    MakeDirsKeys(s1.g, n, parts[1..], supply[1..], s1.nextInode);
    var g' := MakeDirs(s1.g, n, parts[1..], supply[1..], s1.nextInode).0;
    CountMade(s.g.Keys, s1.g.Keys, g'.Keys, n);
    assert s1.(g := g', nextInode := s1.nextInode + |g'.Keys - s1.g.Keys|) ==
           s.(g := g', nextInode := s.nextInode + |g'.Keys - s.g.Keys|);
  }

  lemma FreshHead<N>(g: Graph<N>, supply: seq<N>)
    requires FreshSupply(g, supply) && supply != []
    ensures supply[0] !in g
  {
  }

  lemma FreshRest<N>(g: Graph<N>, supply: seq<N>)
    requires FreshSupply(g, supply) && supply != []
    ensures FreshSupply(g, supply[1..])
  {
  }

  lemma WFTree<N>(s: Fs<N>)
    requires WF(s)
    ensures Tree(s.g, s.root) && Links(s.g) && ParentsInside(s.g) && FilesAreLeaves(s.g)
    ensures s.root in s.g && s.g[s.root].isDir && forall h :: h in s.open ==> s.open[h].node in s.g
  {
  }

  lemma MkdirAllKeepsWF<N>(s: Fs<N>, p: Path, supply: seq<N>)
    requires WF(s) && Tree(s.g, s.root) && |supply| == |p| && FreshSupply(s.g, supply) && !Blocked(s.g, s.root, p)
    ensures var (s', dir) := MkdirAll(s, p, supply);
            WF(s') && dir in s'.g && s'.g[dir].isDir && s'.root == s.root && s'.discard == s.discard
  {
    hide WF, MakeDirs, Blocked, FreshSupply, Tree, Links, FilesAreLeaves;
    WFTree(s);
    MakeDirsKeepsWF(s, s.root, p, supply);
    MakeDirsFailsIffBlocked(s.g, s.root, p, supply, s.nextInode);
  }

  lemma MkdirAllKeys<N>(s: Fs<N>, p: Path, supply: seq<N>)
    requires Tree(s.g, s.root) && |supply| == |p| && FreshSupply(s.g, supply) && !Blocked(s.g, s.root, p)
    ensures forall n :: n in MkdirAll(s, p, supply).0.g ==> n in s.g || n in supply
  {
    hide MakeDirs;
    MakeDirsKeys(s.g, s.root, p, supply, s.nextInode);
  }

  lemma FileAddedKeepsWF<N>(s: Fs<N>, p: Path, content: Bytes, supply: seq<N>, node: N)
    requires WF(s) && CanAddFile(s, p) && FreshNodes(s.g, |Dir(p)|, supply, node) && |content| < TWO64
    ensures var s' := FileAdded(s, p, content, supply, node);
            WF(s') && node in s'.g && s'.root == s.root && s'.discard == s.discard
  {
    hide WF, MkdirAll, Create, Tree, FreshSupply, Blocked;
    WFTree(s);
    var (s1, dir) := MkdirAll(s, Dir(p), supply);
    MkdirAllKeepsWF(s, Dir(p), supply);
    MkdirAllKeys(s, Dir(p), supply);
    AddedKeepsWF(s1, dir, node, NewFile(Base(p), content, 0));
    CreateAt(s1.g, dir, node, NewFile<N>(Base(p), content, 0).(inode := s1.nextInode));
  }

  lemma DetachKeepsWF<N>(s: Fs<N>, n: N)
    requires WF(s) && n in s.g && s.g[n].parent.Some?
    ensures WF(s.(g := Detach(s.g, n)))
  {
    DetachKeepsLinks(s.g, n);
    var g' := Detach(s.g, n);
    forall d, k | d in g' && k in g'[d].kids ensures g'[d].isDir { assert k in s.g[d].kids; }
  }

  /** A move, node by node. */
  lemma MoveAt<N>(g: Graph<N>, n: N, d: N, name: string)
    requires n in g && d in g && (g[n].parent.Some? ==> g[n].parent.value in g)
    ensures var g' := Move(g, n, d, name);
            && g'.Keys == g.Keys
            && (forall m :: m in g ==> g'[m].inode == g[m].inode && g'[m].isDir == g[m].isDir &&
                                       g'[m].size == g[m].size && g'[m].content == g[m].content)
            && (forall m, k :: m in g && m != d && k in g'[m].kids ==> k in g[m].kids)
  {
    var g1 := if g[n].parent.Some? then Detach(g, n) else g;
    AttachAt(g1, d, name, n);
    hide Attach;
  }

  lemma MoveKeepsWF<N>(s: Fs<N>, n: N, d: N, name: string)
    requires WF(s) && n in s.g && d in s.g && s.g[d].isDir
    ensures WF(s.(g := Move(s.g, n, d, name)))
  {
    hide Move, Tree, InodesDistinct, GhostsKnown;
    MoveKeepsTree(s.g, s.root, n, d, name);
    var s' := s.(g := Move(s.g, n, d, name));
    MoveAt(s.g, n, d, name);
    SameInodes(s.g, s'.g, s.dummies, s.nextInode);
    GhostsStayKnown(s, s');
  }

  lemma MoveKeepsTree<N>(g: Graph<N>, root: N, n: N, d: N, name: string)
    requires Tree(g, root) && n in g && d in g && g[d].isDir
    ensures g[n].parent.Some? ==> g[n].parent.value in g
    ensures Tree(Move(g, n, d, name), root)
  {
    hide Move, Links;
    MoveKeepsLinks(g, n, d, name);
    MoveAt(g, n, d, name);
  }

  lemma SameInodes<N>(g: Graph<N>, g': Graph<N>, dummies: set<N>, nextInode: nat)
    requires InodesDistinct(g, dummies, nextInode) && g'.Keys == g.Keys && forall m :: m in g ==> g'[m].inode == g[m].inode
    ensures InodesDistinct(g', dummies, nextInode)
  {
  }

  lemma OpenedKeepsWF<N>(s: Fs<N>, h: Handle, node: N, path: string)
    requires WF(s) && node in s.g
    ensures WF(Opened(s, h, node, path))
  {
  }

  lemma OpenedDummyKeepsWF<N>(s: Fs<N>, h: Handle, dummy: N, p: Path, path: string)
    requires WF(s) && dummy !in s.g
    ensures WF(OpenedDummy(s, h, dummy, p, path))
  {
    var g' := OpenedDummy(s, h, dummy, p, path).g;
    forall d, k | d in g' && k in g'[d].kids ensures Linked(g', d, k) && g'[d].isDir { assert Linked(s.g, d, k); }
  }

  lemma WrittenSizes<N>(n: Node<N>, buf: Bytes, off: nat)
    requires n.size == |n.content| < TWO64 && off + |buf| < TWO64
    ensures Written(n, buf, off).size == |Written(n, buf, off).content| < TWO64
  {
  }

  lemma NextOpenKeepsWF<N>(s: Fs<N>, e: Event<N>, s': Fs<N>)
    requires WF(s) && Callable(s, e) && e.Open? && NextOpen(s, e, s')
    ensures WF(s') && s'.root == s.root && s'.discard == s.discard
  {
    WFTree(s);
    hide WF, FileAdded, Tree, Links, CanAddFile;
    var found := Walk(s.g, s.root, e.path);
    WalkStays(s.g, s.root, e.path);
    hide Walk;
    if found.Some? {
      OpenedKeepsWF(s, e.h, found.value, e.raw);
    } else if !e.creating {
      if e.ctx.Some? && GhostSpec.MakeGhostKey(e.ctx.value, e.raw) in s.reg.ghosts {
        ReopenedKeepsWF(s, e, GhostSpec.MakeGhostKey(e.ctx.value, e.raw));
      }
    } else {
      NextOpenNewKeepsWF(s, e, s');
    }
  }

  lemma ReopenedKeepsWF<N>(s: Fs<N>, e: Event<N>, key: string)
    requires WF(s) && e.Open? && key in s.reg.ghosts
    ensures WF(Opened(s.(reg := GhostSpec.Touch(s.reg, key, e.at)), e.h, s.reg.ghosts[key].node, e.raw))
  {
    hide Tree, InodesDistinct, SizesExact;
  }

  lemma NextOpenNewKeepsWF<N>(s: Fs<N>, e: Event<N>, s': Fs<N>)
    requires WF(s) && Callable(s, e) && e.Open? && NextOpen(s, e, s') && e.creating && Walk(s.g, s.root, e.path).None?
    ensures WF(s') && s'.root == s.root && s'.discard == s.discard
  {
    hide WF, FileAdded, Tree, Walk;
    WFTree(s);
    if e.cb != Reject {
      if e.cb == Block || s.discard {
        OpenedDummyKeepsWF(s, e.h, e.node, e.path, e.raw);
      } else if CanAddFile(s, e.path) {
        var s1 := FileAdded(s, e.path, [], e.supply, e.node);
        FileAddedKeepsWF(s, e.path, [], e.supply, e.node);
        WFTree(s1);
        WalkStays(s1.g, s1.root, e.path);
        var made := Walk(s1.g, s1.root, e.path);
        if made.Some? { OpenedKeepsWF(s1, e.h, made.value, e.raw); }
      }
    }
  }

  lemma GhostKeys<N>(s: Fs<N>)
    requires WF(s)
    ensures GhostSpec.KeysMatch(s.reg.ghosts)
  {
  }

  lemma NextCloseKeepsWF<N>(s: Fs<N>, e: Event<N>, s': Fs<N>)
    requires WF(s) && e.Close? && e.h in s.open && NextClose(s, e, s')
    ensures WF(s') && s'.root == s.root && s'.discard == s.discard
  {
    hide Tree, InodesDistinct, GhostSpec.Accounted, GhostSpec.Registered, GhostSpec.MakeGhostKey;
    var f := s.open[e.h];
    if s.discard && e.ctx.Some? && GhostSpec.MakeGhostKey(e.ctx.value, f.path) !in s.reg.ghosts {
      GhostSpec.RegisteredKeys(s.reg, e.phase1, e.phase2, s'.reg, e.ctx.value, f.path, f.node, ToInt64(s.g[f.node].size), e.at, s.lim);
      GhostSpec.RegisteredGhost(s.reg, e.phase1, e.phase2, s'.reg, e.ctx.value, f.path, f.node, ToInt64(s.g[f.node].size), e.at, s.lim);
    }
  }

  /** A handle's node and its size. */
  lemma HandleSize<N>(s: Fs<N>, h: Handle)
    requires WF(s) && h in s.open
    ensures var n := s.open[h].node;
            n in s.g && s.g[n].size < TWO64 && (!s.discard ==> s.g[n].size == |s.g[n].content|)
  {
  }

  /** Calls that change one node's content, size or attributes. */
  lemma NextUpdateKeepsWF<N>(s: Fs<N>, e: Event<N>, s': Fs<N>)
    requires WF(s) && Callable(s, e) && Next(s, e, s') && (e.Write? || e.Truncate? || e.Setxattr?)
    ensures WF(s') && s'.root == s.root && s'.discard == s.discard
  {
    hide WF;
    if s' != s {
      HandleSize(s, e.h);
      var n := s.open[e.h].node;
      if e.Write? && !s.discard { WrittenSizes(s.g[n], e.buf, e.off); }
      assert s' == s.(g := s.g[n := s'.g[n]]);
      UpdateKeepsWF(s, n, s'.g[n]);
    }
  }

  /** Calls that change links. */
  lemma NextLinkKeepsWF<N>(s: Fs<N>, e: Event<N>, s': Fs<N>)
    requires WF(s) && Callable(s, e) && Next(s, e, s')
    requires e.AddFile? || e.AddDirectory? || e.Mkdir? || e.Rename? || e.Unlink?
    ensures WF(s') && s'.root == s.root && s'.discard == s.discard
  {
    hide WF, FileAdded, MkdirAll, Create, Detach, Move;
    WFTree(s);
    match e
    case AddFile(p, content, supply, node) =>
      if CanAddFile(s, p) { FileAddedKeepsWF(s, p, content, supply, node); }
    case AddDirectory(p, supply) =>
      if !Blocked(s.g, s.root, p) { MkdirAllKeepsWF(s, p, supply); }
    case Mkdir(p, cb, node) =>
      if s' != s { AddedKeepsWF(s, Walk(s.g, s.root, Dir(p)).value, node, NewDir(Base(p), 0)); }
    case Rename(h, p, flags, cb) =>
      if s' != s { MoveKeepsWF(s, s.open[h].node, RenameTarget(s, p, flags).value, Base(p)); }
    case Unlink(h) =>
      if s' != s { DetachKeepsWF(s, s.open[h].node); }
  }

  /** Every call keeps every invariant. */
  lemma NextKeepsWF<N>(s: Fs<N>, e: Event<N>, s': Fs<N>)
    requires WF(s) && Callable(s, e) && Next(s, e, s')
    ensures WF(s') && s'.root == s.root && s'.discard == s.discard
  {
    if e.Open? {
      NextOpenKeepsWF(s, e, s');
    } else if e.Close? {
      if e.h in s.open { NextCloseKeepsWF(s, e, s'); }
    } else if e.Write? || e.Truncate? || e.Setxattr? {
      NextUpdateKeepsWF(s, e, s');
    } else if !e.Sweep? {
      NextLinkKeepsWF(s, e, s');
    }
  }

  // ----- whole runs -----

  /** One call of a run. From a well-formed state it must be callable and take its step. */
  ghost predicate Called<N>(s: Fs<N>, e: Event<N>, s': Fs<N>) {
    WF(s) ==> Callable(s, e) && Next(s, e, s')
  }

  ghost predicate Run<N>(ss: seq<Fs<N>>, es: seq<Event<N>>) {
    |ss| == |es| + 1 && forall i :: 0 <= i < |es| ==> Called(ss[i], es[i], ss[i + 1])
  }

  /** The state of a new MemoryFS. */
  ghost function InitialFs<N>(root: N, discard: bool, lim: GhostSpec.Limits): Fs<N> {
    Fs(map[root := NewNode("/", true, [], 1)], root, {}, 2, map[], discard, GhostSpec.EmptyRegistry(), lim)
  }

  lemma InitialWF<N>(root: N, discard: bool, lim: GhostSpec.Limits)
    ensures var s := InitialFs(root, discard, lim); WF(s) && Rooted(s.g, root)
  {
  }

  /** Every run keeps the link invariant for every node, attached or not: each entry (d, k) -> c has c.name
      == k and c.parent == d, so no node has two entries; and inodes stay distinct. */
  lemma {:induction false} RunsKeepLinks<N>(ss: seq<Fs<N>>, es: seq<Event<N>>, i: nat)
    requires Run(ss, es) && WF(ss[0]) && i < |ss|
    ensures WF(ss[i]) && ss[i].root == ss[0].root && ss[i].discard == ss[0].discard
    ensures Links(ss[i].g) && InodesDistinct(ss[i].g, ss[i].dummies, ss[i].nextInode)
  {
    hide WF, Called, InodesDistinct, Links;
    if i > 0 {
      RunsKeepLinks(ss, es, i - 1);
      CalledKeepsWF(ss[i - 1], es[i - 1], ss[i]);
    }
    WFLinks(ss[i]);
  }

  lemma CalledKeepsWF<N>(s: Fs<N>, e: Event<N>, s': Fs<N>)
    requires WF(s) && Called(s, e, s')
    ensures Callable(s, e) && Next(s, e, s') && WF(s') && s'.root == s.root && s'.discard == s.discard
  {
    NextKeepsWF(s, e, s');
  }

  lemma WFLinks<N>(s: Fs<N>)
    requires WF(s)
    ensures Links(s.g) && InodesDistinct(s.g, s.dummies, s.nextInode)
  {
  }

  /** The call renames the root. */
  ghost predicate RenamesRoot<N>(s: Fs<N>, e: Event<N>) {
    e.Rename? && e.h in s.open && s.open[e.h].node == s.root
  }

  lemma CreateKeepsRooted<N>(g: Graph<N>, root: N, d: N, n: N, node: Node<N>)
    requires Rooted(g, root) && d in g && n !in g
    ensures Rooted(Create(g, d, n, node), root)
  {
  }

  lemma FileAddedKeepsRooted<N>(s: Fs<N>, p: Path, content: Bytes, supply: seq<N>, node: N)
    requires WF(s) && Rooted(s.g, s.root) && CanAddFile(s, p) && FreshNodes(s.g, |Dir(p)|, supply, node)
    ensures Rooted(FileAdded(s, p, content, supply, node).g, s.root)
  {
    hide MakeDirs, Create;
    MkdirAllKeepsRooted(s, Dir(p), supply);
    var (s1, dir) := MkdirAll(s, Dir(p), supply);
    MkdirAllKeys(s, Dir(p), supply);
    CreateKeepsRooted(s1.g, s.root, dir, node, NewFile<N>(Base(p), content, 0).(inode := s1.nextInode));
  }

  lemma MkdirAllKeepsRooted<N>(s: Fs<N>, p: Path, supply: seq<N>)
    requires WF(s) && Tree(s.g, s.root) && Rooted(s.g, s.root)
    requires |supply| == |p| && FreshSupply(s.g, supply) && !Blocked(s.g, s.root, p)
    ensures Rooted(MkdirAll(s, p, supply).0.g, s.root)
  {
    hide MakeDirs, Blocked;
    MakeDirsLinks(s.g, s.root, [], s.root, p, supply, s.nextInode);
  }

  lemma DetachKeepsRooted<N>(g: Graph<N>, root: N, n: N)
    requires Rooted(g, root) && n in g && g[n].parent.Some? && g[n].parent.value in g
    ensures Rooted(Detach(g, n), root)
  {
  }

  /** Calls that change entries. */
  lemma NextLinkKeepsRooted<N>(s: Fs<N>, e: Event<N>, s': Fs<N>)
    requires WF(s) && Rooted(s.g, s.root) && Callable(s, e) && Next(s, e, s') && !RenamesRoot(s, e)
    requires e.AddFile? || e.AddDirectory? || e.Mkdir? || e.Unlink? || e.Rename?
    ensures Rooted(s'.g, s.root)
  {
    hide WF, FileAdded, MkdirAll, Tree, InodesDistinct, Move, Detach, Create, Rooted;
    WFTree(s);
    match e
    case AddFile(p, content, supply, node) =>
      if CanAddFile(s, p) { FileAddedKeepsRooted(s, p, content, supply, node); }
    case AddDirectory(p, supply) =>
      if !Blocked(s.g, s.root, p) { MkdirAllKeepsRooted(s, p, supply); }
    case Mkdir(p, cb, node) =>
      if s' != s { CreateKeepsRooted(s.g, s.root, Walk(s.g, s.root, Dir(p)).value, node, NewDir<N>(Base(p), 0).(inode := s.nextInode)); }
    case Unlink(h) =>
      if s' != s { DetachKeepsRooted(s.g, s.root, s.open[h].node); }
    case Rename(h, p, flags, cb) =>
      if s' != s { MoveKeepsRoot(s.g, s.root, s.open[h].node, RenameTarget(s, p, flags).value, Base(p)); }
  }

  /** Calls that do not. */
  lemma NextOtherKeepsRooted<N>(s: Fs<N>, e: Event<N>, s': Fs<N>)
    requires WF(s) && Rooted(s.g, s.root) && Callable(s, e) && Next(s, e, s')
    requires e.Open? || e.Close? || e.Write? || e.Truncate? || e.Setxattr? || e.Sweep?
    ensures Rooted(s'.g, s.root)
  {
    hide FileAdded, Tree, InodesDistinct, GhostsKnown, GhostSpec.Saved, Written, Truncated, Walk;
    WFTree(s);
    if e.Open? && WillAddFile(s, e.path, e.creating, e.cb) { FileAddedKeepsRooted(s, e.path, [], e.supply, e.node); }
  }

  /** Only renaming the root unroots the tree. */
  lemma NextKeepsRooted<N>(s: Fs<N>, e: Event<N>, s': Fs<N>)
    requires WF(s) && Rooted(s.g, s.root) && Callable(s, e) && Next(s, e, s') && !RenamesRoot(s, e)
    ensures Rooted(s'.g, s.root)
  {
    hide Next, Callable, WF, Rooted, RenamesRoot;
    if e.AddFile? || e.AddDirectory? || e.Mkdir? || e.Unlink? || e.Rename? {
      NextLinkKeepsRooted(s, e, s');
    } else {
      NextOtherKeepsRooted(s, e, s');
    }
  }

  /** As long as no call renames the root, every state's graph hangs below the root as a tree: two paths
      never lead to the same node, so there is no sharing and no cycle. Renaming a directory below itself is
      allowed: it only cuts the directory off. */
  lemma RunsStayTrees<N>(ss: seq<Fs<N>>, es: seq<Event<N>>, i: nat, p: Path, q: Path)
    requires Run(ss, es) && WF(ss[0]) && Rooted(ss[0].g, ss[0].root) && i < |ss|
    requires forall j :: 0 <= j < i ==> !RenamesRoot(ss[j], es[j])
    requires Walk(ss[i].g, ss[i].root, p).Some? && Walk(ss[i].g, ss[i].root, p) == Walk(ss[i].g, ss[i].root, q)
    ensures p == q
  {
    RunsStayRooted(ss, es, i);
    UniquePath(ss[i].g, ss[i].root, p, q);
  }

  lemma {:induction false} RunsStayRooted<N>(ss: seq<Fs<N>>, es: seq<Event<N>>, i: nat)
    requires Run(ss, es) && WF(ss[0]) && Rooted(ss[0].g, ss[0].root) && i < |ss|
    requires forall j :: 0 <= j < i ==> !RenamesRoot(ss[j], es[j])
    ensures WF(ss[i]) && ss[i].root == ss[0].root && Rooted(ss[i].g, ss[0].root) && Links(ss[i].g)
  {
    hide Next, Callable, Called, WF, Rooted, Links, InodesDistinct, RenamesRoot;
    RunsKeepLinks(ss, es, i);
    if i > 0 {
      RunsStayRooted(ss, es, i - 1);
      CalledKeepsWF(ss[i - 1], es[i - 1], ss[i]);
      NextKeepsRooted(ss[i - 1], es[i - 1], ss[i]);
    }
  }

  /** Two paths never lead to the same node. */
  ghost predicate PathsUnique<N>(s: Fs<N>) {
    forall p, q :: Walk(s.g, s.root, p).Some? && Walk(s.g, s.root, p) == Walk(s.g, s.root, q) ==> p == q
  }

  /** The call renames the root, and is not refused. */
  ghost predicate MovesRoot<N>(s: Fs<N>, e: Event<N>, s': Fs<N>) { RenamesRoot(s, e) && s' != s }

  /** A root that was moved is found again at its new path. */
  lemma MovedRootIsFoundAgain<N>(s: Fs<N>, e: Event<N>, s': Fs<N>)
    requires WF(s) && Rooted(s.g, s.root) && Callable(s, e) && Next(s, e, s') && MovesRoot(s, e, s')
    ensures Walk(s'.g, s.root, Dir(e.path) + [Base(e.path)]) == Some(s.root) && !PathsUnique(s')
  {
    hide Walk, Links, Move, Tree, WF, Next, Callable, RenameTarget, MovesRoot, Rooted;
    WFLinks(s);
    RootMoves(s, e, s');
    MovedRootLoops(s.g, s.root, RenameTarget(s, e.path, e.flags).value, Dir(e.path), Base(e.path));
    NoSteps(s'.g, s.root);
    assert Dir(e.path) + [Base(e.path)] != [];
  }

  lemma RootMoves<N>(s: Fs<N>, e: Event<N>, s': Fs<N>)
    requires WF(s) && Rooted(s.g, s.root) && Callable(s, e) && Next(s, e, s') && MovesRoot(s, e, s')
    ensures e.Rename? && s.root in s.g && s'.root == s.root
    ensures var d := RenameTarget(s, e.path, e.flags);
            && d.Some? && d.value in s.g && Walk(s.g, s.root, Dir(e.path)) == d
            && s'.g == Move(s.g, s.root, d.value, Base(e.path))
  {
    hide Walk, Links, Move, Tree, InodesDistinct, GhostsKnown, SizesExact;
  }

  lemma NoSteps<N>(g: Graph<N>, n: N)
    ensures Walk(g, n, []) == Some(n)
  {
  }

  lemma UnmovedKeepsRooted<N>(s: Fs<N>, e: Event<N>, s': Fs<N>)
    requires WF(s) && Rooted(s.g, s.root) && Called(s, e, s') && !MovesRoot(s, e, s')
    ensures Rooted(s'.g, s.root) && s'.root == s.root
  {
    hide Next, Callable, WF, Rooted, Called, RenamesRoot;
    CalledKeepsWF(s, e, s');
    if s' != s { NextKeepsRooted(s, e, s'); }
  }

  lemma {:induction false} UnmovedRunsStayRooted<N>(ss: seq<Fs<N>>, es: seq<Event<N>>, i: nat)
    requires Run(ss, es) && WF(ss[0]) && Rooted(ss[0].g, ss[0].root) && i < |ss|
    requires forall j :: 0 <= j < i ==> !MovesRoot(ss[j], es[j], ss[j + 1])
    ensures WF(ss[i]) && Rooted(ss[i].g, ss[i].root) && Links(ss[i].g)
  {
    hide Called, WF, Rooted, Links, InodesDistinct, MovesRoot;
    RunsKeepLinks(ss, es, i);
    if i > 0 {
      UnmovedRunsStayRooted(ss, es, i - 1);
      UnmovedKeepsRooted(ss[i - 1], es[i - 1], ss[i]);
    }
  }

  /** For every run from a tree: all states are trees if and only if no rename of the root goes through. */
  lemma RunsStayTreesIff<N>(ss: seq<Fs<N>>, es: seq<Event<N>>)
    requires Run(ss, es) && WF(ss[0]) && Rooted(ss[0].g, ss[0].root)
    ensures (forall i :: 0 <= i < |ss| ==> PathsUnique(ss[i])) <==>
            (forall j :: 0 <= j < |es| ==> !MovesRoot(ss[j], es[j], ss[j + 1]))
  {
    hide Called, WF, Rooted, Links, InodesDistinct, MovesRoot, PathsUnique, Next, Callable;
    if forall j :: 0 <= j < |es| ==> !MovesRoot(ss[j], es[j], ss[j + 1]) {
      forall i | 0 <= i < |ss| ensures PathsUnique(ss[i]) {
        UnmovedRunsStayRooted(ss, es, i);
        RootedPathsUnique(ss[i]);
      }
    } else {
      var j := FirstMove(ss, es, |es|);
      UnmovedRunsStayRooted(ss, es, j);
      CalledKeepsWF(ss[j], es[j], ss[j + 1]);
      MovedRootIsFoundAgain(ss[j], es[j], ss[j + 1]);
    }
  }

  lemma RootedPathsUnique<N>(s: Fs<N>)
    requires Links(s.g) && Rooted(s.g, s.root)
    ensures PathsUnique(s)
  {
    hide Links, Walk;
    forall p, q | Walk(s.g, s.root, p).Some? && Walk(s.g, s.root, p) == Walk(s.g, s.root, q) ensures p == q {
      UniquePath(s.g, s.root, p, q);
    }
  }

  lemma {:induction false} FirstMove<N>(ss: seq<Fs<N>>, es: seq<Event<N>>, n: nat) returns (j: nat)
    requires n <= |es| < |ss| && exists i :: 0 <= i < n && MovesRoot(ss[i], es[i], ss[i + 1])
    ensures j < n && MovesRoot(ss[j], es[j], ss[j + 1]) && forall i :: 0 <= i < j ==> !MovesRoot(ss[i], es[i], ss[i + 1])
  {
    hide MovesRoot;
    if exists i :: 0 <= i < n - 1 && MovesRoot(ss[i], es[i], ss[i + 1]) { j := FirstMove(ss, es, n - 1); } else { j := n - 1; }
  }

  // ----- the flat map, call by call -----

  /** What stands at q after AddFile of p: the new file at p and nothing below it, the old node elsewhere, a
      new directory at every missing ancestor of p, and nothing else. */
  ghost predicate AddFileMap<N>(s: Fs<N>, p: Path, supply: seq<N>, node: N, g': Graph<N>, q: Path) {
    var before, after := Walk(s.g, s.root, q), Walk(g', s.root, q);
    if q == p then after == Some(node)
    else if p <= q then after.None?
    else if before.Some? then after == before
    else if q <= p then after.Some? && after.value in supply
    else after.None?
  }

  lemma FileAddedMap<N>(s: Fs<N>, p: Path, content: Bytes, supply: seq<N>, node: N, q: Path)
    requires WF(s) && Rooted(s.g, s.root) && CanAddFile(s, p) && FreshNodes(s.g, |Dir(p)|, supply, node)
    ensures AddFileMap(s, p, supply, node, FileAdded(s, p, content, supply, node).g, q)
  {
    hide Walk, MakeDirs, MkdirAll, Create, Blocked, WF, FilesAreLeaves, Links, OnlyAdds, AddFileMap, FreshSupply, Tree, Rooted;
    assert s.root in s.g by { WFTree(s); }
    WFTree(s);
    var (s1, dir) := MkdirAll(s, Dir(p), supply);
    MadeDirectory(s, Dir(p), supply, q);
    MkdirAllKeys(s, Dir(p), supply);
    var file := NewFile<N>(Base(p), content, 0).(inode := s1.nextInode);
    CreateMap(s1.g, s.root, Dir(p), dir, node, file, q);
    assert p == Dir(p) + [Base(p)];
    AddedLast(s, p, supply, node, s1.g, FileAdded(s, p, content, supply, node).g, q);
  }

  /** AddDirectory: the directory and its missing ancestors appear, nothing else changes. */
  lemma MadeDirectory<N>(s: Fs<N>, p: Path, supply: seq<N>, q: Path)
    requires WF(s) && Rooted(s.g, s.root) && !Blocked(s.g, s.root, p) && Tree(s.g, s.root)
    requires |supply| == |p| && FreshSupply(s.g, supply)
    ensures var (s1, dir) := MkdirAll(s, p, supply);
            && Links(s1.g) && Rooted(s1.g, s.root) && Walk(s1.g, s.root, p) == Some(dir)
            && OnlyAdds(s.g, s1.g, s.root, p, supply, q)
  {
    hide Walk, MakeDirs, Blocked, WF, OnlyAdds, FreshSupply;
    WFTree(s);
    MakeDirsFailsIffBlocked(s.g, s.root, p, supply, s.nextInode);
    NoSteps(s.g, s.root);
    MakeDirsMap(s.g, s.root, [], s.root, p, supply, s.nextInode, q);
    MakeDirsLinks(s.g, s.root, [], s.root, p, supply, s.nextInode);
    assert [] + p == p;
  }

  /** Mkdir: the one path appears. The path is the directory's and the base name, which for Mkdir of the root
      is a child "/" of the root. */
  lemma MkdirMap<N>(s: Fs<N>, p: Path, node: N, s': Fs<N>, q: Path)
    requires WF(s) && Rooted(s.g, s.root) && Callable(s, Event.Mkdir(p, NoCallback, node))
    requires Next(s, Event.Mkdir(p, NoCallback, node), s') && s' != s
    ensures Walk(s'.g, s.root, q) == if q == Dir(p) + [Base(p)] then Some(node) else Walk(s.g, s.root, q)
    ensures p != [] ==> Dir(p) + [Base(p)] == p
  {
    hide InodesDistinct, GhostsKnown, SizesExact, Create, WF, Tree, Links, ParentsInside, FilesAreLeaves, Rooted, Walk;
    WFTree(s);
    var d := Walk(s.g, s.root, Dir(p)).value;
    MkdirMapFrom(s.g, s.root, Dir(p), Base(p), d, node, NewDir<N>(Base(p), 0).(inode := s.nextInode), q);
  }

  lemma MkdirMapFrom<N>(g: Graph<N>, root: N, at: Path, name: string, d: N, n: N, node: Node<N>, q: Path)
    requires Links(g) && Rooted(g, root) && n !in g && node.name == name
    requires Walk(g, root, at) == Some(d) && d in g && name !in g[d].kids
    ensures Walk(Create(g, d, n, node), root, q) == if q == at + [name] then Some(n) else Walk(g, root, q)
  {
    hide Walk, Create;
    CreateMap(g, root, at, d, n, node, q);
    WalkSnoc(g, root, at, name);
    if at + [name] <= q && Walk(g, root, q).Some? { PrefixReached(g, root, at + [name], q); }
  }

  lemma AddedLast<N>(s: Fs<N>, p: Path, supply: seq<N>, node: N, g1: Graph<N>, g': Graph<N>, q: Path)
    requires p != [] && OnlyAdds(s.g, g1, s.root, Dir(p), supply, q)
    requires Walk(g', s.root, q) == if p <= q then (if q == p then Some(node) else None) else Walk(g1, s.root, q)
    ensures AddFileMap(s, p, supply, node, g', q)
  {
    hide Walk;
    if q <= p && q != p { assert q <= Dir(p); }
  }

  lemma UnlinkDetaches<N>(s: Fs<N>, h: Handle, s': Fs<N>)
    requires WF(s) && !s.discard && h in s.open && Next(s, Event.Unlink(h), s')
    ensures s.open[h].node in s.g
    ensures var n := s.open[h].node;
            s.g[n].parent.Some? ==> s.g[n].parent.value in s.g && s'.g == Detach(s.g, n)
  {
  }

  lemma RenameMoves<N>(s: Fs<N>, h: Handle, to: Path, flags: int, s': Fs<N>)
    requires WF(s) && !s.discard && h in s.open && RenameTarget(s, to, flags).Some?
    requires Callable(s, Event.Rename(h, to, flags, NoCallback)) && Next(s, Event.Rename(h, to, flags, NoCallback), s')
    ensures var n, d := s.open[h].node, RenameTarget(s, to, flags).value;
            && n in s.g && d in s.g && (s.g[n].parent.Some? ==> s.g[n].parent.value in s.g)
            && Walk(s.g, s.root, Dir(to)) == Some(d) && s'.g == Move(s.g, n, d, Base(to))
  {
  }

  /** Unlink through a handle whose node stands at p drops exactly the paths under p. */
  lemma UnlinkMap<N>(s: Fs<N>, h: Handle, s': Fs<N>, p: Path, q: Path)
    requires WF(s) && Rooted(s.g, s.root) && !s.discard && h in s.open && Next(s, Event.Unlink(h), s')
    requires p != [] && Walk(s.g, s.root, p) == Some(s.open[h].node)
    ensures Walk(s'.g, s.root, q) == if p <= q then None else Walk(s.g, s.root, q)
  {
    UnlinkDetaches(s, h, s');
    WFTree(s);
    hide Walk, Detach, WF, Next, Links, Tree, ParentsInside, FilesAreLeaves, Rooted;
    UnlinkMapFrom(s.g, s.root, s.open[h].node, p, q);
  }

  lemma UnlinkMapFrom<N>(g: Graph<N>, root: N, n: N, p: Path, q: Path)
    requires Links(g) && Rooted(g, root) && p != [] && Walk(g, root, p) == Some(n)
    ensures n in g && g[n].parent.Some? && g[n].parent.value in g
    ensures Walk(Detach(g, n), root, q) == if p <= q then None else Walk(g, root, q)
  {
    hide Walk, Detach, Links;
    LastStep(g, root, p);
    assert p == Dir(p) + [Base(p)];
    DetachMap(g, root, n, Dir(p), q);
  }

  /** Rename through a handle whose node stands at p, to a directory outside its own subtree. */
  lemma RenameMap<N>(s: Fs<N>, h: Handle, to: Path, flags: int, s': Fs<N>, p: Path, q: Path)
    requires WF(s) && Rooted(s.g, s.root) && !s.discard && h in s.open
    requires Callable(s, Event.Rename(h, to, flags, NoCallback)) && Next(s, Event.Rename(h, to, flags, NoCallback), s')
    requires p != [] && Walk(s.g, s.root, p) == Some(s.open[h].node)
    requires RenameTarget(s, to, flags).Some? && !(p <= Dir(to))
    ensures Walk(s'.g, s.root, q) == Rekeyed(s.g, s.root, p, Dir(to) + [Base(to)], q)
  {
    hide Walk, Move, Rekeyed, WF, Next, Callable, Links, RenameTarget;
    RenameMoves(s, h, to, flags, s');
    WFTree(s);
    var n, d := s.open[h].node, RenameTarget(s, to, flags).value;
    MoveMap(s.g, s.root, n, p, d, Dir(to), Base(to), q);
  }

  // ----- stale handles -----

  /** Unlink through a handle takes away a path that does not lead through the handle's node if and only if the
      node is displaced: another node stands under its name in its parent. */
  lemma UnlinkHarmsIff<N>(s: Fs<N>, h: Handle, s': Fs<N>)
    requires WF(s) && Rooted(s.g, s.root) && !s.discard && h in s.open && Next(s, Event.Unlink(h), s')
    ensures (exists q :: Harmed(s.g, s'.g, s.root, s.open[h].node, q)) <==> Displaced(s.g, s.root, s.open[h].node)
  {
    UnlinkDetaches(s, h, s');
    WFTree(s);
    hide WF, Next, Walk, Detach, Links, Harmed, Displaced;
    var n := s.open[h].node;
    if s.g[n].parent.Some? {
      DetachHarmsIff(s.g, s.root, n);
    } else {
      NoParent(s.g, s.root, n);
      forall q ensures !Harmed(s.g, s'.g, s.root, n, q) { Unharmed(s.g, s'.g, s.root, n, q); }
    }
  }

  /** Rename through a handle does so, outside the new path, if and only if the node is displaced and its old
      place does not lie under the new path. */
  lemma RenameHarmsIff<N>(s: Fs<N>, h: Handle, to: Path, flags: int, s': Fs<N>)
    requires WF(s) && Rooted(s.g, s.root) && !s.discard && h in s.open && RenameTarget(s, to, flags).Some?
    requires Callable(s, Event.Rename(h, to, flags, NoCallback)) && Next(s, Event.Rename(h, to, flags, NoCallback), s')
    ensures var new_ := Dir(to) + [Base(to)];
            (exists q :: !(new_ <= q) && Harmed(s.g, s'.g, s.root, s.open[h].node, q))
            <==> DisplacedOutside(s.g, s.root, s.open[h].node, new_)
  {
    RenameMoves(s, h, to, flags, s');
    WFTree(s);
    hide WF, Next, Callable, Walk, Move, Links, Harmed, DisplacedOutside, RenameTarget;
    MoveHarmsIff(s.g, s.root, s.open[h].node, RenameTarget(s, to, flags).value, Dir(to), Base(to));
  }

  /** Handle 7 is open on node a, which node b displaces. */
  ghost predicate Stale<N>(s: Fs<N>, a: N, b: N) {
    && WF(s) && Rooted(s.g, s.root) && !s.discard && 7 in s.open && s.open[7].node == a
    && Displaced(s.g, s.root, a) && Walk(s.g, s.root, ["a"]) == Some(b)
  }

  /** A file is added and opened, and a second one is added under the same name. */
  ghost function StaleEvents<N>(a: N, b: N): seq<Event<N>> {
    [Event.AddFile(["a"], [], [], a), Event.Open("/a", ["a"], false, NoCallback, 7, None, 0, [], a), Event.AddFile(["a"], [], [], b)]
  }

  /** Such a state can be reached from a new filesystem. */
  lemma StaleRun<N>(root: N, a: N, b: N, lim: GhostSpec.Limits) returns (s1: Fs<N>, s2: Fs<N>, s3: Fs<N>)
    requires root != a && root != b && a != b
    ensures Run([InitialFs(root, false, lim), s1, s2, s3], StaleEvents(a, b)) && Stale(s3, a, b)
  {
    var s0 := InitialFs(root, false, lim);
    InitialWF(root, false, lim);
    assert s0.root == root && s0.g.Keys == {root} && !s0.discard;
    hide WF, Called, Run, InitialFs, Rooted, Stale;
    var p: Path := ["a"];
    s1, s2, s3 := StaleSteps(s0, p, a, b);
    RunOfThree(s0, s1, s2, s3, Event.AddFile(p, [], [], a), Event.Open("/a", p, false, NoCallback, 7, None, 0, [], a), Event.AddFile(p, [], [], b));
  }

  lemma StaleSteps<N>(s0: Fs<N>, p: Path, a: N, b: N) returns (s1: Fs<N>, s2: Fs<N>, s3: Fs<N>)
    requires WF(s0) && Rooted(s0.g, s0.root) && !s0.discard && p == ["a"] && a != b && a !in s0.g && b !in s0.g
    ensures Called(s0, Event.AddFile(p, [], [], a), s1)
    ensures Called(s1, Event.Open("/a", p, false, NoCallback, 7, None, 0, [], a), s2)
    ensures Called(s2, Event.AddFile(p, [], [], b), s3) && Stale(s3, a, b)
  {
    hide WF, FileAdded, Walk, Called, Displaced, Rooted, Opened, OneFile, Stale;
    s1 := AddedFirst(s0, p, a);
    OneFileIs(s0, s1, a);
    s2 := OpenedFirst(s1, p, a);
    s3 := AddedFirst(s2, p, b);
    OneFileIs(s2, s3, b);
    ReplacedIsDisplaced(s3.g, s3.root, a, b);
    StaleIs(s3, a, b);
  }

  lemma StaleIs<N>(s: Fs<N>, a: N, b: N)
    requires WF(s) && Rooted(s.g, s.root) && !s.discard && 7 in s.open && s.open[7].node == a
    requires Displaced(s.g, s.root, a) && Walk(s.g, s.root, ["a"]) == Some(b)
    ensures Stale(s, a, b)
  {
    hide WF, Rooted, Displaced, Walk;
  }

  lemma RunOfThree<N>(s0: Fs<N>, s1: Fs<N>, s2: Fs<N>, s3: Fs<N>, e0: Event<N>, e1: Event<N>, e2: Event<N>)
    requires Called(s0, e0, s1) && Called(s1, e1, s2) && Called(s2, e2, s3)
    ensures Run([s0, s1, s2, s3], [e0, e1, e2])
  {
    hide Called;
    var ss, es := [s0, s1, s2, s3], [e0, e1, e2];
    forall i | 0 <= i < 3 ensures Called(ss[i], es[i], ss[i + 1]) {}
  }

  lemma OpenedFirst<N>(s: Fs<N>, p: Path, node: N) returns (s': Fs<N>)
    requires WF(s) && node in s.g && Walk(s.g, s.root, p) == Some(node)
    ensures s'.g == s.g && s'.root == s.root && s'.discard == s.discard && s'.open == s.open[7 := OpenFile(node, "/a")] && WF(s')
    ensures Called(s, Event.Open("/a", p, false, NoCallback, 7, None, 0, [], node), s')
  {
    s' := Opened(s, 7, node, "/a");
    OpenedKeepsWF(s, 7, node, "/a");
    OpenedIsCalled(s, p, node);
  }

  lemma OpenedIsCalled<N>(s: Fs<N>, p: Path, node: N)
    requires Walk(s.g, s.root, p) == Some(node)
    ensures Called(s, Event.Open("/a", p, false, NoCallback, 7, None, 0, [], node), Opened(s, 7, node, "/a"))
  {
    hide WF, Walk, FileAdded, CanAddFile;
  }

  lemma ReplacedIsDisplaced<N>(g: Graph<N>, root: N, n: N, m: N)
    requires n in g && root in g && g[n].parent == Some(root) && m != n
    requires g[n].name in g[root].kids && g[root].kids[g[n].name] == m
    ensures Displaced(g, root, n)
  {
    RootPath(g, root, []);
    assert Reached(g, root, root);
  }

  /** What AddFile of "/a" leaves. */
  ghost predicate OneFile<N>(s: Fs<N>, s': Fs<N>, node: N) {
    && s'.root == s.root && s'.open == s.open && s'.discard == s.discard
    && s'.g.Keys == s.g.Keys + {node} && s'.g[node].parent == Some(s.root) && s'.g[node].name == "a"
    && s.root in s.g && s'.g[s.root].kids == s.g[s.root].kids["a" := node]
    && forall m :: m in s.g && m != s.root ==> s'.g[m] == s.g[m]
  }

  lemma OneFileIs<N>(s: Fs<N>, s': Fs<N>, node: N)
    requires OneFile(s, s', node)
    ensures s'.root == s.root && s'.open == s.open && s'.discard == s.discard
    ensures s'.g.Keys == s.g.Keys + {node} && s'.g[node].parent == Some(s.root) && s'.g[node].name == "a"
    ensures s.root in s.g && "a" in s'.g[s.root].kids && s'.g[s.root].kids["a"] == node
    ensures forall m :: m in s.g && m != s.root ==> s'.g[m] == s.g[m]
  {
  }

  /** AddFile of a one-component path. */
  lemma AddedFirst<N>(s: Fs<N>, p: Path, node: N) returns (s': Fs<N>)
    requires WF(s) && Rooted(s.g, s.root) && p == ["a"] && node !in s.g
    ensures Called(s, Event.AddFile(p, [], [], node), s') && OneFile(s, s', node)
    ensures WF(s') && Rooted(s'.g, s.root) && Walk(s'.g, s.root, p) == Some(node)
  {
    WFTree(s);
    hide WF, Walk, Rooted, Create, Next, Callable, FileAdded, OneFile;
    assert Dir(p) == [] && Base(p) == "a";
    assert CanAddFile(s, p) by { NothingBlocks(s.g, s.root); }
    s' := FileAdded(s, p, [], [], node);
    FileAddedKeepsWF(s, p, [], [], node);
    FileAddedKeepsRooted(s, p, [], [], node);
    FileAddedMap(s, p, [], [], node, p);
    FirstEntry(s, p, node);
    FirstCall(s, p, node);
  }

  lemma FirstCall<N>(s: Fs<N>, p: Path, node: N)
    requires WF(s) && CanAddFile(s, p) && FreshNodes(s.g, |Dir(p)|, [], node)
    ensures Called(s, Event.AddFile(p, [], [], node), FileAdded(s, p, [], [], node))
  {
    hide WF, FileAdded, CanAddFile, FreshNodes;
  }

  lemma FirstEntry<N>(s: Fs<N>, p: Path, node: N)
    requires WF(s) && p == ["a"] && CanAddFile(s, p) && FreshNodes(s.g, |Dir(p)|, [], node) && Dir(p) == []
    ensures OneFile(s, FileAdded(s, p, [], [], node), node)
  {
    WFTree(s);
    hide WF, Create;
    var (s1, dir) := MkdirAll(s, [], []);
    assert s1.g == s.g && dir == s.root;
    CreateAt(s.g, s.root, node, NewFile<N>("a", [], 0).(inode := s1.nextInode));
  }

  lemma NothingBlocks<N>(g: Graph<N>, root: N)
    requires root in g && g[root].isDir
    ensures !Blocked(g, root, [])
  {
  }

  /** There Unlink through the handle takes away a path that does not lead through the file it was opened on. */
  lemma StaleUnlinkRemovesTheReplacement<N>(s: Fs<N>, a: N, b: N, s': Fs<N>)
    requires Stale(s, a, b) && Next(s, Event.Unlink(7), s')
    ensures exists q :: Harmed(s.g, s'.g, s.root, a, q)
  {
    UnlinkHarmsIff(s, 7, s');
  }
}
