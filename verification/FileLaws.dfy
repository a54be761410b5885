/** What the calls on a MemoryFS leave behind, field by field: the nodes they make, the handles they open and
    close, the attributes they set, and when a rename is refused. */
module FileLaws {
  import opened Bytes
  import opened Namespace
  import opened MemoryModel
  import opened TreeLaws
  import GhostSpec
  import GhostLaws

  // ----- new nodes -----

  /** A file with just this content. */
  ghost predicate IsNewFile<N>(n: Node<N>, name: string, content: Bytes) {
    && !n.isDir && n.name == name && n.content == content && n.size == |content| && n.kids == map[] && n.xattrs == map[]
  }

  /** A directory without content or attributes. */
  ghost predicate IsNewDir<N>(n: Node<N>) {
    n.isDir && n.content == [] && n.size == 0 && n.xattrs == map[]
  }

  /** Reading a new file from its start gives its first bytes; at its end, or into an empty buffer, end of file. */
  lemma NewFileReads<N>(n: Node<N>, name: string, content: Bytes, len: nat)
    requires IsNewFile(n, name, content)
    ensures ReadOf(n, len, 0) == if content == [] || len == 0 then EOF else Data(content[..if len < |content| then len else |content|])
  {
  }

  /** The directories that getOrCreateDirPath makes are new and empty but for the next one; nodes that were there
      keep all but their entries. */
  lemma {:induction false} MadeNodes<N>(g: Graph<N>, cur: N, parts: Path, supply: seq<N>, inode: nat, n: N)
    requires cur in g && |supply| == |parts| && FreshSupply(g, supply) && n in MakeDirs(g, cur, parts, supply, inode).0
    ensures var g' := MakeDirs(g, cur, parts, supply, inode).0;
            if n in g then g'[n] == g[n].(kids := g'[n].kids) else IsNewDir(g'[n])
    decreases |parts|
  {
    if parts != [] {
      hide MakeDirs;
      MakeDirsUnfold(g, cur, parts, supply, inode);
      if parts[0] in g[cur].kids {
        var child := g[cur].kids[parts[0]];
        if child in g && g[child].isDir { MadeNodes(g, child, parts[1..], supply[1..], inode, n); }
      } else {
        var g1 := Create(g, cur, supply[0], NewDir(parts[0], inode));
        CreateAt(g, cur, supply[0], NewDir<N>(parts[0], inode));
        MadeNodes(g1, supply[0], parts[1..], supply[1..], inode + 1, n);
      }
    }
  }

  lemma MadeByMkdirAll<N>(s: Fs<N>, p: Path, supply: seq<N>, n: N)
    requires Tree(s.g, s.root) && |supply| == |p| && FreshSupply(s.g, supply) && !Blocked(s.g, s.root, p)
    requires n in MkdirAll(s, p, supply).0.g
    ensures var g' := MkdirAll(s, p, supply).0.g;
            if n in s.g then g'[n] == s.g[n].(kids := g'[n].kids) else IsNewDir(g'[n])
  {
    hide MakeDirs, Blocked;
    MadeNodes(s.g, s.root, p, supply, s.nextInode, n);
  }

  /** AddFile, node by node: the new file has its content, the ancestors made are new directories, and every
      other node keeps all but its entries. */
  lemma FileAddedNodes<N>(s: Fs<N>, p: Path, content: Bytes, supply: seq<N>, node: N, n: N)
    requires WF(s) && CanAddFile(s, p) && FreshNodes(s.g, |Dir(p)|, supply, node)
    requires n in FileAdded(s, p, content, supply, node).g
    ensures var g' := FileAdded(s, p, content, supply, node).g;
            && node in g' && IsNewFile(g'[node], Base(p), content)
            && (n in s.g ==> g'[n] == s.g[n].(kids := g'[n].kids))
            && (n !in s.g && n != node ==> IsNewDir(g'[n]))
  {
    hide MkdirAll, Blocked, Create, WF, FreshSupply, Tree, Links;
    WFTree(s);
    var (s1, dir) := MkdirAll(s, Dir(p), supply);
    MkdirAllKeys(s, Dir(p), supply);
    CreateAt(s1.g, dir, node, NewFile<N>(Base(p), content, 0).(inode := s1.nextInode));
    if n in s1.g { MadeByMkdirAll(s, Dir(p), supply, n); }
  }

  /** A successful AddFile: the node at its path is a file that holds the content, and reads return it. */
  lemma AddedFileHolds<N>(s: Fs<N>, p: Path, content: Bytes, supply: seq<N>, node: N, s': Fs<N>, len: nat)
    requires WF(s) && Rooted(s.g, s.root) && CanAddFile(s, p)
    requires Callable(s, Event.AddFile(p, content, supply, node)) && Next(s, Event.AddFile(p, content, supply, node), s')
    ensures Walk(s'.g, s.root, p) == Some(node) && node in s'.g && IsNewFile(s'.g[node], Base(p), content)
    ensures ReadOf(s'.g[node], len, 0) ==
            if content == [] || len == 0 then EOF else Data(content[..if len < |content| then len else |content|])
    ensures forall n :: n in s'.g && n !in s.g && n != node ==> IsNewDir(s'.g[n])
    ensures forall n :: n in s'.g && n in s.g ==> s'.g[n] == s.g[n].(kids := s'.g[n].kids)
  {
    hide WF, FileAdded, CanAddFile, Rooted, Walk, IsNewFile, IsNewDir, FreshNodes;
    FileAddedMap(s, p, content, supply, node, p);
    FileAddedHas(s, p, content, supply, node);
    NewFileReads(s'.g[node], Base(p), content, len);
    forall n | n in s'.g ensures (n !in s.g && n != node ==> IsNewDir(s'.g[n])) && (n in s.g ==> s'.g[n] == s.g[n].(kids := s'.g[n].kids)) {
      FileAddedNodes(s, p, content, supply, node, n);
    }
  }

  lemma FileAddedHas<N>(s: Fs<N>, p: Path, content: Bytes, supply: seq<N>, node: N)
    requires WF(s) && CanAddFile(s, p) && FreshNodes(s.g, |Dir(p)|, supply, node)
    ensures var g' := FileAdded(s, p, content, supply, node).g; node in g' && IsNewFile(g'[node], Base(p), content)
  {
    hide MkdirAll, Blocked, Create, WF, FreshSupply, Tree, Links;
    WFTree(s);
    var (s1, dir) := MkdirAll(s, Dir(p), supply);
    MkdirAllKeys(s, Dir(p), supply);
    CreateAt(s1.g, dir, node, NewFile<N>(Base(p), content, 0).(inode := s1.nextInode));
  }

  /** AddDirectory makes new, empty directories only. */
  lemma AddedDirectoriesAreEmpty<N>(s: Fs<N>, p: Path, supply: seq<N>, s': Fs<N>, n: N)
    requires WF(s) && Callable(s, Event.AddDirectory(p, supply)) && Next(s, Event.AddDirectory(p, supply), s') && n in s'.g
    ensures if n in s.g then s'.g[n] == s.g[n].(kids := s'.g[n].kids) else IsNewDir(s'.g[n])
  {
    hide WF, MkdirAll, Tree, IsNewDir, FreshSupply;
    WFTree(s);
    if !Blocked(s.g, s.root, p) { MadeByMkdirAll(s, p, supply, n); }
  }

  /** Mkdir makes a new directory with its name and no entries, if it makes anything. */
  lemma MadeDirIsEmpty<N>(s: Fs<N>, p: Path, cb: Callback, node: N, s': Fs<N>)
    requires WF(s) && Callable(s, Event.Mkdir(p, cb, node)) && Next(s, Event.Mkdir(p, cb, node), s') && s' != s
    ensures node !in s.g && node in s'.g && IsNewDir(s'.g[node]) && s'.g[node].name == Base(p) && s'.g[node].kids == map[]
    ensures forall n :: n in s.g ==> n in s'.g && s'.g[n] == s.g[n].(kids := s'.g[n].kids)
  {
    hide WF, Create, Walk;
    CreateAt(s.g, Walk(s.g, s.root, Dir(p)).value, node, NewDir<N>(Base(p), 0).(inode := s.nextInode));
  }

  // ----- handles -----

  /** Open changes no handle but its own. */
  lemma OpenKeepsOtherHandles<N>(s: Fs<N>, e: Event<N>, s': Fs<N>, h: Handle)
    requires WF(s) && Callable(s, e) && Next(s, e, s') && e.Open? && h != e.h
    ensures h in s'.open <==> h in s.open
    ensures h in s.open ==> s'.open[h] == s.open[h]
  {
    hide WF, FileAdded, Walk, CanAddFile, Tree;
    FileAddedOpen(s, e);
  }

  lemma FileAddedOpen<N>(s: Fs<N>, e: Event<N>)
    requires WF(s) && Callable(s, e) && e.Open?
    ensures WillAddFile(s, e.path, e.creating, e.cb) ==> FileAdded(s, e.path, [], e.supply, e.node).open == s.open
  {
    hide MakeDirs, Create, Blocked, Tree;
    WFTree(s);
  }

  /** Open of a path that is there opens its node and changes nothing else. */
  lemma OpenFindsThePath<N>(s: Fs<N>, e: Event<N>, s': Fs<N>, n: N)
    requires WF(s) && Callable(s, e) && Next(s, e, s') && e.Open? && Walk(s.g, s.root, e.path) == Some(n)
    ensures s' == s.(open := s.open[e.h := OpenFile(n, e.raw)])
  {
    hide WF, FileAdded, Walk;
  }

  /** Open of a missing path in normal mode, without a callback that refuses or blocks it: fails and changes
      nothing unless the file is to be created and no ancestor is a file; then it opens the new, empty file that
      stands at the path. */
  lemma OpenCreates<N>(s: Fs<N>, e: Event<N>, s': Fs<N>)
    requires WF(s) && Rooted(s.g, s.root) && Callable(s, e) && Next(s, e, s') && e.Open? && Walk(s.g, s.root, e.path).None?
    requires !s.discard && e.cb != Reject && e.cb != Block
    ensures !e.creating && (e.ctx.None? || GhostSpec.MakeGhostKey(e.ctx.value, e.raw) !in s.reg.ghosts) ==> s' == s
    ensures e.creating && !CanAddFile(s, e.path) ==> s' == s
    ensures e.creating && CanAddFile(s, e.path) ==>
              && e.h in s'.open && s'.open[e.h] == OpenFile(e.node, e.raw) && e.node !in s.g
              && Walk(s'.g, s.root, e.path) == Some(e.node) && e.node in s'.g && IsNewFile(s'.g[e.node], Base(e.path), [])
  {
    hide WF, FileAdded, Walk, CanAddFile, Rooted, IsNewFile;
    if e.creating && CanAddFile(s, e.path) {
      FileAddedMap(s, e.path, [], e.supply, e.node, e.path);
      FileAddedHas(s, e.path, [], e.supply, e.node);
      FileAddedRoot(s, e);
    }
  }

  lemma FileAddedRoot<N>(s: Fs<N>, e: Event<N>)
    requires WF(s) && Callable(s, e) && e.Open? && WillAddFile(s, e.path, e.creating, e.cb)
    ensures FileAdded(s, e.path, [], e.supply, e.node).root == s.root
  {
    hide MakeDirs, Create, Blocked, Tree;
    WFTree(s);
  }

  /** A blocked or discarded creation opens a new, empty file with the dummy inode that no directory knows. */
  lemma OpenStandsIn<N>(s: Fs<N>, e: Event<N>, s': Fs<N>)
    requires WF(s) && Callable(s, e) && Next(s, e, s') && e.Open? && Walk(s.g, s.root, e.path).None?
    requires e.creating && e.cb != Reject && (e.cb == Block || s.discard)
    ensures e.h in s'.open && s'.open[e.h] == OpenFile(e.node, e.raw) && e.node !in s.g
    ensures s'.g.Keys == s.g.Keys + {e.node} && forall n :: n in s.g ==> s'.g[n] == s.g[n]
    ensures IsNewFile(s'.g[e.node], Base(e.path), []) && s'.g[e.node].inode == 999999 && s'.g[e.node].parent.None?
  {
    hide WF, FileAdded, Walk;
  }

  /** Close forgets its handle, and touches no other one and no node. */
  lemma CloseForgetsTheHandle<N>(s: Fs<N>, e: Event<N>, s': Fs<N>)
    requires WF(s) && Callable(s, e) && Next(s, e, s') && e.Close?
    ensures s'.open == s.open - {e.h} && s'.g == s.g && s'.root == s.root && s'.nextInode == s.nextInode
    ensures !s.discard || e.ctx.None? || e.h !in s.open ==> s'.reg == s.reg
  {
    hide WF, GhostSpec.Registered;
    if e.h !in s.open { assert s.open - {e.h} == s.open; }
  }

  /** A rename in normal mode is refused, and changes nothing, exactly when the new parent is missing, or
      something stands at the new path and no flag says to replace it. */
  lemma RenameRefusedIff<N>(s: Fs<N>, h: Handle, to: Path, flags: int, s': Fs<N>)
    requires WF(s) && Rooted(s.g, s.root) && !s.discard && h in s.open
    requires Callable(s, Event.Rename(h, to, flags, NoCallback)) && Next(s, Event.Rename(h, to, flags, NoCallback), s')
    ensures RenameTarget(s, to, flags).None? <==>
            Walk(s.g, s.root, Dir(to)).None? || (Walk(s.g, s.root, Dir(to) + [Base(to)]).Some? && flags == 0)
    ensures RenameTarget(s, to, flags).None? ==> s' == s
  {
    hide WF, Move, Walk;
    WFTree(s);
    WalkSnoc(s.g, s.root, Dir(to), Base(to));
    WalkStays(s.g, s.root, Dir(to));
  }

  // ----- extended attributes -----

  /** The value that the first i calls have last set under the key of node n. */
  ghost function LastSet<N>(ss: seq<Fs<N>>, es: seq<Event<N>>, n: N, key: string, i: nat): Option<Bytes>
    requires i <= |es| < |ss|
  {
    if i == 0 then None
    else
      var s, e := ss[i - 1], es[i - 1];
      if e.Setxattr? && e.key == key && e.h in s.open && s.open[e.h].node == n && !s.discard then Some(e.val)
      else LastSet(ss, es, n, key, i - 1)
  }

  /** Over every run: an attribute of a node has the value last set through a handle on it, or the one it had. */
  lemma {:induction false} AttributesAreLastSet<N>(ss: seq<Fs<N>>, es: seq<Event<N>>, n: N, key: string, i: nat)
    requires Run(ss, es) && WF(ss[0]) && n in ss[0].g && i <= |es|
    ensures n in ss[i].g
    ensures (key in ss[i].g[n].xattrs <==> LastSet(ss, es, n, key, i).Some? || key in ss[0].g[n].xattrs)
    ensures key in ss[i].g[n].xattrs ==>
              ss[i].g[n].xattrs[key] == if LastSet(ss, es, n, key, i).Some? then LastSet(ss, es, n, key, i).value else ss[0].g[n].xattrs[key]
  {
    hide WF, Called, Next, Callable, InodesDistinct, Links;
    if i > 0 {
      AttributesAreLastSet(ss, es, n, key, i - 1);
      RunsKeepLinks(ss, es, i - 1);
      CalledKeepsWF(ss[i - 1], es[i - 1], ss[i]);
      NextAttributes(ss[i - 1], es[i - 1], ss[i], n);
    }
  }

  lemma NextAttributes<N>(s: Fs<N>, e: Event<N>, s': Fs<N>, n: N)
    requires WF(s) && Callable(s, e) && Next(s, e, s') && n in s.g
    ensures n in s'.g
    ensures s'.g[n].xattrs == if e.Setxattr? && e.h in s.open && s.open[e.h].node == n && !s.discard
                              then s.g[n].xattrs[e.key := e.val] else s.g[n].xattrs
  {
    hide WF, Next, Callable;
    if e.AddFile? || e.AddDirectory? || e.Mkdir? || e.Open? {
      MakingKeepsAttributes(s, e, s', n);
    } else {
      OtherKeepsAttributes(s, e, s', n);
    }
  }

  lemma MakingKeepsAttributes<N>(s: Fs<N>, e: Event<N>, s': Fs<N>, n: N)
    requires WF(s) && Callable(s, e) && Next(s, e, s') && n in s.g && (e.AddFile? || e.AddDirectory? || e.Mkdir? || e.Open?)
    ensures n in s'.g && s'.g[n].xattrs == s.g[n].xattrs
  {
    hide WF, Tree, FileAdded, MkdirAll, Walk, CanAddFile, Blocked, Create, IsNewDir, IsNewFile, FreshSupply;
    WFTree(s);
    FileAddedKeeps(s, e, n);
    if e.AddDirectory? && !Blocked(s.g, s.root, e.path) {
      MkdirAllHas(s, e.path, e.supply, n);
      MadeByMkdirAll(s, e.path, e.supply, n);
    }
    if e.Mkdir? && s' != s { MadeDirIsEmpty(s, e.path, e.cb, e.node, s'); }
  }

  lemma MkdirAllHas<N>(s: Fs<N>, p: Path, supply: seq<N>, n: N)
    requires Tree(s.g, s.root) && |supply| == |p| && FreshSupply(s.g, supply) && !Blocked(s.g, s.root, p) && n in s.g
    ensures n in MkdirAll(s, p, supply).0.g
  {
    hide MakeDirs;
    MakeDirsKeys(s.g, s.root, p, supply, s.nextInode);
  }

  lemma FileAddedKeeps<N>(s: Fs<N>, e: Event<N>, n: N)
    requires WF(s) && Callable(s, e) && n in s.g && Tree(s.g, s.root)
    ensures e.AddFile? && CanAddFile(s, e.path) ==>
              var g' := FileAdded(s, e.path, e.content, e.supply, e.node).g; n in g' && g'[n].xattrs == s.g[n].xattrs
    ensures e.Open? && WillAddFile(s, e.path, e.creating, e.cb) ==>
              var g' := FileAdded(s, e.path, [], e.supply, e.node).g; n in g' && g'[n].xattrs == s.g[n].xattrs
  {
    hide WF, Tree, FreshNodes, Walk, IsNewDir, IsNewFile, CanAddFile, FileAdded;
    if e.AddFile? && CanAddFile(s, e.path) {
      FileAddedIncludes(s, e.path, e.content, e.supply, e.node, n);
      FileAddedNodes(s, e.path, e.content, e.supply, e.node, n);
    }
    if e.Open? && WillAddFile(s, e.path, e.creating, e.cb) {
      FileAddedIncludes(s, e.path, [], e.supply, e.node, n);
      FileAddedNodes(s, e.path, [], e.supply, e.node, n);
    }
  }

  lemma FileAddedIncludes<N>(s: Fs<N>, p: Path, content: Bytes, supply: seq<N>, node: N, n: N)
    requires WF(s) && Tree(s.g, s.root) && CanAddFile(s, p) && FreshNodes(s.g, |Dir(p)|, supply, node) && n in s.g
    ensures n in FileAdded(s, p, content, supply, node).g
  {
    hide MkdirAll, Blocked, Create, WF, FreshSupply, Tree;
    var (s1, dir) := MkdirAll(s, Dir(p), supply);
    MkdirAllKeys(s, Dir(p), supply);
    MkdirAllHas(s, Dir(p), supply, n);
    CreateAt(s1.g, dir, node, NewFile<N>(Base(p), content, 0).(inode := s1.nextInode));
  }

  lemma OtherKeepsAttributes<N>(s: Fs<N>, e: Event<N>, s': Fs<N>, n: N)
    requires WF(s) && Callable(s, e) && Next(s, e, s') && n in s.g && !e.AddFile? && !e.AddDirectory? && !e.Mkdir? && !e.Open?
    ensures n in s'.g
    ensures s'.g[n].xattrs == if e.Setxattr? && e.h in s.open && s.open[e.h].node == n && !s.discard
                              then s.g[n].xattrs[e.key := e.val] else s.g[n].xattrs
  {
    hide WF, Move, Detach, Written, Truncated, Pretended, RenameTarget, NextClose, GhostLaws.Swept, Walk;
    WFTree(s);
    NodesKnown(s);
    if e.Rename? {
      MoveTargetKnown(s, e);
      if s' != s { MoveKeepsAttributes(s.g, s.open[e.h].node, RenameTarget(s, e.path, e.flags).value, Base(e.path), n); }
    } else if e.Unlink? {
      if s' != s { DetachKeepsAttributes(s.g, s.open[e.h].node, n); }
    } else if e.Close? {
      if e.h in s.open { CloseForgetsTheHandle(s, e, s'); }
    } else if e.Write? || e.Truncate? {
      ContentKeepsAttributes(s, e);
    }
  }

  lemma NodesKnown<N>(s: Fs<N>)
    requires WF(s)
    ensures forall h :: h in s.open ==> s.open[h].node in s.g
    ensures forall m :: m in s.g && s.g[m].parent.Some? ==> s.g[m].parent.value in s.g
    ensures !s.discard ==> forall m :: m in s.g ==> s.g[m].size == |s.g[m].content|
  {
  }

  lemma MoveTargetKnown<N>(s: Fs<N>, e: Event<N>)
    requires WF(s) && e.Rename?
    ensures var d := RenameTarget(s, e.path, e.flags); d.Some? ==> d.value in s.g
  {
    hide WF, Walk;
  }

  lemma MoveKeepsAttributes<N>(g: Graph<N>, n: N, d: N, name: string, m: N)
    requires n in g && d in g && (g[n].parent.Some? ==> g[n].parent.value in g) && m in g
    ensures m in Move(g, n, d, name) && Move(g, n, d, name)[m].xattrs == g[m].xattrs
  {
  }

  lemma DetachKeepsAttributes<N>(g: Graph<N>, n: N, m: N)
    requires n in g && g[n].parent.Some? && g[n].parent.value in g && m in g
    ensures m in Detach(g, n) && Detach(g, n)[m].xattrs == g[m].xattrs
  {
  }

  lemma ContentKeepsAttributes<N>(s: Fs<N>, e: Event<N>)
    requires (e.Write? || e.Truncate?) && (!s.discard ==> forall m :: m in s.g ==> s.g[m].size == |s.g[m].content|)
    ensures forall m :: m in s.g ==>
              && (e.Write? ==> Pretended(s.g[m], e.buf, e.off).xattrs == s.g[m].xattrs)
              && (e.Write? && !s.discard ==> Written(s.g[m], e.buf, e.off).xattrs == s.g[m].xattrs)
              && (e.Truncate? && !s.discard ==> Truncated(s.g[m], e.size).xattrs == s.g[m].xattrs)
  {
  }
}
