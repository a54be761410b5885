/** The state of a MemoryFS as a value and what each call does to it. The class in MemoryFs.dfy is proved to
    take exactly these steps; HoneypotLaws, TreeLaws and SparseFile prove what holds over whole runs. */
module MemoryModel {
  import opened Bytes
  import opened Namespace
  import GhostSpec
  import GhostLaws

  type Handle = nat

  datatype OpenFile<N> = OpenFile(node: N, path: string)

  /** What a user callback answered; NoCallback when none is installed. */
  datatype Callback = NoCallback | Pass | Reject | Block

  datatype Fs<N> = Fs(
    g: Graph<N>,
    root: N,
    dummies: set<N>,           // the stand-ins for files not created; all other nodes drew their inode
    nextInode: nat,
    open: map<Handle, OpenFile<N>>,
    discard: bool,
    reg: GhostSpec.Registry<N>,
    lim: GhostSpec.Limits)

  // ----- what every reachable state keeps -----

  /** Nodes that drew their inode from nextInode have distinct inodes. */
  ghost predicate InodesDistinct<N>(g: Graph<N>, dummies: set<N>, nextInode: nat) {
    && (forall n :: n in g && n !in dummies ==> g[n].inode < nextInode)
    && (forall n, m :: n in g && m in g && n !in dummies && m !in dummies && n != m ==> g[n].inode != g[m].inode)
  }

  /** In normal mode the size field is the length of the content. */
  ghost predicate SizesExact<N>(g: Graph<N>) {
    forall n :: n in g ==> g[n].size == |g[n].content|
  }

  ghost predicate GhostsKnown<N>(s: Fs<N>) {
    GhostSpec.KeysMatch(s.reg.ghosts) && forall k :: k in s.reg.ghosts ==> s.reg.ghosts[k].node in s.g
  }

  ghost predicate Tree<N>(g: Graph<N>, root: N) {
    && Links(g) && ParentsInside(g) && FilesAreLeaves(g)
    && root in g && g[root].isDir
  }

  ghost predicate WF<N>(s: Fs<N>) {
    && Tree(s.g, s.root)
    && (forall h :: h in s.open ==> s.open[h].node in s.g)
    && GhostsKnown(s)
    && InodesDistinct(s.g, s.dummies, s.nextInode)
    && s.dummies <= s.g.Keys
    && (!s.discard ==> SizesExact(s.g))
    && (forall n :: n in s.g ==> s.g[n].size < TWO64)
  }

  // ----- one node -----

  const DUMMY_INODE := 999999

  /** content grown with zeros to length n */
  function Grown(content: Bytes, n: nat): (r: Bytes)
    ensures |r| == if n > |content| then n else |content|
  {
    if n > |content| then content + Zeros(n - |content|) else content
  }

  function Max(a: nat, b: nat): nat { if a > b then a else b }

  /** Write in normal mode. */
  function Written<N>(n: Node<N>, buf: Bytes, off: nat): Node<N>
    requires n.size == |n.content|
  {
    n.(content := Splice(Grown(n.content, off + |buf|), off, buf), size := Max(n.size, off + |buf|))
  }

  /** Write in honeypot mode: only the size moves, and the end offset is a uint64. */
  function Pretended<N>(n: Node<N>, buf: Bytes, off: nat): Node<N> {
    n.(size := Max(n.size, ToUint64(off + |buf|)))
  }

  function Truncated<N>(n: Node<N>, size: nat): Node<N>
    requires n.size == |n.content|
  {
    n.(content := if size < n.size then n.content[..size] else Grown(n.content, size), size := size)
  }

  datatype ReadResult = Data(bytes: Bytes) | EOF | ReadError | ReadPanics

  /** What a read of len bytes at offset gives. Read looks at the size and then slices the content, which a
      pretended write has not grown: Go panics when the offset lies beyond its end. */
  ghost function ReadOf<N>(n: Node<N>, len: nat, offset: nat): ReadResult {
    if n.isDir then ReadError
    else if offset >= n.size then EOF
    else if offset > |n.content| then ReadPanics
    else if offset == |n.content| || len == 0 then EOF
    else Data(n.content[offset..if |n.content| - offset < len then |n.content| else offset + len])
  }

  // ----- the calls -----

  /** A handle is opened on a node. */
  ghost function Opened<N>(s: Fs<N>, h: Handle, node: N, path: string): Fs<N> {
    s.(open := s.open[h := OpenFile(node, path)])
  }

  /** Open's stand-in for a file it does not create: a node that no directory knows. */
  ghost function OpenedDummy<N>(s: Fs<N>, h: Handle, dummy: N, p: Path, path: string): Fs<N> {
    Opened(s.(g := s.g[dummy := NewFile(Base(p), [], DUMMY_INODE)], dummies := s.dummies + {dummy}), h, dummy, path)
  }

  /** getOrCreateDirPath from the root, when no ancestor is a file: the state and the directory. */
  ghost function MkdirAll<N>(s: Fs<N>, p: Path, supply: seq<N>): (r: (Fs<N>, N))
    requires Tree(s.g, s.root) && |supply| == |p| && FreshSupply(s.g, supply) && !Blocked(s.g, s.root, p)
    ensures r.1 in r.0.g
  {
    MakeDirsFailsIffBlocked(s.g, s.root, p, supply, s.nextInode);
    MakeDirsKeys(s.g, s.root, p, supply, s.nextInode);
    var (g', dir) := MakeDirs(s.g, s.root, p, supply, s.nextInode);
    (s.(g := g', nextInode := s.nextInode + |g'.Keys - s.g.Keys|), dir.value)
  }

  /** A new node entered under its name in directory d, with the next inode. */
  ghost function Added<N>(s: Fs<N>, d: N, n: N, node: Node<N>): Fs<N>
    requires d in s.g && n !in s.g
  {
    s.(g := Create(s.g, d, n, node.(inode := s.nextInode)), nextInode := s.nextInode + 1)
  }

  ghost predicate CanAddFile<N>(s: Fs<N>, p: Path) {
    p != [] && !Blocked(s.g, s.root, Dir(p))
  }

  /** Open creates the file: the path is missing, and neither a callback nor the honeypot mode prevents it. */
  ghost predicate WillAddFile<N>(s: Fs<N>, p: Path, creating: bool, cb: Callback) {
    creating && Walk(s.g, s.root, p).None? && cb != Reject && cb != Block && !s.discard && CanAddFile(s, p)
  }

  /** Open makes a stand-in node. */
  ghost predicate StandsIn<N>(s: Fs<N>, p: Path, creating: bool, cb: Callback) {
    creating && Walk(s.g, s.root, p).None? && cb != Reject && (cb == Block || s.discard)
  }

  ghost predicate FreshNodes<N>(g: Graph<N>, n: nat, supply: seq<N>, node: N) {
    |supply| == n && FreshSupply(g, supply) && node !in g && node !in supply
  }

  /** AddFile */
  ghost function FileAdded<N>(s: Fs<N>, p: Path, content: Bytes, supply: seq<N>, node: N): Fs<N>
    requires Tree(s.g, s.root) && CanAddFile(s, p) && FreshNodes(s.g, |Dir(p)|, supply, node)
  {
    var (s1, dir) := MkdirAll(s, Dir(p), supply);
    MakeDirsKeys(s.g, s.root, Dir(p), supply, s.nextInode);
    Added(s1, dir, node, NewFile(Base(p), content, 0))
  }

  datatype Event<N> =
    | AddFile(path: Path, content: Bytes, supply: seq<N>, node: N)
    | AddDirectory(path: Path, supply: seq<N>)
    | Mkdir(path: Path, cb: Callback, node: N)
    | Open(raw: string, path: Path, creating: bool, cb: Callback, h: Handle,
           ctx: Option<GhostSpec.Session>, at: nat, supply: seq<N>, node: N)
    | Close(h: Handle, ctx: Option<GhostSpec.Session>, at: nat,
            phase1: GhostSpec.Registry<N>, phase2: GhostSpec.Registry<N>)
    | Write(h: Handle, buf: Bytes, off: nat, cb: Callback)
    | Truncate(h: Handle, size: nat)
    | Rename(h: Handle, path: Path, flags: int, cb: Callback)
    | Unlink(h: Handle)
    | Setxattr(h: Handle, key: string, val: Bytes)
    | Sweep(at: nat)

  /** Rename's checks: the destination directory, if the rename goes ahead. */
  ghost function RenameTarget<N>(s: Fs<N>, p: Path, flags: int): Option<N> {
    var d := Walk(s.g, s.root, Dir(p));
    if d.None? || d.value !in s.g || (Base(p) in s.g[d.value].kids && flags == 0) then None else d
  }

  /** Mkdir makes an entry in a file: Go panics on the nil map of its children. */
  ghost predicate MkdirPanics<N>(s: Fs<N>, p: Path, cb: Callback) {
    && cb != Reject && cb != Block && !s.discard
    && var d := Walk(s.g, s.root, Dir(p)); d.Some? && d.value in s.g && Base(p) !in s.g[d.value].kids && !s.g[d.value].isDir
  }

  /** So does Rename, once its checks have passed. */
  ghost predicate RenamePanics<N>(s: Fs<N>, h: Handle, p: Path, flags: int, cb: Callback) {
    && h in s.open && cb != Reject && cb != Block && !s.discard
    && var d := RenameTarget(s, p, flags); d.Some? && d.value in s.g && !s.g[d.value].isDir
  }

  /** The end of a write wraps around: the content is not grown, and slicing it at the offset panics. */
  ghost predicate WritePanics<N>(s: Fs<N>, h: Handle, buf: Bytes, off: nat, cb: Callback) {
    && h in s.open && cb != Reject && cb != Block && !s.discard
    && s.open[h].node in s.g && !s.g[s.open[h].node].isDir && off + |buf| >= TWO64
  }

  /** The preconditions on a call: numbers are uint64, nodes to be made are new, and the call does not panic. */
  ghost predicate Callable<N>(s: Fs<N>, e: Event<N>) {
    match e
    case AddFile(p, content, supply, node) =>
      |content| < TWO64 && (CanAddFile(s, p) ==> FreshNodes(s.g, |Dir(p)|, supply, node))
    case AddDirectory(p, supply) =>
      !Blocked(s.g, s.root, p) ==> |supply| == |p| && FreshSupply(s.g, supply)
    case Mkdir(p, cb, node) =>
      node !in s.g && !MkdirPanics(s, p, cb)
    case Open(_, p, creating, cb, _, _, _, supply, node) =>
      (StandsIn(s, p, creating, cb) ==> node !in s.g) &&
      (WillAddFile(s, p, creating, cb) ==> FreshNodes(s.g, |Dir(p)|, supply, node))
    case Close(_, _, _, _, _) => true
    case Write(h, buf, off, cb) =>
      off < TWO64 && |buf| < TWO64 && !WritePanics(s, h, buf, off, cb)
    case Truncate(_, size) => size < TWO64
    case Rename(h, p, flags, cb) => !RenamePanics(s, h, p, flags, cb)
    case Unlink(_) => true
    case Setxattr(_, _, _) => true
    case Sweep(_) => true
  }

  ghost predicate NextOpen<N>(s: Fs<N>, e: Event<N>, s': Fs<N>)
    requires WF(s) && Callable(s, e) && e.Open?
  {
    var found := Walk(s.g, s.root, e.path);
    if found.Some? then s' == Opened(s, e.h, found.value, e.raw)
    else if !e.creating then
      // the ghost registry is asked only when the path is not in the tree
      if e.ctx.Some? && GhostSpec.MakeGhostKey(e.ctx.value, e.raw) in s.reg.ghosts then
        var key := GhostSpec.MakeGhostKey(e.ctx.value, e.raw);
        s' == Opened(s.(reg := GhostSpec.Touch(s.reg, key, e.at)), e.h, s.reg.ghosts[key].node, e.raw)
      else s' == s
    else if e.cb == Reject then s' == s
    else if e.cb == Block || s.discard then s' == OpenedDummy(s, e.h, e.node, e.path, e.raw)
    else if !CanAddFile(s, e.path) then s' == s
    else
      // the new path is resolved again; FileReached says what that finds
      var s1 := FileAdded(s, e.path, [], e.supply, e.node);
      var made := Walk(s1.g, s1.root, e.path);
      s' == if made.None? then s1 else Opened(s1, e.h, made.value, e.raw)
  }

  ghost predicate NextClose<N>(s: Fs<N>, e: Event<N>, s': Fs<N>)
    requires WF(s) && e.Close? && e.h in s.open
  {
    var f := s.open[e.h];
    var s1 := s.(open := s.open - {e.h});
    && s' == s1.(reg := s'.reg)
    && GhostSpec.Saved(s.reg, e.phase1, e.phase2, s'.reg, if s.discard then e.ctx else None,
                       f.path, f.node, ToInt64(s.g[f.node].size), e.at, s.lim)
  }

  /** One call. */
  ghost predicate Next<N>(s: Fs<N>, e: Event<N>, s': Fs<N>)
    requires WF(s) && Callable(s, e)
  {
    match e
    case AddFile(p, content, supply, node) =>
      s' == if CanAddFile(s, p) then FileAdded(s, p, content, supply, node) else s
    case AddDirectory(p, supply) =>
      s' == if Blocked(s.g, s.root, p) then s else MkdirAll(s, p, supply).0
    case Mkdir(p, cb, node) =>
      var d := Walk(s.g, s.root, Dir(p));
      if cb == Reject || cb == Block || s.discard || d.None? || d.value !in s.g || Base(p) in s.g[d.value].kids
      then s' == s
      else s' == Added(s, d.value, node, NewDir(Base(p), 0))
    case Open(_, _, _, _, _, _, _, _, _) => NextOpen(s, e, s')
    case Close(h, _, _, _, _) => if h in s.open then NextClose(s, e, s') else s' == s
    case Write(h, buf, off, cb) =>
      if h !in s.open || cb == Reject || cb == Block then s' == s
      else
        var n := s.open[h].node;
        if s.discard then s' == s.(g := s.g[n := Pretended(s.g[n], buf, off)])
        else if s.g[n].isDir then s' == s
        else s' == s.(g := s.g[n := Written(s.g[n], buf, off)])
    case Truncate(h, size) =>
      if s.discard || h !in s.open then s' == s
      else
        var n := s.open[h].node;
        if s.g[n].isDir then s' == s
        else s' == s.(g := s.g[n := Truncated(s.g[n], size)])
    case Rename(h, p, flags, cb) =>
      if h !in s.open || cb == Reject || cb == Block || s.discard then s' == s
      else
        var n, d := s.open[h].node, RenameTarget(s, p, flags);
        if d.None? || d.value !in s.g then s' == s
        else s' == s.(g := Move(s.g, n, d.value, Base(p)))
    case Unlink(h) =>
      if s.discard || h !in s.open then s' == s
      else
        var n := s.open[h].node;
        if s.g[n].parent.None? then s' == s
        else s' == s.(g := Detach(s.g, n))
    case Setxattr(h, key, val) =>
      if s.discard || h !in s.open then s' == s
      else
        var n := s.open[h].node;
        s' == s.(g := s.g[n := s.g[n].(xattrs := s.g[n].xattrs[key := val])])
    case Sweep(now) =>
      s' == s.(reg := s'.reg) && GhostLaws.Swept(s.reg, s'.reg, now)
  }
}
