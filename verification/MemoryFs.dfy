/** MemoryFS of memoryshare/memory_fs.go: nodes and tables updated in place. Every method is proved to take
    the step that MemoryModel.Next describes for its call.

    path.Clean and the splitting at "/" are the constant function clean; handles, times, the calling session
    and the answers of user callbacks are parameters. */
module MemoryFs {
  import opened Bytes
  import opened Namespace
  import opened MemoryModel
  import opened TreeLaws
  import opened GhostRegistry
  import GhostSpec
  import GhostLaws

  function NonNull(n: MemoryNode?): Option<MemoryNode> {
    if n == null then None
    else
      var node: MemoryNode := n;
      Some(node)
  }

  class MemoryNode {
    var name: string
    var isDir: bool
    var content: Bytes
    var size: nat
    var children: map<string, MemoryNode>
    var parent: MemoryNode?
    var inode: nat
    var xattrs: map<string, Bytes>

    ghost function View(): Node<MemoryNode>
      reads this
    {
      Node(name, isDir, content, size, children, NonNull(parent), inode, xattrs)
    }

    /** The struct literals of the source. */
    method Init(name: string, isDir: bool, content: Bytes, parent: MemoryNode?, inode: nat)
      modifies this
      ensures View() == Node(name, isDir, content, |content|, map[], NonNull(parent), inode, map[])
    {
      this.name, this.isDir, this.content, this.size := name, isDir, content, |content|;
      this.children, this.parent, this.inode, this.xattrs := map[], parent, inode, map[];
    }

    // ----- the locked sections of the calls on a handle -----

    method ReadAt(len: nat, offset: nat) returns (r: ReadResult)
      ensures r == ReadOf(View(), len, offset)
    {
      if isDir { return ReadError; }
      if offset >= size { return EOF; }
      if offset > |content| { return ReadPanics; }
      var n := if |content| - offset < len then |content| - offset else len;
      if n == 0 { return EOF; }
      return Data(content[offset..offset + n]);
    }

    method WriteAt(buf: Bytes, offset: nat)
      requires size == |content|
      modifies this`content, this`size
      ensures View() == Written(old(View()), buf, offset)
    {
      var endOffset := offset + |buf|;
      if endOffset > size {
        content := Grown(content, endOffset);
        size := endOffset;
      }
      content := Splice(content, offset, buf);
    }

    /** Write in honeypot mode. */
    method Pretend(buf: Bytes, offset: nat)
      modifies this`size
      ensures View() == Pretended(old(View()), buf, offset)
    {
      var endOffset := ToUint64(offset + |buf|);
      if endOffset > size { size := endOffset; }
    }

    method TruncateTo(newSize: nat)
      requires size == |content|
      modifies this`content, this`size
      ensures View() == Truncated(old(View()), newSize)
    {
      if newSize < size {
        content := content[..newSize];
      } else if newSize > size {
        content := Grown(content, newSize);
      }
      size := newSize;
    }

    method SetXattr(key: string, val: Bytes)
      modifies this`xattrs
      ensures View() == old(View()).(xattrs := old(xattrs)[key := val])
    {
      xattrs := xattrs[key := val];
    }
  }

  class MemoryFS {
    const clean: string -> Path
    const root: MemoryNode
    const ghosts: GhostFiles<MemoryNode>
    const discardWrites: bool
    var openFiles: map<Handle, OpenFile<MemoryNode>>
    var nextInode: nat
    ghost var g: Graph<MemoryNode>   // the fields of every node
    ghost var dummies: set<MemoryNode>

    /** g is what the heap holds. */
    ghost predicate Coupled()
      reads this, g.Keys
    {
      forall n :: n in g ==> n.View() == g[n]
    }

    ghost function Snap(): Fs<MemoryNode>
      reads this, ghosts
    {
      Fs(g, root, dummies, nextInode, openFiles, discardWrites, ghosts.State(), ghosts.Lim())
    }

    ghost predicate Valid()
      reads this, ghosts, g.Keys
    {
      Coupled() && WF(Snap())
    }

    /** NewMemoryFS, with the mode set once before serving. */
    constructor (clean: string -> Path, discardWrites: bool)
      ensures Valid() && fresh(g.Keys) && fresh(ghosts)
      ensures Snap().open == map[] && Snap().reg == GhostSpec.EmptyRegistry()
      ensures g == map[root := NewNode("/", true, [], 1)] && Rooted(g, root)
      ensures this.clean == clean && this.discardWrites == discardWrites
    {
      var r := new MemoryNode;
      r.Init("/", true, [], null, 1);
      var reg := new GhostFiles<MemoryNode>();
      this.clean, this.root, this.ghosts, this.discardWrites := clean, r, reg, discardWrites;
      openFiles, nextInode := map[], 2;
      g, dummies := map[r := NewNode("/", true, [], 1)], {};
    }

    /** resolvePath */
    method ResolvePath(p: Path) returns (node: MemoryNode?)
      requires Valid()
      ensures Walk(g, root, p) == NonNull(node)
      ensures node != null ==> node in g
    {
      hide Walk, Tree;
      var current := root;
      var i := 0;
      StartWalk(Snap());
      while i < |p|
        invariant i <= |p| && current in g
        invariant Walk(g, root, p[..i]) == Some(current)
      {
        NextWalk(Snap(), current, p, i);
        if p[i] !in current.children { return null; }
        current := current.children[p[i]];
        i := i + 1;
      }
      assert p[..|p|] == p;
      node := current;
    }

    /** A new node entered under its name in a directory. */
    method AddChild(d: MemoryNode, name: string, isDir: bool, content: Bytes) returns (n: MemoryNode)
      requires Coupled() && d in g
      modifies this`nextInode, this`g, d
      ensures Coupled() && fresh(n) && g.Keys == old(g.Keys) + {n}
      ensures g == Create(old(g), d, n, NewNode(name, isDir, content, old(nextInode)))
      ensures nextInode == old(nextInode) + 1
    {
      hide Create;
      ghost var before := g;
      n := new MemoryNode;
      n.Init(name, isDir, content, d, nextInode);
      d.children := d.children[name := n];
      CreateAt(g, d, n, NewNode(name, isDir, content, nextInode));
      g := Create(g, d, n, NewNode(name, isDir, content, nextInode));
      forall m | m in g ensures m.View() == g[m] {
        if m != n && m != d { assert m in before && old(m.View()) == before[m]; }
      }
      nextInode := nextInode + 1;
    }

    /** The branch of getOrCreateDirPath's loop that makes a directory. */
    method MakeMissing(current: MemoryNode, part: string, ghost g0: Graph<MemoryNode>, ghost inode0: nat, ghost p: Path, ghost i: nat, ghost supply: seq<MemoryNode>)
      returns (child: MemoryNode)
      requires Coupled() && i < |p| && p[i] == part && current in g && part !in current.children
      requires Making(g0, root, inode0, p, i, supply, g, current, nextInode)
      modifies this`nextInode, this`g, current
      ensures Coupled() && fresh(child) && child in g && g.Keys == old(g.Keys) + {child}
      ensures Making(g0, root, inode0, p, i + 1, supply + [child], g, child, nextInode)
    {
      hide Making, Create;
      ghost var g1, inode1 := g, nextInode;
      MakingInside(g0, root, inode0, p, i, supply, g, current, nextInode);
      child := AddChild(current, part, true, []);
      MakingCreated(g0, root, inode0, p, i, supply, g1, current, inode1, child);
    }

    /** The branch that finds the next component. filler takes the place of a node not made. */
    ghost method Descend(current: MemoryNode, part: string, g0: Graph<MemoryNode>, inode0: nat, p: Path, i: nat, supply: seq<MemoryNode>)
      returns (filler: MemoryNode)
      requires Coupled() && Links(g0) && i < |p| && p[i] == part && current in g && part in current.children
      requires Making(g0, root, inode0, p, i, supply, g, current, nextInode)
      ensures g == g0 && nextInode == inode0 && current.children[part] in g
      ensures if current.children[part].isDir
              then Making(g0, root, inode0, p, i + 1, supply + [filler], g, current.children[part], nextInode)
              else Blocked(g0, root, p)
    {
      hide Making, Blocked, Links;
      MakingChild(g0, root, inode0, p, i, supply, g, current, nextInode);
      filler := new MemoryNode;
      if current.children[part].isDir {
        MakingFound(g0, root, inode0, p, i, supply, g, current, nextInode, filler);
      }
    }

    /** One iteration of getOrCreateDirPath's loop; null when the component is a file. */
    method EnterOrMake(current: MemoryNode, part: string, ghost g0: Graph<MemoryNode>, ghost inode0: nat, ghost p: Path, ghost i: nat, ghost supply: seq<MemoryNode>)
      returns (next: MemoryNode?, ghost filler: MemoryNode)
      requires Coupled() && Links(g0) && i < |p| && p[i] == part && current in g
      requires Making(g0, root, inode0, p, i, supply, g, current, nextInode)
      modifies this`nextInode, this`g, current
      ensures Coupled() && g.Keys >= old(g.Keys) && fresh(g.Keys - old(g.Keys))
      ensures next == null ==> Blocked(g0, root, p) && g == g0 && nextInode == inode0
      ensures next != null ==> next in g && Making(g0, root, inode0, p, i + 1, supply + [filler], g, next, nextInode)
    {
      hide Making, Blocked, Links, Create;
      if part in current.children {
        filler := Descend(current, part, g0, inode0, p, i, supply);
        next := if current.children[part].isDir then current.children[part] else null;
      } else {
        next := MakeMissing(current, part, g0, inode0, p, i, supply);
        filler := next;
      }
    }

    /** getOrCreateDirPath from the root; null for its error, which changes nothing. MakingDone turns the
        last postcondition into the state after MkdirAll. */
    method GetOrCreateDirPath(p: Path) returns (node: MemoryNode?, ghost supply: seq<MemoryNode>)
      requires Coupled() && Links(g) && root in g
      modifies this`nextInode, this`g, g.Keys
      ensures Coupled() && forall n :: n in g && n !in old(g) ==> fresh(n)
      ensures node == null ==> Blocked(g, root, p) && g == old(g) && nextInode == old(nextInode)
      ensures node != null ==> Making(old(g), root, old(nextInode), p, |p|, supply, g, node, nextInode)
    {
      hide Making, Blocked, Create, Links;
      ghost var g0, inode0 := g, nextInode;
      var current := root;
      var i := 0;
      supply := [];
      MakingStarts(g, root, nextInode, p);
      while i < |p|
        invariant i <= |p| && Coupled() && current in g
        invariant Making(g0, root, inode0, p, i, supply, g, current, nextInode)
        invariant g.Keys >= g0.Keys && fresh(g.Keys - g0.Keys)
      {
        var next;
        ghost var filler;
        next, filler := EnterOrMake(current, p[i], g0, inode0, p, i, supply);
        if next == null { return null, []; }
        current := next;
        supply := supply + [filler];
        i := i + 1;
      }
      node := current;
    }

    /** The body of AddFile: the directories, then the file. */
    method EnterFile(p: Path, content: Bytes) returns (node: MemoryNode?, ghost m: Made)
      requires Coupled() && Links(g) && root in g
      modifies this`nextInode, this`g, g.Keys
      ensures Coupled() && forall n :: n in g && n !in old(g) ==> fresh(n)
      ensures node == null ==> (p == [] || Blocked(g, root, Dir(p))) && g == old(g) && nextInode == old(nextInode)
      ensures node != null ==> FileMade(old(g), root, old(nextInode), p, content, node, m, g, nextInode)
    {
      hide Making, Create, Blocked, Links;
      m := Made([], g, root, 0);
      if p == [] { return null, m; }
      ghost var supply;
      var dir: MemoryNode?;
      dir, supply := GetOrCreateDirPath(Dir(p));
      if dir == null { return null, m; }
      m := Made(supply, g, dir, nextInode);
      MakingInside(old(g), root, old(nextInode), Dir(p), |Dir(p)|, supply, g, dir, nextInode);
      node := AddChild(dir, Base(p), false, content);
    }

    /** AddFile */
    method AddFile(filepath: string, content: Bytes) returns (ok: bool, ghost e: Event<MemoryNode>)
      requires Valid() && |content| < TWO64
      modifies this`nextInode, this`g, g.Keys
      ensures Valid() && forall n :: n in g && n !in old(g) ==> fresh(n)
      ensures e.AddFile? && e.path == clean(filepath) && e.content == content
      ensures Callable(old(Snap()), e) && Next(old(Snap()), e, Snap())
      ensures ok <==> CanAddFile(old(Snap()), e.path)
    {
      hide WF, FileMade, Tree, Links, Blocked, Callable, Next, CanAddFile;
      ghost var s0 := Snap();
      WFTree(s0);
      var node: MemoryNode?;
      ghost var m;
      node, m := EnterFile(clean(filepath), content);
      e := AddFileDone(s0, clean(filepath), content, node, m, Snap());
      ok := node != null;
    }

    /** AddDirectory */
    method AddDirectory(dirpath: string) returns (ok: bool, ghost e: Event<MemoryNode>)
      requires Valid()
      modifies this`nextInode, this`g, g.Keys
      ensures Valid() && forall n :: n in g && n !in old(g) ==> fresh(n)
      ensures e.AddDirectory? && e.path == clean(dirpath)
      ensures Callable(old(Snap()), e) && Next(old(Snap()), e, Snap())
      ensures ok <==> !Blocked(old(g), root, e.path)
    {
      hide WF, Making, Tree, Links, Blocked, Callable, Next;
      ghost var s0 := Snap();
      WFTree(s0);
      var node: MemoryNode?;
      ghost var supply;
      node, supply := GetOrCreateDirPath(clean(dirpath));
      e := AddDirectoryDone(s0, clean(dirpath), node, supply, Snap());
      ok := node != null;
    }

    /** The body of Mkdir; null when the parent is missing or has the name already, or is a file: then the
        assignment to its nil map of children panics. */
    method EnterDir(p: Path) returns (node: MemoryNode?, panics: bool, ghost parent: MemoryNode)
      requires Valid() && !discardWrites
      modifies this`nextInode, this`g, g.Keys
      ensures Coupled() && forall n :: n in g && n !in old(g) ==> fresh(n)
      ensures panics ==> node == null && MkdirPanics(old(Snap()), p, NoCallback) && Snap() == old(Snap())
      ensures !panics ==> !MkdirPanics(old(Snap()), p, NoCallback)
      ensures !panics && node == null ==> !CanMkdir(old(Snap()), p) && Snap() == old(Snap())
      ensures node != null ==> CanMkdir(old(Snap()), p) && DirMade(old(Snap()), p, parent, node, g, nextInode)
    {
      hide WF, Walk, Create;
      parent := root;
      var d := ResolvePath(Dir(p));
      panics := false;
      if d == null || Base(p) in d.children { return null, false, parent; }
      if !d.isDir { return null, true, parent; }
      parent := d;
      node := AddChild(d, Base(p), true, []);
    }

    /** Mkdir: whether it reports success, or panics. */
    method Mkdir(filepath: string, cb: Callback) returns (r: Outcome<()>, ghost e: Event<MemoryNode>)
      requires Valid()
      modifies this`nextInode, this`g, g.Keys
      ensures Valid() && forall n :: n in g && n !in old(g) ==> fresh(n)
      ensures e.Mkdir? && e.path == clean(filepath) && e.cb == cb
      ensures r.Panics? <==> MkdirPanics(old(Snap()), e.path, cb)
      ensures !r.Panics? ==> Callable(old(Snap()), e) && Next(old(Snap()), e, Snap())
      ensures r.Done? <==> cb != Reject && (cb == Block || discardWrites || (CanMkdir(old(Snap()), e.path) && !r.Panics?))
    {
      hide WF, Callable, Next, CanMkdir, DirMade, Walk;
      var p := clean(filepath);
      ghost var s0 := Snap();
      if cb == Reject || cb == Block || discardWrites {
        ghost var unused := new MemoryNode;
        e := Event.Mkdir(p, cb, unused);
        MkdirRefused(s0, p, cb, unused);
        return if cb == Reject then Failed else Done(()), e;
      }
      var node: MemoryNode?;
      var panics;
      ghost var parent;
      node, panics, parent := EnterDir(p);
      if node == null {
        ghost var unused := new MemoryNode;
        e := Event.Mkdir(p, cb, unused);
        if panics { return Panics, e; }
        MkdirRefused(s0, p, cb, unused);
        return Failed, e;
      }
      e := Event.Mkdir(p, cb, node);
      MkdirDone(s0, p, cb, parent, node, Snap());
      r := Done(());
    }

    // ----- calls on a handle -----

    /** Read; it changes nothing. A size grown by a pretended write may lie beyond the content: reading there
        panics in Go. */
    method Read(h: Handle, len: nat, offset: nat) returns (r: ReadResult)
      requires Valid()
      ensures r == if h !in openFiles then ReadError else ReadOf(openFiles[h].node.View(), len, offset)
    {
      if h !in openFiles { return ReadError; }
      r := openFiles[h].node.ReadAt(len, offset);
    }

    /** Write: how many bytes it reports as written. */
    method Write(h: Handle, buf: Bytes, offset: nat, cb: Callback) returns (n: Outcome<nat>)
      requires Valid() && offset < TWO64 && |buf| < TWO64
      modifies this`g, g.Keys
      ensures Valid() && g.Keys == old(g.Keys)
      ensures n.Panics? <==> WritePanics(old(Snap()), h, buf, offset, cb)
      ensures !n.Panics? ==> Callable(old(Snap()), Event.Write(h, buf, offset, cb))
      ensures !n.Panics? ==> Next(old(Snap()), Event.Write(h, buf, offset, cb), Snap())
      ensures !n.Panics? ==>
                n == if h !in openFiles || cb == Reject || (cb != Block && !discardWrites && old(openFiles[h].node.isDir))
                     then Failed else Done(|buf|)
    {
      hide WF, Next, Callable, Written, Pretended;
      ghost var s0 := Snap();
      WriteUnchanged(s0, h, buf, offset, cb);
      if h !in openFiles || cb == Reject { return Failed; }
      var node := openFiles[h].node;
      if cb == Block { return Done(|buf|); }
      HandleNode(s0, h);
      if discardWrites {
        node.Pretend(buf, offset);
      } else {
        if node.isDir { return Failed; }
        if offset + |buf| >= TWO64 { return Panics; }
        node.WriteAt(buf, offset);
      }
      g := g[node := node.View()];
      WriteDone(s0, h, buf, offset, cb, Snap());
      return Done(|buf|);
    }

    /** Truncate: whether it reports success. */
    method Truncate(h: Handle, size: nat) returns (ok: bool)
      requires Valid() && size < TWO64
      modifies this`g, g.Keys
      ensures Valid() && g.Keys == old(g.Keys)
      ensures Callable(old(Snap()), Event.Truncate(h, size)) && Next(old(Snap()), Event.Truncate(h, size), Snap())
      ensures ok <==> discardWrites || (h in openFiles && !old(openFiles[h].node.isDir))
    {
      hide WF, Next, Callable, Truncated;
      ghost var s0 := Snap();
      TruncateUnchanged(s0, h, size);
      if discardWrites { return true; }
      if h !in openFiles { return false; }
      var node := openFiles[h].node;
      HandleNode(s0, h);
      if node.isDir { return false; }
      node.TruncateTo(size);
      g := g[node := node.View()];
      TruncateDone(s0, h, size, Snap());
      ok := true;
    }

    /** Setxattr: whether it reports success. */
    method Setxattr(h: Handle, key: string, val: Bytes) returns (ok: bool)
      requires Valid()
      modifies this`g, g.Keys
      ensures Valid() && g.Keys == old(g.Keys)
      ensures Callable(old(Snap()), Event.Setxattr(h, key, val)) && Next(old(Snap()), Event.Setxattr(h, key, val), Snap())
      ensures ok <==> discardWrites || h in openFiles
    {
      hide WF, Next, Callable;
      ghost var s0 := Snap();
      SetxattrUnchanged(s0, h, key, val);
      if discardWrites { return true; }
      if h !in openFiles { return false; }
      var node := openFiles[h].node;
      HandleNode(s0, h);
      node.SetXattr(key, val);
      g := g[node := node.View()];
      SetxattrDone(s0, h, key, val, Snap());
      ok := true;
    }

    /** delete(node.parent.children, node.name) */
    method RemoveEntry(node: MemoryNode)
      requires Coupled() && node in g && node.parent != null && node.parent in g
      modifies this`g, node.parent
      ensures Coupled() && g == Detach(old(g), node) && g.Keys == old(g.Keys)
    {
      var parent: MemoryNode := node.parent;
      parent.children := parent.children - {node.name};
      g := g[parent := parent.View()];
    }

    /** Unlink: whether it reports success. */
    method Unlink(h: Handle) returns (ok: bool)
      requires Valid()
      modifies this`g, g.Keys
      ensures Valid() && g.Keys == old(g.Keys)
      ensures Callable(old(Snap()), Event.Unlink(h)) && Next(old(Snap()), Event.Unlink(h), Snap())
      ensures ok <==> discardWrites || (h in openFiles && old(openFiles[h].node.parent) != null)
    {
      hide WF, Next, Callable, Detach;
      ghost var s0 := Snap();
      UnlinkUnchanged(s0, h);
      if discardWrites { return true; }
      if h !in openFiles { return false; }
      var node := openFiles[h].node;
      HandleNode(s0, h);
      if node.parent == null { return false; }
      RemoveEntry(node);
      UnlinkDone(s0, h, Snap());
      ok := true;
    }

    /** node.name, node.parent = name, to; to.children[name] = node */
    method SetEntry(node: MemoryNode, to: MemoryNode, name: string)
      requires Coupled() && node in g && to in g
      modifies this`g, node, to
      ensures Coupled() && g == Attach(old(g), to, name, node) && g.Keys == old(g.Keys)
    {
      hide Attach;
      ghost var before := g;
      node.name := name;
      node.parent := to;
      to.children := to.children[name := node];
      AttachExactly(before, to, name, node);
      g := Attach(before, to, name, node);
      forall m | m in g ensures m.View() == g[m] {
        if m != node && m != to { assert m in before && g[m] == before[m]; }
      }
    }

    /** The relinking that ends Rename. */
    method MoveNode(node: MemoryNode, to: MemoryNode, name: string)
      requires Coupled() && node in g && to in g && (node.parent != null ==> node.parent in g)
      modifies this`g, node, to, node.parent
      ensures Coupled() && g == Move(old(g), node, to, name) && g.Keys == old(g.Keys)
    {
      hide Detach, Attach;
      if node.parent != null { RemoveEntry(node); }
      SetEntry(node, to, name);
    }

    /** Rename: whether it reports success, or panics on the nil map of a file that should get the entry. */
    method Rename(h: Handle, toPath: string, flags: int, cb: Callback) returns (r: Outcome<()>)
      requires Valid()
      modifies this`g, g.Keys
      ensures Valid() && g.Keys == old(g.Keys)
      ensures r.Panics? <==> RenamePanics(old(Snap()), h, clean(toPath), flags, cb)
      ensures !r.Panics? ==> Callable(old(Snap()), Event.Rename(h, clean(toPath), flags, cb))
      ensures !r.Panics? ==> Next(old(Snap()), Event.Rename(h, clean(toPath), flags, cb), Snap())
      ensures r.Done? <==> h in openFiles && cb != Reject && !r.Panics? &&
                           (cb == Block || discardWrites || RenameTarget(old(Snap()), clean(toPath), flags).Some?)
    {
      hide WF, Next, Callable, RenameTarget, RenamePanics, Move, Walk;
      var p := clean(toPath);
      ghost var s0 := Snap();
      RenameUnchanged(s0, h, p, flags, cb);
      if h !in openFiles || cb == Reject { return Failed; }
      if cb == Block || discardWrites { return Done(()); }
      ghost var to: MemoryNode?;
      r, to := Relink(openFiles[h].node, h, p, flags, cb);
      if r.Done? { RenameDone(s0, h, p, flags, cb, Snap()); }
    }

    /** The checks of the target and the relinking. */
    method Relink(node: MemoryNode, ghost h: Handle, p: Path, flags: int, ghost cb: Callback) returns (r: Outcome<()>, ghost to: MemoryNode?)
      requires Valid() && h in openFiles && openFiles[h].node == node && cb != Reject && cb != Block && !discardWrites
      modifies this`g, g.Keys
      ensures Coupled() && g.Keys == old(g.Keys)
      ensures r.Panics? <==> RenamePanics(old(Snap()), h, p, flags, cb)
      ensures r.Failed? <==> RenameTarget(old(Snap()), p, flags).None?
      ensures !r.Done? ==> Valid() && Snap() == old(Snap())
      ensures r.Done? ==>
                && RenameTarget(old(Snap()), p, flags) == NonNull(to) && to in old(g) && node in old(g)
                && (old(g)[node].parent.Some? ==> old(g)[node].parent.value in old(g))
                && Snap() == old(Snap()).(g := Move(old(g), node, to, Base(p)))
    {
      hide WF, RenameTarget, RenamePanics, Move, Walk;
      ghost var s0 := Snap();
      HandleNode(s0, h);
      var parent := ResolvePath(Dir(p));
      to := parent;
      RenameTargetIs(s0, p, flags, to);
      if parent == null || (Base(p) in parent.children && flags == 0) { return Failed, to; }
      if !parent.isDir { return Panics, to; }
      MoveNode(node, parent, Base(p));
      r := Done(());
    }

    /** One round of the cleanup goroutine. */
    method Cleanup(now: nat)
      requires Valid()
      modifies ghosts
      ensures Valid()
      ensures Callable(old(Snap()), Event.Sweep(now)) && Next(old(Snap()), Event.Sweep(now), Snap())
    {
      GhostKeys(Snap());
      hide WF, Next, Callable;
      ghost var s0 := Snap();
      ghosts.Cleanup(now);
      SweepDone(s0, now, Snap());
    }

    /** Close: whether it reports success. */
    method Close(h: Handle, ctx: Option<GhostSpec.Session>, now: nat) returns (ok: bool, ghost e: Event<MemoryNode>)
      requires Valid()
      modifies this`openFiles, ghosts
      ensures Valid()
      ensures e.Close? && e.h == h && e.ctx == ctx && e.at == now
      ensures Callable(old(Snap()), e) && Next(old(Snap()), e, Snap())
      ensures ok <==> h in old(openFiles)
    {
      ghost var s0 := Snap();
      GhostKeys(s0);
      hide WF, Next, Callable, GhostSpec.KeysMatch, GhostSpec.Saved;
      ghost var r1, r2 := ghosts.State(), ghosts.State();
      ok := h in openFiles;
      if ok {
        HandleNode(s0, h);
        r1, r2 := Forget(h, ctx, now);
        e := Event.Close(h, ctx, now, r1, r2);
        CloseDone(s0, e, Snap());
      } else {
        e := Event.Close(h, ctx, now, r1, r2);
        CloseUnknown(s0, h, ctx, now, r1, r2);
      }
    }

    /** Close of an open handle. */
    method Forget(h: Handle, ctx: Option<GhostSpec.Session>, now: nat)
      returns (ghost r1: GhostSpec.Registry<MemoryNode>, ghost r2: GhostSpec.Registry<MemoryNode>)
      requires Coupled() && h in openFiles && openFiles[h].node in g && g[openFiles[h].node].size < TWO64
      requires GhostSpec.KeysMatch(ghosts.ghosts)
      modifies this`openFiles, ghosts`ghosts, ghosts`usage, ghosts`global
      ensures Coupled() && Snap() == old(Snap()).(open := old(openFiles) - {h}, reg := ghosts.State())
      ensures var f := old(openFiles)[h];
              GhostSpec.Saved(old(ghosts.State()), r1, r2, ghosts.State(), if discardWrites then ctx else None,
                              f.path, f.node, ToInt64(g[f.node].size), now, ghosts.Lim())
    {
      hide GhostSpec.KeysMatch, GhostSpec.Saved, ToInt64;
      var open := openFiles[h];
      assert open.node.View() == g[open.node];
      r1, r2 := Keep(open, ctx, now);
      openFiles := openFiles - {h};
    }

    /** In honeypot mode the file of a handle that is closed becomes a ghost. */
    method Keep(open: OpenFile<MemoryNode>, ctx: Option<GhostSpec.Session>, now: nat)
      returns (ghost r1: GhostSpec.Registry<MemoryNode>, ghost r2: GhostSpec.Registry<MemoryNode>)
      requires GhostSpec.KeysMatch(ghosts.ghosts) && open.node.size < TWO64
      modifies ghosts`ghosts, ghosts`usage, ghosts`global
      ensures GhostSpec.Saved(old(ghosts.State()), r1, r2, ghosts.State(), if discardWrites then ctx else None,
                              open.path, open.node, ToInt64(open.node.size), now, ghosts.Lim())
    {
      hide GhostSpec.KeysMatch, GhostSpec.Registered;
      r1, r2 := ghosts.State(), ghosts.State();
      if discardWrites { r1, r2 := ghosts.SaveGhost(ctx, open.path, open.node, open.node.size, now); }
    }

    /** The stand-in node for a file that is not created. */
    method MakeDummy(p: Path) returns (node: MemoryNode)
      requires Coupled()
      modifies this`g, this`dummies
      ensures Coupled() && fresh(node) && g == old(g)[node := NewFile(Base(p), [], DUMMY_INODE)]
      ensures dummies == old(dummies) + {node}
    {
      node := new MemoryNode;
      node.Init(Base(p), false, [], null, DUMMY_INODE);
      g, dummies := g[node := node.View()], dummies + {node};
    }

    /** Open of a path that the tree does not have, with O_CREATE; null for an error. */
    method OpenNew(p: Path, cb: Callback) returns (node: MemoryNode?, ghost c: Creation)
      requires Valid() && Walk(g, root, p).None?
      modifies this`nextInode, this`g, this`dummies, g.Keys
      ensures Valid() && forall n :: n in g && n !in old(g) ==> fresh(n)
      ensures Created(old(Snap()), p, cb, node, c, Snap())
    {
      hide WF, FileMade, Tree, Links, Blocked, Created, Walk;
      ghost var s0 := Snap();
      WFTree(s0);
      if cb == Reject {
        c := NotCreated(s0, p, cb);
        return null, c;
      }
      if cb == Block || discardWrites {
        node := MakeDummy(p);
        c := StoodIn(s0, p, cb, node, Snap());
        return node, c;
      }
      var file: MemoryNode?;
      ghost var m;
      file, m := EnterFile(p, []);
      ghost var e := AddFileDone(s0, p, [], file, m, Snap());
      if file == null {
        c := NotCreated(s0, p, cb);
        return null, c;
      }
      node := ResolvePath(p);
      c := CreatedFile(s0, p, cb, e, node, Snap());
    }

    /** Open. The random handle is a parameter. */
    method Open(filepath: string, creating: bool, cb: Callback, h: Handle, ctx: Option<GhostSpec.Session>, now: nat)
      returns (r: Result<Handle>, ghost e: Event<MemoryNode>)
      requires Valid()
      modifies this`nextInode, this`g, this`dummies, this`openFiles, g.Keys, ghosts
      ensures Valid() && forall n :: n in g && n !in old(g) ==> fresh(n)
      ensures IsOpen(e, filepath, clean(filepath), creating, cb, h, ctx, now)
      ensures Callable(old(Snap()), e) && Next(old(Snap()), e, Snap())
      ensures r.Ok? ==> r.value == h && h in openFiles
      ensures r.Err? ==> openFiles == old(openFiles)
    {
      hide WF, Next, Callable, Created, Walk;
      var p := clean(filepath);
      ghost var s0 := Snap();
      var node := ResolvePath(p);
      if node != null {
        openFiles := openFiles[h := OpenFile(node, filepath)];
        e := OpenedExisting(s0, filepath, p, creating, cb, h, ctx, now, node, Snap());
        return Ok(h), e;
      }
      if creating {
        r, e := OpenMissing(filepath, cb, h, ctx, now);
      } else {
        r, e := OpenGhost(filepath, cb, h, ctx, now);
      }
    }

    /** Open of a missing path without creating it: a ghost file, or an error. */
    method OpenGhost(filepath: string, cb: Callback, h: Handle, ctx: Option<GhostSpec.Session>, now: nat)
      returns (r: Result<Handle>, ghost e: Event<MemoryNode>)
      requires Valid() && Walk(g, root, clean(filepath)) == None
      modifies this`openFiles, ghosts
      ensures Valid()
      ensures IsOpen(e, filepath, clean(filepath), false, cb, h, ctx, now)
      ensures Callable(old(Snap()), e) && Next(old(Snap()), e, Snap())
      ensures r.Ok? ==> r.value == h && h in openFiles
      ensures r.Err? ==> openFiles == old(openFiles)
    {
      hide WF, Next, Callable, Walk;
      ghost var s0 := Snap();
      var found := ghosts.GetGhostFile(ctx, filepath, now);
      if found.None? {
        e := OpenedGhost(s0, filepath, clean(filepath), cb, h, ctx, now, Snap());
        return Err, e;
      }
      openFiles := openFiles[h := OpenFile(found.value.node, filepath)];
      e := OpenedGhost(s0, filepath, clean(filepath), cb, h, ctx, now, Snap());
      return Ok(h), e;
    }

    /** Open of a missing path, creating it. */
    method OpenMissing(filepath: string, cb: Callback, h: Handle, ctx: Option<GhostSpec.Session>, now: nat)
      returns (r: Result<Handle>, ghost e: Event<MemoryNode>)
      requires Valid() && Walk(g, root, clean(filepath)) == None
      modifies this`nextInode, this`g, this`dummies, this`openFiles, g.Keys
      ensures Valid() && forall n :: n in g && n !in old(g) ==> fresh(n)
      ensures IsOpen(e, filepath, clean(filepath), true, cb, h, ctx, now)
      ensures Callable(old(Snap()), e) && Next(old(Snap()), e, Snap())
      ensures r.Ok? ==> r.value == h && h in openFiles
      ensures r.Err? ==> openFiles == old(openFiles)
    {
      hide WF, Next, Callable, Created, Walk;
      ghost var s0 := Snap();
      var p := clean(filepath);
      var node;
      ghost var c;
      node, c := OpenNew(p, cb);
      ghost var s1 := Snap();
      if node == null {
        r := Err;
      } else {
        openFiles := openFiles[h := OpenFile(node, filepath)];
        r := Ok(h);
      }
      e := OpenedNew(s0, filepath, p, cb, h, ctx, now, node, c, s1, Snap());
    }
  }

  /** The nodes a creating Open may have used. */
  datatype Creation = Creation(supply: seq<MemoryNode>, node: MemoryNode)

  /** What a creating Open of a missing path does before it opens the handle. */
  ghost predicate Created(s: Fs<MemoryNode>, p: Path, cb: Callback, node: MemoryNode?, c: Creation, s': Fs<MemoryNode>) {
    && (StandsIn(s, p, true, cb) ==> c.node !in s.g)
    && (WillAddFile(s, p, true, cb) ==> Tree(s.g, s.root) && FreshNodes(s.g, |Dir(p)|, c.supply, c.node))
    && if cb == Reject then node == null && s' == s
       else if cb == Block || s.discard then
         node == c.node && s' == s.(g := s.g[c.node := NewFile(Base(p), [], DUMMY_INODE)], dummies := s.dummies + {c.node})
       else if !WillAddFile(s, p, true, cb) then node == null && s' == s
       else s' == FileAdded(s, p, [], c.supply, c.node) && Walk(s'.g, s'.root, p) == NonNull(node)
  }

  lemma NotCreated(s: Fs<MemoryNode>, p: Path, cb: Callback) returns (c: Creation)
    requires WF(s) && Walk(s.g, s.root, p).None?
    requires cb == Reject || (cb != Block && !s.discard && !CanAddFile(s, p))
    ensures Created(s, p, cb, null, c, s)
  {
    c := Creation([], s.root);
  }

  lemma StoodIn(s: Fs<MemoryNode>, p: Path, cb: Callback, node: MemoryNode, s': Fs<MemoryNode>) returns (c: Creation)
    requires WF(s) && node !in s.g && Walk(s.g, s.root, p).None? && cb != Reject && (cb == Block || s.discard)
    requires s' == s.(g := s.g[node := NewFile(Base(p), [], DUMMY_INODE)], dummies := s.dummies + {node})
    ensures Created(s, p, cb, node, c, s') && WF(s')
  {
    c := Creation([], node);
    var s1 := OpenedDummy(s, 0, node, p, "");
    OpenedDummyKeepsWF(s, 0, node, p, "");
    assert s' == s1.(open := s.open);
  }

  lemma CreatedFile(s: Fs<MemoryNode>, p: Path, cb: Callback, e: Event<MemoryNode>, node: MemoryNode?, s': Fs<MemoryNode>)
    returns (c: Creation)
    requires WF(s) && Walk(s.g, s.root, p).None? && cb != Reject && cb != Block && !s.discard && CanAddFile(s, p)
    requires e.AddFile? && e.path == p && e.content == [] && Callable(s, e) && Next(s, e, s')
    requires Walk(s'.g, s'.root, p) == NonNull(node)
    ensures Created(s, p, cb, node, c, s')
  {
    c := Creation(e.supply, e.node);
  }

  ghost predicate IsOpen(e: Event<MemoryNode>, raw: string, p: Path, creating: bool, cb: Callback, h: Handle,
                         ctx: Option<GhostSpec.Session>, now: nat) {
    e.Open? && e == Event.Open(raw, p, creating, cb, h, ctx, now, e.supply, e.node)
  }

  lemma OpenedExisting(s: Fs<MemoryNode>, raw: string, p: Path, creating: bool, cb: Callback, h: Handle,
                       ctx: Option<GhostSpec.Session>, now: nat, node: MemoryNode, s': Fs<MemoryNode>)
    returns (e: Event<MemoryNode>)
    requires WF(s) && Walk(s.g, s.root, p) == Some(node) && s' == Opened(s, h, node, raw)
    ensures IsOpen(e, raw, p, creating, cb, h, ctx, now) && Callable(s, e) && Next(s, e, s') && WF(s')
  {
    e := Event.Open(raw, p, creating, cb, h, ctx, now, [], s.root);
    NextKeepsWF(s, e, s');
  }

  lemma OpenedGhost(s: Fs<MemoryNode>, raw: string, p: Path, cb: Callback, h: Handle,
                    ctx: Option<GhostSpec.Session>, now: nat, s': Fs<MemoryNode>)
    returns (e: Event<MemoryNode>)
    requires WF(s) && Walk(s.g, s.root, p).None?
    requires if ctx.Some? && GhostSpec.MakeGhostKey(ctx.value, raw) in s.reg.ghosts then
               var key := GhostSpec.MakeGhostKey(ctx.value, raw);
               s' == Opened(s.(reg := GhostSpec.Touch(s.reg, key, now)), h, s.reg.ghosts[key].node, raw)
             else s' == s
    ensures IsOpen(e, raw, p, false, cb, h, ctx, now) && Callable(s, e) && Next(s, e, s') && WF(s')
  {
    e := Event.Open(raw, p, false, cb, h, ctx, now, [], s.root);
    NextKeepsWF(s, e, s');
  }

  lemma OpenedNew(s: Fs<MemoryNode>, raw: string, p: Path, cb: Callback, h: Handle, ctx: Option<GhostSpec.Session>, now: nat,
                  node: MemoryNode?, c: Creation, s1: Fs<MemoryNode>, s': Fs<MemoryNode>)
    returns (e: Event<MemoryNode>)
    requires WF(s) && Walk(s.g, s.root, p).None? && Created(s, p, cb, node, c, s1)
    requires s' == if node == null then s1 else s1.(open := s1.open[h := OpenFile(node, raw)])
    ensures IsOpen(e, raw, p, true, cb, h, ctx, now) && Callable(s, e) && Next(s, e, s') && WF(s')
  {
    e := Event.Open(raw, p, true, cb, h, ctx, now, c.supply, c.node);
    OpenedNewStep(s, e, node, c, s1, s');
    NextKeepsWF(s, e, s');
  }

  lemma OpenedNewStep(s: Fs<MemoryNode>, e: Event<MemoryNode>, node: MemoryNode?, c: Creation, s1: Fs<MemoryNode>, s': Fs<MemoryNode>)
    requires WF(s) && e.Open? && e.creating && e.supply == c.supply && e.node == c.node
    requires Walk(s.g, s.root, e.path).None? && Created(s, e.path, e.cb, node, c, s1)
    requires s' == if node == null then s1 else s1.(open := s1.open[e.h := OpenFile(node, e.raw)])
    ensures Callable(s, e) && Next(s, e, s')
  {
    hide FileAdded, Tree;
  }

  lemma AttachExactly(g: Graph<MemoryNode>, d: MemoryNode, name: string, child: MemoryNode)
    requires d in g && child in g
    ensures var g' := Attach(g, d, name, child);
            && g'.Keys == g.Keys
            && (d == child ==>
                  g'[d] == g[d].(name := name, parent := Some(d), kids := g[d].kids[name := child]))
            && (d != child ==>
                  && g'[child] == g[child].(name := name, parent := Some(d))
                  && g'[d] == g[d].(kids := g[d].kids[name := child]))
            && forall m :: m in g && m != d && m != child ==> g'[m] == g[m]
  {
  }

  lemma UnlinkUnchanged(s: Fs<MemoryNode>, h: Handle)
    requires WF(s)
    ensures Callable(s, Event.Unlink(h))
    ensures s.discard || h !in s.open || s.g[s.open[h].node].parent.None? ==> Next(s, Event.Unlink(h), s)
  {
  }

  lemma UnlinkDone(s: Fs<MemoryNode>, h: Handle, s': Fs<MemoryNode>)
    requires WF(s) && !s.discard && h in s.open && s.open[h].node in s.g
    requires s.g[s.open[h].node].parent.Some? && s.g[s.open[h].node].parent.value in s.g
    requires s' == s.(g := Detach(s.g, s.open[h].node))
    ensures Callable(s, Event.Unlink(h)) && Next(s, Event.Unlink(h), s') && WF(s')
  {
    hide WF, Detach;
    NextKeepsWF(s, Event.Unlink(h), s');
  }

  lemma RenameUnchanged(s: Fs<MemoryNode>, h: Handle, p: Path, flags: int, cb: Callback)
    requires WF(s)
    ensures !RenamePanics(s, h, p, flags, cb) ==> Callable(s, Event.Rename(h, p, flags, cb))
    ensures h !in s.open || cb == Reject || cb == Block || s.discard || RenameTarget(s, p, flags).None? ==>
              !RenamePanics(s, h, p, flags, cb) && Next(s, Event.Rename(h, p, flags, cb), s)
  {
  }

  lemma RenameTargetIs(s: Fs<MemoryNode>, p: Path, flags: int, to: MemoryNode?)
    requires WF(s) && Walk(s.g, s.root, Dir(p)) == NonNull(to) && (to != null ==> to in s.g)
    ensures RenameTarget(s, p, flags) ==
            if to == null || (Base(p) in s.g[to].kids && flags == 0) then None else NonNull(to)
    ensures forall h, cb :: RenamePanics(s, h, p, flags, cb) <==>
              && h in s.open && cb != Reject && cb != Block && !s.discard
              && RenameTarget(s, p, flags).Some? && to != null && !s.g[to].isDir
  {
  }

  lemma RenameDone(s: Fs<MemoryNode>, h: Handle, p: Path, flags: int, cb: Callback, s': Fs<MemoryNode>)
    requires WF(s) && Callable(s, Event.Rename(h, p, flags, cb)) && cb != Reject && cb != Block && !s.discard
    requires h in s.open && s.open[h].node in s.g
    requires s.g[s.open[h].node].parent.Some? ==> s.g[s.open[h].node].parent.value in s.g
    requires RenameTarget(s, p, flags).Some? && RenameTarget(s, p, flags).value in s.g
    requires s' == s.(g := Move(s.g, s.open[h].node, RenameTarget(s, p, flags).value, Base(p)))
    ensures Next(s, Event.Rename(h, p, flags, cb), s') && WF(s')
  {
    hide WF, Move, RenameTarget;
    NextKeepsWF(s, Event.Rename(h, p, flags, cb), s');
  }

  lemma SweepDone(s: Fs<MemoryNode>, now: nat, s': Fs<MemoryNode>)
    requires WF(s) && s' == s.(reg := s'.reg) && GhostLaws.Swept(s.reg, s'.reg, now)
    ensures Callable(s, Event.Sweep(now)) && Next(s, Event.Sweep(now), s') && WF(s')
  {
    NextKeepsWF(s, Event.Sweep(now), s');
  }

  lemma CloseUnknown(s: Fs<MemoryNode>, h: Handle, ctx: Option<GhostSpec.Session>, now: nat,
                     r1: GhostSpec.Registry<MemoryNode>, r2: GhostSpec.Registry<MemoryNode>)
    requires WF(s) && h !in s.open
    ensures Callable(s, Event.Close(h, ctx, now, r1, r2)) && Next(s, Event.Close(h, ctx, now, r1, r2), s)
  {
  }

  lemma CloseDone(s: Fs<MemoryNode>, e: Event<MemoryNode>, s': Fs<MemoryNode>)
    requires WF(s) && e.Close? && e.h in s.open && s' == s.(open := s.open - {e.h}, reg := s'.reg)
    requires var f := s.open[e.h];
             f.node in s.g &&
             GhostSpec.Saved(s.reg, e.phase1, e.phase2, s'.reg, if s.discard then e.ctx else None,
                             f.path, f.node, ToInt64(s.g[f.node].size), e.at, s.lim)
    ensures Callable(s, e) && Next(s, e, s') && WF(s')
  {
    hide GhostSpec.Saved;
    NextKeepsWF(s, e, s');
  }

  /** A handle's node is a node of the graph; in normal mode its size is exact. */
  lemma HandleNode(s: Fs<MemoryNode>, h: Handle)
    requires WF(s) && h in s.open
    ensures s.open[h].node in s.g
    ensures !s.discard ==> s.g[s.open[h].node].size == |s.g[s.open[h].node].content|
    ensures s.g[s.open[h].node].size < TWO64
    ensures s.g[s.open[h].node].parent.Some? ==> s.g[s.open[h].node].parent.value in s.g
  {
  }

  lemma WriteUnchanged(s: Fs<MemoryNode>, h: Handle, buf: Bytes, off: nat, cb: Callback)
    requires WF(s) && off < TWO64 && |buf| < TWO64
    ensures !WritePanics(s, h, buf, off, cb) ==> Callable(s, Event.Write(h, buf, off, cb))
    ensures h !in s.open || cb == Reject || cb == Block || (!s.discard && s.g[s.open[h].node].isDir) ==>
              !WritePanics(s, h, buf, off, cb) && Next(s, Event.Write(h, buf, off, cb), s)
  {
  }

  lemma WriteDone(s: Fs<MemoryNode>, h: Handle, buf: Bytes, off: nat, cb: Callback, s': Fs<MemoryNode>)
    requires WF(s) && Callable(s, Event.Write(h, buf, off, cb)) && h in s.open && cb != Reject && cb != Block
    requires s.open[h].node in s.g && (!s.discard ==> !s.g[s.open[h].node].isDir)
    requires !s.discard ==> s.g[s.open[h].node].size == |s.g[s.open[h].node].content|
    requires var n := s.open[h].node;
             s' == s.(g := s.g[n := if s.discard then Pretended(s.g[n], buf, off) else Written(s.g[n], buf, off)])
    ensures Next(s, Event.Write(h, buf, off, cb), s') && WF(s')
  {
    hide WF;
    NextKeepsWF(s, Event.Write(h, buf, off, cb), s');
  }

  lemma TruncateUnchanged(s: Fs<MemoryNode>, h: Handle, size: nat)
    requires WF(s) && size < TWO64
    ensures Callable(s, Event.Truncate(h, size))
    ensures s.discard || h !in s.open || s.g[s.open[h].node].isDir ==> Next(s, Event.Truncate(h, size), s)
  {
  }

  lemma TruncateDone(s: Fs<MemoryNode>, h: Handle, size: nat, s': Fs<MemoryNode>)
    requires WF(s) && size < TWO64 && !s.discard && h in s.open && s.open[h].node in s.g && !s.g[s.open[h].node].isDir
    requires s.g[s.open[h].node].size == |s.g[s.open[h].node].content|
    requires s' == s.(g := s.g[s.open[h].node := Truncated(s.g[s.open[h].node], size)])
    ensures Callable(s, Event.Truncate(h, size)) && Next(s, Event.Truncate(h, size), s') && WF(s')
  {
    hide WF;
    NextKeepsWF(s, Event.Truncate(h, size), s');
  }

  lemma SetxattrUnchanged(s: Fs<MemoryNode>, h: Handle, key: string, val: Bytes)
    requires WF(s)
    ensures Callable(s, Event.Setxattr(h, key, val))
    ensures s.discard || h !in s.open ==> Next(s, Event.Setxattr(h, key, val), s)
  {
  }

  lemma SetxattrDone(s: Fs<MemoryNode>, h: Handle, key: string, val: Bytes, s': Fs<MemoryNode>)
    requires WF(s) && !s.discard && h in s.open && s.open[h].node in s.g
    requires var n := s.open[h].node; s' == s.(g := s.g[n := s.g[n].(xattrs := s.g[n].xattrs[key := val])])
    ensures Callable(s, Event.Setxattr(h, key, val)) && Next(s, Event.Setxattr(h, key, val), s') && WF(s')
  {
    hide WF;
    NextKeepsWF(s, Event.Setxattr(h, key, val), s');
  }

  /** What the directory loop of AddFile left behind. */
  datatype Made = Made(supply: seq<MemoryNode>, g: Graph<MemoryNode>, dir: MemoryNode, inode: nat)

  ghost predicate FileMade(g0: Graph<MemoryNode>, root: MemoryNode, inode0: nat, p: Path, content: Bytes,
                           node: MemoryNode, m: Made, g: Graph<MemoryNode>, inode: nat) {
    && p != [] && Making(g0, root, inode0, Dir(p), |Dir(p)|, m.supply, m.g, m.dir, m.inode)
    && m.dir in m.g && node !in m.g && node !in m.supply
    && g == Create(m.g, m.dir, node, NewNode(Base(p), false, content, m.inode)) && inode == m.inode + 1
  }

  /** The loop's result and the new entry together are what AddFile should do. */
  lemma AddFileDone(s: Fs<MemoryNode>, p: Path, content: Bytes, node: MemoryNode?, m: Made, s': Fs<MemoryNode>)
    returns (e: Event<MemoryNode>)
    requires WF(s) && |content| < TWO64 && s' == s.(g := s'.g, nextInode := s'.nextInode)
    requires node == null ==> (p == [] || Blocked(s.g, s.root, Dir(p))) && s' == s
    requires node != null ==> FileMade(s.g, s.root, s.nextInode, p, content, node, m, s'.g, s'.nextInode)
    ensures e.AddFile? && e.path == p && e.content == content
    ensures Callable(s, e) && Next(s, e, s') && WF(s') && (node != null <==> CanAddFile(s, p))
  {
    hide WF, Making, Create, MkdirAll, Tree, FreshSupply, Blocked, Links, Walk;
    WFTree(s);
    if node == null {
      e := Event.AddFile(p, content, [], s.root);
    } else {
      e := Event.AddFile(p, content, m.supply, node);
      MakingInside(s.g, s.root, s.nextInode, Dir(p), |Dir(p)|, m.supply, m.g, m.dir, m.inode);
      MakingDone(s, Dir(p), m.supply, m.g, m.dir, m.inode);
      assert s' == FileAdded(s, p, content, m.supply, node);
    }
    NextKeepsWF(s, e, s');
  }

  lemma AddDirectoryDone(s: Fs<MemoryNode>, p: Path, node: MemoryNode?, supply: seq<MemoryNode>, s': Fs<MemoryNode>)
    returns (e: Event<MemoryNode>)
    requires WF(s) && s' == s.(g := s'.g, nextInode := s'.nextInode)
    requires node == null ==> Blocked(s.g, s.root, p) && s' == s
    requires node != null ==> Making(s.g, s.root, s.nextInode, p, |p|, supply, s'.g, node, s'.nextInode)
    ensures e.AddDirectory? && e.path == p
    ensures Callable(s, e) && Next(s, e, s') && WF(s') && (node != null <==> !Blocked(s.g, s.root, p))
  {
    hide WF, Making, MkdirAll, Tree, FreshSupply, Blocked, Links;
    WFTree(s);
    e := Event.AddDirectory(p, supply);
    if node != null { MakingDone(s, p, supply, s'.g, node, s'.nextInode); }
    NextKeepsWF(s, e, s');
  }

  lemma MkdirRefused(s: Fs<MemoryNode>, p: Path, cb: Callback, unused: MemoryNode)
    requires WF(s) && unused !in s.g && !MkdirPanics(s, p, cb)
    ensures var e := Event.Mkdir(p, cb, unused);
            Callable(s, e) &&
            (cb == Reject || cb == Block || s.discard || !CanMkdir(s, p) ==> Next(s, e, s))
  {
  }

  ghost predicate CanMkdir(s: Fs<MemoryNode>, p: Path) {
    var d := Walk(s.g, s.root, Dir(p));
    d.Some? && d.value in s.g && Base(p) !in s.g[d.value].kids
  }

  ghost predicate DirMade(s: Fs<MemoryNode>, p: Path, parent: MemoryNode, node: MemoryNode, g': Graph<MemoryNode>, inode': nat) {
    && Walk(s.g, s.root, Dir(p)) == Some(parent) && parent in s.g && node !in s.g
    && g' == Create(s.g, parent, node, NewNode(Base(p), true, [], s.nextInode)) && inode' == s.nextInode + 1
  }

  lemma MkdirDone(s: Fs<MemoryNode>, p: Path, cb: Callback, parent: MemoryNode, node: MemoryNode, s': Fs<MemoryNode>)
    requires WF(s) && cb != Reject && cb != Block && !s.discard && !MkdirPanics(s, p, cb) && CanMkdir(s, p)
    requires DirMade(s, p, parent, node, s'.g, s'.nextInode)
    requires s' == s.(g := s'.g, nextInode := s'.nextInode)
    ensures var e := Event.Mkdir(p, cb, node); Callable(s, e) && Next(s, e, s') && WF(s')
  {
    hide WF, Walk, Create;
    assert s' == Added(s, parent, node, NewDir(Base(p), 0));
    NextKeepsWF(s, Event.Mkdir(p, cb, node), s');
  }

  lemma MakingDone(s: Fs<MemoryNode>, p: Path, supply: seq<MemoryNode>, g: Graph<MemoryNode>, current: MemoryNode, inode: nat)
    requires Tree(s.g, s.root) && Making(s.g, s.root, s.nextInode, p, |p|, supply, g, current, inode)
    ensures !Blocked(s.g, s.root, p) && |supply| == |p| && FreshSupply(s.g, supply)
    ensures MkdirAll(s, p, supply) == (s.(g := g, nextInode := inode), current)
  {
    hide MakeDirs, Blocked, FreshSupply, Walk, Making, Links, ParentsInside, FilesAreLeaves;
    MakingOver(s.g, s.root, s.nextInode, p, supply, g, current, inode);
    MakeDirsFailsIffBlocked(s.g, s.root, p, supply, s.nextInode);
  }

  lemma MakingOver(g0: Graph<MemoryNode>, root: MemoryNode, inode0: nat, p: Path, supply: seq<MemoryNode>,
                   g: Graph<MemoryNode>, current: MemoryNode, inode: nat)
    requires Making(g0, root, inode0, p, |p|, supply, g, current, inode)
    ensures root in g0 && |supply| == |p| && FreshSupply(g0, supply) && inode == inode0 + |g.Keys - g0.Keys|
    ensures MakeDirs(g0, root, p, supply, inode0) == (g, Some(current))
  {
    hide MakeDirs, FreshSupply, Walk;
    assert p[..|p|] == p;
  }

  lemma StartWalk(s: Fs<MemoryNode>)
    requires WF(s)
    ensures s.root in s.g && Walk(s.g, s.root, []) == Some(s.root)
  {
  }

  /** One round of resolvePath's loop. */
  lemma NextWalk(s: Fs<MemoryNode>, current: MemoryNode, p: Path, i: nat)
    requires WF(s) && i < |p| && current in s.g && Walk(s.g, s.root, p[..i]) == Some(current)
    ensures p[i] !in s.g[current].kids ==> Walk(s.g, s.root, p) == None
    ensures p[i] in s.g[current].kids ==>
              s.g[current].kids[p[i]] in s.g && Walk(s.g, s.root, p[..i + 1]) == Some(s.g[current].kids[p[i]])
  {
    hide Walk;
    TakeSnoc(p, i);
    WalkSnoc(s.g, s.root, p[..i], p[i]);
    if p[i] in s.g[current].kids {
      assert Linked(s.g, current, p[i]);
    } else if Walk(s.g, s.root, p).Some? {
      PrefixReached(s.g, s.root, p[..i + 1], p);
    }
  }
}
