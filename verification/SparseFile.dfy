/** Write and Truncate in normal mode refine an ideal sparse file, over any history of calls. */
module SparseFile {
  import opened Bytes
  import opened Namespace
  import opened MemoryModel
  import opened TreeLaws

  datatype Op = Wr(off: nat, buf: Bytes) | Tr(size: nat)

  // ----- the ideal file -----

  /** Byte i after a history: the last value written there since the latest truncation at or below i, the
      original byte if there is neither, and zero otherwise. */
  function ByteAt(original: Bytes, ops: seq<Op>, i: nat): byte {
    if ops == [] then (if i < |original| then original[i] else 0)
    else
      match ops[|ops| - 1]
      case Wr(off, buf) => if off <= i < off + |buf| then buf[i - off] else ByteAt(original, ops[..|ops| - 1], i)
      case Tr(size) => if size <= i then 0 else ByteAt(original, ops[..|ops| - 1], i)
  }

  /** The length: every write reaches its end, every truncation sets it. */
  function Length(original: Bytes, ops: seq<Op>): nat {
    if ops == [] then |original|
    else
      var before := Length(original, ops[..|ops| - 1]);
      match ops[|ops| - 1]
      case Wr(off, buf) => Max(before, off + |buf|)
      case Tr(size) => size
  }

  ghost predicate IsIdeal(original: Bytes, ops: seq<Op>, content: Bytes) {
    && |content| == Length(original, ops)
    && forall i :: 0 <= i < |content| ==> content[i] == ByteAt(original, ops, i)
  }

  // ----- the node -----

  ghost function Apply<N>(n: Node<N>, op: Op): (r: Node<N>)
    requires n.size == |n.content|
    ensures r.size == |r.content|
  {
    match op
    case Wr(off, buf) => Written(n, buf, off)
    case Tr(size) => Truncated(n, size)
  }

  ghost function ApplyAll<N>(n: Node<N>, ops: seq<Op>): (r: Node<N>)
    requires n.size == |n.content|
    ensures r.size == |r.content|
  {
    if ops == [] then n else Apply(ApplyAll(n, ops[..|ops| - 1]), ops[|ops| - 1])
  }

  /** Beyond the end the ideal file holds zeros: nothing old can come back when it grows. */
  lemma {:induction false} BeyondTheEnd(original: Bytes, ops: seq<Op>, i: nat)
    requires i >= Length(original, ops)
    ensures ByteAt(original, ops, i) == 0
  {
    if ops != [] && !(ops[|ops| - 1].Tr? && ops[|ops| - 1].size <= i) {
      if ops[|ops| - 1].Wr? { BeyondTheEnd(original, ops[..|ops| - 1], i); }
    }
  }

  /** After any history of writes and truncations the size is the length of the content, and the content is
      the ideal file. */
  lemma {:induction false} HistoryIsIdeal<N>(n: Node<N>, ops: seq<Op>)
    requires n.size == |n.content|
    ensures ApplyAll(n, ops).size == |ApplyAll(n, ops).content|
    ensures IsIdeal(n.content, ops, ApplyAll(n, ops).content)
  {
    if ops != [] {
      var before, op := ops[..|ops| - 1], ops[|ops| - 1];
      HistoryIsIdeal(n, before);
      var m, m' := ApplyAll(n, before), ApplyAll(n, ops);
      forall i | 0 <= i < |m'.content| ensures m'.content[i] == ByteAt(n.content, ops, i) {
        if i >= |m.content| { BeyondTheEnd(n.content, before, i); }
      }
    }
  }

  // ----- over runs of the filesystem -----

  /** The call is a write or truncation that reaches node n, in normal mode. */
  ghost predicate Reaches<N>(s: Fs<N>, e: Event<N>, n: N) {
    && !s.discard && n in s.g && !s.g[n].isDir
    && ((e.Write? && e.cb != Reject && e.cb != Block && e.h in s.open && s.open[e.h].node == n) ||
        (e.Truncate? && e.h in s.open && s.open[e.h].node == n))
  }

  ghost function OpOf<N>(e: Event<N>): Op
    requires e.Write? || e.Truncate?
  {
    if e.Write? then Wr(e.off, e.buf) else Tr(e.size)
  }

  ghost predicate SameContent<N>(a: Node<N>, b: Node<N>) {
    b.content == a.content && b.size == a.size && b.isDir == a.isDir
  }

  lemma MkdirAllKeepsContent<N>(s: Fs<N>, p: Path, supply: seq<N>, n: N)
    requires WF(s) && Tree(s.g, s.root) && n in s.g
    requires |supply| == |p| && FreshSupply(s.g, supply) && !Blocked(s.g, s.root, p)
    ensures var g' := MkdirAll(s, p, supply).0.g; n in g' && SameContent(s.g[n], g'[n])
  {
    hide MakeDirs, Blocked;
    MakeDirsFindsDir(s.g, s.root, p, supply, s.nextInode);
  }

  lemma FileAddedKeepsContent<N>(s: Fs<N>, p: Path, content: Bytes, supply: seq<N>, node: N, n: N)
    requires WF(s) && Tree(s.g, s.root) && n in s.g && CanAddFile(s, p) && FreshNodes(s.g, |Dir(p)|, supply, node)
    ensures var g' := FileAdded(s, p, content, supply, node).g; n in g' && SameContent(s.g[n], g'[n])
  {
    hide MkdirAll, Blocked, WF, Tree;
    MkdirAllKeepsContent(s, Dir(p), supply, n);
    var (s1, dir) := MkdirAll(s, Dir(p), supply);
    MkdirAllKeys(s, Dir(p), supply);
    CreateAt(s1.g, dir, node, NewFile<N>(Base(p), content, 0).(inode := s1.nextInode));
  }

  lemma NextLinkContent<N>(s: Fs<N>, e: Event<N>, s': Fs<N>, n: N)
    requires WF(s) && Callable(s, e) && Next(s, e, s') && n in s.g
    requires e.AddFile? || e.AddDirectory? || e.Mkdir? || e.Open?
    ensures n in s'.g && SameContent(s.g[n], s'.g[n])
  {
    hide FileAdded, MkdirAll, WF, Tree, Blocked, FreshSupply, Walk;
    WFTree(s);
    if e.AddFile? {
      if CanAddFile(s, e.path) { FileAddedKeepsContent(s, e.path, e.content, e.supply, e.node, n); }
    } else if e.AddDirectory? {
      if !Blocked(s.g, s.root, e.path) { MkdirAllKeepsContent(s, e.path, e.supply, n); }
    } else if e.Open? && WillAddFile(s, e.path, e.creating, e.cb) {
      FileAddedKeepsContent(s, e.path, [], e.supply, e.node, n);
    }
  }

  lemma NextBytesContent<N>(s: Fs<N>, e: Event<N>, s': Fs<N>, n: N)
    requires WF(s) && Callable(s, e) && Next(s, e, s') && n in s.g && !s.discard
    requires e.Write? || e.Truncate? || e.Setxattr?
    ensures n in s'.g && s.g[n].size == |s.g[n].content|
    ensures SameContent(if Reaches(s, e, n) then Apply(s.g[n], OpOf(e)) else s.g[n], s'.g[n])
  {
    hide Tree, InodesDistinct, GhostsKnown, Written, Truncated;
  }

  lemma MoveContent<N>(g: Graph<N>, m: N, d: N, name: string, n: N)
    requires m in g && d in g && n in g
    requires g[m].parent.Some? ==> g[m].parent.value in g
    ensures var g' := Move(g, m, d, name); n in g' && SameContent(g[n], g'[n])
  {
    var g1 := if g[m].parent.Some? then Detach(g, m) else g;
    hide Attach;
    AttachAt(g1, d, name, m);
  }

  lemma NextEntryContent<N>(s: Fs<N>, e: Event<N>, s': Fs<N>, n: N)
    requires WF(s) && Callable(s, e) && Next(s, e, s') && n in s.g
    requires e.Rename? || e.Unlink? || e.Close? || e.Sweep?
    ensures n in s'.g && SameContent(s.g[n], s'.g[n])
  {
    hide WF, Tree, Move, RenameTarget, Callable;
    WFTree(s);
    HandlesInside(s);
    if e.Rename? && s'.g != s.g {
      var m := s.open[e.h].node;
      MoveContent(s.g, m, RenameTarget(s, e.path, e.flags).value, Base(e.path), n);
    }
  }

  lemma HandlesInside<N>(s: Fs<N>)
    requires WF(s)
    ensures forall h :: h in s.open ==> var n := s.open[h].node; n in s.g && (s.g[n].parent.Some? ==> s.g[n].parent.value in s.g)
  {
  }

  /** A call changes the content or size of a node only if it is a write or truncation of that node. */
  lemma NextContent<N>(s: Fs<N>, e: Event<N>, s': Fs<N>, n: N)
    requires WF(s) && Callable(s, e) && Next(s, e, s') && n in s.g && !s.discard
    ensures n in s'.g && s.g[n].size == |s.g[n].content|
    ensures SameContent(if Reaches(s, e, n) then Apply(s.g[n], OpOf(e)) else s.g[n], s'.g[n])
  {
    assert s.g[n].size == |s.g[n].content|;
    hide WF, Next, Callable;
    if e.AddFile? || e.AddDirectory? || e.Mkdir? || e.Open? {
      NextLinkContent(s, e, s', n);
    } else if e.Write? || e.Truncate? || e.Setxattr? {
      NextBytesContent(s, e, s', n);
    } else {
      NextEntryContent(s, e, s', n);
    }
  }

  /** The writes and truncations that reached node n in the first i calls. */
  ghost function History<N>(ss: seq<Fs<N>>, es: seq<Event<N>>, n: N, i: nat): seq<Op>
    requires i <= |es| < |ss|
  {
    if i == 0 then []
    else History(ss, es, n, i - 1) + if Reaches(ss[i - 1], es[i - 1], n) then [OpOf(es[i - 1])] else []
  }

  /** Node `now` is what the history makes of node `was`. */
  ghost predicate Tracks<N>(was: Node<N>, ops: seq<Op>, now: Node<N>) {
    was.size == |was.content| && SameContent(ApplyAll(was, ops), now)
  }

  lemma TracksMore<N>(was: Node<N>, ops: seq<Op>, now: Node<N>, op: Op, next: Node<N>)
    requires Tracks(was, ops, now) && now.size == |now.content| && SameContent(Apply(now, op), next)
    ensures Tracks(was, ops + [op], next)
  {
    var more := ops + [op];
    assert more[..|more| - 1] == ops && more[|more| - 1] == op;
  }

  lemma TracksSame<N>(was: Node<N>, ops: seq<Op>, now: Node<N>, next: Node<N>)
    requires Tracks(was, ops, now) && SameContent(now, next)
    ensures Tracks(was, ops, next)
  {
  }

  lemma TracksIdeal<N>(was: Node<N>, ops: seq<Op>, now: Node<N>)
    requires Tracks(was, ops, now)
    ensures now.size == |now.content| && IsIdeal(was.content, ops, now.content)
  {
    HistoryIsIdeal(was, ops);
  }

  lemma NextTracks<N>(was: Node<N>, ops: seq<Op>, s: Fs<N>, e: Event<N>, s': Fs<N>, n: N)
    requires WF(s) && Called(s, e, s') && n in s.g && !s.discard && Tracks(was, ops, s.g[n])
    ensures WF(s') && n in s'.g && !s'.discard
    ensures Tracks(was, ops + if Reaches(s, e, n) then [OpOf(e)] else [], s'.g[n])
  {
    CalledKeepsWF(s, e, s');
    NextContent(s, e, s', n);
    hide Next, Callable, Reaches, WF, Called, Tracks, SameContent, Apply;
    if Reaches(s, e, n) {
      TracksMore(was, ops, s.g[n], OpOf(e), s'.g[n]);
    } else {
      assert ops + [] == ops;
      TracksSame(was, ops, s.g[n], s'.g[n]);
    }
  }

  lemma TracksFrom<N>(s: Fs<N>, n: N)
    requires WF(s) && !s.discard && n in s.g
    ensures Tracks(s.g[n], [], s.g[n])
  {
  }

  lemma {:induction false} RunsTrack<N>(ss: seq<Fs<N>>, es: seq<Event<N>>, n: N, i: nat)
    requires Run(ss, es) && WF(ss[0]) && !ss[0].discard && n in ss[0].g && i <= |es|
    ensures WF(ss[i]) && n in ss[i].g && !ss[i].discard
    ensures Tracks(ss[0].g[n], History(ss, es, n, i), ss[i].g[n])
  {
    hide Called, Reaches, OpOf, Tracks, WF;
    if i == 0 {
      TracksFrom(ss[0], n);
    } else {
      RunsTrack(ss, es, n, i - 1);
      NextTracks(ss[0].g[n], History(ss, es, n, i - 1), ss[i - 1], es[i - 1], ss[i], n);
    }
  }

  /** In normal mode, over every run and for every node: the size is the length of the content, and the
      content is the ideal file of the writes and truncations that reached the node. */
  lemma RunsAreIdeal<N>(ss: seq<Fs<N>>, es: seq<Event<N>>, n: N, i: nat)
    requires Run(ss, es) && WF(ss[0]) && !ss[0].discard && n in ss[0].g && i <= |es|
    ensures n in ss[i].g && ss[i].g[n].size == |ss[i].g[n].content|
    ensures IsIdeal(ss[0].g[n].content, History(ss, es, n, i), ss[i].g[n].content)
  {
    hide Called, Tracks, WF, IsIdeal;
    RunsTrack(ss, es, n, i);
    TracksIdeal(ss[0].g[n], History(ss, es, n, i), ss[i].g[n]);
  }

  /** What Read returns is the ideal file's bytes from the offset, up to its length. */
  lemma ReadsAreIdeal<N>(original: Bytes, ops: seq<Op>, n: Node<N>, len: nat, offset: nat)
    requires IsIdeal(original, ops, n.content) && n.size == |n.content| && !n.isDir
    ensures offset >= Length(original, ops) || len == 0 <==> ReadOf(n, len, offset) == EOF
    ensures offset < Length(original, ops) && len > 0 ==>
              var r := ReadOf(n, len, offset);
              && r.Data?
              && |r.bytes| == (if offset + len < Length(original, ops) then len else Length(original, ops) - offset)
              && forall i :: 0 <= i < |r.bytes| ==> r.bytes[i] == ByteAt(original, ops, offset + i)
  {
  }
}
