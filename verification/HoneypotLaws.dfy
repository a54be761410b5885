/** Runs of a MemoryFS in honeypot mode (discardWrites): none of the modelled calls shows in the tree, a closed
    file is found again by its own session only, and the registry keeps its accounts and quotas. The calls the
    source leaves unguarded in this mode (Symlink, SetAttr, Removexattr) are not among them. */
module HoneypotLaws {
  import opened Bytes
  import opened Namespace
  import opened MemoryModel
  import opened TreeLaws
  import GhostSpec
  import GhostLaws

  // ----- non-interference -----

  /** A modelled call by a client, as against the set-up calls AddFile and AddDirectory. */
  predicate ByClient<N>(e: Event<N>) { !e.AddFile? && !e.AddDirectory? }

  /** The end of an accepted write to node n, as the uint64 the code computes; 0 for any other call. */
  ghost function WriteEnd<N>(s: Fs<N>, e: Event<N>, n: N): nat {
    if e.Write? && e.cb != Reject && e.cb != Block && e.h in s.open && s.open[e.h].node == n
    then ToUint64(e.off + |e.buf|) else 0
  }

  /** The running maximum of the start size of node n and every accepted write's end. */
  ghost function HighWater<N>(ss: seq<Fs<N>>, es: seq<Event<N>>, n: N, i: nat): nat
    requires i <= |es| < |ss| && n in ss[0].g
  {
    if i == 0 then ss[0].g[n].size else Max(HighWater(ss, es, n, i - 1), WriteEnd(ss[i - 1], es[i - 1], n))
  }

  /** A client call in honeypot mode changes at most the size of a node. Name, entries, content, parent,
      inode and attributes stay, and only new stand-in nodes appear. */
  lemma NextInterferesNot<N>(s: Fs<N>, e: Event<N>, s': Fs<N>, n: N)
    requires WF(s) && Callable(s, e) && Next(s, e, s') && s.discard && ByClient(e) && n in s.g
    ensures n in s'.g && s'.g[n] == s.g[n].(size := Max(s.g[n].size, WriteEnd(s, e, n)))
  {
    hide Tree, InodesDistinct, GhostsKnown, FileAdded, Move, Detach, Added, Walk;
  }

  lemma CalledInterferesNot<N>(s: Fs<N>, e: Event<N>, s': Fs<N>, n: N)
    requires WF(s) && Called(s, e, s') && s.discard && ByClient(e) && n in s.g
    ensures WF(s') && s'.discard && s'.root == s.root
    ensures n in s'.g && s'.g[n] == s.g[n].(size := Max(s.g[n].size, WriteEnd(s, e, n)))
  {
    hide WF, Next, Callable;
    CalledKeepsWF(s, e, s');
    NextInterferesNot(s, e, s', n);
  }

  /** With discardWrites on, no run of client calls changes any node in anything but its size, and the size
      is the running maximum of the start size and every accepted write's end. */
  lemma {:induction false} RunsInterfereNot<N>(ss: seq<Fs<N>>, es: seq<Event<N>>, n: N, i: nat)
    requires Run(ss, es) && WF(ss[0]) && ss[0].discard && n in ss[0].g && i <= |es|
    requires forall j :: 0 <= j < i ==> ByClient(es[j])
    ensures WF(ss[i]) && ss[i].discard && ss[i].root == ss[0].root
    ensures n in ss[i].g && ss[i].g[n] == ss[0].g[n].(size := HighWater(ss, es, n, i))
  {
    hide WF, Called, WriteEnd;
    if i > 0 {
      RunsInterfereNot(ss, es, n, i - 1);
      CalledInterferesNot(ss[i - 1], es[i - 1], ss[i], n);
    }
  }

  /** Graphs that agree on the entries of the nodes of the first have the same paths. */
  lemma {:induction false} SameEntriesSameWalk<N>(g: Graph<N>, g': Graph<N>, n: N, p: Path)
    requires Links(g) && n in g
    requires forall m :: m in g ==> m in g' && g'[m].kids == g[m].kids
    ensures Walk(g', n, p) == Walk(g, n, p)
    decreases |p|
  {
    if p != [] && p[0] in g[n].kids {
      assert Linked(g, n, p[0]);
      SameEntriesSameWalk(g, g', g[n].kids[p[0]], p[1..]);
    }
  }

  /** Nor does any path come, go or change its node. */
  lemma RunsKeepTheTree<N>(ss: seq<Fs<N>>, es: seq<Event<N>>, i: nat, p: Path)
    requires Run(ss, es) && WF(ss[0]) && ss[0].discard && i <= |es|
    requires forall j :: 0 <= j < i ==> ByClient(es[j])
    ensures Walk(ss[i].g, ss[i].root, p) == Walk(ss[0].g, ss[0].root, p)
  {
    hide WF, Called, Links, Walk, Next, Callable;
    WFLinks(ss[0]);
    WFTree(ss[0]);
    forall m | m in ss[0].g ensures m in ss[i].g && ss[i].g[m].kids == ss[0].g[m].kids {
      RunsInterfereNot(ss, es, m, i);
    }
    RunsInterfereNot(ss, es, ss[0].root, i);
    SameEntriesSameWalk(ss[0].g, ss[i].g, ss[0].root, p);
  }

  /** Reads within the original length keep returning what they returned at the start. */
  lemma RunsKeepReads<N>(ss: seq<Fs<N>>, es: seq<Event<N>>, n: N, i: nat, len: nat, offset: nat)
    requires Run(ss, es) && WF(ss[0]) && ss[0].discard && n in ss[0].g && i <= |es|
    requires forall j :: 0 <= j < i ==> ByClient(es[j])
    requires ss[0].g[n].size == |ss[0].g[n].content| && offset + len <= ss[0].g[n].size
    ensures n in ss[i].g
    ensures ReadOf(ss[i].g[n], len, offset) == ReadOf(ss[0].g[n], len, offset)
  {
    hide WF, Called;
    RunsInterfereNot(ss, es, n, i);
    HighWaterStarts(ss, es, n, i);
  }

  /** When a read panics: exactly when it starts behind the content of the file but within the size that
      accepted writes have pretended. */
  lemma ReadsPanicIff<N>(ss: seq<Fs<N>>, es: seq<Event<N>>, n: N, i: nat, len: nat, offset: nat)
    requires Run(ss, es) && WF(ss[0]) && ss[0].discard && n in ss[0].g && i <= |es|
    requires forall j :: 0 <= j < i ==> ByClient(es[j])
    ensures n in ss[i].g
    ensures ReadOf(ss[i].g[n], len, offset) == ReadPanics <==>
            !ss[0].g[n].isDir && |ss[0].g[n].content| < offset < HighWater(ss, es, n, i)
  {
    hide WF, Called;
    RunsInterfereNot(ss, es, n, i);
  }

  lemma {:induction false} HighWaterStarts<N>(ss: seq<Fs<N>>, es: seq<Event<N>>, n: N, i: nat)
    requires i <= |es| < |ss| && n in ss[0].g
    ensures HighWater(ss, es, n, i) >= ss[0].g[n].size
  {
    if i > 0 { HighWaterStarts(ss, es, n, i - 1); }
  }

  // ----- the registry along a run of the filesystem -----

  /** What a call does to the ghost registry, if it is not left alone. */
  ghost function RegistryEvent<N>(s: Fs<N>, e: Event<N>): (re: Option<GhostLaws.Event<N>>) {
    if e.Sweep? then Some(GhostLaws.Sweep(e.at))
    else if e.Close? && e.h in s.open && s.discard && e.ctx.Some? && s.open[e.h].node in s.g then
      var f := s.open[e.h];
      var key := GhostSpec.MakeGhostKey(e.ctx.value, f.path);
      if key in s.reg.ghosts then Some(GhostLaws.Refresh(key, e.at))
      else Some(GhostLaws.Register(e.ctx.value, f.path, f.node, ToInt64(s.g[f.node].size), e.at, e.phase1, e.phase2))
    else if e.Open? && !e.creating && Walk(s.g, s.root, e.path).None? && e.ctx.Some?
            && GhostSpec.MakeGhostKey(e.ctx.value, e.raw) in s.reg.ghosts
    then Some(GhostLaws.Refresh(GhostSpec.MakeGhostKey(e.ctx.value, e.raw), e.at))
    else None
  }

  lemma MkdirAllKeepsRegistry<N>(s: Fs<N>, e: Event<N>)
    requires WF(s) && Callable(s, e)
    ensures e.AddFile? && CanAddFile(s, e.path) ==>
              var s' := FileAdded(s, e.path, e.content, e.supply, e.node); s'.reg == s.reg && s'.lim == s.lim
    ensures e.Open? && WillAddFile(s, e.path, e.creating, e.cb) ==>
              var s' := FileAdded(s, e.path, [], e.supply, e.node); s'.reg == s.reg && s'.lim == s.lim
    ensures e.AddDirectory? && !Blocked(s.g, s.root, e.path) ==>
              var s' := MkdirAll(s, e.path, e.supply).0; s'.reg == s.reg && s'.lim == s.lim
  {
    hide MakeDirs, Create, Blocked, Tree;
    WFTree(s);
  }

  ghost predicate TakesRegistryStep<N>(s: Fs<N>, e: Event<N>, s': Fs<N>) {
    && s'.lim == s.lim
    && match RegistryEvent(s, e)
       case None => s'.reg == s.reg
       case Some(re) => GhostLaws.Next(s.reg, re, s'.reg, s.lim)
  }

  lemma OpenRegistry<N>(s: Fs<N>, e: Event<N>, s': Fs<N>)
    requires WF(s) && Callable(s, e) && e.Open? && NextOpen(s, e, s')
    ensures TakesRegistryStep(s, e, s')
  {
    MkdirAllKeepsRegistry(s, e);
    hide WF, FileAdded, Walk, CanAddFile, GhostLaws.Swept, GhostSpec.Registered;
  }

  lemma CloseRegistry<N>(s: Fs<N>, e: Event<N>, s': Fs<N>)
    requires WF(s) && e.Close? && e.h in s.open && NextClose(s, e, s')
    ensures TakesRegistryStep(s, e, s')
  {
    hide Tree, InodesDistinct, GhostSpec.Registered, GhostLaws.Swept, GhostSpec.Accounted;
  }

  /** Every call leaves the registry alone or takes one of the registry's own steps. */
  lemma NextRegistry<N>(s: Fs<N>, e: Event<N>, s': Fs<N>)
    requires WF(s) && Callable(s, e) && Next(s, e, s')
    ensures TakesRegistryStep(s, e, s')
  {
    hide WF, NextOpen, NextClose, FileAdded, MkdirAll, Move, Detach, Added, Written, Truncated,
         GhostSpec.Registered, GhostLaws.Swept, GhostSpec.Accounted, CanAddFile, Blocked;
    MkdirAllKeepsRegistry(s, e);
    if e.Open? {
      OpenRegistry(s, e, s');
    } else if e.Close? && e.h in s.open {
      CloseRegistry(s, e, s');
    } else {
      AddedKeepsRegistry(s, e);
    }
  }

  lemma AddedKeepsRegistry<N>(s: Fs<N>, e: Event<N>)
    ensures e.Mkdir? ==> forall d, node :: d in s.g && e.node !in s.g ==>
              Added(s, d, e.node, node).reg == s.reg && Added(s, d, e.node, node).lim == s.lim
  {
  }

  /** The call registers nothing, or a size that fits (see GhostLaws.RegistrationAccounting). */
  ghost predicate CloseFits<N>(s: Fs<N>, e: Event<N>) {
    var re := RegistryEvent(s, e);
    re.Some? ==> GhostLaws.EventFits(re.value)
  }

  lemma RegisteredSize<N>(s: Fs<N>, e: Event<N>)
    ensures var re := RegistryEvent(s, e); re.Some? && re.value.Register? ==> re.value.size < TWO63
  {
  }

  /** Whatever the clients do, as long as every registration fits the counters are exact and the quotas hold. */
  lemma {:induction false} RunsKeepAccounts<N>(ss: seq<Fs<N>>, es: seq<Event<N>>, i: nat)
    requires Run(ss, es) && WF(ss[0]) && ss[0].reg == GhostSpec.EmptyRegistry() && i <= |es|
    requires forall j :: 0 <= j < i ==> CloseFits(ss[j], es[j])
    requires ss[0].lim.files >= 1 && 0 <= ss[0].lim.globalBytes
    ensures WF(ss[i]) && ss[i].lim == ss[0].lim
    ensures GhostSpec.Accounted(ss[i].reg) && GhostLaws.Quotas(ss[i].reg.ghosts, ss[i].lim)
    ensures GhostLaws.Good(ss[i].reg, ss[i].lim)
  {
    hide WF, Called, Next, Callable, GhostLaws.Next, RegistryEvent, GhostSpec.Accounted, GhostLaws.Quotas, GhostLaws.EventFits;
    if i == 0 {
      GhostLaws.EmptyGood<N>(ss[0].lim);
    } else {
      var s, e := ss[i - 1], es[i - 1];
      RunsKeepAccounts(ss, es, i - 1);
      CalledKeepsWF(s, e, ss[i]);
      NextRegistry(s, e, ss[i]);
      RegisteredSize(s, e);
      if RegistryEvent(s, e).Some? { GhostLaws.NextKeepsGood(s.reg, RegistryEvent(s, e).value, ss[i].reg, s.lim); }
    }
  }

  /** What the call registers, if anything, is smaller than 2^63 bytes, so that its int64 size is not negative. */
  ghost predicate BelowInt64<N>(s: Fs<N>, e: Event<N>) {
    e.Close? && e.h in s.open && s.open[e.h].node in s.g ==> s.g[s.open[e.h].node].size < TWO63
  }

  lemma BelowInt64Size<N>(s: Fs<N>, e: Event<N>)
    requires BelowInt64(s, e)
    ensures var re := RegistryEvent(s, e); re.Some? && re.value.Register? ==> 0 <= re.value.size < TWO63
  {
    if e.Close? && e.h in s.open && s.open[e.h].node in s.g { ToInt64Small(s.g[s.open[e.h].node].size); }
  }

  /** A registration that does not fit breaks the counters at once; so over every run that closes files below
      2^63 bytes only, all states have exact counters if and only if every registration fits. */
  lemma RunsExactIffFit<N>(ss: seq<Fs<N>>, es: seq<Event<N>>)
    requires Run(ss, es) && WF(ss[0]) && ss[0].reg == GhostSpec.EmptyRegistry()
    requires ss[0].lim.files >= 1 && 0 <= ss[0].lim.globalBytes
    requires forall j :: 0 <= j < |es| ==> BelowInt64(ss[j], es[j])
    ensures (forall i :: 0 <= i <= |es| ==> GhostSpec.Exact(ss[i].reg)) <==> forall j :: 0 <= j < |es| ==> CloseFits(ss[j], es[j])
  {
    hide WF, Called, GhostSpec.Exact, GhostLaws.Quotas, CloseFits, BelowInt64;
    if forall j :: 0 <= j < |es| ==> CloseFits(ss[j], es[j]) {
      forall i | 0 <= i <= |es| ensures GhostSpec.Exact(ss[i].reg) { RunsKeepAccounts(ss, es, i); }
    } else {
      var j := FirstMisfit(ss, es, |es|);
      RunsKeepAccounts(ss, es, j);
      MisfitBreaksCounters(ss[j], es[j], ss[j + 1]);
    }
  }

  lemma {:induction false} FirstMisfit<N>(ss: seq<Fs<N>>, es: seq<Event<N>>, n: nat) returns (j: nat)
    requires n <= |es| < |ss| && exists i :: 0 <= i < n && !CloseFits(ss[i], es[i])
    ensures j < n && !CloseFits(ss[j], es[j]) && forall i :: 0 <= i < j ==> CloseFits(ss[i], es[i])
  {
    hide CloseFits;
    if exists i :: 0 <= i < n - 1 && !CloseFits(ss[i], es[i]) { j := FirstMisfit(ss, es, n - 1); } else { j := n - 1; }
  }

  lemma MisfitBreaksCounters<N>(s: Fs<N>, e: Event<N>, s': Fs<N>)
    requires WF(s) && Called(s, e, s') && GhostLaws.Good(s.reg, s.lim) && !CloseFits(s, e) && 0 <= s.lim.globalBytes
    requires BelowInt64(s, e)
    ensures !GhostSpec.Exact(s'.reg)
  {
    hide WF, Next, Callable, GhostSpec.Exact, GhostLaws.Quotas, GhostLaws.Next, BelowInt64;
    CalledKeepsWF(s, e, s');
    NextRegistry(s, e, s');
    BelowInt64Size(s, e);
    hide RegistryEvent;
    GhostLaws.MisfitBreaksCounters(s.reg, RegistryEvent(s, e).value, s'.reg, s.lim);
  }

  /** The files that are closed are smaller than 2^62 bytes. */
  ghost predicate ModestFiles<N>(s: Fs<N>, e: Event<N>) {
    e.Close? && e.h in s.open && s.open[e.h].node in s.g ==> s.g[s.open[e.h].node].size < GhostLaws.BOUND
  }

  lemma ModestRegistration<N>(s: Fs<N>, e: Event<N>)
    requires ModestFiles(s, e)
    ensures var re := RegistryEvent(s, e); re.Some? && re.value.Register? ==> 0 <= re.value.size < GhostLaws.BOUND
  {
    if e.Close? && e.h in s.open && s.open[e.h].node in s.g { ToInt64Small(s.g[s.open[e.h].node].size); }
  }

  /** With files and a global limit below 2^62 every registration fits. */
  lemma {:induction false} ModestRunsKeepAccounts<N>(ss: seq<Fs<N>>, es: seq<Event<N>>, i: nat)
    requires Run(ss, es) && WF(ss[0]) && ss[0].reg == GhostSpec.EmptyRegistry() && i <= |es|
    requires forall j :: 0 <= j < i ==> ModestFiles(ss[j], es[j])
    requires ss[0].lim.files >= 1 && 0 <= ss[0].lim.globalBytes < GhostLaws.BOUND
    ensures forall j :: 0 <= j < i ==> CloseFits(ss[j], es[j])
    ensures GhostLaws.Good(ss[i].reg, ss[i].lim) && ss[i].reg.global < GhostLaws.BOUND
  {
    hide WF, Called, Next, Callable, GhostLaws.Next, RegistryEvent, GhostSpec.Accounted, GhostLaws.Quotas, ModestFiles,
         GhostLaws.EventFits;
    if i == 0 {
      GhostLaws.EmptyGood<N>(ss[0].lim);
    } else {
      var s, e := ss[i - 1], es[i - 1];
      ModestRunsKeepAccounts(ss, es, i - 1);
      RunsKeepAccounts(ss, es, i - 1);
      CalledKeepsWF(s, e, ss[i]);
      NextRegistry(s, e, ss[i]);
      ModestRegistration(s, e);
      if RegistryEvent(s, e).Some? { GhostLaws.ModestFits(s.reg, RegistryEvent(s, e).value, ss[i].reg, s.lim); }
      RunsKeepAccounts(ss, es, i);
    }
  }

  // ----- reopening -----

  ghost predicate RegistersAt<N>(s: Fs<N>, e: Event<N>, t: GhostSpec.Session, raw: string, n: N) {
    && e.Close? && e.h in s.open && s.discard && e.ctx == Some(t)
    && s.open[e.h] == OpenFile(n, raw) && GhostSpec.MakeGhostKey(t, raw) !in s.reg.ghosts
  }

  /** A non-creating Open of a path that is not in the tree, in session t. */
  ghost predicate Reopens<N>(s: Fs<N>, e: Event<N>, t: GhostSpec.Session, raw: string) {
    e.Open? && !e.creating && e.raw == raw && e.ctx == Some(t) && Walk(s.g, s.root, e.path).None?
  }

  /** The Close of a file stores its node. */
  lemma CloseRegisters<N>(s: Fs<N>, e: Event<N>, s': Fs<N>, t: GhostSpec.Session, raw: string, n: N)
    requires WF(s) && Called(s, e, s') && RegistersAt(s, e, t, raw, n)
    ensures var key := GhostSpec.MakeGhostKey(t, raw);
            key in s'.reg.ghosts && s'.reg.ghosts[key].node == n &&
            s'.reg.ghosts[key].session == t && s'.reg.ghosts[key].path == raw &&
            n in s.g && s'.g == s.g && s'.reg.ghosts[key].size == ToInt64(s.g[n].size)
  {
    hide Tree, InodesDistinct, GhostSpec.SessionPhase, GhostSpec.GlobalPhase, GhostSpec.Accounted, GhostSpec.Added,
         GhostSpec.Performed;
  }

  /** The same but for the access time. */
  ghost predicate SameGhost<N>(a: GhostSpec.Ghost<N>, b: GhostSpec.Ghost<N>) {
    b == a.(lastAccess := b.lastAccess)
  }

  lemma {:induction false} KeptGhost<N>(ss: seq<Fs<N>>, es: seq<Event<N>>, key: string, i: nat, j: nat)
    requires Run(ss, es) && i <= j < |ss|
    requires forall m :: i <= m < j ==> WF(ss[m])
    requires forall m :: i <= m <= j ==> key in ss[m].reg.ghosts
    ensures SameGhost(ss[i].reg.ghosts[key], ss[j].reg.ghosts[key])
    decreases j
  {
    hide WF, Called, GhostSpec.Accounted;
    if i < j {
      KeptGhost(ss, es, key, i, j - 1);
      KeptOnce(ss[j - 1], es[j - 1], ss[j], key);
    }
  }

  lemma KeptOnce<N>(s: Fs<N>, e: Event<N>, s': Fs<N>, key: string)
    requires WF(s) && Called(s, e, s') && key in s.reg.ghosts && key in s'.reg.ghosts
    ensures SameGhost(s.reg.ghosts[key], s'.reg.ghosts[key])
  {
    hide WF, Next, Callable, GhostSpec.Accounted, RegistryEvent;
    CalledKeepsWF(s, e, s');
    NextRegistry(s, e, s');
  }

  /** A Close registers a node. As long as the ghost is neither evicted nor expired, every later non-creating
      Open of that path in that session opens that same node, whatever happened in between. */
  lemma ReopenFindsTheSavedNode<N>(ss: seq<Fs<N>>, es: seq<Event<N>>, i: nat, j: nat,
                                   t: GhostSpec.Session, raw: string, n: N)
    requires Run(ss, es) && WF(ss[0]) && i < j < |es|
    requires RegistersAt(ss[i], es[i], t, raw, n)
    requires forall m :: i < m <= j ==> GhostSpec.MakeGhostKey(t, raw) in ss[m].reg.ghosts
    requires Reopens(ss[j], es[j], t, raw)
    ensures es[j].h in ss[j + 1].open && ss[j + 1].open[es[j].h] == OpenFile(n, raw)
  {
    hide WF, Called, GhostSpec.Accounted, RegistersAt, Reopens;
    forall m | i <= m <= j ensures WF(ss[m]) { RunsKeepLinks(ss, es, m); }
    CloseRegisters(ss[i], es[i], ss[i + 1], t, raw, n);
    KeptGhost(ss, es, GhostSpec.MakeGhostKey(t, raw), i + 1, j);
    ReopenedNode(ss[j], es[j], ss[j + 1], t, raw);
  }

  lemma ReopenedNode<N>(s: Fs<N>, e: Event<N>, s': Fs<N>, t: GhostSpec.Session, raw: string)
    requires WF(s) && Called(s, e, s') && Reopens(s, e, t, raw)
    ensures var key := GhostSpec.MakeGhostKey(t, raw);
            if key in s.reg.ghosts then s'.open == s.open[e.h := OpenFile(s.reg.ghosts[key].node, raw)]
            else s' == s
  {
    hide Tree, InodesDistinct, Walk;
  }

  /** Isolation: such an Open returns a node only from a ghost that the same session registered for the same
      path; without one it fails and changes nothing. */
  lemma ReopenIsPrivate<N>(s: Fs<N>, e: Event<N>, s': Fs<N>, t: GhostSpec.Session, raw: string)
    requires WF(s) && Called(s, e, s') && Reopens(s, e, t, raw)
    ensures s' != s ==> exists key :: key in s.reg.ghosts && s.reg.ghosts[key].session == t && s.reg.ghosts[key].path == raw
                                      && s'.open == s.open[e.h := OpenFile(s.reg.ghosts[key].node, raw)]
    ensures (exists key :: key in s.reg.ghosts && s.reg.ghosts[key].session == t && s.reg.ghosts[key].path == raw) <==>
            GhostSpec.MakeGhostKey(t, raw) in s.reg.ghosts
  {
    GhostKeys(s);
    hide WF, Called, Reopens;
    ReopenedNode(s, e, s', t, raw);
    var key := GhostSpec.MakeGhostKey(t, raw);
    if key in s.reg.ghosts {
      assert key == GhostSpec.MakeGhostKey(s.reg.ghosts[key].session, s.reg.ghosts[key].path);
      GhostSpec.GhostKeyInjective(t, raw, s.reg.ghosts[key].session, s.reg.ghosts[key].path);
    }
  }

  // ----- recorded sizes -----

  /** From state i on, a node's size only grows, and it is as at i if and only if no accepted write ended beyond
      that. */
  lemma {:induction false} SizeSince<N>(ss: seq<Fs<N>>, es: seq<Event<N>>, n: N, i: nat, j: nat)
    requires Run(ss, es) && WF(ss[0]) && ss[0].discard && i <= j <= |es| && n in ss[i].g
    requires forall m :: i <= m < j ==> ByClient(es[m])
    ensures n in ss[j].g && ss[j].g[n].size >= ss[i].g[n].size
    ensures ss[j].g[n].size == ss[i].g[n].size <==> forall m :: i <= m < j ==> WriteEnd(ss[m], es[m], n) <= ss[i].g[n].size
    decreases j
  {
    hide WF, Called, WriteEnd, Next, Callable;
    if i < j {
      SizeSince(ss, es, n, i, j - 1);
      RunsKeepLinks(ss, es, j - 1);
      CalledInterferesNot(ss[j - 1], es[j - 1], ss[j], n);
      assert WriteEnd(ss[j - 1], es[j - 1], n) <= ss[i].g[n].size || ss[j].g[n].size > ss[i].g[n].size;
    }
  }

  /** The counters and quotas are about recorded sizes. While a ghost is kept, its recorded size is that of its
      node if and only if no write accepted since its registration ended beyond the size then: another Close of
      the path only refreshes the access time. */
  lemma RecordedSizeIff<N>(ss: seq<Fs<N>>, es: seq<Event<N>>, i: nat, j: nat, t: GhostSpec.Session, raw: string, n: N)
    requires Run(ss, es) && WF(ss[0]) && ss[0].discard && i < j <= |es|
    requires forall m :: i <= m < j ==> ByClient(es[m])
    requires RegistersAt(ss[i], es[i], t, raw, n)
    requires forall m :: i < m <= j ==> GhostSpec.MakeGhostKey(t, raw) in ss[m].reg.ghosts
    ensures n in ss[i].g && n in ss[j].g
    ensures ss[j].reg.ghosts[GhostSpec.MakeGhostKey(t, raw)].size == ToInt64(ss[j].g[n].size) <==>
            forall m :: i < m < j ==> WriteEnd(ss[m], es[m], n) <= ss[i].g[n].size
  {
    hide WF, Called, WriteEnd, RegistersAt, Next, Callable, ToInt64, InodesDistinct, Links;
    forall m | i <= m <= j ensures WF(ss[m]) { RunsKeepLinks(ss, es, m); }
    CloseRegisters(ss[i], es[i], ss[i + 1], t, raw, n);
    KeptGhost(ss, es, GhostSpec.MakeGhostKey(t, raw), i + 1, j);
    SizeSince(ss, es, n, i + 1, j);
    SizesUint64(ss[i], n);
    SizesUint64(ss[j], n);
    ToInt64Injective(ss[i].g[n].size, ss[j].g[n].size);
  }

  lemma SizesUint64<N>(s: Fs<N>, n: N)
    requires WF(s) && n in s.g
    ensures s.g[n].size < TWO64
  {
  }

  // ----- isolation -----

  /** The session that opened the handle last. */
  ghost function Opener<N>(ss: seq<Fs<N>>, es: seq<Event<N>>, h: Handle, i: nat): Option<GhostSpec.Session>
    requires i <= |es| < |ss|
  {
    if i == 0 then None
    else if es[i - 1].Open? && es[i - 1].h == h && ss[i] != ss[i - 1] && h in ss[i].open then es[i - 1].ctx
    else Opener(ss, es, h, i - 1)
  }

  /** The call makes node n as a stand-in for a file it does not create. */
  ghost predicate MakesStandIn<N>(s: Fs<N>, e: Event<N>, n: N) {
    e.Open? && e.node == n && StandsIn(s, e.path, e.creating, e.cb)
  }

  /** Every handle on n is closed in the session that opened it. */
  ghost predicate ClosedByOpener<N>(ss: seq<Fs<N>>, es: seq<Event<N>>, n: N, i: nat)
    requires i < |es| < |ss|
  {
    es[i].Close? && es[i].h in ss[i].open && ss[i].open[es[i].h].node == n ==> es[i].ctx == Opener(ss, es, es[i].h, i)
  }

  /** Node n belongs to session c: no path leads to it, its handles were opened in c, its ghosts are of c. */
  ghost predicate Private<N>(ss: seq<Fs<N>>, es: seq<Event<N>>, n: N, c: Option<GhostSpec.Session>, i: nat)
    requires i <= |es| < |ss|
  {
    && n in ss[i].g && (forall p :: Walk(ss[i].g, ss[i].root, p) != Some(n))
    && (forall h :: h in ss[i].open && ss[i].open[h].node == n ==> Opener(ss, es, h, i) == c)
    && (forall k :: k in ss[i].reg.ghosts && ss[i].reg.ghosts[k].node == n ==> c == Some(ss[i].reg.ghosts[k].session))
  }

  lemma StandInStartsPrivate<N>(ss: seq<Fs<N>>, es: seq<Event<N>>, i: nat, n: N)
    requires Run(ss, es) && i < |es| && WF(ss[i]) && ss[i].discard && MakesStandIn(ss[i], es[i], n)
    ensures Private(ss, es, n, es[i].ctx, i + 1)
  {
    hide Walk, InodesDistinct, Links, SizesExact;
    var s, s', e := ss[i], ss[i + 1], es[i];
    StandInMade(s, e, s', n);
    WFLinks(s);
    forall p ensures Walk(s'.g, s'.root, p) != Some(n) {
      SameEntriesSameWalk(s.g, s'.g, s.root, p);
      WalkStays(s.g, s.root, p);
    }
  }

  lemma StandInMade<N>(s: Fs<N>, e: Event<N>, s': Fs<N>, n: N)
    requires WF(s) && s.discard && Called(s, e, s') && MakesStandIn(s, e, n)
    ensures n !in s.g && s' == OpenedDummy(s, e.h, n, e.path, e.raw)
  {
    hide WF, Walk;
  }

  /** A handle on a node that no path leads to was there before, or was opened through a ghost. */
  lemma HandlesOf<N>(s: Fs<N>, e: Event<N>, s': Fs<N>, n: N, h: Handle)
    requires WF(s) && s.discard && ByClient(e) && Called(s, e, s') && n in s.g && (forall p :: Walk(s.g, s.root, p) != Some(n))
    requires h in s'.open && s'.open[h].node == n
    ensures || (h in s.open && s.open[h].node == n && !(e.Open? && e.h == h && s' != s))
            || (e.Open? && e.h == h && e.ctx.Some? &&
                var key := GhostSpec.MakeGhostKey(e.ctx.value, e.raw); key in s.reg.ghosts && s.reg.ghosts[key].node == n)
  {
    hide Walk, Tree, InodesDistinct, SizesExact, GhostSpec.Saved, GhostSpec.MakeGhostKey;
  }

  /** Every ghost was there before, or is registered by Close for the node of its handle, in its session. */
  lemma GhostsOf<N>(s: Fs<N>, e: Event<N>, s': Fs<N>, k: string)
    requires WF(s) && Called(s, e, s') && k in s'.reg.ghosts
    ensures || (k in s.reg.ghosts && SameGhost(s.reg.ghosts[k], s'.reg.ghosts[k]))
            || (e.Close? && e.h in s.open && e.ctx.Some? && s'.reg.ghosts[k].node == s.open[e.h].node
                && s'.reg.ghosts[k].session == e.ctx.value)
  {
    hide WF, Next, Callable, Walk, GhostSpec.Registered, GhostSpec.MakeGhostKey, GhostSpec.Accounted, GhostSpec.Evicted, ToInt64;
    CalledKeepsWF(s, e, s');
    NextRegistry(s, e, s');
    var re := RegistryEvent(s, e);
    if re.Some? && re.value.Register? {
      var v := re.value;
      GhostSpec.RegisteredKeys(s.reg, v.phase1, v.phase2, s'.reg, v.session, v.path, v.node, v.size, v.at, s.lim);
      GhostSpec.RegisteredGhost(s.reg, v.phase1, v.phase2, s'.reg, v.session, v.path, v.node, v.size, v.at, s.lim);
    }
  }

  /** A ghost's key names its session. */
  lemma KeySession<N>(s: Fs<N>, t: GhostSpec.Session, raw: string)
    requires WF(s) && GhostSpec.MakeGhostKey(t, raw) in s.reg.ghosts
    ensures s.reg.ghosts[GhostSpec.MakeGhostKey(t, raw)].session == t
  {
    GhostKeys(s);
    var g := s.reg.ghosts[GhostSpec.MakeGhostKey(t, raw)];
    GhostSpec.GhostKeyInjective(t, raw, g.session, g.path);
  }

  lemma StaysPrivate<N>(ss: seq<Fs<N>>, es: seq<Event<N>>, m: nat, n: N, c: Option<GhostSpec.Session>)
    requires Run(ss, es) && m < |es| && WF(ss[m]) && ss[m].discard && ByClient(es[m])
    requires Private(ss, es, n, c, m) && ClosedByOpener(ss, es, n, m)
    ensures Private(ss, es, n, c, m + 1)
  {
    hide WF, Called, Walk, Next, Callable, Links, InodesDistinct, SameGhost;
    var s, s', e := ss[m], ss[m + 1], es[m];
    StaysOutOfReach(s, e, s', n);
    forall h | h in s'.open && s'.open[h].node == n ensures Opener(ss, es, h, m + 1) == c {
      HandlesOf(s, e, s', n, h);
      if !(h in s.open && s.open[h].node == n && !(e.Open? && e.h == h && s' != s)) { KeySession(s, e.ctx.value, e.raw); }
    }
    hide Opener;
    forall k | k in s'.reg.ghosts && s'.reg.ghosts[k].node == n ensures c == Some(s'.reg.ghosts[k].session) {
      GhostsOf(s, e, s', k);
      if k in s.reg.ghosts && SameGhost(s.reg.ghosts[k], s'.reg.ghosts[k]) { SameOwner(s.reg.ghosts[k], s'.reg.ghosts[k]); }
    }
  }

  lemma SameOwner<N>(a: GhostSpec.Ghost<N>, b: GhostSpec.Ghost<N>)
    requires SameGhost(a, b)
    ensures b.node == a.node && b.session == a.session
  {
  }

  lemma StaysOutOfReach<N>(s: Fs<N>, e: Event<N>, s': Fs<N>, n: N)
    requires WF(s) && s.discard && ByClient(e) && Called(s, e, s') && n in s.g && forall p :: Walk(s.g, s.root, p) != Some(n)
    ensures n in s'.g && forall p :: Walk(s'.g, s'.root, p) != Some(n)
  {
    hide WF, Called, Walk, Next, Callable, Links, InodesDistinct, WriteEnd;
    WFLinks(s);
    WFTree(s);
    forall m | m in s.g ensures m in s'.g && s'.g[m].kids == s.g[m].kids { CalledInterferesNot(s, e, s', m); }
    CalledInterferesNot(s, e, s', n);
    forall p ensures Walk(s'.g, s'.root, p) != Some(n) { SameEntriesSameWalk(s.g, s'.g, s.root, p); }
  }

  /** Isolation over runs in honeypot mode: if the handles on a stand-in node are closed in the sessions that
      opened them, only the session that made the node ever opens it. */
  lemma {:induction false} StandInsArePrivate<N>(ss: seq<Fs<N>>, es: seq<Event<N>>, i: nat, j: nat, n: N)
    requires Run(ss, es) && WF(ss[0]) && ss[0].discard && i < j <= |es|
    requires MakesStandIn(ss[i], es[i], n)
    requires forall m :: i <= m < j ==> ByClient(es[m])
    requires forall m :: i < m < j ==> ClosedByOpener(ss, es, n, m)
    ensures Private(ss, es, n, es[i].ctx, j)
    decreases j
  {
    hide WF, Called, Private, Opener, ClosedByOpener, StandsIn, InodesDistinct, Links;
    RunsKeepLinks(ss, es, j - 1);
    if i + 1 == j {
      StandInStartsPrivate(ss, es, i, n);
    } else {
      StandInsArePrivate(ss, es, i, j - 1, n);
      StaysPrivate(ss, es, j - 1, n, es[i].ctx);
    }
  }

  // ----- least recently used, in terms of the calls -----

  /** The time of the call, if it uses the ghost under the key: the Close of a path in its session, or an Open
      that finds the ghost. */
  ghost function UseBy<N>(s: Fs<N>, e: Event<N>, key: string): Option<nat> {
    if e.Close? && s.discard && e.ctx.Some? && e.h in s.open && GhostSpec.MakeGhostKey(e.ctx.value, s.open[e.h].path) == key then Some(e.at)
    else if e.Open? && !e.creating && e.ctx.Some? && Walk(s.g, s.root, e.path).None? && key in s.reg.ghosts
            && GhostSpec.MakeGhostKey(e.ctx.value, e.raw) == key then Some(e.at)
    else None
  }

  /** The last such time among the first i calls. */
  ghost function LastUsed<N>(ss: seq<Fs<N>>, es: seq<Event<N>>, key: string, i: nat): Option<nat>
    requires i <= |es| < |ss|
  {
    if i == 0 then None
    else if UseBy(ss[i - 1], es[i - 1], key).Some? then UseBy(ss[i - 1], es[i - 1], key)
    else LastUsed(ss, es, key, i - 1)
  }

  lemma NextUses<N>(s: Fs<N>, e: Event<N>, s': Fs<N>, key: string)
    requires WF(s) && Called(s, e, s') && key in s'.reg.ghosts
    ensures if UseBy(s, e, key).Some? then s'.reg.ghosts[key].lastAccess == UseBy(s, e, key).value
            else key in s.reg.ghosts && s'.reg.ghosts[key].lastAccess == s.reg.ghosts[key].lastAccess
  {
    hide WF, Next, Callable, GhostLaws.Next, RegistryEvent, UseBy, GhostLaws.UsedAt;
    HandlesKnown(s);
    UsesMatch(s, e, key);
    CalledKeepsWF(s, e, s');
    NextRegistry(s, e, s');
    var re := RegistryEvent(s, e);
    if re.Some? { GhostLaws.NextSetsTheTime(s.reg, re.value, s'.reg, s.lim, key); }
  }

  /** A use is what the registry's own step records as one. */
  lemma UsesMatch<N>(s: Fs<N>, e: Event<N>, key: string)
    requires forall h :: h in s.open ==> s.open[h].node in s.g
    ensures UseBy(s, e, key) == var re := RegistryEvent(s, e); if re.None? then None else GhostLaws.UsedAt(re.value, key)
  {
    hide Walk, GhostSpec.MakeGhostKey, ToInt64;
  }

  lemma HandlesKnown<N>(s: Fs<N>)
    requires WF(s)
    ensures forall h :: h in s.open ==> s.open[h].node in s.g
  {
  }

  /** Over every run: the access time of a ghost is that of the last Close of its path, or Open that found it, in
      its session. */
  lemma {:induction false} AccessTimeIsLastCall<N>(ss: seq<Fs<N>>, es: seq<Event<N>>, key: string, i: nat)
    requires Run(ss, es) && WF(ss[0]) && ss[0].reg == GhostSpec.EmptyRegistry() && i <= |es| && key in ss[i].reg.ghosts
    ensures LastUsed(ss, es, key, i) == Some(ss[i].reg.ghosts[key].lastAccess)
  {
    hide WF, Called, UseBy, InodesDistinct, Links;
    if i > 0 {
      RunsKeepLinks(ss, es, i - 1);
      NextUses(ss[i - 1], es[i - 1], ss[i], key);
      if UseBy(ss[i - 1], es[i - 1], key).None? { AccessTimeIsLastCall(ss, es, key, i - 1); }
    }
  }

  /** Over every run: a Close in session t that makes ghost v go, and keeps ghost u, does so only if v was used no
      later than u, whenever u is of session t or v is not. */
  lemma CloseEvictsTheLeastRecentlyUsed<N>(ss: seq<Fs<N>>, es: seq<Event<N>>, i: nat, t: GhostSpec.Session, v: string, u: string)
    requires Run(ss, es) && WF(ss[0]) && ss[0].reg == GhostSpec.EmptyRegistry() && i < |es|
    requires es[i].Close? && es[i].ctx == Some(t)
    requires v in ss[i].reg.ghosts && v !in ss[i + 1].reg.ghosts && u in ss[i].reg.ghosts && u in ss[i + 1].reg.ghosts
    requires ss[i].reg.ghosts[u].session == t || ss[i].reg.ghosts[v].session != t
    ensures LastUsed(ss, es, v, i).Some? && LastUsed(ss, es, u, i).Some?
    ensures LastUsed(ss, es, v, i).value <= LastUsed(ss, es, u, i).value
  {
    hide WF, Called, LastUsed, InodesDistinct, Links;
    RunsKeepLinks(ss, es, i);
    AccessTimeIsLastCall(ss, es, v, i);
    AccessTimeIsLastCall(ss, es, u, i);
    VictimsOfClose(ss[i], es[i], ss[i + 1], t, v, u);
  }

  lemma VictimsOfClose<N>(s: Fs<N>, e: Event<N>, s': Fs<N>, t: GhostSpec.Session, v: string, u: string)
    requires WF(s) && Called(s, e, s') && e.Close? && e.ctx == Some(t)
    requires v in s.reg.ghosts && v !in s'.reg.ghosts && u in s.reg.ghosts && u in s'.reg.ghosts
    requires s.reg.ghosts[u].session == t || s.reg.ghosts[v].session != t
    ensures s.reg.ghosts[v].lastAccess <= s.reg.ghosts[u].lastAccess
  {
    hide WF, Next, Callable, GhostLaws.Next, RegistryEvent;
    CalledKeepsWF(s, e, s');
    NextRegistry(s, e, s');
    KeyOfClose(s, e, t, u);
    var re := RegistryEvent(s, e);
    if re.Some? { VictimsOfStep(s.reg, re.value, s'.reg, s.lim, v, u); }
  }

  lemma VictimsOfStep<N>(r: GhostSpec.Registry<N>, e: GhostLaws.Event<N>, r': GhostSpec.Registry<N>, lim: GhostSpec.Limits, v: string, u: string)
    requires GhostLaws.Next(r, e, r', lim) && !e.Sweep?
    requires v in r.ghosts && v !in r'.ghosts && u in r.ghosts && u in r'.ghosts
    requires e.Register? ==> GhostSpec.MakeGhostKey(e.session, e.path) != u
    requires e.Register? ==> r.ghosts[u].session == e.session || r.ghosts[v].session != e.session
    ensures r.ghosts[v].lastAccess <= r.ghosts[u].lastAccess
  {
    hide GhostSpec.MakeGhostKey, GhostSpec.Accounted, GhostSpec.Performed, GhostSpec.Added, GhostSpec.SessionEviction,
         GhostSpec.GlobalEviction;
  }

  /** A registration's key is not in use yet, so every ghost kept under another key was there. */
  lemma KeyOfClose<N>(s: Fs<N>, e: Event<N>, t: GhostSpec.Session, u: string)
    requires e.Close? && e.ctx == Some(t) && u in s.reg.ghosts
    ensures var re := RegistryEvent(s, e); re.Some? ==> !re.value.Sweep?
    ensures var re := RegistryEvent(s, e); re.Some? && re.value.Register? ==>
              re.value.session == t && GhostSpec.MakeGhostKey(re.value.session, re.value.path) != u
  {
  }

  /** Over every run a cleanup round removes exactly the ghosts last used more than three minutes before. */
  lemma CleanupRemovesTheUnused<N>(ss: seq<Fs<N>>, es: seq<Event<N>>, i: nat, key: string)
    requires Run(ss, es) && WF(ss[0]) && ss[0].reg == GhostSpec.EmptyRegistry() && i < |es| && es[i].Sweep? && key in ss[i].reg.ghosts
    ensures LastUsed(ss, es, key, i).Some?
    ensures key in ss[i + 1].reg.ghosts <==> es[i].at - LastUsed(ss, es, key, i).value <= 180_000_000_000
  {
    hide WF, LastUsed, InodesDistinct, Links, GhostSpec.Accounted, GhostSpec.Evicted;
    RunsKeepLinks(ss, es, i);
    AccessTimeIsLastCall(ss, es, key, i);
    assert Called(ss[i], es[i], ss[i + 1]);
  }
}
