/** The ghost-file registry of memoryshare/memory_fs.go as the object that updates its maps in place. The
    calling session (the goroutine's operation context in the source) and the time are parameters. */
module GhostRegistry {
  import opened Bytes
  import opened GhostSpec
  import opened GhostLaws

  datatype Stats = Stats(
    totalFiles: nat,
    activeSessions: nat,
    virtualMemoryTotal: int,
    virtualMemoryLimit: int,
    realMemoryEstimate: int,
    sessionFileCounts: map<Session, nat>,
    sessionVirtualMemory: map<Session, int>)

  // ----- working lists -----

  /** A working list of ghosts, each identified by its key: those of scope c, each once, in any order. */
  ghost predicate ListOf<N>(list: seq<string>, gs: Ghosts<N>, c: Scope) {
    && (forall k :: k in list <==> k in gs && InScope(gs[k], c))
    && (forall i, j :: 0 <= i < j < |list| ==> list[i] != list[j])
    && |list| == Sum(gs, Count(c))
  }

  lemma ListGrows<N>(list: seq<string>, gs: Ghosts<N>, c: Scope, k: string, g: Ghost<N>)
    requires ListOf(list, gs, c) && k !in gs
    ensures ListOf(if InScope(g, c) then list + [k] else list, gs[k := g], c)
  {
    SumAdd(gs, k, g, Count(c));
  }

  lemma ListShrinks<N>(list: seq<string>, gs: Ghosts<N>, c: Scope, i: nat)
    requires ListOf(list, gs, c) && i < |list|
    ensures ListOf(list[..i] + list[i + 1..], gs - {list[i]}, c)
  {
    assert list[i] in list;
    SumRemove(gs, list[i], Count(c));
    WithoutAt(list, i);
  }

  lemma WithoutAt(list: seq<string>, i: nat)
    requires i < |list| && forall j, m :: 0 <= j < m < |list| ==> list[j] != list[m]
    ensures var rest := list[..i] + list[i + 1..];
            && (forall k :: k in rest <==> k in list && k != list[i])
            && (forall j, m :: 0 <= j < m < |rest| ==> rest[j] != rest[m])
  {
    var a, b := list[..i], list[i + 1..];
    assert list == a + [list[i]] + b;
    assert list[i] !in a && list[i] !in b;
  }

  /** Evicting a least recently used ghost of the scope extends the least-recently-used prefix removed. */
  lemma Evict<N>(before: Registry<N>, current: Registry<N>, list: seq<string>, i: nat, c: Scope)
    requires KeysMatch(current.ghosts) && LruPrefixRemoved(before.ghosts, current.ghosts, c)
    requires ListOf(list, current.ghosts, c) && IsOldest(list, i, current.ghosts)
    ensures var key := list[i];
            var after := Remove(current, current.ghosts[key].session, current.ghosts[key].path);
            && key in before.ghosts && after.ghosts == current.ghosts - {key} && KeysMatch(after.ghosts)
            && (Accounted(current) ==> Accounted(after)) && LruPrefixRemoved(before.ghosts, after.ghosts, c)
            && LastVictim(before.ghosts, after.ghosts, key)
            && after.ghosts[key := before.ghosts[key]] == current.ghosts
  {
    hide Accounted, Sum;
    var key := list[i];
    assert key in list;
    if Accounted(current) { RemoveKeepsAccounting(current, key); }
    var after := current.ghosts - {key};
    forall u | u in after && InScope(after[u], c) ensures current.ghosts[key].lastAccess <= after[u].lastAccess {
      assert u in list;
    }
    forall u | u in before.ghosts && u !in after ensures before.ghosts[u].lastAccess <= before.ghosts[key].lastAccess {
      assert u == key || u !in current.ghosts;
    }
    assert after[key := before.ghosts[key]] == current.ghosts;
  }

  class GhostFiles<N(==)> {
    var ghosts: Ghosts<N>
    var usage: map<Session, int>
    var global: int
    var maxFiles: int
    var maxSessionBytes: int
    var maxGlobalBytes: int

    /** The registry as a value. */
    function State(): Registry<N>
      reads this
    {
      Registry(ghosts, usage, global)
    }

    function Lim(): Limits
      reads this
    {
      Limits(maxFiles, maxSessionBytes, maxGlobalBytes)
    }

    /** The defaults of NewMemoryFS: 3 files and 10 MB per session, 1 GB in all. */
    constructor ()
      ensures State() == EmptyRegistry()
      ensures Lim() == Limits(3, 10485760, 1073741824)
    {
      ghosts, usage, global := map[], map[], 0;
      maxFiles, maxSessionBytes, maxGlobalBytes := 3, 10 * 1024 * 1024, 1024 * 1024 * 1024;
    }

    method SetLimits(files: int, sessionBytes: int, globalBytes: int)
      modifies this`maxFiles, this`maxSessionBytes, this`maxGlobalBytes
      ensures Lim() == Limits(files, sessionBytes, globalBytes)
    {
      maxFiles, maxSessionBytes, maxGlobalBytes := files, sessionBytes, globalBytes;
    }

    /** removeGhostFile */
    method RemoveGhostFile(session: Session, path: string)
      modifies this`ghosts, this`usage, this`global
      ensures State() == Remove(old(State()), session, path)
    {
      var key := MakeGhostKey(session, path);
      if key in ghosts {
        var ghost_ := ghosts[key];
        if session in usage {
          var newMem := ToInt64(usage[session] - ghost_.size);
          if newMem <= 0 {
            usage := usage - {session};
          } else {
            usage := usage[session := newMem];
          }
        }
        global := ToInt64(global - ghost_.size);
      }
      ghosts := ghosts - {key};
    }

    /** getGhostFile: a hit also counts as an access. */
    method GetGhostFile(ctx: Option<Session>, path: string, now: nat) returns (found: Option<Ghost<N>>)
      modifies this`ghosts
      ensures ctx.None? ==> found.None? && State() == old(State())
      ensures ctx.Some? ==>
                var key := MakeGhostKey(ctx.value, path);
                if key in old(ghosts) then
                  State() == Touch(old(State()), key, now) && found == Some(ghosts[key])
                else found.None? && State() == old(State())
    {
      if ctx.None? { return None; }
      var key := MakeGhostKey(ctx.value, path);
      if key in ghosts {
        ghosts := ghosts[key := ghosts[key].(lastAccess := now)];
        return Some(ghosts[key]);
      }
      return None;
    }

    /** ghostFiles.Range: visits every entry once, in no particular order. */
    method Collect(c: Scope) returns (list: seq<string>)
      ensures ListOf(list, ghosts, c)
    {
      list := [];
      var rest := ghosts;
      ghost var seen: Ghosts<N> := map[];
      while rest != map[]
        invariant forall k :: k in rest ==> k in ghosts && ghosts[k] == rest[k]
        invariant forall k :: k in seen ==> k in ghosts && ghosts[k] == seen[k]
        invariant forall k :: k in ghosts ==> (k in rest <==> k !in seen)
        invariant ListOf(list, seen, c)
        decreases |rest|
      {
        var k :| k in rest;
        ListGrows(list, seen, c, k, rest[k]);
        if InScope(rest[k], c) { list := list + [k]; }
        seen := seen[k := rest[k]];
        rest := rest - {k};
      }
      assert seen == ghosts;
    }

    /** The first of the list with the least access time. */
    method Oldest(list: seq<string>) returns (i: nat)
      requires list != [] && forall k :: k in list ==> k in ghosts
      ensures IsOldest(list, i, ghosts)
      ensures forall j :: 0 <= j < i ==> ghosts[list[i]].lastAccess < ghosts[list[j]].lastAccess
    {
      i := 0;
      var j := 1;
      while j < |list|
        invariant i < j <= |list|
        invariant forall m :: 0 <= m < j ==> ghosts[list[i]].lastAccess <= ghosts[list[m]].lastAccess
        invariant forall m :: 0 <= m < i ==> ghosts[list[i]].lastAccess < ghosts[list[m]].lastAccess
      {
        if ghosts[list[j]].lastAccess < ghosts[list[i]].lastAccess { i := j; }
        j := j + 1;
      }
    }

    // ----- addGhostFile -----

    /** Removes the oldest ghost of a working list from the registry and from the list. */
    method EvictOldest(list: seq<string>, c: Scope) returns (victim: Ghost<N>, rest: seq<string>, ghost i: nat)
      requires KeysMatch(ghosts) && ListOf(list, ghosts, c) && list != []
      modifies this`ghosts, this`usage, this`global
      ensures IsOldest(list, i, old(ghosts)) && victim == old(ghosts)[list[i]]
      ensures State() == Remove(old(State()), victim.session, victim.path)
      ensures ListOf(rest, ghosts, c) && |rest| == |list| - 1
    {
      var j := Oldest(list);
      i := j;
      assert list[i] in list;
      victim := ghosts[list[j]];
      ListShrinks(list, ghosts, c, i);
      RemoveGhostFile(victim.session, victim.path);
      rest := list[..j] + list[j + 1..];
    }

    /** Phase 1: evict from the calling session while its limits are exceeded. */
    method EvictFromSession(s: Session, fileSize: int) returns (currentMemory: int, ghost victims: seq<string>)
      requires KeysMatch(ghosts)
      modifies this`ghosts, this`usage, this`global
      ensures SessionPhase(old(State()), State(), s, fileSize, Lim())
      ensures SessionLoop(old(State()), State(), victims, s, fileSize, Lim())
      ensures currentMemory == Running(old(State()), victims, s, Usage(old(State()), s))
      ensures Accounted(old(State())) ==> currentMemory == Usage(State(), s)
    {
      hide EvictingSession, SessionPhase, Accounted, ListOf, IsOldest, Sum, LruPrefixRemoved, KeysMatch, SessionFull, SessionGuard,
           SessionRounds, Evicted, Running, OldestOf, ToInt64, SessionLoop;
      ghost var before := State();
      ghost var current := before;
      victims := [];
      NoVictims(before, s, Usage(before, s), fileSize, Lim());
      currentMemory := if s in usage then usage[s] else 0;
      var list := Collect(Of(s));
      SessionPhaseStarts(before, s, currentMemory, fileSize, Lim());
      while SessionFull(|list|, currentMemory, fileSize, Limits(maxFiles, maxSessionBytes, maxGlobalBytes))
        invariant current == State() && ListOf(list, current.ghosts, Of(s)) && KeysMatch(current.ghosts)
        invariant EvictingSession(before, current, s, currentMemory, fileSize, Lim())
        invariant current == Evicted(before, victims) && currentMemory == Running(before, victims, s, Usage(before, s))
        invariant SessionRounds(before, victims, s, fileSize, Lim())
        decreases |list|
      {
        if |list| == 0 { break; }
        var oldest, rest, i := EvictOldest(list, Of(s));
        SessionRound(before, victims, list, i, s, fileSize, Lim());
        victims := victims + [list[i]];
        SessionVictim(before, current, list, i, s, currentMemory, fileSize, Lim());
        currentMemory := ToInt64(currentMemory - oldest.size);
        current := State();
        list := rest;
      }
      SessionPhaseDone(before, current, list, s, currentMemory, fileSize, Lim());
      SessionLoopDone(before, victims, list, s, fileSize, Lim());
    }

    /** Phase 2: evict from all sessions while the global limit is exceeded. */
    method EvictGlobally(s: Session, fileSize: int, sessionMemory: int) returns (currentMemory: int, ghost victims: seq<string>)
      requires KeysMatch(ghosts)
      modifies this`ghosts, this`usage, this`global
      ensures GlobalPhase(old(State()), State(), fileSize, Lim())
      ensures GlobalLoop(old(State()), State(), victims, fileSize, Lim())
      ensures currentMemory == Running(old(State()), victims, s, sessionMemory)
      ensures Accounted(old(State())) && sessionMemory == Usage(old(State()), s) ==> currentMemory == Usage(State(), s)
    {
      hide EvictingGlobally, GlobalPhase, Accounted, ListOf, IsOldest, Sum, LruPrefixRemoved, KeysMatch, GlobalFull, GlobalRounds,
           Evicted, Running, OldestOf, ToInt64, GlobalLoop;
      ghost var before := State();
      ghost var current := before;
      victims := [];
      NoVictims(before, s, sessionMemory, fileSize, Lim());
      currentMemory := sessionMemory;
      GlobalPhaseStarts(before, fileSize, Lim());
      var globalMemory := global;
      while GlobalFull(globalMemory, fileSize, Limits(maxFiles, maxSessionBytes, maxGlobalBytes))
        invariant current == State() && KeysMatch(current.ghosts) && globalMemory == current.global
        invariant Accounted(before) && sessionMemory == Usage(before, s) ==> currentMemory == Usage(current, s)
        invariant EvictingGlobally(before, current, fileSize, Lim())
        invariant current == Evicted(before, victims) && currentMemory == Running(before, victims, s, sessionMemory)
        invariant GlobalRounds(before, victims, fileSize, Lim())
        decreases |current.ghosts|
      {
        var list := Collect(All);
        if |list| == 0 {
          EmptyList(list, current.ghosts);
          break;
        }
        var oldest, rest, i := EvictOldest(list, All);
        GlobalRound(before, victims, list, i, s, sessionMemory, fileSize, Lim());
        victims := victims + [list[i]];
        GlobalVictim(before, current, list, i, s, fileSize, Lim());
        if oldest.session == s { currentMemory := ToInt64(currentMemory - oldest.size); }
        globalMemory := global;
        current := State();
      }
      GlobalPhaseDone(before, current, fileSize, Lim());
      GlobalLoopDone(before, victims, fileSize, Lim());
    }

    /** addGhostFile: without an operation context nothing is registered; nodeSize is the node's uint64 size. */
    method AddGhostFile(ctx: Option<Session>, path: string, node: N, nodeSize: nat, now: nat)
      returns (ghost phase1: Registry<N>, ghost phase2: Registry<N>)
      requires KeysMatch(ghosts) && nodeSize < TWO64
      modifies this`ghosts, this`usage, this`global
      ensures ctx.None? ==> State() == old(State())
      ensures ctx.Some? ==>
                Registered(old(State()), phase1, phase2, State(), ctx.value, path, node, ToInt64(nodeSize), now, Lim())
    {
      hide GlobalEviction, SessionEviction, Accounted, Sum, LruPrefixRemoved, KeysMatch, SessionLoop, GlobalLoop, Evicted, Running;
      phase1, phase2 := State(), State();
      if ctx.None? { return; }
      var fileSize := ToInt64(nodeSize);
      var currentMemory;
      ghost var first, second;
      currentMemory, first := EvictFromSession(ctx.value, fileSize);
      phase1 := State();
      PhaseAccounted(old(State()), phase1, ctx.value, fileSize, Lim());
      currentMemory, second := EvictGlobally(ctx.value, fileSize, currentMemory);
      phase2 := State();
      var key := MakeGhostKey(ctx.value, path);
      ghosts := ghosts[key := Ghost(node, path, ctx.value, fileSize, now)];
      currentMemory := ToInt64(currentMemory + fileSize);
      usage := usage[ctx.value := currentMemory];
      global := ToInt64(global + fileSize);
      assert Performed(old(State()), phase1, phase2, State(), first, second, ctx.value, path, node, fileSize, now, Lim());
    }

    /** What Close does in honeypot mode: refresh the path's ghost, or register one. */
    method SaveGhost(ctx: Option<Session>, path: string, node: N, nodeSize: nat, now: nat)
      returns (ghost phase1: Registry<N>, ghost phase2: Registry<N>)
      requires KeysMatch(ghosts) && nodeSize < TWO64
      modifies this`ghosts, this`usage, this`global
      ensures Saved(old(State()), phase1, phase2, State(), ctx, path, node, ToInt64(nodeSize), now, Lim())
    {
      hide Registered, KeysMatch, MakeGhostKey, Touch, ToInt64;
      phase1, phase2 := State(), State();
      var found := GetGhostFile(ctx, path, now);
      if found.None? { phase1, phase2 := AddGhostFile(ctx, path, node, nodeSize, now); }
    }

    /** One round of cleanupGhostFiles. */
    method Cleanup(now: nat)
      requires KeysMatch(ghosts)
      modifies this`ghosts, this`usage, this`global
      ensures Swept(old(State()), State(), now)
    {
      hide Sum, Accounted, Evicted, Sweeping, SweepOrder, Remove, KeysMatch;
      var rest := ghosts.Keys;
      ghost var before := State();
      ghost var order: seq<string> := [];
      SweepStarts(before, now);
      while rest != {}
        invariant KeysMatch(ghosts) && (Accounted(before) ==> Accounted(State()))
        invariant State() == Evicted(before, order) && Sweeping(before.ghosts, ghosts, order, rest, now)
        decreases |rest|
      {
        var k :| k in rest;
        StillThere(before.ghosts, ghosts, order, rest, now, k);
        SweepNext(before, State(), order, rest, now, k);
        var g := ghosts[k];
        if now - g.lastAccess > EXPIRY {
          order := order + [k];
          RemoveGhostFile(g.session, g.path);
        }
        rest := rest - {k};
      }
      SweepEnds(before.ghosts, ghosts, order, now);
    }

    /** GetGhostFileStats */
    method GetGhostFileStats() returns (stats: Stats)
      ensures stats.totalFiles == |ghosts| && stats.realMemoryEstimate == 330 * |ghosts|
      ensures Counted(ghosts, stats.sessionFileCounts)
      ensures stats.activeSessions == |stats.sessionFileCounts|
      ensures stats.sessionVirtualMemory == usage
      ensures stats.virtualMemoryTotal == global && stats.virtualMemoryLimit == maxGlobalBytes
    {
      hide Counted, Sum, ListOf;
      CountAll(ghosts);
      var list := Collect(All);
      var counts, sessions := CountSessions(list);
      ListLength(list, ghosts);
      stats := Stats(|list|, |sessions|, global, maxGlobalBytes, |list| * 330, counts, usage);
    }

    /** The counting loop of GetGhostFileStats. */
    method CountSessions(list: seq<string>) returns (counts: map<Session, nat>, sessions: set<Session>)
      requires ListOf(list, ghosts, All)
      ensures Counted(ghosts, counts) && sessions == counts.Keys
    {
      hide Counted, Sum, InScope, ListOf;
      NoneCounted<N>();
      ListKeys(list, ghosts);
      counts, sessions := map[], {};
      ghost var seen: Ghosts<N> := map[];
      for total := 0 to |list|
        invariant sessions == counts.Keys
        invariant forall j :: 0 <= j < |list| ==> (list[j] in seen <==> j < total)
        invariant forall k :: k in seen ==> k in ghosts && seen[k] == ghosts[k]
        invariant Counted(seen, counts)
      {
        var k := list[total];
        var s := ghosts[k].session;
        CountOneMore(seen, counts, k, ghosts[k]);
        counts := counts[s := (if s in counts then counts[s] else 0) + 1];
        sessions := sessions + {s};
        seen := seen[k := ghosts[k]];
      }
      assert seen == ghosts;
    }
  }

  /** The working list of all ghosts holds every key, each once. */
  lemma ListKeys<N>(list: seq<string>, gs: Ghosts<N>)
    requires ListOf(list, gs, All)
    ensures forall k :: k in gs ==> exists j :: 0 <= j < |list| && list[j] == k
    ensures forall j :: 0 <= j < |list| ==> list[j] in gs
    ensures forall i, j :: 0 <= i < j < |list| ==> list[i] != list[j]
  {
    assert forall j :: 0 <= j < |list| ==> list[j] in list;
    assert forall k :: k in gs ==> InScope(gs[k], All) && k in list;
  }

  lemma ListLength<N>(list: seq<string>, gs: Ghosts<N>)
    requires ListOf(list, gs, All) && Sum(gs, Count(All)) == |gs|
    ensures |list| == |gs|
  {
  }

  /** counts holds the number of ghosts of each session that has one. */
  ghost predicate Counted<N>(gs: Ghosts<N>, counts: map<Session, nat>) {
    forall s: Session :: CountIs(gs, counts, s)
  }

  ghost predicate CountIs<N>(gs: Ghosts<N>, counts: map<Session, nat>, s: Session) {
    (if s in counts then counts[s] else 0) == Sum(gs, Count(Of(s))) && (s in counts <==> Sum(gs, Count(Of(s))) > 0)
  }

  lemma CountOneMore<N>(gs: Ghosts<N>, counts: map<Session, nat>, k: string, g: Ghost<N>)
    requires Counted(gs, counts) && k !in gs
    ensures Counted(gs[k := g], counts[g.session := (if g.session in counts then counts[g.session] else 0) + 1])
  {
    var counts' := counts[g.session := (if g.session in counts then counts[g.session] else 0) + 1];
    var gs' := gs[k := g];
    forall s: Session ensures CountIs(gs', counts', s) {
      assert CountIs(gs, counts, s);
      SumAdd(gs, k, g, Count(Of(s)));
    }
  }

  lemma {:induction false} CountAll<N>(gs: Ghosts<N>)
    ensures Sum(gs, Count(All)) == |gs|
    decreases |gs|
  {
    if gs != map[] {
      var k :| k in gs;
      CountAll(gs - {k});
      SumRemove(gs, k, Count(All));
      assert gs == (gs - {k})[k := gs[k]];
    }
  }

  lemma NoneCounted<N>()
    ensures Counted<N>(map[], map[])
  {
    forall s: Session ensures CountIs<N>(map[], map[], s) {}
  }

  lemma PhaseAccounted<N>(before: Registry<N>, after: Registry<N>, s: Session, size: int, lim: Limits)
    requires SessionPhase(before, after, s, size, lim)
    ensures KeysMatch(after.ghosts) && (Accounted(before) ==> Accounted(after))
  {
  }

  /** Where a sweep stands: order was removed, rest is still to be visited. */
  ghost predicate Sweeping<N>(before: Ghosts<N>, current: Ghosts<N>, order: seq<string>, rest: set<string>, now: nat) {
    && (forall k :: k in current <==> k in before && k !in order)
    && (forall k :: k in current ==> current[k] == before[k])
    && (forall k :: k in rest ==> k in current)
    && (forall k :: k in order <==> Expired(before, k, now) && k !in rest)
    && (forall i, j :: 0 <= i < j < |order| ==> order[i] != order[j])
  }

  lemma SweepStarts<N>(r: Registry<N>, now: nat)
    ensures Evicted(r, []) == r && Sweeping(r.ghosts, r.ghosts, [], r.ghosts.Keys, now)
  {
  }

  lemma StillThere<N>(before: Ghosts<N>, current: Ghosts<N>, order: seq<string>, rest: set<string>, now: nat, k: string)
    requires Sweeping(before, current, order, rest, now) && k in rest
    ensures k in current && k !in order && (Expired(before, k, now) <==> now - current[k].lastAccess > EXPIRY)
  {
  }

  /** One ghost of a sweep: removed if it is expired. */
  lemma SweepNext<N>(before: Registry<N>, current: Registry<N>, order: seq<string>, rest: set<string>, now: nat, k: string)
    requires KeysMatch(current.ghosts) && current == Evicted(before, order) && (Accounted(before) ==> Accounted(current))
    requires Sweeping(before.ghosts, current.ghosts, order, rest, now) && k in rest && k in current.ghosts
    ensures !Expired(before.ghosts, k, now) ==> Sweeping(before.ghosts, current.ghosts, order, rest - {k}, now)
    ensures Expired(before.ghosts, k, now) ==>
              var after := Remove(current, current.ghosts[k].session, current.ghosts[k].path);
              && KeysMatch(after.ghosts) && after == Evicted(before, order + [k]) && (Accounted(before) ==> Accounted(after))
              && Sweeping(before.ghosts, after.ghosts, order + [k], rest - {k}, now)
  {
    hide Sum, Evicted;
    EvictedMore(before, order, k);
    if Accounted(before) { RemoveKeepsAccounting(current, k); }
    hide Accounted;
    if Expired(before.ghosts, k, now) { SweptOne(before.ghosts, current.ghosts, order, rest, now, k); }
  }

  lemma SweptOne<N>(before: Ghosts<N>, current: Ghosts<N>, order: seq<string>, rest: set<string>, now: nat, k: string)
    requires Sweeping(before, current, order, rest, now) && k in rest && Expired(before, k, now)
    ensures Sweeping(before, current - {k}, order + [k], rest - {k}, now)
  {
    assert k !in order;
    forall u ensures u in order + [k] <==> Expired(before, u, now) && u !in rest - {k} {}
  }

  lemma SweepEnds<N>(before: Ghosts<N>, current: Ghosts<N>, order: seq<string>, now: nat)
    requires Sweeping(before, current, order, {}, now)
    ensures SweepOrder(before, order, now)
    ensures forall k :: k in current <==> k in before && !(now - before[k].lastAccess > EXPIRY)
    ensures forall k :: k in current ==> current[k] == before[k]
  {
    forall k ensures k in current <==> k in before && !(now - before[k].lastAccess > EXPIRY) {
      assert Expired(before, k, now) <==> k in order;
    }
  }

  lemma NoVictims<N>(r: Registry<N>, s: Session, start: int, size: int, lim: Limits)
    ensures Evicted(r, []) == r && Running(r, [], s, start) == start
    ensures SessionRounds(r, [], s, size, lim) && GlobalRounds(r, [], size, lim)
  {
  }

  /** An oldest entry of a complete working list is an oldest ghost of the scope. */
  lemma OldestInList<N>(list: seq<string>, i: nat, gs: Ghosts<N>, c: Scope)
    requires ListOf(list, gs, c) && IsOldest(list, i, gs)
    ensures OldestOf(gs, list[i], c)
  {
    hide Sum;
    assert list[i] in list;
    forall u | u in gs && InScope(gs[u], c) ensures gs[list[i]].lastAccess <= gs[u].lastAccess { assert u in list; }
  }

  /** One round of phase 1, in terms of the victims so far. */
  lemma SessionRound<N>(before: Registry<N>, victims: seq<string>, list: seq<string>, i: nat, s: Session, size: int, lim: Limits)
    requires SessionRounds(before, victims, s, size, lim)
    requires ListOf(list, Evicted(before, victims).ghosts, Of(s)) && IsOldest(list, i, Evicted(before, victims).ghosts)
    requires SessionFull(|list|, Running(before, victims, s, Usage(before, s)), size, lim)
    ensures SessionRounds(before, victims + [list[i]], s, size, lim)
    ensures var current := Evicted(before, victims);
            && list[i] in current.ghosts
            && Evicted(before, victims + [list[i]]) ==
                 Remove(current, current.ghosts[list[i]].session, current.ghosts[list[i]].path)
            && Running(before, victims + [list[i]], s, Usage(before, s)) ==
                 ToInt64(Running(before, victims, s, Usage(before, s)) - current.ghosts[list[i]].size)
  {
    hide Sum, Running, Evicted, SessionRounds, Remove, ToInt64, SessionFull;
    var v := list[i];
    OldestInList(list, i, Evicted(before, victims).ghosts, Of(s));
    SessionRoundsMore(before, victims, v, s, size, lim);
    EvictedMore(before, victims, v);
    RunningMore(before, victims, v, s, Usage(before, s));
  }

  lemma SessionLoopDone<N>(before: Registry<N>, victims: seq<string>, list: seq<string>, s: Session, size: int, lim: Limits)
    requires SessionRounds(before, victims, s, size, lim) && ListOf(list, Evicted(before, victims).ghosts, Of(s))
    requires |list| == 0 || !SessionFull(|list|, Running(before, victims, s, Usage(before, s)), size, lim)
    ensures SessionLoop(before, Evicted(before, victims), victims, s, size, lim)
  {
    hide Sum, Running, Evicted, SessionRounds, SessionFull;
  }

  /** One round of phase 2. */
  lemma GlobalRound<N>(before: Registry<N>, victims: seq<string>, list: seq<string>, i: nat, s: Session, start: int, size: int, lim: Limits)
    requires GlobalRounds(before, victims, size, lim) && GlobalFull(Evicted(before, victims).global, size, lim)
    requires ListOf(list, Evicted(before, victims).ghosts, All) && IsOldest(list, i, Evicted(before, victims).ghosts)
    ensures GlobalRounds(before, victims + [list[i]], size, lim)
    ensures var current := Evicted(before, victims);
            && list[i] in current.ghosts
            && Evicted(before, victims + [list[i]]) ==
                 Remove(current, current.ghosts[list[i]].session, current.ghosts[list[i]].path)
            && Running(before, victims + [list[i]], s, start) ==
                 var g, t := current.ghosts[list[i]], Running(before, victims, s, start);
                 if g.session == s then ToInt64(t - g.size) else t
  {
    hide Sum, Running, Evicted, GlobalRounds, Remove, ToInt64, GlobalFull;
    var v := list[i];
    OldestInList(list, i, Evicted(before, victims).ghosts, All);
    GlobalRoundsMore(before, victims, v, size, lim);
    EvictedMore(before, victims, v);
    RunningMore(before, victims, v, s, start);
  }

  lemma GlobalLoopDone<N>(before: Registry<N>, victims: seq<string>, size: int, lim: Limits)
    requires GlobalRounds(before, victims, size, lim)
    requires var r := Evicted(before, victims); r.ghosts == map[] || !GlobalFull(r.global, size, lim)
    ensures GlobalLoop(before, Evicted(before, victims), victims, size, lim)
  {
  }

  /** The i-th of the list has the least access time. */
  ghost predicate IsOldest<N>(list: seq<string>, i: nat, gs: Ghosts<N>) {
    && i < |list| && (forall k :: k in list ==> k in gs)
    && forall j :: 0 <= j < |list| ==> gs[list[i]].lastAccess <= gs[list[j]].lastAccess
  }

  /** Where phase 1 stands after some evictions; total is its running total. */
  ghost predicate EvictingSession<N>(before: Registry<N>, current: Registry<N>, s: Session, total: int, size: int, lim: Limits) {
    && KeysMatch(current.ghosts) && LruPrefixRemoved(before.ghosts, current.ghosts, Of(s))
    && (Accounted(before) ==> ExactSession(before, current, s, size, lim) && total == Usage(current, s))
  }

  /** The same when the counters are exact: the guard held at the start, and with the last victim kept. */
  ghost predicate ExactSession<N>(before: Registry<N>, current: Registry<N>, s: Session, size: int, lim: Limits) {
    && Accounted(current)
    && (current.ghosts != before.ghosts ==> OverSession(before.ghosts, s, size, lim))
    && (current.ghosts != before.ghosts ==>
         exists v :: LastVictim(before.ghosts, current.ghosts, v) &&
                     OverSession(current.ghosts[v := before.ghosts[v]], s, size, lim))
  }

  lemma SessionPhaseStarts<N>(r: Registry<N>, s: Session, total: int, size: int, lim: Limits)
    requires KeysMatch(r.ghosts) && total == Usage(r, s)
    ensures EvictingSession(r, r, s, total, size, lim)
  {
  }

  /** One more eviction of phase 1; the running total follows the session's counter. */
  lemma SessionVictim<N>(before: Registry<N>, current: Registry<N>, list: seq<string>, i: nat, s: Session, total: int, size: int, lim: Limits)
    requires EvictingSession(before, current, s, total, size, lim)
    requires SessionFull(|list|, total, size, lim)
    requires ListOf(list, current.ghosts, Of(s)) && IsOldest(list, i, current.ghosts)
    ensures var g := current.ghosts[list[i]];
            var after := Remove(current, g.session, g.path);
            KeysMatch(after.ghosts) && EvictingSession(before, after, s, ToInt64(total - g.size), size, lim)
  {
    hide Sum, Accounted, LruPrefixRemoved, KeysMatch;
    Evict(before, current, list, i, Of(s));
    if Accounted(before) { ExactSessionVictim(before, current, list, i, s, size, lim); }
  }

  lemma ExactSessionVictim<N>(before: Registry<N>, current: Registry<N>, list: seq<string>, i: nat, s: Session, size: int, lim: Limits)
    requires ExactSession(before, current, s, size, lim) && KeysMatch(current.ghosts)
    requires LruPrefixRemoved(before.ghosts, current.ghosts, Of(s))
    requires SessionFull(|list|, Usage(current, s), size, lim)
    requires ListOf(list, current.ghosts, Of(s)) && IsOldest(list, i, current.ghosts)
    ensures var g := current.ghosts[list[i]];
            var after := Remove(current, g.session, g.path);
            ExactSession(before, after, s, size, lim) && ToInt64(Usage(current, s) - g.size) == Usage(after, s)
  {
    hide Sum;
    assert list[i] in list;
    assert Usage(current, s) == Sum(current.ghosts, Size(Of(s)));
    assert OverSession(current.ghosts, s, size, lim);
    hide Accounted, KeysMatch, LruPrefixRemoved;
    Evict(before, current, list, i, Of(s));
    var g := current.ghosts[list[i]];
    var after := Remove(current, g.session, g.path);
    assert OverSession(after.ghosts[list[i] := before.ghosts[list[i]]], s, size, lim);
    UsageAfter(current, after, list[i], s);
  }

  /** When the loop of phase 1 stops, phase 1 has done what it should. */
  lemma SessionPhaseDone<N>(before: Registry<N>, current: Registry<N>, list: seq<string>, s: Session, total: int, size: int, lim: Limits)
    requires EvictingSession(before, current, s, total, size, lim) && ListOf(list, current.ghosts, Of(s))
    requires |list| == 0 || !SessionFull(|list|, total, size, lim)
    ensures SessionPhase(before, current, s, size, lim) && (Accounted(before) ==> total == Usage(current, s))
  {
    hide Sum;
    assert Accounted(before) ==> Usage(current, s) == Sum(current.ghosts, Size(Of(s)));
  }

  /** The running total a loop keeps follows the session's counter. */
  lemma UsageAfter<N>(before: Registry<N>, after: Registry<N>, key: string, s: Session)
    requires Accounted(before) && Accounted(after) && key in before.ghosts
    requires after.ghosts == before.ghosts - {key} && before.ghosts[key].session == s
    ensures Usage(after, s) == ToInt64(Usage(before, s) - before.ghosts[key].size)
  {
    assert Usage(before, s) == Sum(before.ghosts, Size(Of(s)));
    assert Usage(after, s) == Sum(after.ghosts, Size(Of(s)));
    SumRemove(before.ghosts, key, Size(Of(s)));
    SumScope(after.ghosts, s);
    SumScope(before.ghosts, s);
    ToInt64Small(Usage(after, s));
  }

  /** Where phase 2 stands after some evictions. */
  ghost predicate EvictingGlobally<N>(before: Registry<N>, current: Registry<N>, size: int, lim: Limits) {
    && KeysMatch(current.ghosts) && LruPrefixRemoved(before.ghosts, current.ghosts, All)
    && (Accounted(before) ==> ExactGlobal(before, current, size, lim))
  }

  ghost predicate ExactGlobal<N>(before: Registry<N>, current: Registry<N>, size: int, lim: Limits) {
    && Accounted(current)
    && (current.ghosts != before.ghosts ==> OverGlobal(before.ghosts, size, lim))
    && (current.ghosts != before.ghosts ==>
         exists v :: LastVictim(before.ghosts, current.ghosts, v) &&
                     OverGlobal(current.ghosts[v := before.ghosts[v]], size, lim))
  }

  lemma GlobalPhaseStarts<N>(r: Registry<N>, size: int, lim: Limits)
    requires KeysMatch(r.ghosts)
    ensures EvictingGlobally(r, r, size, lim)
  {
  }

  /** The loop of phase 2 finds no victim only in an empty registry. */
  lemma EmptyList<N>(list: seq<string>, gs: Ghosts<N>)
    requires ListOf(list, gs, All) && list == []
    ensures gs == map[]
  {
    assert forall k :: k in list <==> k in gs && InScope(gs[k], All);
  }

  /** One more eviction of phase 2; the calling session's running total follows its counter. */
  lemma GlobalVictim<N>(before: Registry<N>, current: Registry<N>, list: seq<string>, i: nat, s: Session, size: int, lim: Limits)
    requires EvictingGlobally(before, current, size, lim) && GlobalFull(current.global, size, lim)
    requires ListOf(list, current.ghosts, All) && IsOldest(list, i, current.ghosts)
    ensures var g := current.ghosts[list[i]];
            var after := Remove(current, g.session, g.path);
            && KeysMatch(after.ghosts) && EvictingGlobally(before, after, size, lim) && |after.ghosts| < |current.ghosts|
            && (Accounted(before) ==>
                  Usage(after, s) == if g.session == s then ToInt64(Usage(current, s) - g.size) else Usage(current, s))
  {
    hide Sum, Accounted, LruPrefixRemoved, KeysMatch;
    Evict(before, current, list, i, All);
    var g := current.ghosts[list[i]];
    var after := Remove(current, g.session, g.path);
    assert |current.ghosts| == |after.ghosts| + 1 by {
      assert list[i] in list;
      assert current.ghosts == after.ghosts[list[i] := g];
    }
    if Accounted(before) { ExactGlobalVictim(before, current, list, i, s, size, lim); }
  }

  lemma ExactGlobalVictim<N>(before: Registry<N>, current: Registry<N>, list: seq<string>, i: nat, s: Session, size: int, lim: Limits)
    requires ExactGlobal(before, current, size, lim) && GlobalFull(current.global, size, lim) && KeysMatch(current.ghosts)
    requires LruPrefixRemoved(before.ghosts, current.ghosts, All)
    requires ListOf(list, current.ghosts, All) && IsOldest(list, i, current.ghosts)
    ensures var g := current.ghosts[list[i]];
            var after := Remove(current, g.session, g.path);
            && ExactGlobal(before, after, size, lim)
            && Usage(after, s) == if g.session == s then ToInt64(Usage(current, s) - g.size) else Usage(current, s)
  {
    hide Sum;
    assert list[i] in list;
    assert OverGlobal(current.ghosts, size, lim);
    hide Accounted, KeysMatch, LruPrefixRemoved;
    Evict(before, current, list, i, All);
    var g := current.ghosts[list[i]];
    var after := Remove(current, g.session, g.path);
    assert OverGlobal(after.ghosts[list[i] := before.ghosts[list[i]]], size, lim);
    if g.session == s { UsageAfter(current, after, list[i], s); }
  }

  lemma GlobalPhaseDone<N>(before: Registry<N>, current: Registry<N>, size: int, lim: Limits)
    requires EvictingGlobally(before, current, size, lim)
    requires !GlobalFull(current.global, size, lim) || current.ghosts == map[]
    ensures GlobalPhase(before, current, size, lim)
  {
    hide LruPrefixRemoved, KeysMatch;
  }
}
