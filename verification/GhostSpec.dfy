/** What the ghost-file registry of memoryshare/memory_fs.go holds, as values: the registered ghosts, the
    two counters kept beside them, the limits, and what eviction, registration and expiry may do. */
module GhostSpec {
  import opened Bytes

  type Session = nat  // uint64 SMB session id

  datatype Ghost<N> = Ghost(node: N, path: string, session: Session, size: int, lastAccess: nat)

  type Ghosts<N> = map<string, Ghost<N>>

  /** ghostFiles, ghostMemoryUsage and ghostMemoryGlobal. */
  datatype Registry<N> = Registry(ghosts: Ghosts<N>, usage: map<Session, int>, global: int)

  datatype Limits = Limits(files: int, sessionBytes: int, globalBytes: int)

  // ----- keys -----

  function Digit(d: nat): char
    requires d < 10
  {
    "0123456789"[d]
  }

  /** %d */
  function Decimal(n: nat): (s: string)
    ensures n < 10 <==> |s| == 1
    ensures s != []
  {
    if n < 10 then [Digit(n)] else Decimal(n / 10) + [Digit(n % 10)]
  }

  /** fmt.Sprintf("%d:%s", sessionID, path) */
  function MakeGhostKey(session: Session, path: string): string {
    Decimal(session) + ":" + path
  }

  lemma {:induction false} DecimalHasNoColon(n: nat)
    ensures forall i :: 0 <= i < |Decimal(n)| ==> Decimal(n)[i] != ':'
  {
    if n >= 10 { DecimalHasNoColon(n / 10); }
  }

  lemma {:induction false} DecimalInjective(a: nat, b: nat)
    requires Decimal(a) == Decimal(b)
    ensures a == b
  {
    var s, t := Decimal(a), Decimal(b);
    assert s[|s| - 1] == Digit(a % 10) && t[|t| - 1] == Digit(b % 10);
    if a >= 10 && b >= 10 {
      assert Decimal(a / 10) == s[..|s| - 1] == t[..|t| - 1] == Decimal(b / 10);
      DecimalInjective(a / 10, b / 10);
    }
  }

  /** Two (session, path) pairs never share a key, whatever the path contains. */
  lemma GhostKeyInjective(s: Session, p: string, t: Session, q: string)
    requires MakeGhostKey(s, p) == MakeGhostKey(t, q)
    ensures s == t && p == q
  {
    var a, b := Decimal(s), Decimal(t);
    var key := MakeGhostKey(s, p);
    DecimalHasNoColon(s);
    DecimalHasNoColon(t);
    assert key[|a|] == ':' && key[|b|] == ':';
    assert forall i :: 0 <= i < |a| ==> key[i] == a[i];
    assert forall i :: 0 <= i < |b| ==> key[i] == b[i];
    assert a == key[..|a|] && b == key[..|b|];
    DecimalInjective(s, t);
    assert p == key[|a| + 1..] && q == key[|b| + 1..];
  }

  // ----- sums over the registry -----

  datatype Scope = All | Of(session: Session)

  predicate InScope<N>(g: Ghost<N>, c: Scope) { c == All || g.session == c.session }

  datatype Measure = Size(c: Scope) | Count(c: Scope)

  function Weigh<N>(g: Ghost<N>, m: Measure): int {
    if !InScope(g, m.c) then 0 else if m.Size? then g.size else 1
  }

  ghost function Sum<N>(gs: Ghosts<N>, m: Measure): int
    decreases |gs|
  {
    if gs == map[] then 0
    else
      var k :| k in gs;
      Weigh(gs[k], m) + Sum(gs - {k}, m)
  }

  lemma {:induction false} SumRemove<N>(gs: Ghosts<N>, k: string, m: Measure)
    requires k in gs
    ensures Sum(gs, m) == Weigh(gs[k], m) + Sum(gs - {k}, m)
    decreases |gs|
  {
    var j :| j in gs && Sum(gs, m) == Weigh(gs[j], m) + Sum(gs - {j}, m);
    if j != k {
      SumRemove(gs - {j}, k, m);
      SumRemove(gs - {k}, j, m);
      assert gs - {j} - {k} == gs - {k} - {j};
    }
  }

  lemma SumAdd<N>(gs: Ghosts<N>, k: string, g: Ghost<N>, m: Measure)
    requires k !in gs
    ensures Sum(gs[k := g], m) == Weigh(g, m) + Sum(gs, m)
  {
    SumRemove(gs[k := g], k, m);
    assert gs[k := g] - {k} == gs;
  }

  /** Changing a ghost's access time changes no sum. */
  lemma SumTouch<N>(gs: Ghosts<N>, k: string, now: nat, m: Measure)
    requires k in gs
    ensures Sum(gs[k := gs[k].(lastAccess := now)], m) == Sum(gs, m)
  {
    var gs' := gs[k := gs[k].(lastAccess := now)];
    SumRemove(gs, k, m);
    SumRemove(gs', k, m);
    assert gs' - {k} == gs - {k};
  }

  ghost predicate SizesNonNegative<N>(gs: Ghosts<N>) {
    forall k :: k in gs ==> gs[k].size >= 0
  }

  /** Sums are non-negative and grow with the registry and with the scope. */
  lemma {:induction false} SumMonotone<N>(small: Ghosts<N>, big: Ghosts<N>, m: Measure)
    requires SizesNonNegative(big)
    requires forall k :: k in small ==> k in big && small[k] == big[k]
    ensures 0 <= Sum(small, m) <= Sum(big, m)
    decreases |big|
  {
    if big != map[] {
      var k :| k in big;
      SumRemove(big, k, m);
      if k in small {
        SumRemove(small, k, m);
        SumMonotone(small - {k}, big - {k}, m);
      } else {
        SumMonotone(small, big - {k}, m);
      }
    }
  }

  lemma {:induction false} SumScope<N>(gs: Ghosts<N>, s: Session)
    requires SizesNonNegative(gs)
    ensures 0 <= Sum(gs, Size(Of(s))) <= Sum(gs, Size(All))
    decreases |gs|
  {
    if gs != map[] {
      var k :| k in gs;
      SumRemove(gs, k, Size(Of(s)));
      SumRemove(gs, k, Size(All));
      SumScope(gs - {k}, s);
    }
  }

  // ----- the accounting invariant -----

  /** A session without an entry uses nothing. */
  function Usage<N>(r: Registry<N>, s: Session): int {
    if s in r.usage then r.usage[s] else 0
  }

  ghost predicate KeysMatch<N>(gs: Ghosts<N>) {
    forall k :: k in gs ==> k == MakeGhostKey(gs[k].session, gs[k].path)
  }

  /** Both counters equal the sums they cache, and the total fits an int64. */
  ghost predicate Exact<N>(r: Registry<N>) {
    && KeysMatch(r.ghosts)
    && (forall s: Session :: Usage(r, s) == Sum(r.ghosts, Size(Of(s))))
    && r.global == Sum(r.ghosts, Size(All))
    && r.global < TWO63
  }

  /** Exact, and no size is negative. */
  ghost predicate Accounted<N>(r: Registry<N>) {
    Exact(r) && SizesNonNegative(r.ghosts)
  }

  ghost function EmptyRegistry<N>(): Registry<N> { Registry(map[], map[], 0) }

  lemma EmptyAccounted<N>()
    ensures Accounted(EmptyRegistry<N>())
  {
  }

  /** removeGhostFile: int64 counters, and the session's entry deleted at zero or below. */
  function Remove<N>(r: Registry<N>, session: Session, path: string): Registry<N> {
    var key := MakeGhostKey(session, path);
    if key !in r.ghosts then r
    else
      var size := r.ghosts[key].size;
      var usage :=
        if session !in r.usage then r.usage
        else
          var left := ToInt64(r.usage[session] - size);
          if left <= 0 then r.usage - {session} else r.usage[session := left];
      Registry(r.ghosts - {key}, usage, ToInt64(r.global - size))
  }

  lemma RemoveUsage<N>(r: Registry<N>, key: string, s: Session)
    requires Accounted(r) && key in r.ghosts
    ensures var r' := Remove(r, r.ghosts[key].session, r.ghosts[key].path);
            Usage(r', s) == Sum(r.ghosts - {key}, Size(Of(s)))
  {
    var g := r.ghosts[key];
    assert key == MakeGhostKey(g.session, g.path);
    assert Usage(r, s) == Sum(r.ghosts, Size(Of(s)));
    SumRemove(r.ghosts, key, Size(Of(s)));
    SumScope(r.ghosts - {key}, s);
    if s == g.session {
      SumScope(r.ghosts, s);
      ToInt64Small(Usage(r, s) - g.size);
    }
  }

  lemma RemoveKeepsAccounting<N>(r: Registry<N>, key: string)
    requires Accounted(r) && key in r.ghosts
    ensures var r' := Remove(r, r.ghosts[key].session, r.ghosts[key].path);
            Accounted(r') && r'.ghosts == r.ghosts - {key}
  {
    var g := r.ghosts[key];
    assert key == MakeGhostKey(g.session, g.path);
    var r' := Remove(r, g.session, g.path);
    SumMonotone(r'.ghosts, r.ghosts, Size(All));
    SumRemove(r.ghosts, key, Size(All));
    ToInt64Small(r.global - g.size);
    forall s: Session ensures Usage(r', s) == Sum(r'.ghosts, Size(Of(s))) { RemoveUsage(r, key, s); }
  }

  /** A removal of any size keeps exact counters exact if and only if what is left fits an int64 and, for the
      session, is not negative: an entry at zero or below is deleted, and an absent one is not updated. */
  lemma RemoveExactIff<N>(r: Registry<N>, key: string)
    requires Exact(r) && key in r.ghosts
    ensures var g := r.ghosts[key];
            var left, total := Sum(r.ghosts - {key}, Size(Of(g.session))), Sum(r.ghosts - {key}, Size(All));
            Exact(Remove(r, g.session, g.path)) <==>
              (if g.session in r.usage then 0 <= left < TWO63 else left == 0) && -TWO63 <= total < TWO63
  {
    var g := r.ghosts[key];
    var r' := Remove(r, g.session, g.path);
    assert key == MakeGhostKey(g.session, g.path);
    var left, total := Sum(r'.ghosts, Size(Of(g.session))), Sum(r'.ghosts, Size(All));
    SumRemove(r.ghosts, key, Size(All));
    RemoveUsageIff(r, key);
    hide ToInt64;
    ToInt64Fixed(total);
    forall t: Session | t != g.session ensures Usage(r', t) == Sum(r'.ghosts, Size(Of(t))) {
      SumRemove(r.ghosts, key, Size(Of(t)));
      assert Usage(r, t) == Sum(r.ghosts, Size(Of(t)));
    }
  }

  lemma RemoveUsageIff<N>(r: Registry<N>, key: string)
    requires Exact(r) && key in r.ghosts
    ensures var g := r.ghosts[key];
            var left := Sum(r.ghosts - {key}, Size(Of(g.session)));
            Usage(Remove(r, g.session, g.path), g.session) == left <==>
              if g.session in r.usage then 0 <= left < TWO63 else left == 0
  {
    hide Sum;
    var g := r.ghosts[key];
    assert key == MakeGhostKey(g.session, g.path);
    assert Usage(r, g.session) == Sum(r.ghosts, Size(Of(g.session)));
    SumRemove(r.ghosts, key, Size(Of(g.session)));
    ToInt64Fixed(Sum(r.ghosts - {key}, Size(Of(g.session))));
  }

  /** Updating an access time keeps everything accounted. */
  function Touch<N>(r: Registry<N>, key: string, now: nat): Registry<N>
    requires key in r.ghosts
  {
    r.(ghosts := r.ghosts[key := r.ghosts[key].(lastAccess := now)])
  }

  lemma TouchKeepsAccounting<N>(r: Registry<N>, key: string, now: nat)
    requires Accounted(r) && key in r.ghosts
    ensures Accounted(Touch(r, key, now))
  {
    var r' := Touch(r, key, now);
    SumTouch(r.ghosts, key, now, Size(All));
    forall s: Session ensures Usage(r', s) == Sum(r'.ghosts, Size(Of(s))) {
      SumTouch(r.ghosts, key, now, Size(Of(s)));
      assert Usage(r, s) == Sum(r.ghosts, Size(Of(s)));
    }
  }

  // ----- eviction -----

  /** after is before without a set of ghosts of scope c that are all at least as old as every ghost of c
      that survives. */
  ghost predicate LruPrefixRemoved<N>(before: Ghosts<N>, after: Ghosts<N>, c: Scope) {
    && (forall k :: k in after ==> k in before && after[k] == before[k])
    && (forall k :: k in before && k !in after ==> InScope(before[k], c))
    && (forall v, u :: v in before && v !in after && u in after && InScope(after[u], c) ==>
         before[v].lastAccess <= after[u].lastAccess)
  }

  /** The most recently used victim. */
  ghost predicate LastVictim<N>(before: Ghosts<N>, after: Ghosts<N>, v: string) {
    && v in before && v !in after
    && forall u :: u in before && u !in after ==> before[u].lastAccess <= before[v].lastAccess
  }

  /** The limits of phase 1 for a session with count ghosts of used bytes (the addition is int64). */
  predicate SessionFull(count: int, used: int, size: int, lim: Limits) {
    count >= lim.files || (ToInt64(used + size) > lim.sessionBytes && count > 0)
  }

  /** The limit of phase 2. */
  predicate GlobalFull(used: int, size: int, lim: Limits) {
    ToInt64(used + size) > lim.globalBytes && used > 0
  }

  ghost predicate OverSession<N>(gs: Ghosts<N>, s: Session, size: int, lim: Limits) {
    SessionFull(Sum(gs, Count(Of(s))), Sum(gs, Size(Of(s))), size, lim)
  }

  ghost predicate OverGlobal<N>(gs: Ghosts<N>, size: int, lim: Limits) {
    GlobalFull(Sum(gs, Size(All)), size, lim)
  }

  /** Phase 1: a least-recently-used prefix of the session's ghosts goes, enough to meet the limits and no
      more: with the last victim kept the limits would still be exceeded. */
  ghost predicate SessionEviction<N>(before: Registry<N>, after: Registry<N>, s: Session, size: int, lim: Limits) {
    && Accounted(after)
    && LruPrefixRemoved(before.ghosts, after.ghosts, Of(s))
    && (!OverSession(after.ghosts, s, size, lim) || Sum(after.ghosts, Count(Of(s))) == 0)
    && (after.ghosts != before.ghosts ==> OverSession(before.ghosts, s, size, lim))
    && (after.ghosts != before.ghosts ==>
         exists v :: LastVictim(before.ghosts, after.ghosts, v) &&
                     OverSession(after.ghosts[v := before.ghosts[v]], s, size, lim))
  }

  /** Phase 2: the same over all sessions, for the global limit. */
  ghost predicate GlobalEviction<N>(before: Registry<N>, after: Registry<N>, size: int, lim: Limits) {
    && Accounted(after)
    && LruPrefixRemoved(before.ghosts, after.ghosts, All)
    && !OverGlobal(after.ghosts, size, lim)
    && (after.ghosts != before.ghosts ==> OverGlobal(before.ghosts, size, lim))
    && (after.ghosts != before.ghosts ==>
         exists v :: LastVictim(before.ghosts, after.ghosts, v) &&
                     OverGlobal(after.ghosts[v := before.ghosts[v]], size, lim))
  }

  /** Registration proper, with int64 counters. */
  function Insert<N>(r: Registry<N>, s: Session, path: string, node: N, size: int, now: nat): Registry<N> {
    Registry(
      r.ghosts[MakeGhostKey(s, path) := Ghost(node, path, s, size, now)],
      r.usage[s := ToInt64(Usage(r, s) + size)],
      ToInt64(r.global + size))
  }

  /** addGhostFile: phase 1 from r0 to r1, phase 2 from r1 to r2, then registration. */
  ghost predicate Added<N>(r0: Registry<N>, r1: Registry<N>, r2: Registry<N>, r': Registry<N>,
                           s: Session, path: string, node: N, size: int, now: nat, lim: Limits) {
    && SessionEviction(r0, r1, s, size, lim)
    && GlobalEviction(r1, r2, size, lim)
    && r' == Insert(r2, s, path, node, size, now)
  }

  // ----- addGhostFile step by step, whatever the counters hold -----

  /** The registry after the victims were removed one by one. */
  function Evicted<N>(r: Registry<N>, victims: seq<string>): Registry<N> {
    if victims == [] then r else RemoveKey(Evicted(r, victims[..|victims| - 1]), victims[|victims| - 1])
  }

  function RemoveKey<N>(r: Registry<N>, key: string): Registry<N> {
    if key in r.ghosts then Remove(r, r.ghosts[key].session, r.ghosts[key].path) else r
  }

  /** currentMemory: the session's running total, less the sizes of its victims in int64 arithmetic. */
  function Running<N>(r: Registry<N>, victims: seq<string>, s: Session, start: int): int {
    if victims == [] then start
    else
      var init, v := victims[..|victims| - 1], victims[|victims| - 1];
      Less(Evicted(r, init).ghosts, v, s, Running(r, init, s, start))
  }

  function Less<N>(gs: Ghosts<N>, v: string, s: Session, total: int): int {
    if v in gs && gs[v].session == s then ToInt64(total - gs[v].size) else total
  }

  /** k is a ghost of the scope with the least access time. */
  ghost predicate OldestOf<N>(gs: Ghosts<N>, k: string, c: Scope) {
    && k in gs && InScope(gs[k], c)
    && forall u :: u in gs && InScope(gs[u], c) ==> gs[k].lastAccess <= gs[u].lastAccess
  }

  /** The loop of phase 1 looks at the number of the session's ghosts and at the running total. */
  ghost predicate SessionGuard<N>(r: Registry<N>, victims: seq<string>, s: Session, size: int, lim: Limits) {
    SessionFull(Sum(Evicted(r, victims).ghosts, Count(Of(s))), Running(r, victims, s, Usage(r, s)), size, lim)
  }

  ghost predicate SessionRounds<N>(r: Registry<N>, victims: seq<string>, s: Session, size: int, lim: Limits) {
    forall i :: 0 <= i < |victims| ==>
      OldestOf(Evicted(r, victims[..i]).ghosts, victims[i], Of(s)) && SessionGuard(r, victims[..i], s, size, lim)
  }

  /** Phase 1 as the loop runs it: each round takes an oldest ghost of the session while the guard holds. */
  ghost predicate SessionLoop<N>(r: Registry<N>, after: Registry<N>, victims: seq<string>, s: Session, size: int, lim: Limits) {
    && after == Evicted(r, victims) && SessionRounds(r, victims, s, size, lim)
    && (Sum(after.ghosts, Count(Of(s))) == 0 || !SessionGuard(r, victims, s, size, lim))
  }

  ghost predicate GlobalRounds<N>(r: Registry<N>, victims: seq<string>, size: int, lim: Limits) {
    forall i :: 0 <= i < |victims| ==>
      OldestOf(Evicted(r, victims[..i]).ghosts, victims[i], All) && GlobalFull(Evicted(r, victims[..i]).global, size, lim)
  }

  /** Phase 2 as the loop runs it; it looks at the global counter. */
  ghost predicate GlobalLoop<N>(r: Registry<N>, after: Registry<N>, victims: seq<string>, size: int, lim: Limits) {
    && after == Evicted(r, victims) && GlobalRounds(r, victims, size, lim)
    && (after.ghosts == map[] || !GlobalFull(after.global, size, lim))
  }

  /** The registration at the end stores the running total as the session's counter. */
  function Stored<N>(r: Registry<N>, s: Session, path: string, node: N, size: int, now: nat, total: int): Registry<N> {
    Registry(r.ghosts[MakeGhostKey(s, path) := Ghost(node, path, s, size, now)],
             r.usage[s := ToInt64(total + size)], ToInt64(r.global + size))
  }

  /** addGhostFile, loop by loop: with the victims of both phases, every field of every state is given. */
  ghost predicate Performed<N>(r0: Registry<N>, r1: Registry<N>, r2: Registry<N>, r': Registry<N>, first: seq<string>,
                               second: seq<string>, s: Session, path: string, node: N, size: int, now: nat, lim: Limits) {
    && SessionLoop(r0, r1, first, s, size, lim)
    && GlobalLoop(r1, r2, second, size, lim)
    && r' == Stored(r2, s, path, node, size, now, Running(r1, second, s, Running(r0, first, s, Usage(r0, s))))
  }

  lemma EvictedMore<N>(r: Registry<N>, victims: seq<string>, v: string)
    ensures Evicted(r, victims + [v]) == RemoveKey(Evicted(r, victims), v)
  {
    assert (victims + [v])[..|victims|] == victims;
  }

  lemma RunningMore<N>(r: Registry<N>, victims: seq<string>, v: string, s: Session, start: int)
    ensures Running(r, victims + [v], s, start) == Less(Evicted(r, victims).ghosts, v, s, Running(r, victims, s, start))
  {
    assert (victims + [v])[..|victims|] == victims;
  }

  lemma SessionRoundsMore<N>(r: Registry<N>, victims: seq<string>, v: string, s: Session, size: int, lim: Limits)
    requires SessionRounds(r, victims, s, size, lim)
    requires OldestOf(Evicted(r, victims).ghosts, v, Of(s)) && SessionGuard(r, victims, s, size, lim)
    ensures SessionRounds(r, victims + [v], s, size, lim)
  {
    hide OldestOf, SessionGuard, Evicted;
    var more := victims + [v];
    forall i | 0 <= i < |more| ensures OldestOf(Evicted(r, more[..i]).ghosts, more[i], Of(s)) && SessionGuard(r, more[..i], s, size, lim) {
      assert more[..i] == victims[..i];
      if i == |victims| { assert victims[..i] == victims; }
    }
  }

  lemma GlobalRoundsMore<N>(r: Registry<N>, victims: seq<string>, v: string, size: int, lim: Limits)
    requires GlobalRounds(r, victims, size, lim)
    requires OldestOf(Evicted(r, victims).ghosts, v, All) && GlobalFull(Evicted(r, victims).global, size, lim)
    ensures GlobalRounds(r, victims + [v], size, lim)
  {
    hide OldestOf, GlobalFull, Evicted;
    var more := victims + [v];
    forall i | 0 <= i < |more| ensures OldestOf(Evicted(r, more[..i]).ghosts, more[i], All) && GlobalFull(Evicted(r, more[..i]).global, size, lim) {
      assert more[..i] == victims[..i];
      if i == |victims| { assert victims[..i] == victims; }
    }
  }

  /** Phase 1 of any registry: a least-recently-used prefix of the session's ghosts goes; with exact counters,
      as SessionEviction says. */
  ghost predicate SessionPhase<N>(before: Registry<N>, after: Registry<N>, s: Session, size: int, lim: Limits) {
    && KeysMatch(after.ghosts) && LruPrefixRemoved(before.ghosts, after.ghosts, Of(s))
    && (Accounted(before) ==> SessionEviction(before, after, s, size, lim))
  }

  /** Phase 2 of any registry. */
  ghost predicate GlobalPhase<N>(before: Registry<N>, after: Registry<N>, size: int, lim: Limits) {
    && KeysMatch(after.ghosts) && LruPrefixRemoved(before.ghosts, after.ghosts, All)
    && (Accounted(before) ==> GlobalEviction(before, after, size, lim))
  }

  /** addGhostFile on any registry, also after the counters have overflowed: the two loops run as Performed
      says, so that least-recently-used prefixes of the session's and then of all ghosts go, and the new ghost
      is stored. With exact counters, as Added says. */
  ghost predicate Registered<N>(r0: Registry<N>, r1: Registry<N>, r2: Registry<N>, r': Registry<N>,
                                s: Session, path: string, node: N, size: int, now: nat, lim: Limits) {
    && SessionPhase(r0, r1, s, size, lim)
    && GlobalPhase(r1, r2, size, lim)
    && (exists first, second :: Performed(r0, r1, r2, r', first, second, s, path, node, size, now, lim))
    && r'.ghosts == r2.ghosts[MakeGhostKey(s, path) := Ghost(node, path, s, size, now)]
    && (Accounted(r0) ==> Added(r0, r1, r2, r', s, path, node, size, now, lim))
  }

  /** What Close does to the registry in session ctx: nothing without one, else a refresh or a registration. */
  ghost predicate Saved<N>(r0: Registry<N>, r1: Registry<N>, r2: Registry<N>, r': Registry<N>,
                           ctx: Option<Session>, path: string, node: N, size: int, now: nat, lim: Limits) {
    if ctx.None? then r' == r0
    else if MakeGhostKey(ctx.value, path) in r0.ghosts then r' == Touch(r0, MakeGhostKey(ctx.value, path), now)
    else Registered(r0, r1, r2, r', ctx.value, path, node, size, now, lim)
  }

  /** Keys match whatever the counters do. */
  lemma RegisteredKeys<N>(r0: Registry<N>, r1: Registry<N>, r2: Registry<N>, r': Registry<N>,
                          s: Session, path: string, node: N, size: int, now: nat, lim: Limits)
    requires Registered(r0, r1, r2, r', s, path, node, size, now, lim)
    ensures KeysMatch(r'.ghosts)
    ensures forall k :: k in r'.ghosts && k != MakeGhostKey(s, path) ==> k in r0.ghosts && r'.ghosts[k] == r0.ghosts[k]
  {
    hide Accounted, Added, SessionEviction, GlobalEviction;
  }

  lemma RegisteredGhost<N>(r0: Registry<N>, r1: Registry<N>, r2: Registry<N>, r': Registry<N>,
                           s: Session, path: string, node: N, size: int, now: nat, lim: Limits)
    requires Registered(r0, r1, r2, r', s, path, node, size, now, lim)
    ensures var key := MakeGhostKey(s, path); key in r'.ghosts && r'.ghosts[key] == Ghost(node, path, s, size, now)
  {
  }

  lemma TotalRange<N>(r: Registry<N>)
    requires Accounted(r)
    ensures 0 <= Sum(r.ghosts, Size(All)) == r.global < TWO63
  {
    SumMonotone(map[], r.ghosts, Size(All));
  }

  /** An insertion of any size keeps exact counters exact if and only if both new sums fit an int64. */
  lemma InsertExactIff<N>(r: Registry<N>, s: Session, path: string, node: N, size: int, now: nat)
    requires Exact(r) && MakeGhostKey(s, path) !in r.ghosts
    ensures Exact(Insert(r, s, path, node, size, now)) <==>
              -TWO63 <= Sum(r.ghosts, Size(Of(s))) + size < TWO63 && -TWO63 <= r.global + size < TWO63
  {
    var key, g := MakeGhostKey(s, path), Ghost(node, path, s, size, now);
    var r' := Insert(r, s, path, node, size, now);
    SumAdd(r.ghosts, key, g, Size(All));
    SumAdd(r.ghosts, key, g, Size(Of(s)));
    assert Usage(r, s) == Sum(r.ghosts, Size(Of(s)));
    hide ToInt64;
    ToInt64Fixed(r.global + size);
    ToInt64Fixed(Usage(r, s) + size);
    forall t: Session | t != s ensures Usage(r', t) == Sum(r'.ghosts, Size(Of(t))) {
      SumAdd(r.ghosts, key, g, Size(Of(t)));
      assert Usage(r, t) == Sum(r.ghosts, Size(Of(t)));
    }
  }

  /** From exact counters and sizes that are not negative: an insertion, of any int64 size, stays exact if and
      only if the new total fits an int64; the sizes stay non-negative if and only if the new one is. */
  lemma InsertAccounted<N>(r: Registry<N>, s: Session, path: string, node: N, size: int, now: nat)
    requires Accounted(r) && MakeGhostKey(s, path) !in r.ghosts && -TWO63 <= size < TWO63
    ensures Exact(Insert(r, s, path, node, size, now)) <==> r.global + size < TWO63
    ensures Accounted(Insert(r, s, path, node, size, now)) <==> 0 <= size && r.global + size < TWO63
  {
    InsertExactIff(r, s, path, node, size, now);
    TotalRange(r);
    SumScope(r.ghosts, s);
    hide Exact, Sum;
    assert Insert(r, s, path, node, size, now).ghosts[MakeGhostKey(s, path)].size == size;
  }
}
