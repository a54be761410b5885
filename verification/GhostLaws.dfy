/** What holds of the ghost registry over whole runs: exact accounts, quotas, isolation, exact expiry. */
module GhostLaws {
  import opened Bytes
  import opened GhostSpec

  // ----- one registration -----

  /** Evicting only lowers the sums. */
  lemma EvictionLowers<N>(before: Registry<N>, after: Registry<N>, c: Scope, m: Measure)
    requires Accounted(before) && LruPrefixRemoved(before.ghosts, after.ghosts, c)
    ensures 0 <= Sum(after.ghosts, m) <= Sum(before.ghosts, m)
  {
    SumMonotone(after.ghosts, before.ghosts, m);
  }

  /** When the new total does not fit, the wrapped sum hides it and the global phase evicts nothing. */
  lemma WrappedTotalEvictsNothing<N>(r1: Registry<N>, r2: Registry<N>, size: int, lim: Limits)
    requires Accounted(r1) && GlobalEviction(r1, r2, size, lim) && lim.globalBytes >= 0
    requires size < TWO63 <= Sum(r1.ghosts, Size(All)) + size
    ensures Sum(r2.ghosts, Size(All)) == Sum(r1.ghosts, Size(All))
  {
    hide Sum, ToInt64, Accounted, GlobalEviction;
    TotalRange(r1);
    ToInt64Wraps(Sum(r1.ghosts, Size(All)) + size);
    NotOverKeepsAll(r1, r2, size, lim);
  }

  lemma NotOverKeepsAll<N>(r1: Registry<N>, r2: Registry<N>, size: int, lim: Limits)
    requires GlobalEviction(r1, r2, size, lim) && !OverGlobal(r1.ghosts, size, lim)
    ensures r2.ghosts == r1.ghosts
  {
    hide Sum, OverGlobal, Accounted;
  }

  /** A registration of any int64 size keeps both counters equal to the sums they cache if and only if the total
      left after the per-session phase plus the new size fits an int64. */
  lemma RegistrationAccounting<N>(r0: Registry<N>, r1: Registry<N>, r2: Registry<N>, r': Registry<N>,
                                  s: Session, path: string, node: N, size: int, now: nat, lim: Limits)
    requires Accounted(r0) && MakeGhostKey(s, path) !in r0.ghosts
    requires -TWO63 <= size < TWO63 && lim.globalBytes >= 0
    requires Added(r0, r1, r2, r', s, path, node, size, now, lim)
    ensures Exact(r') <==> Sum(r1.ghosts, Size(All)) + size < TWO63
    ensures Accounted(r') <==> 0 <= size && Sum(r1.ghosts, Size(All)) + size < TWO63
  {
    hide Sum, ToInt64;
    InsertAccounted(r2, s, path, node, size, now);
    EvictionLowers(r1, r2, All, Size(All));
    if Sum(r1.ghosts, Size(All)) + size >= TWO63 { WrappedTotalEvictsNothing(r1, r2, size, lim); }
  }

  /** At most one ghost has a non-zero size. */
  ghost predicate SoleHolder<N>(gs: Ghosts<N>) {
    forall j, k :: j in gs && k in gs && j != k ==> gs[j].size == 0 || gs[k].size == 0
  }

  ghost predicate SessionQuota<N>(gs: Ghosts<N>, s: Session, lim: Limits) {
    && Sum(gs, Count(Of(s))) <= lim.files
    && (Sum(gs, Size(Of(s))) <= lim.sessionBytes || Sum(gs, Count(Of(s))) <= 1)
  }

  ghost predicate GlobalQuota<N>(gs: Ghosts<N>, lim: Limits) {
    Sum(gs, Size(All)) <= lim.globalBytes || SoleHolder(gs)
  }

  ghost predicate Quotas<N>(gs: Ghosts<N>, lim: Limits) {
    (forall s: Session :: SessionQuota(gs, s, lim)) && GlobalQuota(gs, lim)
  }

  /** Removing ghosts cannot break a quota. */
  lemma FewerGhostsKeepQuotas<N>(small: Ghosts<N>, big: Ghosts<N>, lim: Limits)
    requires SizesNonNegative(big) && Quotas(big, lim)
    requires forall k :: k in small ==> k in big && small[k] == big[k]
    ensures Quotas(small, lim)
  {
    SumMonotone(small, big, Size(All));
    forall s: Session ensures SessionQuota(small, s, lim) {
      assert SessionQuota(big, s, lim);
      SumMonotone(small, big, Size(Of(s)));
      SumMonotone(small, big, Count(Of(s)));
    }
  }

  /** A zero total means that every size is zero. */
  lemma ZeroTotal<N>(gs: Ghosts<N>, k: string)
    requires SizesNonNegative(gs) && Sum(gs, Size(All)) == 0 && k in gs
    ensures gs[k].size == 0
  {
    SumRemove(gs, k, Size(All));
    SumMonotone(gs - {k}, gs, Size(All));
  }

  /** When the per-session phase stops, the new ghost fits in the session without wrapping. */
  lemma RoomInSession<N>(r0: Registry<N>, r1: Registry<N>, s: Session, size: int, lim: Limits)
    requires SessionEviction(r0, r1, s, size, lim) && lim.files >= 1
    requires 0 <= size && Sum(r1.ghosts, Size(All)) + size < TWO63
    ensures Sum(r1.ghosts, Count(Of(s))) < lim.files
    ensures Sum(r1.ghosts, Count(Of(s))) <= 0 || Sum(r1.ghosts, Size(Of(s))) + size <= lim.sessionBytes
  {
    SumScope(r1.ghosts, s);
    ToInt64Small(Sum(r1.ghosts, Size(Of(s))) + size);
  }

  /** After a registration that fits, the registering session is within its quota. */
  lemma RegistrationSessionQuota<N>(r0: Registry<N>, r1: Registry<N>, r2: Registry<N>,
                                    s: Session, path: string, node: N, size: int, now: nat, lim: Limits)
    requires SessionEviction(r0, r1, s, size, lim) && GlobalEviction(r1, r2, size, lim)
    requires MakeGhostKey(s, path) !in r2.ghosts && lim.files >= 1
    requires 0 <= size && Sum(r1.ghosts, Size(All)) + size < TWO63
    ensures SessionQuota(Insert(r2, s, path, node, size, now).ghosts, s, lim)
  {
    RoomInSession(r0, r1, s, size, lim);
    EvictionLowers(r1, r2, All, Size(Of(s)));
    EvictionLowers(r1, r2, All, Count(Of(s)));
    SumAdd(r2.ghosts, MakeGhostKey(s, path), Ghost(node, path, s, size, now), Size(Of(s)));
    SumAdd(r2.ghosts, MakeGhostKey(s, path), Ghost(node, path, s, size, now), Count(Of(s)));
  }

  lemma RegistrationOtherQuota<N>(r2: Registry<N>, s: Session, path: string, node: N, size: int, now: nat, lim: Limits, t: Session)
    requires MakeGhostKey(s, path) !in r2.ghosts && SessionQuota(r2.ghosts, t, lim) && t != s
    ensures SessionQuota(Insert(r2, s, path, node, size, now).ghosts, t, lim)
  {
    var key, g := MakeGhostKey(s, path), Ghost(node, path, s, size, now);
    SumAdd(r2.ghosts, key, g, Size(Of(t)));
    SumAdd(r2.ghosts, key, g, Count(Of(t)));
  }

  lemma RegistrationGlobalQuota<N>(r2: Registry<N>, s: Session, path: string, node: N, size: int, now: nat, lim: Limits)
    requires Accounted(r2) && MakeGhostKey(s, path) !in r2.ghosts
    requires 0 <= size && Sum(r2.ghosts, Size(All)) + size < TWO63 && !OverGlobal(r2.ghosts, size, lim)
    ensures GlobalQuota(Insert(r2, s, path, node, size, now).ghosts, lim)
    ensures Sum(Insert(r2, s, path, node, size, now).ghosts, Size(All)) <= lim.globalBytes ||
            Sum(Insert(r2, s, path, node, size, now).ghosts, Size(All)) == size
  {
    var key, g := MakeGhostKey(s, path), Ghost(node, path, s, size, now);
    SumAdd(r2.ghosts, key, g, Size(All));
    TotalRange(r2);
    ToInt64Small(Sum(r2.ghosts, Size(All)) + size);
    if Sum(r2.ghosts, Size(All)) == 0 {
      forall k | k in r2.ghosts ensures r2.ghosts[k].size == 0 { ZeroTotal(r2.ghosts, k); }
    }
  }

  /** All quotas survive a registration that fits. */
  lemma RegistrationKeepsQuotas<N>(r0: Registry<N>, r1: Registry<N>, r2: Registry<N>, r': Registry<N>,
                                   s: Session, path: string, node: N, size: int, now: nat, lim: Limits)
    requires Accounted(r0) && MakeGhostKey(s, path) !in r0.ghosts && Quotas(r0.ghosts, lim) && lim.files >= 1
    requires 0 <= size && Sum(r1.ghosts, Size(All)) + size < TWO63
    requires Added(r0, r1, r2, r', s, path, node, size, now, lim)
    ensures Quotas(r'.ghosts, lim)
    ensures r'.global <= lim.globalBytes || r'.global == size
  {
    EvictionLowers(r1, r2, All, Size(All));
    FewerGhostsKeepQuotas(r2.ghosts, r0.ghosts, lim);
    RegistrationGlobalQuota(r2, s, path, node, size, now, lim);
    InsertAccounted(r2, s, path, node, size, now);
    forall t: Session ensures SessionQuota(r'.ghosts, t, lim) {
      if t == s {
        RegistrationSessionQuota(r0, r1, r2, s, path, node, size, now, lim);
      } else {
        assert SessionQuota(r2.ghosts, t, lim);
        RegistrationOtherQuota(r2, s, path, node, size, now, lim, t);
      }
    }
  }

  /** The size is not negative and fits an int64 with the total that phase 1 leaves. */
  ghost predicate Fits<N>(r1: Registry<N>, size: int) {
    0 <= size && Sum(r1.ghosts, Size(All)) + size < TWO63
  }

  /** A registration of a non-negative size keeps the quotas if and only if it fits. */
  lemma QuotasIffFits<N>(r0: Registry<N>, r1: Registry<N>, r2: Registry<N>, r': Registry<N>,
                         s: Session, path: string, node: N, size: int, now: nat, lim: Limits)
    requires Accounted(r0) && MakeGhostKey(s, path) !in r0.ghosts && Quotas(r0.ghosts, lim) && lim.files >= 1
    requires 0 <= size < TWO63 && 0 <= lim.globalBytes < TWO63
    requires Added(r0, r1, r2, r', s, path, node, size, now, lim)
    ensures Quotas(r'.ghosts, lim) <==> Fits(r1, size)
  {
    hide Quotas, Sum, Added, Accounted;
    if Fits(r1, size) {
      RegistrationKeepsQuotas(r0, r1, r2, r', s, path, node, size, now, lim);
    } else {
      MisfitBreaksQuota(r0, r1, r2, r', s, path, node, size, now, lim);
    }
  }

  /** A registration that does not fit evicts nothing globally, and its ghost is not the only large one. */
  lemma MisfitBreaksQuota<N>(r0: Registry<N>, r1: Registry<N>, r2: Registry<N>, r': Registry<N>,
                             s: Session, path: string, node: N, size: int, now: nat, lim: Limits)
    requires Accounted(r0) && MakeGhostKey(s, path) !in r0.ghosts
    requires 0 <= size < TWO63 && 0 <= lim.globalBytes < TWO63 && !Fits(r1, size)
    requires Added(r0, r1, r2, r', s, path, node, size, now, lim)
    ensures !GlobalQuota(r'.ghosts, lim) && !Quotas(r'.ghosts, lim)
  {
    hide Sum;
    var key, g := MakeGhostKey(s, path), Ghost(node, path, s, size, now);
    WrappedTotalEvictsNothing(r1, r2, size, lim);
    SumAdd(r2.ghosts, key, g, Size(All));
    var k := NonZeroGhost(r2.ghosts);
    assert r'.ghosts[k] == r2.ghosts[k] && r'.ghosts[key] == g && k != key;
  }

  /** A positive total has a ghost that is not empty. */
  lemma {:induction false} NonZeroGhost<N>(gs: Ghosts<N>) returns (k: string)
    requires SizesNonNegative(gs) && Sum(gs, Size(All)) > 0
    ensures k in gs && gs[k].size != 0
    decreases |gs|
  {
    k :| k in gs;
    if gs[k].size == 0 {
      SumRemove(gs, k, Size(All));
      var rest := gs - {k};
      k := NonZeroGhost(rest);
    }
  }

  // ----- one outcome -----

  /** No two ghosts have the same access time. */
  ghost predicate DistinctTimes<N>(gs: Ghosts<N>) {
    forall j, k :: j in gs && k in gs && j != k ==> gs[j].lastAccess != gs[k].lastAccess
  }

  lemma {:induction false} EvictedWithin<N>(r: Registry<N>, victims: seq<string>)
    ensures forall k :: k in Evicted(r, victims).ghosts ==> k in r.ghosts && Evicted(r, victims).ghosts[k] == r.ghosts[k]
  {
    if victims != [] { EvictedWithin(r, victims[..|victims| - 1]); }
  }

  lemma {:induction false} CountNotNegative<N>(gs: Ghosts<N>, c: Scope)
    ensures Sum(gs, Count(c)) >= 0
    decreases |gs|
  {
    if gs != map[] {
      var k :| k in gs;
      SumRemove(gs, k, Count(c));
      CountNotNegative(gs - {k}, c);
    }
  }

  lemma OldestCounts<N>(gs: Ghosts<N>, k: string, c: Scope)
    requires OldestOf(gs, k, c)
    ensures Sum(gs, Count(c)) > 0
  {
    SumRemove(gs, k, Count(c));
    CountNotNegative(gs - {k}, c);
  }

  lemma OldestUnique<N>(r: Registry<N>, victims: seq<string>, j: string, k: string, c: Scope)
    requires DistinctTimes(r.ghosts) && OldestOf(Evicted(r, victims).ghosts, j, c) && OldestOf(Evicted(r, victims).ghosts, k, c)
    ensures j == k
  {
    EvictedWithin(r, victims);
  }

  lemma {:induction false} SameSessionVictims<N>(r: Registry<N>, a: Registry<N>, b: Registry<N>, vs: seq<string>, ws: seq<string>, s: Session,
                                                 size: int, lim: Limits, n: nat)
    requires SessionLoop(r, a, vs, s, size, lim) && SessionLoop(r, b, ws, s, size, lim) && DistinctTimes(r.ghosts)
    requires n <= |vs|
    ensures n <= |ws| && vs[..n] == ws[..n]
  {
    hide Evicted, OldestOf, SessionGuard, DistinctTimes, Sum;
    if n > 0 {
      var m := n - 1;
      SameSessionVictims(r, a, b, vs, ws, s, size, lim, m);
      OldestCounts(Evicted(r, vs[..m]).ghosts, vs[m], Of(s));
      assert ws[..|ws|] == ws;
      if m == |ws| {
        assert false;
      } else {
        OldestUnique(r, vs[..m], vs[m], ws[m], Of(s));
        assert vs[..n] == vs[..m] + [vs[m]] && ws[..n] == ws[..m] + [ws[m]];
      }
    }
  }

  lemma {:induction false} SameGlobalVictims<N>(r: Registry<N>, a: Registry<N>, b: Registry<N>, vs: seq<string>, ws: seq<string>,
                                                size: int, lim: Limits, n: nat)
    requires GlobalLoop(r, a, vs, size, lim) && GlobalLoop(r, b, ws, size, lim) && DistinctTimes(r.ghosts)
    requires n <= |vs|
    ensures n <= |ws| && vs[..n] == ws[..n]
  {
    hide Evicted, GlobalFull, DistinctTimes;
    if n > 0 {
      var m := n - 1;
      SameGlobalVictims(r, a, b, vs, ws, size, lim, m);
      assert vs[m] in Evicted(r, vs[..m]).ghosts;
      assert ws[..|ws|] == ws;
      if m == |ws| {
        assert false;
      } else {
        OldestUnique(r, vs[..m], vs[m], ws[m], All);
        assert vs[..n] == vs[..m] + [vs[m]] && ws[..n] == ws[..m] + [ws[m]];
      }
    }
  }

  lemma SameSessionLoop<N>(r: Registry<N>, a: Registry<N>, b: Registry<N>, vs: seq<string>, ws: seq<string>, s: Session, size: int, lim: Limits)
    requires SessionLoop(r, a, vs, s, size, lim) && SessionLoop(r, b, ws, s, size, lim) && DistinctTimes(r.ghosts)
    ensures vs == ws && a == b
  {
    hide DistinctTimes, SessionRounds, SessionGuard, Evicted, Sum;
    SameSessionVictims(r, a, b, vs, ws, s, size, lim, |vs|);
    SameSessionVictims(r, b, a, ws, vs, s, size, lim, |ws|);
    assert vs[..|vs|] == vs && ws[..|ws|] == ws;
  }

  lemma SameGlobalLoop<N>(r: Registry<N>, a: Registry<N>, b: Registry<N>, vs: seq<string>, ws: seq<string>, size: int, lim: Limits)
    requires GlobalLoop(r, a, vs, size, lim) && GlobalLoop(r, b, ws, size, lim) && DistinctTimes(r.ghosts)
    ensures vs == ws && a == b
  {
    hide DistinctTimes, GlobalRounds, GlobalFull, Evicted;
    SameGlobalVictims(r, a, b, vs, ws, size, lim, |vs|);
    SameGlobalVictims(r, b, a, ws, vs, size, lim, |ws|);
    assert vs[..|vs|] == vs && ws[..|ws|] == ws;
  }

  lemma LoopKeepsDistinct<N>(r: Registry<N>, a: Registry<N>, victims: seq<string>, s: Session, size: int, lim: Limits)
    requires SessionLoop(r, a, victims, s, size, lim) && DistinctTimes(r.ghosts)
    ensures DistinctTimes(a.ghosts)
  {
    hide Evicted, SessionRounds, SessionGuard;
    EvictedWithin(r, victims);
  }

  /** Whatever order the maps are visited in: when no two ghosts were accessed at the same time, a registration
      has only one outcome, for every registry, also one whose counters have overflowed. */
  lemma OneOutcome<N>(r: Registry<N>, a1: Registry<N>, a2: Registry<N>, a: Registry<N>, b1: Registry<N>, b2: Registry<N>, b: Registry<N>,
                      first: seq<string>, second: seq<string>, first': seq<string>, second': seq<string>,
                      s: Session, path: string, node: N, size: int, now: nat, lim: Limits)
    requires DistinctTimes(r.ghosts)
    requires Performed(r, a1, a2, a, first, second, s, path, node, size, now, lim)
    requires Performed(r, b1, b2, b, first', second', s, path, node, size, now, lim)
    ensures a == b && a1 == b1 && a2 == b2 && first == first' && second == second'
  {
    hide SessionLoop, GlobalLoop, DistinctTimes, Evicted, Running, Stored;
    SameSessionLoop(r, a1, b1, first, first', s, size, lim);
    LoopKeepsDistinct(r, a1, first, s, size, lim);
    SameGlobalLoop(a1, a2, b2, second, second', size, lim);
  }

  // ----- runs -----

  const EXPIRY: nat := 180_000_000_000  // 3 * time.Minute, in nanoseconds

  /** What happens to the registry: Close of a path without a ghost, Open or Close of a path with one, and a
      cleanup sweep. */
  datatype Event<N> =
    | Register(session: Session, path: string, node: N, size: int, at: nat, phase1: Registry<N>, phase2: Registry<N>)
    | Refresh(key: string, at: nat)
    | Sweep(at: nat)

  predicate Expired<N>(gs: Ghosts<N>, k: string, now: nat) {
    k in gs && now - gs[k].lastAccess > EXPIRY
  }

  /** The expired ghosts, each once, in the order in which a sweep removes them. */
  ghost predicate SweepOrder<N>(gs: Ghosts<N>, order: seq<string>, now: nat) {
    && (forall k :: k in order <==> Expired(gs, k, now))
    && (forall i, j :: 0 <= i < j < |order| ==> order[i] != order[j])
  }

  /** A sweep removes exactly the ghosts that are older than the expiry, one by one; that keeps exact counters
      exact when no size is negative. */
  ghost predicate Swept<N>(r: Registry<N>, r': Registry<N>, now: nat) {
    && (exists order :: SweepOrder(r.ghosts, order, now) && r' == Evicted(r, order))
    && (Accounted(r) ==> Accounted(r'))
    && (forall k :: k in r'.ghosts <==> k in r.ghosts && !(now - r.ghosts[k].lastAccess > EXPIRY))
    && (forall k :: k in r'.ghosts ==> r'.ghosts[k] == r.ghosts[k])
  }

  ghost predicate Next<N>(r: Registry<N>, e: Event<N>, r': Registry<N>, lim: Limits) {
    match e
    case Register(s, path, node, size, now, r1, r2) =>
      MakeGhostKey(s, path) !in r.ghosts && Registered(r, r1, r2, r', s, path, node, size, now, lim)
    case Refresh(key, now) => key in r.ghosts && r' == Touch(r, key, now)
    case Sweep(now) => Swept(r, r', now)
  }

  ghost predicate Run<N>(rs: seq<Registry<N>>, es: seq<Event<N>>, lim: Limits) {
    && |rs| == |es| + 1
    && forall i :: 0 <= i < |es| ==> Next(rs[i], es[i], rs[i + 1], lim)
  }

  ghost predicate Good<N>(r: Registry<N>, lim: Limits) {
    Accounted(r) && Quotas(r.ghosts, lim)
  }

  /** What the call registers, if anything, fits. */
  ghost predicate EventFits<N>(e: Event<N>) {
    e.Register? ==> Fits(e.phase1, e.size)
  }

  lemma NextKeepsGood<N>(r: Registry<N>, e: Event<N>, r': Registry<N>, lim: Limits)
    requires Good(r, lim) && Next(r, e, r', lim) && lim.files >= 1 && 0 <= lim.globalBytes
    requires EventFits(e) && (e.Register? ==> e.size < TWO63)
    ensures Good(r', lim)
  {
    hide Quotas, Sum;
    match e
    case Register(s, path, node, size, now, r1, r2) =>
      hide Accounted, Added;
      RegistrationAccounting(r, r1, r2, r', s, path, node, size, now, lim);
      RegistrationKeepsQuotas(r, r1, r2, r', s, path, node, size, now, lim);
    case Refresh(key, now) =>
      TouchKeepsAccounting(r, key, now);
      TouchKeepsQuotas(r, key, now, lim);
    case Sweep(now) =>
      FewerGhostsKeepQuotas(r'.ghosts, r.ghosts, lim);
  }

  lemma TouchKeepsQuotas<N>(r: Registry<N>, key: string, now: nat, lim: Limits)
    requires key in r.ghosts && Quotas(r.ghosts, lim)
    ensures Quotas(Touch(r, key, now).ghosts, lim)
  {
    var gs := Touch(r, key, now).ghosts;
    SumTouch(r.ghosts, key, now, Size(All));
    forall s: Session ensures SessionQuota(gs, s, lim) {
      assert SessionQuota(r.ghosts, s, lim);
      SumTouch(r.ghosts, key, now, Size(Of(s)));
      SumTouch(r.ghosts, key, now, Count(Of(s)));
    }
    if SoleHolder(r.ghosts) {
      forall j, k | j in gs && k in gs && j != k ensures gs[j].size == 0 || gs[k].size == 0 {
        assert r.ghosts[j].size == 0 || r.ghosts[k].size == 0;
      }
    }
  }

  /** Sizes are int64 values. */
  ghost predicate Int64Sizes<N>(es: seq<Event<N>>) {
    forall i :: 0 <= i < |es| && es[i].Register? ==> -TWO63 <= es[i].size < TWO63
  }

  /** If every registration of a run so far fits, the counters are exact and the quotas hold. */
  lemma {:induction false} RunsStayGood<N>(rs: seq<Registry<N>>, es: seq<Event<N>>, lim: Limits, i: nat)
    requires Run(rs, es, lim) && rs[0] == EmptyRegistry() && Int64Sizes(es)
    requires lim.files >= 1 && 0 <= lim.globalBytes
    requires i < |rs| && forall j :: 0 <= j < i ==> EventFits(es[j])
    ensures Accounted(rs[i]) && Quotas(rs[i].ghosts, lim)
    ensures Good(rs[i], lim)
  {
    hide Quotas, Sum, Accounted, Next, EventFits;
    if i == 0 {
      EmptyGood<N>(lim);
    } else {
      RunsStayGood(rs, es, lim, i - 1);
      NextKeepsGood(rs[i - 1], es[i - 1], rs[i], lim);
    }
  }

  lemma EmptyGood<N>(lim: Limits)
    requires lim.files >= 1
    ensures Good(EmptyRegistry<N>(), lim)
  {
    EmptyAccounted<N>();
  }

  /** No registered size is negative. */
  ghost predicate NonNegativeSizes<N>(es: seq<Event<N>>) {
    forall j :: 0 <= j < |es| && es[j].Register? ==> 0 <= es[j].size
  }

  /** Over every run with sizes that are not negative: all states have exact counters if and only if every
      registration fits. */
  lemma RunsExactIffFits<N>(rs: seq<Registry<N>>, es: seq<Event<N>>, lim: Limits)
    requires Run(rs, es, lim) && rs[0] == EmptyRegistry() && Int64Sizes(es) && NonNegativeSizes(es)
    requires lim.files >= 1 && 0 <= lim.globalBytes
    ensures (forall i :: 0 <= i < |rs| ==> Exact(rs[i])) <==> forall j :: 0 <= j < |es| ==> EventFits(es[j])
  {
    hide Quotas, Sum, Exact, Next, Fits;
    if forall j :: 0 <= j < |es| ==> EventFits(es[j]) {
      forall i | 0 <= i < |rs| ensures Exact(rs[i]) { RunsStayGood(rs, es, lim, i); }
    } else {
      var j := FirstMisfit(es, |es|);
      RunsStayGood(rs, es, lim, j);
      MisfitBreaksCounters(rs[j], es[j], rs[j + 1], lim);
    }
  }

  /** The first registration of a negative size leaves the counters exact all the same; what it costs comes with
      a later removal (RemoveExactIff). */
  lemma NegativeSizeIsExact<N>(rs: seq<Registry<N>>, es: seq<Event<N>>, lim: Limits, i: nat)
    requires Run(rs, es, lim) && rs[0] == EmptyRegistry() && Int64Sizes(es)
    requires lim.files >= 1 && 0 <= lim.globalBytes
    requires i < |es| && es[i].Register? && es[i].size < 0 && forall j :: 0 <= j < i ==> EventFits(es[j])
    ensures Exact(rs[i + 1]) && !Accounted(rs[i + 1])
  {
    hide Quotas, Sum, Exact, Added, SessionPhase, GlobalPhase, Performed, Fits;
    RunsStayGood(rs, es, lim, i);
    var e := es[i];
    assert Next(rs[i], e, rs[i + 1], lim);
    BeforeFits(rs[i], e, rs[i + 1], lim);
    RegistrationAccounting(rs[i], e.phase1, e.phase2, rs[i + 1], e.session, e.path, e.node, e.size, e.at, lim);
  }

  /** What phase 1 leaves fits an int64. */
  lemma BeforeFits<N>(r: Registry<N>, e: Event<N>, r': Registry<N>, lim: Limits)
    requires Good(r, lim) && Next(r, e, r', lim) && e.Register?
    ensures Sum(e.phase1.ghosts, Size(All)) < TWO63
  {
    hide Quotas, Performed;
    EvictionLowers(r, e.phase1, Of(e.session), Size(All));
  }

  /** Over every run with sizes that are not negative: all states meet all quotas if and only if every
      registration fits. */
  lemma RunsMeetQuotasIffFits<N>(rs: seq<Registry<N>>, es: seq<Event<N>>, lim: Limits)
    requires Run(rs, es, lim) && rs[0] == EmptyRegistry() && Int64Sizes(es)
    requires NonNegativeSizes(es) && lim.files >= 1 && 0 <= lim.globalBytes < TWO63
    ensures (forall i :: 0 <= i < |rs| ==> Quotas(rs[i].ghosts, lim)) <==> forall j :: 0 <= j < |es| ==> EventFits(es[j])
  {
    hide Quotas, Sum, Accounted, Next, Fits;
    if forall j :: 0 <= j < |es| ==> EventFits(es[j]) {
      forall i | 0 <= i < |rs| ensures Quotas(rs[i].ghosts, lim) { RunsStayGood(rs, es, lim, i); }
    } else {
      var j := FirstMisfit(es, |es|);
      RunsStayGood(rs, es, lim, j);
      MisfitBreaksQuotas(rs[j], es[j], rs[j + 1], lim);
    }
  }

  lemma {:induction false} FirstMisfit<N>(es: seq<Event<N>>, n: nat) returns (j: nat)
    requires n <= |es| && exists i :: 0 <= i < n && !EventFits(es[i])
    ensures j < n && !EventFits(es[j]) && forall i :: 0 <= i < j ==> EventFits(es[i])
  {
    hide EventFits;
    if exists i :: 0 <= i < n - 1 && !EventFits(es[i]) { j := FirstMisfit(es, n - 1); } else { j := n - 1; }
  }

  lemma MisfitBreaksCounters<N>(r: Registry<N>, e: Event<N>, r': Registry<N>, lim: Limits)
    requires Good(r, lim) && Next(r, e, r', lim) && !EventFits(e) && 0 <= e.size < TWO63 && 0 <= lim.globalBytes
    ensures !Exact(r')
  {
    hide Quotas, Sum, Accounted, Added, SessionPhase, GlobalPhase;
    RegistrationAccounting(r, e.phase1, e.phase2, r', e.session, e.path, e.node, e.size, e.at, lim);
  }

  lemma MisfitBreaksQuotas<N>(r: Registry<N>, e: Event<N>, r': Registry<N>, lim: Limits)
    requires Good(r, lim) && Next(r, e, r', lim) && !EventFits(e) && 0 <= e.size < TWO63
    requires lim.files >= 1 && 0 <= lim.globalBytes < TWO63
    ensures !Quotas(r'.ghosts, lim)
  {
    hide Quotas, Sum, Accounted, Added, SessionPhase, GlobalPhase, Fits;
    QuotasIffFits(r, e.phase1, e.phase2, r', e.session, e.path, e.node, e.size, e.at, lim);
  }

  const BOUND := 0x4000_0000_0000_0000  // 2^62

  /** Sizes of files a client can fill: below 2^62. */
  ghost predicate ModestSizes<N>(es: seq<Event<N>>) {
    forall i :: 0 <= i < |es| && es[i].Register? ==> 0 <= es[i].size < BOUND
  }

  /** With sizes and a global limit below 2^62 every registration fits: phase 2 has left at most the limit,
      or a single size, before it. */
  lemma ModestFits<N>(r: Registry<N>, e: Event<N>, r': Registry<N>, lim: Limits)
    requires Good(r, lim) && Next(r, e, r', lim) && lim.files >= 1 && 0 <= lim.globalBytes < BOUND
    requires r.global < BOUND && (e.Register? ==> 0 <= e.size < BOUND)
    ensures EventFits(e) && r'.global < BOUND
  {
    match e
    case Register(s, path, node, size, now, r1, r2) =>
      EvictionLowers(r, r1, Of(s), Size(All));
      hide Quotas, Sum;
      RegistrationAccounting(r, r1, r2, r', s, path, node, size, now, lim);
      RegistrationKeepsQuotas(r, r1, r2, r', s, path, node, size, now, lim);
    case Refresh(key, now) =>
    case Sweep(now) =>
      SumMonotone(r'.ghosts, r.ghosts, Size(All));
  }

  lemma {:induction false} ModestRunsStayGood<N>(rs: seq<Registry<N>>, es: seq<Event<N>>, lim: Limits, i: nat)
    requires Run(rs, es, lim) && rs[0] == EmptyRegistry() && ModestSizes(es)
    requires lim.files >= 1 && 0 <= lim.globalBytes < BOUND && i < |rs|
    ensures Good(rs[i], lim) && rs[i].global < BOUND
  {
    hide Quotas, Sum, Accounted, Next;
    if i == 0 {
      EmptyGood<N>(lim);
    } else {
      ModestRunsStayGood(rs, es, lim, i - 1);
      ModestFits(rs[i - 1], es[i - 1], rs[i], lim);
      NextKeepsGood(rs[i - 1], es[i - 1], rs[i], lim);
    }
  }

  /** As long as a ghost is neither evicted nor expired it is the ghost that its registration stored: the
      node, path, session and size do not change. */
  lemma {:induction false} GhostsPersist<N>(rs: seq<Registry<N>>, es: seq<Event<N>>, lim: Limits, key: string, i: nat, j: nat)
    requires Run(rs, es, lim) && i <= j < |rs|
    requires forall m :: i <= m <= j ==> key in rs[m].ghosts
    ensures rs[j].ghosts[key] == rs[i].ghosts[key].(lastAccess := rs[j].ghosts[key].lastAccess)
    decreases j
  {
    if i < j {
      GhostsPersist(rs, es, lim, key, i, j - 1);
      assert Next(rs[j - 1], es[j - 1], rs[j], lim);
    }
  }

  // ----- least recently used -----

  /** When the call uses the ghost under the key: a registration or a refresh. */
  function UsedAt<N>(e: Event<N>, key: string): Option<nat> {
    match e
    case Register(s, path, _, _, now, _, _) => if MakeGhostKey(s, path) == key then Some(now) else None
    case Refresh(k, now) => if k == key then Some(now) else None
    case Sweep(_) => None
  }

  /** The time of the last use of the key among the first i calls. */
  function LastUse<N>(es: seq<Event<N>>, key: string, i: nat): Option<nat>
    requires i <= |es|
  {
    if i == 0 then None
    else if UsedAt(es[i - 1], key).Some? then UsedAt(es[i - 1], key)
    else LastUse(es, key, i - 1)
  }

  /** A refresh sets the access time of its ghost to its own time and changes nothing else. */
  lemma RefreshSetsTheTime<N>(r: Registry<N>, key: string, now: nat, r': Registry<N>, lim: Limits)
    requires Next(r, Event.Refresh(key, now), r', lim)
    ensures r'.ghosts.Keys == r.ghosts.Keys && key in r.ghosts && r'.usage == r.usage && r'.global == r.global
    ensures r'.ghosts[key].lastAccess == now && SameBut(r.ghosts[key], r'.ghosts[key])
    ensures forall k :: k in r.ghosts && k != key ==> r'.ghosts[k] == r.ghosts[k]
  {
  }

  predicate SameBut<N(==)>(a: Ghost<N>, b: Ghost<N>) {
    a.node == b.node && a.path == b.path && a.session == b.session && a.size == b.size
  }

  lemma NextSetsTheTime<N>(r: Registry<N>, e: Event<N>, r': Registry<N>, lim: Limits, key: string)
    requires Next(r, e, r', lim) && key in r'.ghosts
    ensures if UsedAt(e, key).Some? then r'.ghosts[key].lastAccess == UsedAt(e, key).value
            else key in r.ghosts && r'.ghosts[key].lastAccess == r.ghosts[key].lastAccess
  {
    hide Accounted, SessionPhase, GlobalPhase, Performed, Added, Evicted, MakeGhostKey;
    if e.Register? {
      hide Registered;
      RegisteredKeys(r, e.phase1, e.phase2, r', e.session, e.path, e.node, e.size, e.at, lim);
      RegisteredGhost(r, e.phase1, e.phase2, r', e.session, e.path, e.node, e.size, e.at, lim);
    }
  }

  /** Over every run: the access time of a ghost is the time at which its key was last used. */
  lemma {:induction false} AccessTimeIsLastUse<N>(rs: seq<Registry<N>>, es: seq<Event<N>>, lim: Limits, key: string, i: nat)
    requires Run(rs, es, lim) && rs[0] == EmptyRegistry() && i < |rs| && key in rs[i].ghosts
    ensures LastUse(es, key, i) == Some(rs[i].ghosts[key].lastAccess)
  {
    hide Next, UsedAt;
    if i > 0 {
      NextSetsTheTime(rs[i - 1], es[i - 1], rs[i], lim, key);
      if UsedAt(es[i - 1], key).None? { AccessTimeIsLastUse(rs, es, lim, key, i - 1); }
    }
  }

  /** Victims first: over every run, a registration evicts a ghost of its session, and then one of any session,
      only if every ghost of that scope that it keeps was used no earlier. */
  lemma VictimsAreLeastRecentlyUsed<N>(rs: seq<Registry<N>>, es: seq<Event<N>>, lim: Limits, i: nat, v: string, u: string)
    requires Run(rs, es, lim) && rs[0] == EmptyRegistry() && i < |es| && es[i].Register?
    requires v in rs[i].ghosts && u in rs[i].ghosts
    ensures LastUse(es, v, i).Some? && LastUse(es, u, i).Some?
    ensures v !in es[i].phase1.ghosts ==> rs[i].ghosts[v].session == es[i].session
    ensures v !in es[i].phase1.ghosts && u in es[i].phase1.ghosts && rs[i].ghosts[u].session == es[i].session ==>
              LastUse(es, v, i).value <= LastUse(es, u, i).value
    ensures v in es[i].phase1.ghosts && v !in es[i].phase2.ghosts && u in es[i].phase2.ghosts ==>
              LastUse(es, v, i).value <= LastUse(es, u, i).value
  {
    hide Accounted, Performed, Added, SessionEviction, GlobalEviction, LastUse;
    AccessTimeIsLastUse(rs, es, lim, v, i);
    AccessTimeIsLastUse(rs, es, lim, u, i);
    assert Next(rs[i], es[i], rs[i + 1], lim);
  }

  /** Over every run a sweep removes exactly the ghosts last used more than three minutes ago. */
  lemma SweepsTheUnused<N>(rs: seq<Registry<N>>, es: seq<Event<N>>, lim: Limits, i: nat, key: string)
    requires Run(rs, es, lim) && rs[0] == EmptyRegistry() && i < |es| && es[i].Sweep? && key in rs[i].ghosts
    ensures LastUse(es, key, i).Some?
    ensures key in rs[i + 1].ghosts <==> es[i].at - LastUse(es, key, i).value <= 180_000_000_000
  {
    hide Accounted, Evicted, LastUse;
    AccessTimeIsLastUse(rs, es, lim, key, i);
    assert Next(rs[i], es[i], rs[i + 1], lim);
  }

  /** Phase 1 evicts no more than it must. With room for the new ghost in its session nothing goes; and if one
      goes, then with the last victim still there the session would have its number of files or, with the new
      ghost, more than its bytes. */
  lemma SessionEvictsWhatItMust<N>(r0: Registry<N>, r1: Registry<N>, s: Session, size: int, lim: Limits)
    requires Accounted(r0) && 0 <= size && Sum(r0.ghosts, Size(All)) + size < TWO63
    requires SessionEviction(r0, r1, s, size, lim)
    ensures var n, b := Sum(r0.ghosts, Count(Of(s))), Sum(r0.ghosts, Size(Of(s)));
            n < lim.files && (n == 0 || b + size <= lim.sessionBytes) ==> r1.ghosts == r0.ghosts
    ensures r1.ghosts != r0.ghosts ==>
              exists v :: LastVictim(r0.ghosts, r1.ghosts, v) &&
                (Sum(r1.ghosts, Count(Of(s))) + 1 >= lim.files || Sum(r1.ghosts, Size(Of(s))) + r0.ghosts[v].size + size > lim.sessionBytes)
  {
    hide Sum, ToInt64, Accounted, LastVictim, SessionEviction;
    if r1.ghosts != r0.ghosts {
      SumsFit(r0, r0.ghosts, s, size);
      CountNotNegative(r0.ghosts, Of(s));
      var v := SessionVictimOf(r0, r1, s, size, lim);
      VictimKept(r0, r1.ghosts, v, s, size);
    }
  }

  lemma SessionVictimOf<N>(r0: Registry<N>, r1: Registry<N>, s: Session, size: int, lim: Limits) returns (v: string)
    requires SessionEviction(r0, r1, s, size, lim) && r1.ghosts != r0.ghosts
    ensures OverSession(r0.ghosts, s, size, lim) && forall k :: k in r1.ghosts ==> k in r0.ghosts && r1.ghosts[k] == r0.ghosts[k]
    ensures v in r0.ghosts && v !in r1.ghosts && LastVictim(r0.ghosts, r1.ghosts, v)
    ensures OverSession(r1.ghosts[v := r0.ghosts[v]], s, size, lim)
  {
    hide OverSession, Accounted;
    v :| LastVictim(r0.ghosts, r1.ghosts, v) && OverSession(r1.ghosts[v := r0.ghosts[v]], s, size, lim);
  }

  /** Phase 2 likewise, with the bytes of the whole registry. */
  lemma GlobalEvictsWhatItMust<N>(r1: Registry<N>, r2: Registry<N>, s: Session, size: int, lim: Limits)
    requires Accounted(r1) && 0 <= size && Sum(r1.ghosts, Size(All)) + size < TWO63
    requires GlobalEviction(r1, r2, size, lim)
    ensures Sum(r1.ghosts, Size(All)) == 0 || Sum(r1.ghosts, Size(All)) + size <= lim.globalBytes ==> r2.ghosts == r1.ghosts
    ensures r2.ghosts != r1.ghosts ==>
              exists v :: LastVictim(r1.ghosts, r2.ghosts, v) &&
                Sum(r2.ghosts, Size(All)) + r1.ghosts[v].size + size > lim.globalBytes
  {
    hide Sum, ToInt64, Accounted, LastVictim, GlobalEviction;
    if r2.ghosts != r1.ghosts {
      SumsFit(r1, r1.ghosts, s, size);
      var v := GlobalVictimOf(r1, r2, size, lim);
      VictimKept(r1, r2.ghosts, v, s, size);
    }
  }

  lemma GlobalVictimOf<N>(r1: Registry<N>, r2: Registry<N>, size: int, lim: Limits) returns (v: string)
    requires GlobalEviction(r1, r2, size, lim) && r2.ghosts != r1.ghosts
    ensures OverGlobal(r1.ghosts, size, lim) && forall k :: k in r2.ghosts ==> k in r1.ghosts && r2.ghosts[k] == r1.ghosts[k]
    ensures v in r1.ghosts && v !in r2.ghosts && LastVictim(r1.ghosts, r2.ghosts, v)
    ensures OverGlobal(r2.ghosts[v := r1.ghosts[v]], size, lim)
  {
    hide OverGlobal, Accounted;
    v :| LastVictim(r1.ghosts, r2.ghosts, v) && OverGlobal(r2.ghosts[v := r1.ghosts[v]], size, lim);
  }

  lemma SumsFit<N>(r: Registry<N>, gs: Ghosts<N>, s: Session, size: int)
    requires Accounted(r) && 0 <= size && Sum(r.ghosts, Size(All)) + size < TWO63
    requires forall k :: k in gs ==> k in r.ghosts && gs[k] == r.ghosts[k]
    ensures 0 <= Sum(gs, Size(Of(s))) <= Sum(gs, Size(All)) <= Sum(r.ghosts, Size(All))
    ensures ToInt64(Sum(gs, Size(Of(s))) + size) == Sum(gs, Size(Of(s))) + size
    ensures ToInt64(Sum(gs, Size(All)) + size) == Sum(gs, Size(All)) + size
  {
    hide Sum, Exact;
    SumMonotone(gs, r.ghosts, Size(All));
    SumScope(gs, s);
    ToInt64Small(Sum(gs, Size(Of(s))) + size);
    ToInt64Small(Sum(gs, Size(All)) + size);
  }

  /** The sums with one more ghost. */
  lemma VictimKept<N>(r: Registry<N>, gs: Ghosts<N>, v: string, s: Session, size: int)
    requires Accounted(r) && 0 <= size && Sum(r.ghosts, Size(All)) + size < TWO63
    requires forall k :: k in gs ==> k in r.ghosts && gs[k] == r.ghosts[k]
    requires v in r.ghosts && v !in gs
    ensures var more := gs[v := r.ghosts[v]];
            && ToInt64(Sum(more, Size(Of(s))) + size) == Sum(more, Size(Of(s))) + size
            && ToInt64(Sum(more, Size(All)) + size) == Sum(more, Size(All)) + size
            && Sum(more, Size(All)) == Sum(gs, Size(All)) + r.ghosts[v].size
            && Sum(more, Size(Of(s))) <= Sum(gs, Size(Of(s))) + r.ghosts[v].size
            && Sum(more, Count(Of(s))) <= Sum(gs, Count(Of(s))) + 1
  {
    hide Sum, Exact, ToInt64;
    SumsFit(r, gs[v := r.ghosts[v]], s, size);
    SumAdd(gs, v, r.ghosts[v], Size(All));
    SumAdd(gs, v, r.ghosts[v], Size(Of(s)));
    SumAdd(gs, v, r.ghosts[v], Count(Of(s)));
  }

  // ----- statistics -----

  ghost function UsageTotal(usage: map<Session, int>): int
    decreases |usage|
  {
    if usage == map[] then 0
    else
      var s :| s in usage;
      usage[s] + UsageTotal(usage - {s})
  }

  lemma {:induction false} UsageTotalRemove(usage: map<Session, int>, s: Session)
    requires s in usage
    ensures UsageTotal(usage) == usage[s] + UsageTotal(usage - {s})
    decreases |usage|
  {
    var t :| t in usage && UsageTotal(usage) == usage[t] + UsageTotal(usage - {t});
    if t != s {
      UsageTotalRemove(usage - {t}, s);
      UsageTotalRemove(usage - {s}, t);
      assert usage - {t} - {s} == usage - {s} - {t};
    }
  }

  function Entry(usage: map<Session, int>, s: Session): int { if s in usage then usage[s] else 0 }

  lemma UsageTotalUpdate(usage: map<Session, int>, s: Session, v: int)
    ensures UsageTotal(usage[s := v]) == UsageTotal(usage) - Entry(usage, s) + v
  {
    UsageTotalRemove(usage[s := v], s);
    assert usage[s := v] - {s} == usage - {s};
    if s in usage { UsageTotalRemove(usage, s); } else { assert usage - {s} == usage; }
  }

  lemma {:induction false} ZeroEntries(usage: map<Session, int>)
    requires forall s: Session :: Entry(usage, s) == 0
    ensures UsageTotal(usage) == 0
    decreases |usage|
  {
    if usage != map[] {
      var s :| s in usage;
      assert Entry(usage, s) == 0;
      forall t: Session ensures Entry(usage - {s}, t) == 0 { assert Entry(usage, t) == 0; }
      ZeroEntries(usage - {s});
      UsageTotalRemove(usage, s);
    }
  }

  /** If usage holds every session's sum, its entries add up to the sum over all ghosts. */
  lemma {:induction false} UsageAddsUp<N>(gs: Ghosts<N>, usage: map<Session, int>)
    requires forall s: Session :: Entry(usage, s) == Sum(gs, Size(Of(s)))
    ensures UsageTotal(usage) == Sum(gs, Size(All))
    decreases |gs|
  {
    if gs == map[] {
      ZeroEntries(usage);
    } else {
      hide Sum, UsageTotal;
      var k :| k in gs;
      var rest, s := gs - {k}, gs[k].session;
      var usage' := usage[s := Sum(rest, Size(Of(s)))];
      forall t: Session ensures Entry(usage', t) == Sum(rest, Size(Of(t))) {
        SumRemove(gs, k, Size(Of(t)));
        assert Entry(usage, t) == Sum(gs, Size(Of(t)));
      }
      UsageAddsUp(rest, usage');
      UsageTotalUpdate(usage, s, Sum(rest, Size(Of(s))));
      SumRemove(gs, k, Size(All));
      SumRemove(gs, k, Size(Of(s)));
      assert Entry(usage, s) == Sum(gs, Size(Of(s)));
    }
  }

  /** The statistics' VirtualMemoryTotal is the sum of SessionVirtualMemory. */
  lemma TotalIsSumOfSessions<N>(r: Registry<N>)
    requires Accounted(r)
    ensures r.global == UsageTotal(r.usage)
  {
    forall s: Session ensures Entry(r.usage, s) == Sum(r.ghosts, Size(Of(s))) {
      assert Usage(r, s) == Sum(r.ghosts, Size(Of(s)));
    }
    UsageAddsUp(r.ghosts, r.usage);
  }

  // ----- what goes wrong with sizes near 2^63 -----

  /** With the default limits: a session that holds one ghost of 2^63 - 1 bytes registers a second one of 2
      bytes. The addition wraps to a negative number, nothing is evicted, the session's quota is broken and
      its counter is negative. */
  lemma HugeSizesBreakTheQuota<N>(node: N) returns (r: Registry<N>, r': Registry<N>)
    ensures Accounted(r) && Quotas(r.ghosts, Limits(3, 10485760, 1073741824))
    ensures Added(r, r, r, r', 1, "b", node, 2, 1, Limits(3, 10485760, 1073741824))
    ensures !SessionQuota(r'.ghosts, 1, Limits(3, 10485760, 1073741824)) && Usage(r', 1) < 0
  {
    var lim := Limits(3, 10485760, 1073741824);
    var empty := EmptyRegistry<N>();
    r := Insert(empty, 1, "a", node, TWO63 - 1, 0);
    EmptyAccounted<N>();
    InsertAccounted(empty, 1, "a", node, TWO63 - 1, 0);
    var a, b := MakeGhostKey(1, "a"), MakeGhostKey(1, "b");
    if a == b { GhostKeyInjective(1, "a", 1, "b"); }
    forall m: Measure ensures Sum(r.ghosts, m) == Weigh(Ghost(node, "a", 1, TWO63 - 1, 0), m) {
      SumAdd(empty.ghosts, a, Ghost(node, "a", 1, TWO63 - 1, 0), m);
    }
    assert forall s: Session :: SessionQuota(r.ghosts, s, lim);
    r' := Insert(r, 1, "b", node, 2, 1);
    ToInt64Wraps(TWO63 + 1);
    SumAdd(r.ghosts, b, Ghost(node, "b", 1, 2, 1), Size(Of(1)));
    SumAdd(r.ghosts, b, Ghost(node, "b", 1, 2, 1), Count(Of(1)));
  }

  // ----- what goes wrong with a negative size -----

  /** A registration in an almost empty registry evicts nothing. */
  lemma RegisterQuietly<N>(r: Registry<N>, s: Session, path: string, node: N, size: int, now: nat, lim: Limits)
    requires KeysMatch(r.ghosts) && Sum(r.ghosts, Count(Of(s))) < lim.files
    requires ToInt64(Usage(r, s) + size) <= lim.sessionBytes && Usage(r, s) == Sum(r.ghosts, Size(Of(s)))
    requires ToInt64(r.global + size) <= lim.globalBytes && r.global == Sum(r.ghosts, Size(All))
    ensures Registered(r, r, r, Insert(r, s, path, node, size, now), s, path, node, size, now, lim)
  {
    hide Sum, ToInt64, MakeGhostKey;
    var none: seq<string> := [];
    assert Evicted(r, none) == r && Running(r, none, s, Usage(r, s)) == Usage(r, s);
    assert !SessionGuard(r, none, s, size, lim);
    assert Performed(r, r, r, Insert(r, s, path, node, size, now), none, none, s, path, node, size, now, lim);
  }

  /** A run with the default limits: a session registers ghosts of 5 and of -9 bytes (the latter is a file of
      2^64 - 9 bytes); when the first expires, the session's entry is deleted although -9 bytes are left. */
  lemma NegativeSizeLosesTheEntry<N>(node: N) returns (rs: seq<Registry<N>>, es: seq<Event<N>>)
    ensures Run(rs, es, Limits(3, 10485760, 1073741824)) && |es| == 3 && rs[0] == EmptyRegistry()
    ensures Exact(rs[1]) && Exact(rs[2]) && !Exact(rs[3])
  {
    hide ToInt64, MakeGhostKey, Sum, Registered, Exact, Evicted;
    var lim := Limits(3, 10485760, 1073741824);
    var r0 := EmptyRegistry<N>();
    var a, b := MakeGhostKey(1, "a"), MakeGhostKey(1, "b");
    if a == b { GhostKeyInjective(1, "a", 1, "b"); }
    NoSum<N>();
    ToInt64Small(5);
    ToInt64Small(-4);
    ToInt64Small(-9);
    EmptyExact<N>();
    RegisterQuietly(r0, 1, "a", node, 5, 0, lim);
    InsertExactIff(r0, 1, "a", node, 5, 0);
    var r1 := Insert(r0, 1, "a", node, 5, 0);
    var g, h := Ghost(node, "a", 1, 5, 0), Ghost(node, "b", 1, -9, EXPIRY);
    OneSum(a, g);
    assert r1.ghosts == map[a := g];
    RegisterQuietly(r1, 1, "b", node, -9, EXPIRY, lim);
    InsertExactIff(r1, 1, "b", node, -9, EXPIRY);
    var r2 := Insert(r1, 1, "b", node, -9, EXPIRY);
    var r3 := Remove(r2, 1, "a");
    assert r2.ghosts - {a} == map[b := h];
    OneSum(b, h);
    RemoveExactIff(r2, a);
    SweepOne(r2, a, EXPIRY + 1);
    assert !Accounted(r2) by { assert r2.ghosts[b].size == -9; }
    rs := [r0, r1, r2, r3];
    es := [Register(1, "a", node, 5, 0, r0, r0), Register(1, "b", node, -9, EXPIRY, r1, r1), Event.Sweep(EXPIRY + 1)];
  }

  lemma EmptyExact<N>()
    ensures Exact(EmptyRegistry<N>())
  {
  }

  lemma OneSum<N>(k: string, g: Ghost<N>)
    ensures forall m: Measure :: Sum(map[k := g], m) == Weigh(g, m)
  {
    NoSum<N>();
    var none: Ghosts<N> := map[];
    forall m: Measure ensures Sum(map[k := g], m) == Weigh(g, m) {
      SumAdd(none, k, g, m);
      assert none[k := g] == map[k := g];
    }
  }

  lemma NoSum<N>()
    ensures forall m: Measure :: Sum<N>(map[], m) == 0
  {
  }

  /** A sweep that finds one expired ghost. */
  lemma SweepOne<N>(r: Registry<N>, key: string, now: nat)
    requires forall k :: Expired(r.ghosts, k, now) <==> k == key
    ensures SweepOrder(r.ghosts, [key], now) && Evicted(r, [key]) == RemoveKey(r, key)
  {
    assert [key][..0] == [];
  }
}
