/** The compound codec ([MS-SMB2] sections 2.2.1.2 and 3.3.4.1.3): server/compound.go builds a chained buffer
    of responses, and the split loop of runReciever in server/conn.go takes a chained buffer apart. Only the
    header fields that compounding uses are modelled. */
module Compound {
  import opened Bytes
  import opened Segments

  const RELATED := 4      // SMB2_FLAGS_RELATED_OPERATIONS
  const RELATED_BIT := 2

  // ----- header fields: flags at 16, NextCommand at 20 -----

  function Flags(p: Bytes): nat
    requires |p| >= 20
  {
    U32(p, 16)
  }

  function NextCommand(p: Bytes): nat
    requires |p| >= 24
  {
    U32(p, 20)
  }

  function SetFlags(p: Bytes, flags: nat): (r: Bytes)
    requires |p| >= 64
    ensures |r| == |p|
  {
    Splice(p, 16, LE32(flags))
  }

  function SetNextCommand(p: Bytes, next: nat): (r: Bytes)
    requires |p| >= 64
    ensures |r| == |p|
  {
    Splice(p, 20, LE32(next))
  }

  /** The fixed part of an SMB2 header: protocol id and structure size. */
  predicate HasHeader(p: Bytes) {
    |p| >= 64 && p[..6] == [0xfe, 0x53, 0x4d, 0x42, 64, 0]
  }

  const SMB1_NEGOTIATE := 0x72  // SMB_COM_NEGOTIATE

  predicate IsSmb1(p: Bytes)
    requires |p| >= 4
  {
    p[..4] == [0xff, 0x53, 0x4d, 0x42]
  }

  /** PacketCodec.IsInvalid: reads the protocol id, and the command byte of an SMB1 packet, before it looks at
      the length. */
  function IsInvalid(p: Bytes): (r: Outcome<bool>)
    ensures !r.Failed?
  {
    if |p| < 4 then Panics
    else if IsSmb1(p) then if |p| == 4 then Panics else Done(p[4] != SMB1_NEGOTIATE)
    else Done(!HasHeader(p) || NextCommand(p) % 8 != 0 || NextCommand(p) >= |p|)
  }

  predicate Related(p: Bytes)
    requires |p| >= 20
  {
    Bit(Flags(p), RELATED_BIT)
  }

  predicate IsCompoundFirst(p: Bytes)
    requires |p| >= 24
  {
    !Related(p) && NextCommand(p) != 0
  }

  predicate IsCompoundLast(p: Bytes)
    requires |p| >= 24
  {
    Related(p) && NextCommand(p) == 0
  }

  // ----- what Encode writes -----

  /** Response i of n as Encode marks it: related unless it is the first, chained unless it is the last. */
  function Marked(p: Bytes, i: nat, n: nat): (r: Bytes)
    requires |p| >= 64 && i < n
    ensures |r| == |p|
  {
    var q := if i > 0 then SetFlags(p, Or(Flags(p), RELATED)) else p;
    if i < n - 1 then SetNextCommand(q, Align8(|p|)) else q
  }

  function Padded(p: Bytes): (r: Bytes)
    ensures |r| == Align8(|p|)
  {
    p + Zeros(Align8(|p|) - |p|)
  }

  predicate Packets(ps: seq<Bytes>) {
    forall i :: 0 <= i < |ps| ==> |ps[i]| >= 64
  }

  /** Size */
  function Size(ps: seq<Bytes>): nat {
    if ps == [] then 0 else Size(ps[..|ps| - 1]) + Align8(|ps[|ps| - 1]|)
  }

  /** The members of the chain of responses ps. */
  function Members(ps: seq<Bytes>): (ws: seq<Bytes>)
    requires Packets(ps)
    ensures |ws| == |ps| && forall i :: 0 <= i < |ws| ==> ws[i] == Padded(Marked(ps[i], i, |ps|))
  {
    seq(|ps|, i requires 0 <= i < |ps| => Padded(Marked(ps[i], i, |ps|)))
  }

  function Chain(ps: seq<Bytes>): Bytes
    requires Packets(ps)
  {
    Concat(Members(ps))
  }

  // ----- the receiver -----

  /** How the split loop ends: with the last packet, at an invalid one, or in a run-time panic. */
  datatype Ending = Ended | Refused | Panicked

  /** One round of the split loop for a valid packet; started says whether compCtx is set. The result is
      whether it is set afterwards, and NextCommand. */
  function Look(p: Bytes, started: bool): (r: Outcome<(bool, nat)>)
    ensures r.Done? ==> |p| >= 24 && r.value.1 == NextCommand(p) <= |p|
  {
    if |p| < 24 then Panics
    else
      var started' := started || IsCompoundFirst(p);
      if IsCompoundFirst(p) && |p| < 48 then Panics
      else if IsCompoundLast(p) && !started' then Panics
      else if NextCommand(p) > |p| then Panics
      else Done((started', NextCommand(p)))
  }

  /** The split loop: the packets handed on, and how it ends. Each round takes NextCommand bytes, which is
      positive, so the rest gets shorter. */
  function Receive(b: Bytes, started: bool): (r: (seq<Bytes>, Ending))
    decreases |b|
  {
    if IsInvalid(b).Panics? then ([], Panicked)
    else if IsInvalid(b).value then ([], Refused)
    else if !Look(b, started).Done? then ([], Panicked)
    else
      var (started', off) := Look(b, started).value;
      if off == 0 then ([b], Ended)
      else
        var rest := Receive(b[off..], started');
        ([b[..off]] + rest.0, rest.1)
  }

  /** The split loop of runReciever, for the bytes of one message. */
  method SplitChain(b: Bytes) returns (packets: seq<Bytes>, end: Ending)
    ensures (packets, end) == Receive(b, false)
  {
    packets := [];
    var pkt, compCtx := b, false;
    NothingBefore(Receive(b, false));
    while true
      invariant Receive(b, false) == Behind(packets, Receive(pkt, compCtx))
      decreases |pkt|
    {
      ReceiveFront(packets, pkt, compCtx);
      var invalid := IsInvalid(pkt);
      if invalid.Panics? { return packets, Panicked; }
      if invalid.value { return packets, Refused; }
      if |pkt| < 24 { return packets, Panicked; }
      hide Receive, IsInvalid, Related, NextCommand;
      if IsCompoundFirst(pkt) {
        if |pkt| < 48 { return packets, Panicked; }
        compCtx := true;
      }
      if IsCompoundLast(pkt) && !compCtx { return packets, Panicked; }
      var off := NextCommand(pkt);
      if off > |pkt| { return packets, Panicked; }
      if off == 0 { return packets + [pkt], Ended; }
      packets, pkt := packets + [pkt[..off]], pkt[off..];
    }
  }

  function Behind(packets: seq<Bytes>, r: (seq<Bytes>, Ending)): (seq<Bytes>, Ending) { (packets + r.0, r.1) }

  lemma NothingBefore(r: (seq<Bytes>, Ending))
    ensures Behind([], r) == r
  {
    assert [] + r.0 == r.0;
  }

  lemma BehindOne(packets: seq<Bytes>, p: Bytes, r: (seq<Bytes>, Ending))
    ensures Behind(packets, ([p] + r.0, r.1)) == Behind(packets + [p], r)
  {
    assert packets + ([p] + r.0) == (packets + [p]) + r.0;
  }

  lemma BehindNone(packets: seq<Bytes>, end: Ending)
    ensures Behind(packets, ([], end)) == (packets, end)
  {
    assert packets + [] == packets;
  }

  lemma ReceiveFront(packets: seq<Bytes>, b: Bytes, started: bool)
    ensures var v := IsInvalid(b);
            Behind(packets, Receive(b, started)) ==
            if v.Panics? then (packets, Panicked)
            else if v.value then (packets, Refused)
            else if !Look(b, started).Done? then (packets, Panicked)
            else if NextCommand(b) == 0 then (packets + [b], Ended)
            else Behind(packets + [b[..NextCommand(b)]], Receive(b[NextCommand(b)..], Look(b, started).value.0))
  {
    hide IsInvalid, Look, NextCommand, Behind;
    BehindNone(packets, Panicked);
    BehindNone(packets, Refused);
    if !IsInvalid(b).Panics? && !IsInvalid(b).value && Look(b, started).Done? {
      if NextCommand(b) != 0 {
        BehindOne(packets, b[..NextCommand(b)], Receive(b[NextCommand(b)..], Look(b, started).value.0));
      } else {
        LastBehind(packets, b);
      }
    }
  }

  lemma LastBehind(packets: seq<Bytes>, b: Bytes)
    ensures Behind(packets, ([b], Ended)) == (packets + [b], Ended)
  {
  }

  // ----- what the loop does to any bytes -----

  /** Nothing is lost or reordered: the packets handed on are the front of the message, in order, and all of it
      if the loop ends with the last packet. */
  lemma {:induction false} ReceivedInOrder(b: Bytes, started: bool)
    ensures var (packets, end) := Receive(b, started);
            && Concat(packets) <= b && (end == Ended ==> Concat(packets) == b)
            && (end == Refused ==> IsInvalid(b[|Concat(packets)|..]) == Done(true))
    decreases |b|
  {
    hide IsInvalid, Look, NextCommand, Concat;
    NoBytes();
    var (packets, end) := Receive(b, started);
    assert b[0..] == b;
    if packets != [] {
      ConcatSplit(packets, 1);
      ConcatOne(packets[0]);
      assert packets[..1] == [packets[0]];
      var off := NextCommand(b);
      if off == 0 {
        assert packets[1..] == [];
      } else {
        var started' := Look(b, started).value.0;
        ReceivedInOrder(b[off..], started');
        assert packets[1..] == Receive(b[off..], started').0;
        FrontAndRest(b, off, Concat(packets[1..]));
      }
    }
  }

  lemma FrontAndRest(b: Bytes, off: nat, t: Bytes)
    requires off <= |b| && t <= b[off..]
    ensures b[..off] + t <= b && b[|b[..off] + t|..] == b[off..][|t|..]
    ensures t == b[off..] ==> b[..off] + t == b
  {
    assert b == b[..off] + b[off..];
  }

  // ----- when it panics -----

  predicate Valid(p: Bytes) { IsInvalid(p) == Done(false) }

  /** The packet at the front panics by itself, whatever came before it. */
  predicate Breaks(p: Bytes) {
    IsInvalid(p).Panics? ||
    (Valid(p) && (|p| < 24 || (IsCompoundFirst(p) && |p| < 48) || NextCommand(p) > |p|))
  }

  /** The packet at the front is the last one. */
  predicate EndsChain(p: Bytes) { Valid(p) && |p| >= 24 && NextCommand(p) == 0 }

  /** What the loop looks at, round by round: the message, and what is left behind each packet. */
  function Rests(b: Bytes): (r: seq<Bytes>)
    ensures r != []
    decreases |b|
  {
    if Valid(b) && !Breaks(b) && NextCommand(b) != 0 then [b] + Rests(b[NextCommand(b)..]) else [b]
  }

  /** Every packet of the chain is marked related. */
  predicate AllRelated(rests: seq<Bytes>) {
    forall i :: 0 <= i < |rests| ==> |rests[i]| >= 20 && Related(rests[i])
  }

  function Last(rests: seq<Bytes>): Bytes
    requires rests != []
  {
    rests[|rests| - 1]
  }

  /** For every message: the receiver panics if and only if what is left behind some packet panics by itself, or
      the chain goes on to its last packet and all of them are marked related, so that none has set compCtx. It
      refuses the message if and only if what is left is invalid, and hands on all of it otherwise. */
  lemma {:induction false} PanicsIff(b: Bytes, started: bool)
    ensures var end, rests := Receive(b, started).1, Rests(b);
            && (end == Panicked <==> Breaks(Last(rests)) || (EndsChain(Last(rests)) && !started && AllRelated(rests)))
            && (end == Refused <==> IsInvalid(Last(rests)) == Done(true))
            && (end == Ended <==> EndsChain(Last(rests)) && (started || !AllRelated(rests)))
    decreases |b|
  {
    hide IsInvalid, Related, NextCommand;
    if Valid(b) && !Breaks(b) && NextCommand(b) != 0 {
      var off := NextCommand(b);
      var rests := Rests(b[off..]);
      PanicsIff(b[off..], started || !Related(b));
      assert Rests(b) == [b] + rests;
      RelatedFront(b, rests);
    }
  }

  lemma RelatedFront(b: Bytes, rests: seq<Bytes>)
    requires |b| >= 20
    ensures AllRelated([b] + rests) <==> Related(b) && AllRelated(rests)
  {
    hide Related;
    var all := [b] + rests;
    if AllRelated(all) {
      assert Related(all[0]);
      forall i | 0 <= i < |rests| ensures |rests[i]| >= 20 && Related(rests[i]) { assert rests[i] == all[i + 1]; }
    }
  }

  /** The header check, byte by byte: SMB1 packets pass if they negotiate; the others need 64 bytes, the protocol id,
      structure size 64, and a NextCommand that is a multiple of 8 inside the packet. The related flag is bit 2 of
      the word at 16. */
  lemma ValidIff(p: Bytes)
    requires |p| >= 5
    ensures Valid(p) <==>
            if p[..4] == [0xff, 83, 77, 66] then p[4] == 0x72
            else |p| >= 64 && p[..4] == [0xfe, 83, 77, 66] && p[4] == 64 && p[5] == 0 && U32(p, 20) % 8 == 0 && U32(p, 20) < |p|
    ensures |p| >= 20 ==> (Related(p) <==> Bit(U32(p, 16), 2))
    ensures |p| >= 24 ==> NextCommand(p) == U32(p, 20)
  {
    hide U32, Bit;
    if |p| >= 64 {
      assert p[..6] == p[..4] + [p[4], p[5]];
      if p[..6] == [0xfe, 0x53, 0x4d, 0x42, 64, 0] { assert p[..4] == p[..6][..4]; }
    }
  }

  /** For packets that are not SMB1, only fewer than four bytes panic by themselves. */
  lemma BreaksIff(p: Bytes)
    requires |p| < 4 || !IsSmb1(p)
    ensures Breaks(p) <==> |p| < 4
  {
  }

  /** So one related header that does not chain is enough: compCtx is nil. */
  lemma RelatedHeaderPanics(p: Bytes)
    requires HasHeader(p) && Related(p) && NextCommand(p) == 0
    ensures Receive(p, false) == ([], Panicked)
  {
    HeaderNotSmb1(p);
  }

  /** And so is a packet with one to three bytes behind it. */
  lemma ShortRestPanics(p: Bytes, t: Bytes)
    requires HasHeader(p) && !Related(p) && NextCommand(p) == |p| && |p| % 8 == 0 && 1 <= |t| < 4
    ensures Receive(p + t, false) == ([p], Panicked)
  {
    hide NextCommand, HasHeader, Related;
    HeaderNotSmb1(p);
    HeaderOfPrefix(p, p + t);
    HeaderNotSmb1(p + t);
    assert (p + t)[..|p|] == p && (p + t)[|p|..] == t;
    var q := p + t;
    assert Look(q, false) == Done((true, |p|));
    assert IsInvalid(q) == Done(false);
    assert Receive(q[|p|..], true) == ([], Panicked);
    assert [p] + [] == [p];
  }

  lemma HeaderNotSmb1(p: Bytes)
    requires HasHeader(p)
    ensures |p| >= 64 && !IsSmb1(p)
  {
    assert p[..6][0] == p[0] == 0xfe;
  }

  // ----- the round trip -----

  /** A response as the server builds it: an SMB2 header that does not chain yet, and a length whose
      8-byte alignment fits NextCommand. */
  predicate Plain(p: Bytes) {
    HasHeader(p) && NextCommand(p) == 0 && Align8(|p|) < TWO32
  }

  predicate AllPlain(ps: seq<Bytes>) {
    forall i :: 0 <= i < |ps| ==> Plain(ps[i])
  }

  lemma SetNextReads(p: Bytes, next: nat)
    requires |p| >= 64 && next < TWO32
    ensures var r := SetNextCommand(p, next);
            NextCommand(r) == next && Flags(r) == Flags(p) && r[..16] == p[..16] && r[24..] == p[24..]
  {
    var r := SetNextCommand(p, next);
    assert At(r, 20, LE32(next));
    ReadLE32(r, 20, next);
    assert r[16..20] == p[16..20];
    SameBytesSameWord(r, p, 16);
  }

  lemma SetFlagsReads(p: Bytes, flags: nat)
    requires |p| >= 64 && flags < TWO32
    ensures var r := SetFlags(p, flags);
            Flags(r) == flags && NextCommand(r) == NextCommand(p) && r[..16] == p[..16] && r[24..] == p[24..]
  {
    var r := SetFlags(p, flags);
    assert At(r, 16, LE32(flags));
    ReadLE32(r, 16, flags);
    assert r[20..24] == p[20..24];
    SameBytesSameWord(r, p, 20);
  }

  lemma OrRelated(flags: nat)
    requires flags < TWO32
    ensures Or(flags, RELATED) < TWO32 && Bit(Or(flags, RELATED), RELATED_BIT)
    ensures forall k: nat :: k != RELATED_BIT ==> (Bit(Or(flags, RELATED), k) <==> Bit(flags, k))
  {
    Widths();
    OrBound(flags, RELATED, 32);
    forall k: nat ensures Bit(Or(flags, RELATED), k) <==> Bit(flags, k) || k == RELATED_BIT {
      BitOr(flags, RELATED, k);
      BitOfFour(k);
    }
  }

  lemma BitOfFour(k: nat)
    ensures Bit(4, k) <==> k == 2
  {
    if k >= 3 { NoHighBits(4, 3, k); }
  }

  /** Marking changes the flags and NextCommand as it should and nothing else. */
  lemma MarkedFields(p: Bytes, i: nat, n: nat)
    requires Plain(p) && i < n
    ensures var r := Marked(p, i, n);
            && HasHeader(r) && r[..16] == p[..16] && r[24..] == p[24..]
            && NextCommand(r) == (if i < n - 1 then Align8(|p|) else 0)
            && Flags(r) == (if i > 0 then Or(Flags(p), RELATED) else Flags(p))
  {
    hide U32, LE32, Or, SetFlags, SetNextCommand;
    OrRelated(Flags(p));
    SetFlagsReads(p, Or(Flags(p), RELATED));
    SetNextReads(p, Align8(|p|));
    SetNextReads(SetFlags(p, Or(Flags(p), RELATED)), Align8(|p|));
    var r := Marked(p, i, n);
    HeaderKept(p, r);
  }

  lemma HeaderKept(p: Bytes, r: Bytes)
    requires HasHeader(p) && |r| == |p| && r[..16] == p[..16]
    ensures HasHeader(r)
  {
    assert r[..6] == r[..16][..6] == p[..16][..6] == p[..6];
  }

  /** Bytes behind a packet do not change what its header says. */
  lemma HeaderOfPrefix(p: Bytes, b: Bytes)
    requires |p| >= 64 && p <= b
    ensures HasHeader(b) == HasHeader(p) && NextCommand(b) == NextCommand(p) && Flags(b) == Flags(p)
    ensures Related(b) == Related(p)
  {
    assert b[..6] == p[..6] && b[16..20] == p[16..20] && b[20..24] == p[20..24];
    SameBytesSameWord(b, p, 16);
    SameBytesSameWord(b, p, 20);
  }

  /** A list of chain members: headers, whole 8-byte lengths, and links to the next one. */
  ghost predicate Linked(ws: seq<Bytes>) {
    && ws != []
    && (forall i :: 0 <= i < |ws| ==> HasHeader(ws[i]))
    && (forall i :: 0 <= i < |ws| - 1 ==> NextCommand(ws[i]) == |ws[i]| && |ws[i]| % 8 == 0)
    && NextCommand(ws[|ws| - 1]) == 0
  }

  /** The receiver takes the concatenation of linked members apart into just these members, unless all of them
      are marked related: then it panics at the last one. */
  lemma {:induction false} ReceiveLinked(ws: seq<Bytes>, started: bool)
    requires Linked(ws)
    ensures Receive(Concat(ws), started) == if started || !AllRelated(ws) then (ws, Ended) else (ws[..|ws| - 1], Panicked)
    decreases |ws|
  {
    hide NextCommand, HasHeader, Concat, Flags, Related;
    var b, w := Concat(ws), ws[0];
    ConcatSplit(ws, 1);
    ConcatOne(w);
    assert ws[..1] == [w];
    assert b[..|w|] == w;
    HeaderNotSmb1(w);
    HeaderOfPrefix(w, b);
    HeaderNotSmb1(b);
    if |ws| == 1 {
      assert ws[1..] == [];
      NoBytes();
      assert b == w && ws == [w];
    } else {
      var rest := ws[1..];
      assert rest[|rest| - 1] == ws[|ws| - 1];
      ReceiveLinked(rest, started || !Related(w));
      HeaderNotSmb1(ws[1]);
      ConcatSplit(rest, 1);
      ConcatOne(ws[1]);
      assert rest[..1] == [ws[1]];
      assert b[|w|..] == Concat(rest);
      assert ws == [w] + rest && ws[..|ws| - 1] == [w] + rest[..|rest| - 1];
      RelatedFront(w, rest);
    }
  }

  lemma NoBytes()
    ensures Concat([]) == []
  {
  }

  lemma AlignedMod(n: nat)
    ensures Align8(n) % 8 == 0
  {
  }

  lemma MemberFields(p: Bytes, i: nat, n: nat)
    requires Plain(p) && i < n
    ensures var w := Padded(Marked(p, i, n));
            && HasHeader(w) && |w| == Align8(|p|) && |w| % 8 == 0
            && NextCommand(w) == (if i < n - 1 then |w| else 0)
            && Flags(w) == (if i > 0 then Or(Flags(p), RELATED) else Flags(p))
            && w[..16] == p[..16] && w[24..|p|] == p[24..] && w[|p|..] == Zeros(|w| - |p|)
  {
    var r := Marked(p, i, n);
    var w := Padded(r);
    MarkedFields(p, i, n);
    AlignedMod(|p|);
    hide Flags, NextCommand, HasHeader, Marked;
    HeaderOfPrefix(r, w);
    assert w[..16] == r[..16] && w[24..|p|] == r[24..];
  }

  /** For every list of responses: the receiver splits the encoded chain into the padded responses, in order,
      if and only if the first is not marked related; if it is, all are, and the receiver panics at the last.
      Only the last has NextCommand zero, all but the first are marked related, and apart from the related
      bit and NextCommand each is the original response. */
  lemma RoundTrip(ps: seq<Bytes>)
    requires AllPlain(ps) && ps != []
    ensures Packets(ps)
    ensures Receive(Chain(ps), false) == if Related(ps[0]) then (Members(ps)[..|ps| - 1], Panicked) else (Members(ps), Ended)
    ensures forall i :: 0 <= i < |ps| ==> IsMember(Members(ps)[i], ps[i], i, |ps|)
  {
    assert Packets(ps);
    var ws, n := Members(ps), |ps|;
    forall i | 0 <= i < n ensures IsMember(ws[i], ps[i], i, n) { MemberIs(ps[i], i, n); }
    assert Linked(ws) by {
      hide Flags, IsInvalid, Padded, Marked;
      forall i | 0 <= i < n ensures HasHeader(ws[i]) && NextCommand(ws[i]) == (if i < n - 1 then |ws[i]| else 0) && |ws[i]| % 8 == 0 {
        assert IsMember(ws[i], ps[i], i, n);
      }
    }
    MembersRelated(ps);
    ReceiveLinked(ws, false);
  }

  lemma MembersRelated(ps: seq<Bytes>)
    requires Packets(ps) && ps != [] && forall i :: 0 <= i < |ps| ==> IsMember(Members(ps)[i], ps[i], i, |ps|)
    ensures AllRelated(Members(ps)) <==> Related(ps[0])
  {
    hide Related, NextCommand, Members, IsMember;
    var ws := Members(ps);
    forall i | 0 <= i < |ps| ensures |ws[i]| >= 64 && (Related(ws[i]) <==> i > 0 || Related(ps[i])) {
      MemberRelated(ws[i], ps[i], i, |ps|);
    }
    if Related(ps[0]) {
      assert AllRelated(ws);
    } else {
      assert !Related(ws[0]);
    }
  }

  lemma MemberRelated(w: Bytes, p: Bytes, i: nat, n: nat)
    requires IsMember(w, p, i, n)
    ensures |w| >= 64 && |p| >= 64 && (Related(w) <==> i > 0 || Related(p))
  {
    hide Related;
  }

  /** w is response p as member i of n. */
  ghost predicate IsMember(w: Bytes, p: Bytes, i: nat, n: nat) {
    && |p| >= 64 && HasHeader(w) && |w| == Align8(|p|) && |w| % 8 == 0
    && NextCommand(w) == (if i < n - 1 then |w| else 0)
    && (Related(w) <==> i > 0 || Related(p))
    && (forall k: nat :: k != RELATED_BIT ==> (Bit(Flags(w), k) <==> Bit(Flags(p), k)))
    && w[..16] == p[..16] && w[24..|p|] == p[24..] && w[|p|..] == Zeros(|w| - |p|)
  }

  lemma MemberIs(p: Bytes, i: nat, n: nat)
    requires Plain(p) && i < n
    ensures IsMember(Padded(Marked(p, i, n)), p, i, n)
  {
    hide Bit, Or, Padded, Marked, U32;
    MemberFields(p, i, n);
    OrRelated(Flags(p));
  }

  lemma MemberLength(ps: seq<Bytes>, i: nat)
    requires Packets(ps) && i < |ps|
    ensures |Members(ps)[i]| == Align8(|ps[i]|)
  {
  }

  /** Size is the length of the chain. */
  lemma SizeIsLength(ps: seq<Bytes>, i: nat)
    requires Packets(ps) && i <= |ps|
    ensures |Concat(Members(ps)[..i])| == Size(ps[..i])
  {
    hide Size, Concat, Align8;
    forall j | 0 <= j < |ps| ensures |Members(ps)[j]| == Align8(|ps[j]|) { MemberLength(ps, j); }
    LengthsAdd(ps, Members(ps), i);
  }

  lemma {:induction false} LengthsAdd(ps: seq<Bytes>, ws: seq<Bytes>, i: nat)
    requires i <= |ps| == |ws| && forall j :: 0 <= j < |ps| ==> |ws[j]| == Align8(|ps[j]|)
    ensures |Concat(ws[..i])| == Size(ps[..i])
  {
    if i > 0 {
      hide Size, Concat, Align8;
      LengthsAdd(ps, ws, i - 1);
      SizeStep(ps, i - 1);
      ConcatSnoc(ws, i - 1);
    }
  }

  lemma SizeStep(ps: seq<Bytes>, i: nat)
    requires i < |ps|
    ensures Size(ps[..i + 1]) == Size(ps[..i]) + Align8(|ps[i]|)
  {
    hide Align8;
    assert ps[..i + 1][..i] == ps[..i];
  }

  /** The receiver sees where the chain starts and where it ends. */
  lemma EndsSeen(ps: seq<Bytes>)
    requires AllPlain(ps) && |ps| >= 2 && !Related(ps[0])
    ensures Packets(ps)
    ensures var ws := Members(ps);
            && (forall i :: 0 <= i < |ws| ==> |ws[i]| >= 64)
            && (forall i :: 0 <= i < |ws| ==> (IsCompoundFirst(ws[i]) <==> i == 0) && (IsCompoundLast(ws[i]) <==> i == |ws| - 1))
  {
    RoundTrip(ps);
    hide Related, NextCommand, Receive;
    forall i | 0 <= i < |ps| ensures |Members(ps)[i]| >= 64 && (IsCompoundFirst(Members(ps)[i]) <==> i == 0) && (IsCompoundLast(Members(ps)[i]) <==> i == |ps| - 1) {
      assert IsMember(Members(ps)[i], ps[i], i, |ps|);
    }
  }

  // ----- compoundContext -----

  class CompoundContext {
    var rsp: seq<array<byte>>

    constructor ()
      ensures rsp == [] && Valid()
    {
      rsp := [];
    }

    /** The responses are separate buffers, each with a header. */
    ghost predicate Valid()
      reads this
    {
      && (forall i :: 0 <= i < |rsp| ==> rsp[i].Length >= 64)
      && (forall i, j :: 0 <= i < j < |rsp| ==> rsp[i] != rsp[j])
    }

    ghost function Contents(): (ps: seq<Bytes>)
      requires Valid()
      reads this, rsp
      ensures |ps| == |rsp| && Packets(ps) && forall i :: 0 <= i < |ps| ==> ps[i] == rsp[i][..]
    {
      seq(|rsp|, i requires 0 <= i < |rsp| reads this, rsp => rsp[i][..])
    }

    method AddResponse(pkt: array<byte>)
      requires Valid() && pkt.Length >= 64 && pkt !in rsp
      modifies this
      ensures Valid() && rsp == old(rsp) + [pkt]
      ensures Contents() == old(Contents()) + [pkt[..]]
    {
      rsp := rsp + [pkt];
    }

    method BufferSize() returns (s: nat)
      requires Valid()
      ensures s == Size(Contents())
    {
      ghost var ps := Contents();
      assert ps[..|ps|] == ps;
      s := 0;
      for i := 0 to |rsp|
        invariant s == Size(ps[..i])
      {
        assert ps[..i + 1][..i] == ps[..i];
        s := s + Align8(rsp[i].Length);
      }
    }

    /** Encode: marks the headers in place and writes the chain. */
    method Encode(buf: array<byte>)
      requires Valid() && buf !in rsp && buf.Length == Size(Contents())
      requires forall i :: 0 <= i < buf.Length ==> buf[i] == 0
      modifies rsp, buf
      ensures buf[..] == Chain(old(Contents()))
      ensures forall i :: 0 <= i < |rsp| ==> rsp[i][..] == Marked(old(Contents())[i], i, |rsp|)
    {
      ghost var ps := Contents();
      StartsEmpty(buf[..], ps);
      EncodeAll(buf, ps);
      AllMarked(ps);
    }

    method EncodeAll(buf: array<byte>, ghost ps: seq<Bytes>)
      requires Valid() && buf !in rsp && Packets(ps) && MarkedUpTo(0, ps) && FilledUpTo(buf[..], 0, 0, ps)
      modifies rsp, buf
      ensures buf[..] == Chain(ps) && MarkedUpTo(|rsp|, ps)
    {
      hide FilledUpTo, Packets, Size, Align8, Chain, MarkedUpTo;
      MarkedCount(0, ps);
      var off: nat := 0;
      for i := 0 to |rsp|
        invariant MarkedUpTo(i, ps) && FilledUpTo(buf[..], off, i, ps)
      {
        EncodeNext(buf, off, i, ps);
        off := off + Align8(rsp[i].Length);
      }
      IsFull(buf[..], off, ps);
    }

    lemma MarkedCount(i: nat, ps: seq<Bytes>)
      requires Packets(ps) && MarkedUpTo(i, ps)
      ensures |ps| == |rsp|
    {
    }

    /** The first i responses are marked, the others are as they were. */
    ghost predicate MarkedUpTo(i: nat, ps: seq<Bytes>)
      requires Packets(ps)
      reads this, rsp
    {
      |rsp| == |ps| && forall j :: 0 <= j < |rsp| ==> rsp[j][..] == if j < i then Marked(ps[j], j, |ps|) else ps[j]
    }

    lemma AllMarked(ps: seq<Bytes>)
      requires Packets(ps) && MarkedUpTo(|rsp|, ps)
      ensures forall j :: 0 <= j < |rsp| ==> j < |ps| && rsp[j][..] == Marked(ps[j], j, |rsp|)
    {
    }

    /** One round of Encode. */
    method EncodeNext(buf: array<byte>, off: nat, i: nat, ghost ps: seq<Bytes>)
      requires Valid() && i < |rsp| && Packets(ps) && MarkedUpTo(i, ps) && buf !in rsp
      requires FilledUpTo(buf[..], off, i, ps)
      modifies rsp[i], buf
      ensures MarkedUpTo(i + 1, ps) && FilledUpTo(buf[..], off + Align8(rsp[i].Length), i + 1, ps)
    {
      hide FilledUpTo, Marked, Padded, Members, Size, Align8, Packets;
      EncodeMember(buf, off, rsp[i], i, |rsp|, ps);
    }
  }

  /** The buffer holds the first i members, and zeros from off on. */
  ghost predicate FilledUpTo(b: Bytes, off: nat, i: nat, ps: seq<Bytes>)
    requires Packets(ps)
  {
    i <= |ps| && off == |Concat(Members(ps)[..i])| && |b| == Size(ps) && Written(b, Concat(Members(ps)[..i]))
  }

  lemma StartsEmpty(b: Bytes, ps: seq<Bytes>)
    requires Packets(ps) && |b| == Size(ps) && forall i :: 0 <= i < |b| ==> b[i] == 0
    ensures FilledUpTo(b, 0, 0, ps)
  {
    assert Members(ps)[..0] == [];
  }

  lemma IsFull(b: Bytes, off: nat, ps: seq<Bytes>)
    requires Packets(ps) && FilledUpTo(b, off, |ps|, ps)
    ensures b == Chain(ps)
  {
    hide Written, Concat, Size, Padded, Marked;
    SizeIsLength(ps, |ps|);
    assert ps[..|ps|] == ps && Members(ps)[..|ps|] == Members(ps);
    FullyWritten(b, Concat(Members(ps)));
  }

  /** One member: marked, then copied. */
  method EncodeMember(buf: array<byte>, off: nat, pkt: array<byte>, i: nat, n: nat, ghost ps: seq<Bytes>)
    requires Packets(ps) && i < n == |ps| && pkt[..] == ps[i] && buf != pkt
    requires FilledUpTo(buf[..], off, i, ps)
    modifies pkt, buf
    ensures pkt[..] == Marked(ps[i], i, n) && FilledUpTo(buf[..], off + Align8(pkt.Length), i + 1, ps)
  {
    hide Written, Concat, Marked, Padded, Members, Size, Align8;
    MarkPacket(pkt, i, n);
    RoomLeft(ps, i);
    CopyPadded(buf, off, pkt[..], Concat(Members(ps)[..i]));
  }

  /** The header fields of member i of n, in place. */
  method MarkPacket(pkt: array<byte>, i: nat, n: nat)
    requires pkt.Length >= 64 && i < n
    modifies pkt
    ensures pkt[..] == Marked(old(pkt[..]), i, n)
  {
    hide U32, LE32, Or, Splice;
    if i > 0 {
      var flags := Flags(pkt[..]);
      Put(pkt, 16, LE32(Or(flags, RELATED)));
    }
    if i != n - 1 { Put(pkt, 20, LE32(Align8(pkt.Length))); }
  }

  /** A packet and the zeros that pad it. */
  method CopyPadded(buf: array<byte>, off: nat, p: Bytes, ghost done: Bytes)
    requires Written(buf[..], done) && off == |done| && off + Align8(|p|) <= buf.Length
    modifies buf
    ensures Written(buf[..], done + Padded(p))
  {
    hide Written;
    Append(buf, off, p, done);
    WrittenZeros(buf[..], done + p, Align8(|p|) - |p|);
    assert done + p + Zeros(Align8(|p|) - |p|) == done + Padded(p);
  }

  /** There is room for member i behind the members before it. */
  lemma RoomLeft(ps: seq<Bytes>, i: nat)
    requires Packets(ps) && i < |ps|
    ensures var ws := Members(ps);
            && |Concat(ws[..i])| + Align8(|ps[i]|) <= Size(ps)
            && Concat(ws[..i + 1]) == Concat(ws[..i]) + Padded(Marked(ps[i], i, |ps|))
            && |Concat(ws[..i + 1])| == |Concat(ws[..i])| + Align8(|ps[i]|)
  {
    hide Concat, Marked;
    var ws := Members(ps);
    SizeIsLength(ps, |ps|);
    assert ps[..|ps|] == ps && ws[..|ps|] == ws;
    ConcatSnoc(ws, i);
  }
}
