/** Message signatures of internal/ntlm ([MS-NLMP] sections 3.4.4.1 and 3.4.4.2): mac in ntlm.go, and Sum,
    CheckSum, Seal and Unseal of session.go without the SEAL flag. The hash functions and the RC4 key stream
    are uninterpreted. */
module NtlmSession {
  import opened Bytes
  import opened Utf16
  import opened Segments

  type Digest = b: Bytes | |b| == 16 witness Zeros(16)

  /** Cryptography and case mapping. stream(key, i) is byte i of the RC4 key stream of key. */
  datatype Primitives = Primitives(
    md4: Bytes -> Digest,
    md5: Bytes -> Digest,
    hmac: (Bytes, Bytes) -> Digest,
    crc32: Bytes -> nat,
    stream: (Bytes, nat) -> byte,
    upper: Str -> Str)

  // ----- RC4 -----

  /** An *rc4.Cipher: the key and how many bytes of its stream are used. */
  datatype Rc4 = Rc4(key: Bytes, used: nat)

  function Advance(h: Rc4, n: nat): Rc4 { h.(used := h.used + n) }

  /** XORKeyStream */
  function XorStream(c: Primitives, h: Rc4, b: Bytes): (r: Bytes)
    ensures |r| == |b|
    ensures forall i :: 0 <= i < |b| ==> r[i] == XorByte(b[i], c.stream(h.key, h.used + i))
  {
    seq(|b|, i requires 0 <= i < |b| => XorByte(b[i], c.stream(h.key, h.used + i)))
  }

  function XorBytes(a: Bytes, b: Bytes): (r: Bytes)
    requires |a| == |b|
    ensures |r| == |a|
  {
    seq(|a|, i requires 0 <= i < |a| => XorByte(a[i], b[i]))
  }

  /** The same stream position decrypts what it encrypted. */
  lemma XorStreamTwice(c: Primitives, h: Rc4, b: Bytes)
    ensures XorStream(c, h, XorStream(c, h, b)) == b
  {
    var r := XorStream(c, h, XorStream(c, h, b));
    forall i | 0 <= i < |b| ensures r[i] == b[i] { XorTwice(b[i], c.stream(h.key, h.used + i)); }
  }

  // ----- negotiate flags, as bit numbers -----

  const REQUEST_TARGET := 2
  const SIGN := 4
  const DATAGRAM := 6
  const LM_KEY := 7
  const EXTENDED_SESSIONSECURITY := 19
  const NEGOTIATE_TARGET_INFO := 23
  const NEGOTIATE_VERSION := 25
  const NEGOTIATE_128 := 29
  const KEY_EXCH := 30
  const NEGOTIATE_56 := 31

  // ----- mac -----

  /** One direction of a session: the cipher state and the next sequence number. */
  datatype Line = Line(cipher: Rc4, seqNum: nat)

  /** NtlmsspMessageSignatureExt */
  function TagExt(c: Primitives, flags: nat, h: Rc4, signingKey: Bytes, seqNum: nat, msg: Bytes): (t: Bytes)
    ensures |t| == 16
  {
    var sum := c.hmac(signingKey, LE32(seqNum) + msg)[..8];
    LE32(1) + (if Bit(flags, KEY_EXCH) then XorStream(c, h, sum) else sum) + LE32(seqNum)
  }

  /** NtlmsspMessageSignature: the random pad is drawn from the stream and then zeroed. */
  function TagPlain(c: Primitives, h: Rc4, seqNum: nat, msg: Bytes): (t: Bytes)
    ensures |t| == 16
  {
    LE32(1) + Zeros(4) + XorStream(c, Advance(h, 4), LE32(c.crc32(msg)))
    + XorBytes(XorStream(c, Advance(h, 8), Zeros(4)), LE32(seqNum))
  }

  function Tag(c: Primitives, flags: nat, signingKey: Bytes, l: Line, msg: Bytes): (t: Bytes)
    ensures |t| == 16
  {
    if Bit(flags, EXTENDED_SESSIONSECURITY) then TagExt(c, flags, l.cipher, signingKey, l.seqNum, msg)
    else TagPlain(c, l.cipher, l.seqNum, msg)
  }

  /** The line behind a tag; sequence numbers are uint32. */
  function AfterTag(flags: nat, l: Line): Line {
    if Bit(flags, EXTENDED_SESSIONSECURITY) then
      Line(if Bit(flags, KEY_EXCH) then Advance(l.cipher, 8) else l.cipher, (l.seqNum + 1) % TWO32)
    else
      Line(Advance(l.cipher, 12), if Bit(flags, DATAGRAM) then l.seqNum else (l.seqNum + 1) % TWO32)
  }

  /** XORKeyStream(tag[lo:hi], tag[lo:hi]) */
  method XorInPlace(c: Primitives, b: array<byte>, lo: nat, hi: nat, h: Rc4) returns (h': Rc4)
    requires lo <= hi <= b.Length
    modifies b
    ensures b[..] == Splice(old(b[..]), lo, XorStream(c, h, old(b[..])[lo..hi]))
    ensures h' == Advance(h, hi - lo)
  {
    var i := lo;
    while i < hi
      invariant lo <= i <= hi
      invariant forall j :: 0 <= j < b.Length ==>
                  b[j] == if lo <= j < i then XorByte(old(b[j]), c.stream(h.key, h.used + j - lo)) else old(b[j])
    {
      b[i] := XorByte(b[i], c.stream(h.key, h.used + i - lo));
      i := i + 1;
    }
    h' := Advance(h, hi - lo);
  }

  /** mac on a fresh tag. */
  method Mac(c: Primitives, flags: nat, h: Rc4, signingKey: Bytes, seqNum: nat, msg: Bytes)
    returns (tag: Bytes, h': Rc4, seqNum': nat)
    ensures tag == Tag(c, flags, signingKey, Line(h, seqNum), msg)
    ensures Line(h', seqNum') == AfterTag(flags, Line(h, seqNum))
  {
    hide Bit, LE32, LE16, XorStream, XorBytes, Zeros, XorByte;
    var t := new byte[16](_ => 0);
    h' := h;
    seqNum' := seqNum;
    if !Bit(flags, EXTENDED_SESSIONSECURITY) {
      tag, h' := MacPlain(c, h, seqNum, msg);
      if !Bit(flags, DATAGRAM) { seqNum' := (seqNum + 1) % TWO32; }
    } else {
      Put(t, 0, LE32(1));
      Put(t, 12, LE32(seqNum));
      var sum := c.hmac(signingKey, LE32(seqNum) + msg)[..8];
      Put(t, 4, sum);
      ghost var b := t[..];
      assert b == LE32(1) + sum + LE32(seqNum);
      if Bit(flags, KEY_EXCH) {
        assert b[4..12] == sum;
        h' := XorInPlace(c, t, 4, 12, h);
        assert t[..] == LE32(1) + XorStream(c, h, sum) + LE32(seqNum);
      }
      seqNum' := (seqNum + 1) % TWO32;
      tag := t[..];
    }
  }

  /** The branch of mac without extended session security. */
  method MacPlain(c: Primitives, h: Rc4, seqNum: nat, msg: Bytes) returns (tag: Bytes, h': Rc4)
    ensures tag == TagPlain(c, h, seqNum, msg) && h' == Advance(h, 12)
  {
    hide LE32, LE16, XorStream, XorBytes, XorByte, Seg;
    var t := new byte[16](_ => 0);
    Words();
    BlankSeg(t[..], WORDS);
    ghost var ws := Blank(WORDS);
    assert Zeros(4) == [0, 0, 0, 0];
    hide Zeros;
    PutSegment(t, 0, LE32(1), WORDS, ws, 0);
    ws := ws[0 := LE32(1)];
    PutSegment(t, 8, LE32(c.crc32(msg)), WORDS, ws, 2);
    ws := ws[2 := LE32(c.crc32(msg))];
    h' := XorWord(c, t, 4, h, ws, 1);
    ws := ws[1 := XorStream(c, h, ws[1])];
    h' := XorWord(c, t, 8, h', ws, 2);
    ws := ws[2 := XorStream(c, Advance(h, 4), ws[2])];
    h' := XorWord(c, t, 12, h', ws, 3);
    ws := ws[3 := XorStream(c, Advance(h, 8), ws[3])];
    SegAt(t[..], WORDS, ws, 3);
    var last := XorBytes(t[..][12..16], LE32(seqNum));
    PutSegment(t, 12, last, WORDS, ws, 3);
    ws := ws[3 := last];
    PutSegment(t, 4, [0, 0, 0, 0], WORDS, ws, 1);
    ws := ws[1 := [0, 0, 0, 0]];
    FourWords(t[..], ws);
    tag := t[..];
  }

  const WORDS: seq<nat> := [4, 4, 4, 4]

  lemma Words()
    ensures Off(WORDS, 0) == 0 && Off(WORDS, 1) == 4 && Off(WORDS, 2) == 8 && Off(WORDS, 3) == 12 && Off(WORDS, 4) == 16
    ensures Blank(WORDS) == [Zeros(4), Zeros(4), Zeros(4), Zeros(4)]
  {
  }

  lemma FourWords(b: Bytes, ws: seq<Bytes>)
    requires Seg(b, WORDS, ws)
    ensures b == ws[0] + ws[1] + ws[2] + ws[3]
  {
    Words();
    SegLength(b, WORDS, ws);
    SegAt(b, WORDS, ws, 0);
    SegAt(b, WORDS, ws, 1);
    SegAt(b, WORDS, ws, 2);
    SegAt(b, WORDS, ws, 3);
  }

  /** XORKeyStream over one word of the tag. */
  method XorWord(c: Primitives, t: array<byte>, off: nat, h: Rc4, ghost ws: seq<Bytes>, ghost i: nat) returns (h': Rc4)
    requires i < 4 == |ws| && t.Length == 16 && Seg(t[..], WORDS, ws) && off == Off(WORDS, i)
    modifies t
    ensures |ws[i]| == 4 && Seg(t[..], WORDS, ws[i := XorStream(c, h, ws[i])]) && h' == Advance(h, 4)
  {
    SegWidth(t[..], WORDS, ws, i);
    SegAt(t[..], WORDS, ws, i);
    SegSplice(t[..], WORDS, ws, i, 0, XorStream(c, h, ws[i]));
    SpliceAll(ws[i], XorStream(c, h, ws[i]));
    hide Seg, Splice, XorStream;
    h' := XorInPlace(c, t, off, off + 4, h);
  }

  // ----- sessions -----

  datatype SessionState = SessionState(
    isClientSide: bool,
    user: Str,
    negotiateFlags: nat,
    exportedSessionKey: Bytes,
    clientSigningKey: Bytes,
    serverSigningKey: Bytes,
    clientHandle: Rc4,
    serverHandle: Rc4)

  /** The handle and key of the messages that a side sends (own) or receives. */
  function HandleOf(s: SessionState, own: bool): Rc4 {
    if s.isClientSide == own then s.clientHandle else s.serverHandle
  }

  function KeyOf(s: SessionState, own: bool): Bytes {
    if s.isClientSide == own then s.clientSigningKey else s.serverSigningKey
  }

  function WithHandle(s: SessionState, own: bool, h: Rc4): SessionState {
    if s.isClientSide == own then s.(clientHandle := h) else s.(serverHandle := h)
  }

  /** What a side computes for one message on a line: nothing when signing was not negotiated. */
  function Signed(c: Primitives, flags: nat, key: Bytes, l: Line, msg: Bytes): (Option<Bytes>, Line) {
    if Bit(flags, SIGN) then (Some(Tag(c, flags, key, l, msg)), AfterTag(flags, l)) else (None, Line(l.cipher, 0))
  }

  /** Sum: the signature (None is Go's nil), the next sequence number, and the session. */
  function SumOf(c: Primitives, s: SessionState, msg: Bytes, seqNum: nat): (Option<Bytes>, nat, SessionState) {
    var (sum, l) := Signed(c, s.negotiateFlags, KeyOf(s, true), Line(HandleOf(s, true), seqNum), msg);
    (sum, l.seqNum, WithHandle(s, true, l.cipher))
  }

  /** CheckSum. A refusal answers sequence number 0, with the cipher moved on all the same. */
  function CheckOf(c: Primitives, s: SessionState, sum: Option<Bytes>, msg: Bytes, seqNum: nat): (bool, nat, SessionState) {
    var (expected, l) := Signed(c, s.negotiateFlags, KeyOf(s, false), Line(HandleOf(s, false), seqNum), msg);
    (sum == expected, if sum == expected then l.seqNum else 0, WithHandle(s, false, l.cipher))
  }

  /** Seal without the SEAL flag, into memory that was not used before. Without signing either, the ciphertext is
      all zeros. */
  function SealOf(c: Primitives, s: SessionState, msg: Bytes, seqNum: nat): (Bytes, nat, SessionState) {
    if Bit(s.negotiateFlags, SIGN) then
      var (sum, next, s') := SumOf(c, s, msg, seqNum);
      (sum.value + msg, next, s')
    else (Zeros(|msg| + 16), seqNum, s)
  }

  /** Unseal without the SEAL flag. */
  function UnsealOf(c: Primitives, s: SessionState, b: Bytes, seqNum: nat): (Option<Bytes>, nat, SessionState)
    requires |b| >= 16
  {
    if Bit(s.negotiateFlags, SIGN) then
      var (ok, next, s') := CheckOf(c, s, Some(b[..16]), b[16..], seqNum);
      (if ok then Some(b[16..]) else None, next, s')
    else if b[..16] == Zeros(16) then (Some(b[16..]), seqNum, s)
    else (None, 0, s)
  }

  class Session {
    const c: Primitives
    const isClientSide: bool
    const user: Str
    const negotiateFlags: nat
    const exportedSessionKey: Bytes
    const clientSigningKey: Bytes
    const serverSigningKey: Bytes
    var clientHandle: Rc4
    var serverHandle: Rc4

    constructor (c: Primitives, s: SessionState)
      ensures State() == s && this.c == c
    {
      this.c, isClientSide, user, negotiateFlags := c, s.isClientSide, s.user, s.negotiateFlags;
      exportedSessionKey, clientSigningKey, serverSigningKey := s.exportedSessionKey, s.clientSigningKey, s.serverSigningKey;
      clientHandle, serverHandle := s.clientHandle, s.serverHandle;
    }

    function State(): SessionState
      reads this
    {
      SessionState(isClientSide, user, negotiateFlags, exportedSessionKey, clientSigningKey, serverSigningKey,
                   clientHandle, serverHandle)
    }

    method Sum(plaintext: Bytes, seqNum: nat) returns (sum: Option<Bytes>, next: nat)
      modifies this
      ensures (sum, next, State()) == SumOf(c, old(State()), plaintext, seqNum)
    {
      hide Bit, Tag, AfterTag;
      if !Bit(negotiateFlags, SIGN) { return None, 0; }
      var tag;
      if isClientSide {
        tag, clientHandle, next := Mac(c, negotiateFlags, clientHandle, clientSigningKey, seqNum, plaintext);
      } else {
        tag, serverHandle, next := Mac(c, negotiateFlags, serverHandle, serverSigningKey, seqNum, plaintext);
      }
      return Some(tag), next;
    }

    method CheckSum(sum: Option<Bytes>, plaintext: Bytes, seqNum: nat) returns (ok: bool, next: nat)
      modifies this
      ensures (ok, next, State()) == CheckOf(c, old(State()), sum, plaintext, seqNum)
    {
      hide Bit, Tag, AfterTag;
      if !Bit(negotiateFlags, SIGN) { return sum.None?, 0; }
      var ret;
      if isClientSide {
        ret, serverHandle, next := Mac(c, negotiateFlags, serverHandle, serverSigningKey, seqNum, plaintext);
      } else {
        ret, clientHandle, next := Mac(c, negotiateFlags, clientHandle, clientSigningKey, seqNum, plaintext);
      }
      if sum != Some(ret) { return false, 0; }
      return true, next;
    }

    method Seal(dst: Bytes, plaintext: Bytes, seqNum: nat) returns (ret: Bytes, next: nat)
      modifies this
      ensures var (b, n, s) := SealOf(c, old(State()), plaintext, seqNum);
              ret == dst + b && next == n && State() == s
    {
      hide Bit, Tag, AfterTag;
      if !Bit(negotiateFlags, SIGN) { return dst + Zeros(|plaintext| + 16), seqNum; }
      var tag;
      tag, next := Sum(plaintext, seqNum);
      return dst + (tag.value + plaintext), next;
    }

    method Unseal(dst: Bytes, ciphertext: Bytes, seqNum: nat) returns (r: Option<Bytes>, next: nat)
      requires |ciphertext| >= 16
      modifies this
      ensures var (p, n, s) := UnsealOf(c, old(State()), ciphertext, seqNum);
              r == (if p.None? then None else Some(dst + p.value)) && next == n && State() == s
    {
      hide Bit, Tag, AfterTag, Zeros;
      if !Bit(negotiateFlags, SIGN) {
        if ciphertext[..16] != Zeros(16) { return None, 0; }
        return Some(dst + ciphertext[16..]), seqNum;
      }
      var ok;
      ok, next := CheckSum(Some(ciphertext[..16]), ciphertext[16..], seqNum);
      if !ok { return None, next; }
      return Some(dst + ciphertext[16..]), next;
    }
  }

  // ----- two sides over a network -----

  datatype Message = Message(body: Bytes, sum: Option<Bytes>)

  /** Both sessions, both sides' sequence numbers for each direction, and the messages under way, oldest
      first. */
  datatype Net = Net(
    client: SessionState, server: SessionState,
    upSent: nat, upReceived: nat, up: seq<Message>,
    downSent: nat, downReceived: nat, down: seq<Message>)

  datatype NetEvent = ClientSends(body: Bytes) | ServerReceives | ServerSends(body: Bytes) | ClientReceives

  /** One call of Sum or CheckSum; ok is CheckSum's answer. */
  ghost predicate NetStep(c: Primitives, n: Net, e: NetEvent, n': Net, ok: bool) {
    match e
    case ClientSends(body) =>
      var (sum, next, s) := SumOf(c, n.client, body, n.upSent);
      ok && n' == n.(client := s, upSent := next, up := n.up + [Message(body, sum)])
    case ServerReceives =>
      n.up != [] &&
      var (good, next, s) := CheckOf(c, n.server, n.up[0].sum, n.up[0].body, n.upReceived);
      ok == good && n' == n.(server := s, upReceived := next, up := n.up[1..])
    case ServerSends(body) =>
      var (sum, next, s) := SumOf(c, n.server, body, n.downSent);
      ok && n' == n.(server := s, downSent := next, down := n.down + [Message(body, sum)])
    case ClientReceives =>
      n.down != [] &&
      var (good, next, s) := CheckOf(c, n.client, n.down[0].sum, n.down[0].body, n.downReceived);
      ok == good && n' == n.(client := s, downReceived := next, down := n.down[1..])
  }

  /** The queue is what the sender makes of its messages from line l on, and it ends at line l'. */
  ghost predicate Expects(c: Primitives, flags: nat, key: Bytes, l: Line, q: seq<Message>, l': Line)
    decreases |q|
  {
    if q == [] then l == l'
    else
      var r := Signed(c, flags, key, l, q[0].body);
      q[0].sum == r.0 && Expects(c, flags, key, r.1, q[1..], l')
  }

  lemma {:induction false} ExpectsSnoc(c: Primitives, flags: nat, key: Bytes, l: Line, q: seq<Message>, l': Line, body: Bytes)
    requires Expects(c, flags, key, l, q, l')
    ensures var (sum, next) := Signed(c, flags, key, l', body);
            Expects(c, flags, key, l, q + [Message(body, sum)], next)
    decreases |q|
  {
    var (sum, next) := Signed(c, flags, key, l', body);
    var m := Message(body, sum);
    if q == [] {
      assert ([] + [m])[1..] == [];
    } else {
      assert (q + [m])[1..] == q[1..] + [m];
      ExpectsSnoc(c, flags, key, Signed(c, flags, key, l, q[0].body).1, q[1..], l', body);
    }
  }

  /** Two sessions of one handshake: opposite sides, the same flags and keys. */
  ghost predicate Paired(a: SessionState, b: SessionState) {
    && a.isClientSide && !b.isClientSide
    && a.negotiateFlags == b.negotiateFlags
    && a.clientSigningKey == b.clientSigningKey && a.serverSigningKey == b.serverSigningKey
  }

  /** Each receiver will make of the messages under way exactly what their sender made of them. */
  ghost predicate InStep(c: Primitives, n: Net) {
    && Paired(n.client, n.server)
    && Expects(c, n.client.negotiateFlags, n.client.clientSigningKey,
               Line(n.server.clientHandle, n.upReceived), n.up, Line(n.client.clientHandle, n.upSent))
    && Expects(c, n.client.negotiateFlags, n.client.serverSigningKey,
               Line(n.client.serverHandle, n.downReceived), n.down, Line(n.server.serverHandle, n.downSent))
  }

  lemma StepKeepsInStep(c: Primitives, n: Net, e: NetEvent, n': Net, ok: bool)
    requires InStep(c, n) && NetStep(c, n, e, n', ok)
    ensures ok && InStep(c, n')
  {
    hide Tag, AfterTag, Bit;
    match e
    case ClientSends(body) =>
      ExpectsSnoc(c, n.client.negotiateFlags, n.client.clientSigningKey,
                  Line(n.server.clientHandle, n.upReceived), n.up, Line(n.client.clientHandle, n.upSent), body);
    case ServerSends(body) =>
      ExpectsSnoc(c, n.client.negotiateFlags, n.client.serverSigningKey,
                  Line(n.client.serverHandle, n.downReceived), n.down, Line(n.server.serverHandle, n.downSent), body);
    case ServerReceives =>
    case ClientReceives =>
  }

  ghost predicate NetRun(c: Primitives, ns: seq<Net>, es: seq<NetEvent>, oks: seq<bool>) {
    |ns| == |es| + 1 && |oks| == |es| && forall i :: 0 <= i < |es| ==> NetStep(c, ns[i], es[i], ns[i + 1], oks[i])
  }

  /** Start of traffic: equal cipher states and sequence numbers, nothing under way. */
  ghost predicate Fresh(n: Net) {
    && Paired(n.client, n.server) && n.up == [] && n.down == []
    && n.client.clientHandle == n.server.clientHandle && n.client.serverHandle == n.server.serverHandle
    && n.upSent == n.upReceived && n.downSent == n.downReceived
  }

  /** However sends and in-order deliveries of both directions interleave, every CheckSum accepts; and
      whenever a direction has nothing under way, both sides hold the same cipher state and the same sequence
      number for it. */
  lemma {:induction false} Lockstep(c: Primitives, ns: seq<Net>, es: seq<NetEvent>, oks: seq<bool>, i: nat)
    requires NetRun(c, ns, es, oks) && Fresh(ns[0]) && i <= |es|
    ensures InStep(c, ns[i])
    ensures i < |es| ==> oks[i]
    ensures ns[i].up == [] ==> ns[i].client.clientHandle == ns[i].server.clientHandle && ns[i].upSent == ns[i].upReceived
    ensures ns[i].down == [] ==> ns[i].client.serverHandle == ns[i].server.serverHandle && ns[i].downSent == ns[i].downReceived
  {
    hide NetStep;
    if i > 0 {
      Lockstep(c, ns, es, oks, i - 1);
      StepKeepsInStep(c, ns[i - 1], es[i - 1], ns[i], oks[i - 1]);
    }
    if i < |es| { StepKeepsInStep(c, ns[i], es[i], ns[i + 1], oks[i]); }
  }

  /** After any traffic, whenever nothing is under way in a direction: the receiver would accept a signature for
      any message if and only if it is the one that the peer's Sum would make of it then. */
  lemma AcceptsOnlyThePeersSum(c: Primitives, ns: seq<Net>, es: seq<NetEvent>, oks: seq<bool>, i: nat, msg: Bytes, sum: Option<Bytes>)
    requires NetRun(c, ns, es, oks) && Fresh(ns[0]) && i <= |es|
    ensures ns[i].up == [] ==>
              (CheckOf(c, ns[i].server, sum, msg, ns[i].upReceived).0 <==> sum == SumOf(c, ns[i].client, msg, ns[i].upSent).0)
    ensures ns[i].down == [] ==>
              (CheckOf(c, ns[i].client, sum, msg, ns[i].downReceived).0 <==> sum == SumOf(c, ns[i].server, msg, ns[i].downSent).0)
  {
    hide NetStep, NetRun, Fresh;
    Lockstep(c, ns, es, oks, i);
  }

  /** With extended session security a signature is refused at every other sequence number, whatever the
      message and the cipher state: replays and reorderings do not pass. */
  lemma NoReplay(c: Primitives, a: SessionState, b: SessionState, msg: Bytes, seqNum: nat, msg': Bytes, seqNum': nat)
    requires a.negotiateFlags == b.negotiateFlags
    requires Bit(a.negotiateFlags, SIGN) && Bit(a.negotiateFlags, EXTENDED_SESSIONSECURITY)
    requires seqNum < TWO32 && seqNum' < TWO32 && seqNum != seqNum'
    ensures !CheckOf(c, b, SumOf(c, a, msg, seqNum).0, msg', seqNum').0
  {
    hide LE32, U32, Tag, Bit, At;
    var t, t' := SumOf(c, a, msg, seqNum).0.value, Tag(c, b.negotiateFlags, KeyOf(b, false), Line(HandleOf(b, false), seqNum'), msg');
    TagCounter(c, a.negotiateFlags, KeyOf(a, true), Line(HandleOf(a, true), seqNum), msg);
    TagCounter(c, b.negotiateFlags, KeyOf(b, false), Line(HandleOf(b, false), seqNum'), msg');
    ReadLE32(t, 12, seqNum);
    ReadLE32(t', 12, seqNum');
  }

  lemma TagCounter(c: Primitives, flags: nat, key: Bytes, l: Line, msg: Bytes)
    requires Bit(flags, EXTENDED_SESSIONSECURITY)
    ensures At(Tag(c, flags, key, l, msg), 12, LE32(l.seqNum))
  {
    hide LE32, XorStream, Bit;
  }

  ghost predicate SameLine(a: SessionState, b: SessionState, own: bool) {
    Paired(a, b) && if own then a.clientHandle == b.clientHandle else a.serverHandle == b.serverHandle
  }

  /** Unseal undoes the peer's Seal, in either direction, if and only if signing was negotiated or the message
      is all zeros; in both cases the two sides stay in step. */
  lemma UnsealOfSeal(c: Primitives, a: SessionState, b: SessionState, msg: Bytes, seqNum: nat, fromClient: bool)
    requires SameLine(a, b, fromClient)
    ensures var from, to := if fromClient then a else b, if fromClient then b else a;
            var (sealed, next, from') := SealOf(c, from, msg, seqNum);
            |sealed| >= 16 &&
            var (r, next', to') := UnsealOf(c, to, sealed, seqNum);
            && (r == Some(msg) <==> Bit(a.negotiateFlags, SIGN) || msg == Zeros(|msg|))
            && next' == next
            && (if fromClient then SameLine(from', to', true) else SameLine(to', from', false))
  {
    hide Tag, AfterTag, Bit;
    var from, to := if fromClient then a else b, if fromClient then b else a;
    var sealed := SealOf(c, from, msg, seqNum).0;
    if Bit(a.negotiateFlags, SIGN) {
      var tag := SumOf(c, from, msg, seqNum).0.value;
      assert sealed[..16] == tag && sealed[16..] == msg;
    } else {
      assert sealed[..16] == Zeros(16) && sealed[16..] == Zeros(|msg|);
    }
  }
}
