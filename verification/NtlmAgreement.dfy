/** The NTLMv2 handshake succeeds and both sides end with the same keys. */
module NtlmAgreement {
  import opened Bytes
  import opened Utf16
  import opened Segments
  import opened AvPairs
  import opened NtlmSession
  import opened NtlmSpec

  // ----- reading the messages -----

  lemma NegotiateReads()
    ensures var m := NegotiateMessage();
            |m| == 40 && m[..8] == SIGNATURE && U32(m, 8) == 1 && U32(m, 12) == DEFAULT_FLAGS
  {
    hide Concat, U32, LE32;
    var m, lens := NegotiateMessage(), [8, 4, 4, 16, 8];
    assert Seg(m, lens, NegotiateSegments());
    assert Off(lens, 1) == 8 && Off(lens, 2) == 12 && Off(lens, 3) == 16 && Off(lens, 5) == 40;
    SegLength(m, lens, NegotiateSegments());
    SegAt(m, lens, NegotiateSegments(), 0);
    SegAt(m, lens, NegotiateSegments(), 1);
    SegAt(m, lens, NegotiateSegments(), 2);
    ReadLE32(m, 8, 1);
    ReadLE32(m, 12, DEFAULT_FLAGS);
  }

  function ChallengeLens(flags: nat, name: Bytes, info: Bytes): seq<nat> {
    [8, 4, 8, 4, 8, 8, 8, |VersionBytes(flags)|, |info| + |name| + 4]
  }

  lemma ChallengeOffsets(flags: nat, name: Bytes, info: Bytes)
    ensures var l := ChallengeLens(flags, name, info);
            && Off(l, 0) == 0 && Off(l, 1) == 8 && Off(l, 2) == 12 && Off(l, 3) == 20 && Off(l, 4) == 24
            && Off(l, 5) == 32 && Off(l, 6) == 40 && Off(l, 7) == 48 && Off(l, 8) == 48 + |VersionBytes(flags)|
            && Off(l, 9) == 52 + |VersionBytes(flags)| + |info| + |name|
  {
  }

  /** Each field of a challenge at its place. */
  lemma ChallengeFields(flags: nat, name: Bytes, info: Bytes, challenge: Bytes)
    requires |challenge| == 8
    ensures var m, v := ChallengeMessage(flags, name, info, challenge), 48 + |VersionBytes(flags)|;
            && |m| == v + |info| + |name| + 4
            && At(m, 0, SIGNATURE) && At(m, 8, LE32(2)) && At(m, 20, LE32(flags)) && At(m, 24, challenge)
            && At(m, 12, if NameShift(flags, name) > 0 then Desc(|name|, v + |info|) else Zeros(8))
            && At(m, 40, Desc(|info|, v + NameShift(flags, name)))
            && At(m, v + NameShift(flags, name), info)
            && At(m, 32, Zeros(8)) && At(m, 48, if Bit(flags, 25) then VERSION else [])
  {
    var m, lens, ws := ChallengeMessage(flags, name, info, challenge), ChallengeLens(flags, name, info), ChallengeSegments(flags, name, info, challenge);
    PayloadAt(flags, name, info);
    hide Concat, LE32, Desc, Splice, VersionBytes, NameShift, At, Zeros, ChallengePayload;
    assert Seg(m, lens, ws);
    hide Seg;
    ChallengeOffsets(flags, name, info);
    SegLength(m, lens, ws);
    SegAt(m, lens, ws, 0);
    SegAt(m, lens, ws, 1);
    SegAt(m, lens, ws, 2);
    SegAt(m, lens, ws, 3);
    SegAt(m, lens, ws, 4);
    SegAt(m, lens, ws, 5);
    SegAt(m, lens, ws, 6);
    SegAt(m, lens, ws, 7);
    VersionIs(flags);
    InsideAt(m, lens, ws, 8, NameShift(flags, name), info);
  }

  lemma VersionIs(flags: nat)
    ensures VersionBytes(flags) == if Bit(flags, 25) then [10, 0, 0, 0, 0, 0, 0, 15] else []
  {
  }

  lemma PayloadAt(flags: nat, name: Bytes, info: Bytes)
    ensures At(ChallengePayload(flags, name, info), NameShift(flags, name), info)
  {
  }

  /** The client accepts the challenge and reads the server's list back. */
  lemma ChallengeParses(name: Bytes, list: seq<AvPair>, challenge: Bytes)
    requires |challenge| == 8 && Fit(list) && list != [] && list[|list| - 1] == AvPair(EOL, [])
    requires |EncodePairs(list)| < TWO16 && 60 + |EncodePairs(list)| + |name| < TWO32
    ensures var r := ParseChallenge(NegotiateMessage(), ChallengeMessage(DEFAULT_FLAGS, name, EncodePairs(list), challenge));
            && |NegotiateMessage()| >= 16
            && r.Done? && r.value.flags == DEFAULT_FLAGS && r.value.list == list
            && |r.value.name| < TWO16
  {
    hide Bit, And, U32, U16, LE32, Desc, ChallengeMessage, NegotiateMessage, Parsed, EncodePairs, VersionBytes, Zeros, Fit;
    var info := EncodePairs(list);
    var m := ChallengeMessage(DEFAULT_FLAGS, name, info, challenge);
    var shift := NameShift(DEFAULT_FLAGS, name);
    NegotiateReads();
    DefaultBits();
    DefaultVersion();
    AndSelf(DEFAULT_FLAGS);
    ParsedEncode(list);
    ChallengeFields(DEFAULT_FLAGS, name, info, challenge);
    ReadLE32(m, 8, 2);
    ReadLE32(m, 20, DEFAULT_FLAGS);
    FieldRead(m, 40, info, 56 + shift);
    NameReads(m, name, 56 + |info|, shift);
  }

  lemma DefaultVersion()
    ensures VersionBytes(DEFAULT_FLAGS) == VERSION
  {
    DefaultBits();
  }

  lemma NameReads(m: Bytes, name: Bytes, off: nat, shift: nat)
    requires shift == 0 || shift == |name|
    requires At(m, 12, if shift > 0 then Desc(|name|, off) else Zeros(8)) && off + |name| <= |m| < TWO32
    ensures Field(m, 12).Done? && |Field(m, 12).value| < TWO16
  {
    hide Desc;
    if shift == 0 { EmptyField(m, 12); } else { FieldRangeRead(m, 12, |name|, off); }
  }

  lemma AuthOffsets(d: nat, u: nat, w: nat, n: nat)
    ensures var l := AuthLens(d, u, w, n);
            && Off(l, 0) == 0 && Off(l, 1) == 8 && Off(l, 2) == 12 && Off(l, 3) == 20 && Off(l, 4) == 28
            && Off(l, 5) == 36 && Off(l, 6) == 44 && Off(l, 7) == 52 && Off(l, 8) == 60 && Off(l, 9) == 64
            && Off(l, 10) == 72 && Off(l, 11) == 88 && Off(l, 12) == 88 + d && Off(l, 13) == 88 + d + u
            && Off(l, 14) == 88 + d + u + w && Off(l, 15) == 112 + d + u + w && Off(l, 16) == 112 + d + u + w + n
            && Off(l, 17) == 128 + d + u + w + n
  {
    var l := AuthLens(d, u, w, n);
  }

  ghost predicate AuthShape(m: Bytes, a: Auth, mic: Bytes) {
    Seg(m, AuthLens(|a.domain|, |a.user|, |a.workstation|, |a.nt|), AuthSegments(a, mic))
  }

  lemma AuthIsShaped(a: Auth, mic: Bytes)
    requires |mic| == 16 && (a.encrypted == [] || |a.encrypted| == 16)
    ensures AuthShape(Concat(AuthSegments(a, mic)), a, mic)
  {
    hide Concat, LE32, Desc, OptionalDesc;
  }

  /** Each field of an authenticate message at its place. */
  lemma AuthFields(m: Bytes, a: Auth, mic: Bytes)
    requires AuthShape(m, a, mic)
    ensures var user := 88 + |a.domain|;
            var workstation := user + |a.user|;
            var lm := workstation + |a.workstation|;
            && |m| == lm + 40 + |a.nt|
            && At(m, 0, SIGNATURE) && At(m, 8, LE32(3)) && At(m, 60, LE32(a.flags)) && At(m, 72, mic)
            && At(m, 20, Desc(|a.nt|, lm + 24)) && At(m, lm + 24, a.nt)
            && At(m, 28, Desc(|a.domain|, 88)) && At(m, 88, a.domain)
            && At(m, 36, OptionalDesc(a.user, user)) && At(m, user, a.user)
            && At(m, 44, OptionalDesc(a.workstation, workstation)) && At(m, workstation, a.workstation)
            && At(m, 12, Desc(24, lm)) && At(m, lm, Zeros(24)) && At(m, 64, VERSION)
            && At(m, 52, OptionalDesc(a.encrypted, lm + 24 + |a.nt|))
            && At(m, lm + 24 + |a.nt|, if a.encrypted == [] then Zeros(16) else a.encrypted)
  {
    hide LE32, Desc, OptionalDesc, At, Seg, Zeros;
    var lens, ws := AuthLens(|a.domain|, |a.user|, |a.workstation|, |a.nt|), AuthSegments(a, mic);
    AuthOffsets(|a.domain|, |a.user|, |a.workstation|, |a.nt|);
    SegLength(m, lens, ws);
    SegAt(m, lens, ws, 0);
    SegAt(m, lens, ws, 1);
    SegAt(m, lens, ws, 2);
    SegAt(m, lens, ws, 3);
    SegAt(m, lens, ws, 4);
    SegAt(m, lens, ws, 5);
    SegAt(m, lens, ws, 6);
    SegAt(m, lens, ws, 7);
    SegAt(m, lens, ws, 8);
    SegAt(m, lens, ws, 9);
    SegAt(m, lens, ws, 10);
    SegAt(m, lens, ws, 11);
    SegAt(m, lens, ws, 12);
    SegAt(m, lens, ws, 13);
    SegAt(m, lens, ws, 14);
    SegAt(m, lens, ws, 15);
    SegAt(m, lens, ws, 16);
  }

  /** Zeroing the MIC in place. */
  lemma AuthZeroed(m: Bytes, a: Auth, mic: Bytes)
    requires AuthShape(m, a, mic) && |mic| == 16
    ensures 88 <= |m| && Splice(m, 72, Zeros(16)) == Concat(AuthSegments(a, Zeros(16)))
  {
    hide LE32, Desc, OptionalDesc, Concat, Zeros;
    var lens, ws := AuthLens(|a.domain|, |a.user|, |a.workstation|, |a.nt|), AuthSegments(a, mic);
    AuthOffsets(|a.domain|, |a.user|, |a.workstation|, |a.nt|);
    SegSplice(m, lens, ws, 10, 0, Zeros(16));
    SpliceAll(mic, Zeros(16));
    assert ws[10 := Zeros(16)] == AuthSegments(a, Zeros(16));
  }

  /** The server reads back what the client wrote; a user name is cut to its length modulo 2^16. */
  lemma AuthReads(m: Bytes, a: Auth, mic: Bytes)
    requires AuthShape(m, a, mic) && |m| < TWO32 && a.flags < TWO32
    requires |a.nt| < TWO16 && |a.domain| < TWO16 && (a.encrypted == [] || |a.encrypted| == 16)
    ensures |m| >= 88 && m[..8] == SIGNATURE && U32(m, 8) == 3 && U32(m, 60) == a.flags
    ensures Field(m, 20) == Done(a.nt) && Field(m, 28) == Done(a.domain)
    ensures Field(m, 36) == Done(Cut(a.user)) && Field(m, 52) == Done(a.encrypted)
    ensures |mic| == 16 ==> m[72..88] == mic
  {
    hide LE32, Desc, U32, Seg, Field, FieldRange;
    AuthFields(m, a, mic);
    hide AuthShape;
    var user := 88 + |a.domain|;
    var lm := user + |a.user| + |a.workstation|;
    ReadLE32(m, 8, 3);
    ReadLE32(m, 60, a.flags);
    FieldRead(m, 20, a.nt, lm + 24);
    WholeField(a.nt);
    FieldRead(m, 28, a.domain, 88);
    WholeField(a.domain);
    OptionalFieldRead(m, 36, a.user, user);
    OptionalFieldRead(m, 52, a.encrypted, lm + 24 + |a.nt|);
    WholeField(a.encrypted);
  }

  lemma WholeField(t: Bytes)
    requires |t| < TWO16
    ensures Cut(t) == t
  {
  }

  lemma OptionalFieldRead(m: Bytes, at: nat, t: Bytes, off: nat)
    requires At(m, at, OptionalDesc(t, off)) && (t == [] || At(m, off, t)) && off + |t| < TWO32
    ensures Field(m, at) == Done(Cut(t))
  {
    hide Desc, Field;
    if t == [] { EmptyField(m, at); } else { FieldRead(m, at, t, off); }
  }

  // ----- what the server computes from it -----

  /** The expected response is the one sent, when the response keys agree. */
  lemma ResponseAccepted(c: Primitives, key: Digest, cmsg: Bytes, time: Bytes8, challenge: Bytes8, info: Bytes)
    requires |cmsg| >= 32
    ensures var nt := NtResponse(c, key, cmsg[24..32], time, challenge, info);
            && CheckResponse(c, key, cmsg, nt) == Done(c.hmac(key, nt[..16]))
            && |nt| == 44 + |info| && nt[44..] == info
  {
    var blob := Blob(time, challenge, info);
    var proof := c.hmac(key, cmsg[24..32] + blob);
    var nt := proof + blob;
    assert blob[8..16] == time && blob[16..24] == challenge && blob[28..] == info;
    assert nt[24..32] == blob[8..16] && nt[32..40] == blob[16..24] && nt[44..] == blob[28..];
  }

  /** Whatever list the challenge carried, as long as it ends in EOL, the information in the response says
      that there is a MIC. */
  lemma InfoHasMic(f: ClientConfig, list: seq<AvPair>)
    requires Fit(list) && list != [] && list[|list| - 1] == AvPair(EOL, []) && FlagsUsable(list)
    requires 2 * |f.spn| < TWO16
    ensures |EncodePairs(list)| >= 4
    ensures var l := Parsed(InfoField(f, list));
            && l.Some? && LastValue(l.value, FLAGS).Some?
            && |LastValue(l.value, FLAGS).value| >= 4 && Bit(U32(LastValue(l.value, FLAGS).value, 0), 1)
  {
    var spn, zeros := Encode(f.spn), Zeros(16);
    ExtendedPairs(list, spn, zeros);
    ExtendedValue(list, spn, zeros, FLAGS);
    hide Parsed, Pairs, EncodePairs, Marked, Extras, SetMic, Bit, Extended, LastValue, Fit;
    var out := Marked(list)[..|list| - 1] + Extras(list, spn, zeros);
    FitMore(out);
    EncodeSnoc(out, AvPair(EOL, []));
    assert EncodePair(AvPair(EOL, [])) == Zeros(4);
    ParsedEncode(out + [AvPair(EOL, [])]);
    LastValueEnd(out, FLAGS);
    FlagsValue(list, spn);
  }

  lemma FitMore(l: seq<AvPair>)
    requires Fit(l)
    ensures Fit(l + [AvPair(EOL, [])])
  {
  }

  /** The flags value that encode leaves has the MIC bit. */
  lemma FlagsValue(list: seq<AvPair>, spn: Bytes)
    requires FlagsUsable(list)
    ensures var p := Provided(list, spn, Zeros(16), FLAGS);
            var v := if p.Some? then p.value else SetMic(LastValue(list, FLAGS).value);
            |v| >= 4 && Bit(U32(v, 0), 1)
  {
    if LastIndex(list, FLAGS).None? {
      ReadLE32(LE32(MIC_PROVIDED), 0, MIC_PROVIDED);
      BitOfTwo(1);
    } else {
      SetMicBits(LastValue(list, FLAGS).value, 1);
    }
  }

  /** The MIC check passes on a message that carries the MIC of the same three messages. */
  lemma MicAccepted(c: Primitives, flags: nat, key: Bytes, nmsg: Bytes, cmsg: Bytes, m: Bytes, a: Auth, info: Bytes)
    requires AuthShape(m, a, Mic(c, key, nmsg, cmsg, a)) && Bit(flags, NEGOTIATE_VERSION)
    requires |m| >= 88 && m[72..88] == Mic(c, key, nmsg, cmsg, a)
    requires var l := Parsed(info);
             && l.Some? && LastValue(l.value, FLAGS).Some?
             && |LastValue(l.value, FLAGS).value| >= 4 && Bit(U32(LastValue(l.value, FLAGS).value, 0), 1)
    ensures CheckMic(c, flags, key, nmsg, cmsg, m, info) == Done(())
  {
    hide Bit, Parsed, LastValue, AuthShape, Splice, Concat, AuthSegments;
    AuthZeroed(m, a, Mic(c, key, nmsg, cmsg, a));
  }

  /** The exported key survives the key exchange. */
  lemma KeyAgrees(c: Primitives, flags: nat, base: Digest, rnd: ClientRandom)
    ensures var (exported, encrypted) := ClientKeys(c, flags, base, rnd);
            && ServerKey(c, flags, base, encrypted) == Done(exported)
            && (encrypted == [] || |encrypted| == 16)
  {
    hide XorStream;
    var (exported, encrypted) := ClientKeys(c, flags, base, rnd);
    if Bit(flags, KEY_EXCH) {
      XorStreamTwice(c, Rc4(base, 0), rnd.sessionKey);
      assert exported + Zeros(0) == exported;
    }
  }

  /** Both sides hold the same keys and the same fresh cipher states. */
  ghost predicate Agree(a: SessionState, b: SessionState) {
    && Paired(a, b)
    && a.user == b.user && a.exportedSessionKey == b.exportedSessionKey
    && a.clientHandle == b.clientHandle && a.serverHandle == b.serverHandle
  }

  /** The sizes that the 16-bit and 32-bit fields of the messages can carry (all but the user name). */
  predicate SizesFit(f: ClientConfig, name: Bytes, list: seq<AvPair>) {
    && 2 * |f.domain| < TWO16 && 2 * |f.spn| < TWO16
    && |EncodePairs(list)| + 2 * |f.spn| + 80 < TWO16
    && 60 + |EncodePairs(list)| + |name| < TWO32
    && 2 * TWO16 + 2 * TWO16 + 2 * |f.user| + 2 * |f.workstation| < TWO32
  }

  /** The server's account holds what the client proves knowledge of. */
  ghost predicate SameSecret(c: Primitives, f: ClientConfig, accounts: map<Str, Str>) {
    f.user in accounts && PasswordHash(c, accounts[f.user]) == SecretHash(c, f)
  }

  /** Verify on a well-shaped message. */
  lemma VerifyShaped(c: Primitives, accounts: map<Str, Str>, guest: bool, nmsg: Bytes, cmsg: Bytes, m: Bytes, a: Auth, mic: Bytes)
    requires AuthShape(m, a, mic) && |m| < TWO32 && a.flags < TWO32
    requires 16 <= |a.nt| < TWO16 && |a.domain| < TWO16 && (a.encrypted == [] || |a.encrypted| == 16)
    ensures Verify(c, accounts, guest, nmsg, cmsg, m) ==
            if Cut(a.user) != [] then
              VerifyUser(c, accounts, guest, nmsg, cmsg, m, a.flags, a.nt, a.domain, Decode(Cut(a.user)), a.encrypted)
            else if guest then Done(GuestSession(a.flags))
            else Failed
  {
    hide VerifyUser, AuthShape, Field, U32, Cut, Decode;
    AuthReads(m, a, mic);
  }

  /** The challenge the server sends to this client's negotiate message. */
  function Challenge(name: Bytes, list: seq<AvPair>, challenge: Bytes): Bytes {
    ChallengeMessage(DEFAULT_FLAGS, name, EncodePairs(list), challenge)
  }

  /** A list as the server builds it: no flags, and an EOL at the end. */
  predicate ServerList(list: seq<AvPair>) {
    Fit(list) && list != [] && list[|list| - 1] == AvPair(EOL, []) && LastIndex(list, FLAGS).None?
  }

  /** The client parses the challenge and does not have to change it. */
  lemma ChallengeAnswerable(f: ClientConfig, name: Bytes, list: seq<AvPair>, challenge: Bytes)
    requires ServerList(list) && SizesFit(f, name, list) && |challenge| == 8
    ensures var nmsg, cmsg := NegotiateMessage(), Challenge(name, list, challenge);
            && |nmsg| >= 16 && ParseChallenge(nmsg, cmsg).Done?
            && var p := ParseChallenge(nmsg, cmsg).value;
               && Answerable(cmsg, p) && p.list == list && p.flags == DEFAULT_FLAGS && |p.name| < TWO16
               && MarkedChallenge(cmsg, p) == cmsg
  {
    hide ParseChallenge, EncodePairs, ChallengeMessage, NegotiateMessage, Fit;
    NegotiateReads();
    ChallengeParses(name, list, challenge);
    Unmarked(Challenge(name, list, challenge), ParseChallenge(NegotiateMessage(), Challenge(name, list, challenge)).value);
  }

  lemma Unmarked(cmsg: Bytes, p: ParsedChallenge)
    requires Answerable(cmsg, p) && LastIndex(p.list, FLAGS).None?
    ensures MarkedChallenge(cmsg, p) == cmsg
  {
    hide EncodePairs, Pairs;
    EncodeOfPairs(cmsg[p.info.lo..p.info.hi]);
    SpliceSame(cmsg, p.info.lo, p.info.hi);
  }

  /** The client's message has the shape of its parts. */
  lemma ClientShaped(c: Primitives, f: ClientConfig, nmsg: Bytes, cmsg: Bytes, p: ParsedChallenge, rnd: ClientRandom)
    requires Answerable(cmsg, p)
    ensures var a := ClientAuth(c, f, cmsg, p, rnd);
            && (a.encrypted == [] || |a.encrypted| == 16)
            && AuthShape(ClientMessage(c, f, nmsg, cmsg, p, rnd), a,
                         Mic(c, ClientKey(c, f, cmsg, p, rnd), nmsg, MarkedChallenge(cmsg, p), a))
  {
    hide MarkedChallenge, ClientResponse, Mic, AuthShape, Parsed, FlagsUsable, AuthSegments, Concat, ClientBase, Encode, DomainOf;
    var a := ClientAuth(c, f, cmsg, p, rnd);
    KeyAgrees(c, p.flags, ClientBase(c, f, cmsg, p, rnd), rnd);
    AuthIsShaped(a, Mic(c, ClientKey(c, f, cmsg, p, rnd), nmsg, MarkedChallenge(cmsg, p), a));
  }

  /** How long the parts are. */
  lemma ClientSizes(c: Primitives, f: ClientConfig, name: Bytes, cmsg: Bytes, p: ParsedChallenge, rnd: ClientRandom)
    requires Answerable(cmsg, p) && SizesFit(f, name, p.list) && |p.name| < TWO16 && LastIndex(p.list, FLAGS).None?
    ensures var a := ClientAuth(c, f, cmsg, p, rnd);
            && 44 <= |a.nt| < TWO16 && |a.domain| < TWO16
            && 128 + |a.domain| + |a.user| + |a.workstation| + |a.nt| < TWO32
  {
    hide EncodePairs, Parsed;
    InfoBytes(cmsg[p.info.lo..p.info.hi]);
    MarkedLength(p.list);
    ExtrasBytes(p.list, Encode(f.spn), Zeros(16));
  }

  /** The server that holds the account accepts the client's credentials and derives the client's key. */
  lemma UserAccepted(c: Primitives, f: ClientConfig, accounts: map<Str, Str>, guest: bool, nmsg: Bytes, cmsg: Bytes,
                     p: ParsedChallenge, rnd: ClientRandom)
    requires Answerable(cmsg, p) && MarkedChallenge(cmsg, p) == cmsg && SameSecret(c, f, accounts)
    requires p.list[|p.list| - 1] == AvPair(EOL, []) && 2 * |f.spn| < TWO16 && Bit(p.flags, NEGOTIATE_VERSION)
    requires |ClientMessage(c, f, nmsg, cmsg, p, rnd)| < TWO32 && p.flags < TWO32
    requires |ClientAuth(c, f, cmsg, p, rnd).nt| < TWO16 && |ClientAuth(c, f, cmsg, p, rnd).domain| < TWO16
    ensures var a := ClientAuth(c, f, cmsg, p, rnd);
            VerifyUser(c, accounts, guest, nmsg, cmsg, ClientMessage(c, f, nmsg, cmsg, p, rnd), a.flags, a.nt, a.domain, f.user, a.encrypted)
            == Done(SessionFor(c, false, p.flags, f.user, ClientKey(c, f, cmsg, p, rnd)))
  {
    var a, m := ClientAuth(c, f, cmsg, p, rnd), ClientMessage(c, f, nmsg, cmsg, p, rnd);
    var key := ClientKey(c, f, cmsg, p, rnd);
    ClientShaped(c, f, nmsg, cmsg, p, rnd);
    hide Parsed, EncodePairs, AuthShape, ClientMessage, CheckMic, CheckResponse, ServerKey, NtResponse, ResponseKey,
         LastValue, SessionFor, Mic, Bit, InfoField, Fit;
    AnswerableList(cmsg, p);
    AuthReads(m, a, Mic(c, key, nmsg, cmsg, a));
    ResponseAccepted(c, ResponseKey(c, f.user, SecretHash(c, f), DomainOf(f, p.name)), cmsg, ClientTime(p.list, rnd), rnd.challenge, InfoField(f, p.list));
    KeyAgrees(c, p.flags, ClientBase(c, f, cmsg, p, rnd), rnd);
    InfoHasMic(f, p.list);
    MicAccepted(c, p.flags, key, nmsg, cmsg, m, a, InfoField(f, p.list));
  }

  lemma AnswerableList(cmsg: Bytes, p: ParsedChallenge)
    requires Answerable(cmsg, p)
    ensures Fit(p.list) && p.list != [] && |EncodePairs(p.list)| >= 4
  {
    InfoBytes(cmsg[p.info.lo..p.info.hi]);
  }

  // ----- the theorems -----

  /** What the client answers to the server's challenge, and the session it keeps. */
  function ClientAnswer(c: Primitives, f: ClientConfig, name: Bytes, list: seq<AvPair>, challenge: Bytes, rnd: ClientRandom): (r: (Bytes, SessionState))
    requires ServerList(list) && SizesFit(f, name, list) && |challenge| == 8
  {
    ChallengeAnswerable(f, name, list, challenge);
    var nmsg, cmsg := NegotiateMessage(), Challenge(name, list, challenge);
    var p := ParseChallenge(nmsg, cmsg).value;
    (ClientMessage(c, f, nmsg, cmsg, p, rnd), SessionFor(c, true, p.flags, f.user, ClientKey(c, f, cmsg, p, rnd)))
  }

  /** A user name that survives the trip: not empty, not ended by a NUL, and within a 16-bit byte length. */
  predicate NameSurvives(user: Str) {
    user != [] && user[|user| - 1] != 0 && 2 * |user| < TWO16
  }

  lemma NameRead(user: Str)
    ensures NameSurvives(user) ==> Cut(Encode(user)) != [] && Decode(Cut(Encode(user))) == user
    ensures !NameSurvives(user) && user != [] ==> Decode(Cut(Encode(user))) != user
  {
    hide Encode;
    if 2 * |user| < TWO16 {
      assert Cut(Encode(user)) == Encode(user);
      DecodeOfEncode(user);
    }
  }

  lemma ServerReads(c: Primitives, f: ClientConfig, accounts: map<Str, Str>, guest: bool, name: Bytes, list: seq<AvPair>,
                    challenge: Bytes8, rnd: ClientRandom)
    requires ServerList(list) && SizesFit(f, name, list)
    ensures var nmsg, cmsg, (m, s) := NegotiateMessage(), Challenge(name, list, challenge), ClientAnswer(c, f, name, list, challenge, rnd);
            && |nmsg| >= 16 && ParseChallenge(nmsg, cmsg).Done? && Answerable(cmsg, ParseChallenge(nmsg, cmsg).value)
            && |m| < TWO32
            && var a := ClientAuth(c, f, cmsg, ParseChallenge(nmsg, cmsg).value, rnd);
               && |a.nt| < TWO16 && |a.domain| < TWO16 && a.user == Encode(f.user)
               && Verify(c, accounts, guest, nmsg, cmsg, m) ==
                  if Cut(a.user) != [] then
                    VerifyUser(c, accounts, guest, nmsg, cmsg, m, a.flags, a.nt, a.domain, Decode(Cut(a.user)), a.encrypted)
                  else if guest then Done(GuestSession(a.flags))
                  else Failed
  {
    var nmsg, cmsg := NegotiateMessage(), Challenge(name, list, challenge);
    ChallengeAnswerable(f, name, list, challenge);
    var p := ParseChallenge(nmsg, cmsg).value;
    var a, m := ClientAuth(c, f, cmsg, p, rnd), ClientMessage(c, f, nmsg, cmsg, p, rnd);
    var mic := Mic(c, ClientKey(c, f, cmsg, p, rnd), nmsg, cmsg, a);
    ClientShaped(c, f, nmsg, cmsg, p, rnd);
    ClientSizes(c, f, name, cmsg, p, rnd);
    hide ParseChallenge, NegotiateMessage, ChallengeMessage, EncodePairs, AuthShape, Verify, VerifyUser, ClientMessage, ClientAuth, Mic, Answerable;
    ShapeLength(m, a, mic);
    VerifyShaped(c, accounts, guest, nmsg, cmsg, m, a, mic);
  }

  lemma ShapeLength(m: Bytes, a: Auth, mic: Bytes)
    requires AuthShape(m, a, mic)
    ensures |m| == 128 + |a.domain| + |a.user| + |a.workstation| + |a.nt|
  {
    AuthFields(m, a, mic);
  }

  /** NTLMv2 agreement. For every user, password or hash, domain, workstation, SPN, target name, list of
      target information and random choice: if the server holds the account, the handshake succeeds - the
      response check and the MIC check pass - and both sides hold the same exported key, signing keys and
      cipher states. */
  lemma Agreement(c: Primitives, f: ClientConfig, accounts: map<Str, Str>, guest: bool, name: Bytes, list: seq<AvPair>,
                  challenge: Bytes8, rnd: ClientRandom)
    requires ServerList(list) && SizesFit(f, name, list) && SameSecret(c, f, accounts) && NameSurvives(f.user)
    ensures var (m, s) := ClientAnswer(c, f, name, list, challenge, rnd);
            var r := Verify(c, accounts, guest, NegotiateMessage(), Challenge(name, list, challenge), m);
            r.Done? && Agree(s, r.value) && s.user == f.user
  {
    hide ParseChallenge, NegotiateMessage, ChallengeMessage, EncodePairs, Verify, VerifyUser, ClientMessage, ClientAuth, Answerable,
         ClientKey, Bit, Cut, Encode, Decode, Fit, MarkedChallenge, SameSecret, NameSurvives;
    var nmsg, cmsg := NegotiateMessage(), Challenge(name, list, challenge);
    ChallengeAnswerable(f, name, list, challenge);
    ServerReads(c, f, accounts, guest, name, list, challenge, rnd);
    NameRead(f.user);
    DefaultBits();
    UserAccepted(c, f, accounts, guest, nmsg, cmsg, ParseChallenge(nmsg, cmsg).value, rnd);
  }

  /** With that one account and no guests, the handshake succeeds if and only if the user name survives the
      trip: an empty name is refused as a missing credential, and the server's decoder drops a final NUL and
      its reader cuts lengths to 16 bits, so that it looks up another name. */
  lemma AgreementIff(c: Primitives, f: ClientConfig, password: Str, name: Bytes, list: seq<AvPair>, challenge: Bytes8, rnd: ClientRandom)
    requires ServerList(list) && SizesFit(f, name, list) && SameSecret(c, f, map[f.user := password]) && HasCredentials(f)
    ensures Verify(c, map[f.user := password], false, NegotiateMessage(), Challenge(name, list, challenge),
                   ClientAnswer(c, f, name, list, challenge, rnd).0).Done?
            <==> NameSurvives(f.user)
  {
    var accounts := map[f.user := password];
    if NameSurvives(f.user) {
      Agreement(c, f, accounts, false, name, list, challenge, rnd);
    } else {
      hide ParseChallenge, NegotiateMessage, ChallengeMessage, EncodePairs, Verify, ClientMessage, ClientAnswer, Answerable, Cut, Encode, Decode;
      ServerReads(c, f, accounts, false, name, list, challenge, rnd);
      NameRead(f.user);
      EmptyCut();
    }
  }

  lemma EmptyCut()
    ensures Cut(Encode([])) == []
  {
  }

  /** The list that Challenge builds is such a list. */
  lemma ServerBuildsServerList(nbName: Str, nbDomain: Str, dnsName: Str, dnsDomain: Str, time: Bytes8)
    requires |EncodePairs(TargetInfoList(nbName, nbDomain, dnsName, dnsDomain, time))| < TWO16
    ensures ServerList(TargetInfoList(nbName, nbDomain, dnsName, dnsDomain, time))
  {
    hide EncodePairs, Encode;
    var l := TargetInfoList(nbName, nbDomain, dnsName, dnsDomain, time);
    forall i | 0 <= i < |l| ensures l[i].id < TWO16 && |l[i].value| < TWO16 && l[i].id != FLAGS {
      RangeInside(l, i);
    }
  }

  /** From the password to the last signature: after every such handshake, however sends and in-order deliveries
      of both directions interleave, every signature is accepted. */
  lemma AgreedTraffic(c: Primitives, f: ClientConfig, accounts: map<Str, Str>, guest: bool, name: Bytes, list: seq<AvPair>,
                      challenge: Bytes8, rnd: ClientRandom, up: nat, down: nat,
                      ns: seq<Net>, es: seq<NetEvent>, oks: seq<bool>, i: nat)
    requires ServerList(list) && SizesFit(f, name, list) && SameSecret(c, f, accounts) && NameSurvives(f.user)
    requires var (m, s) := ClientAnswer(c, f, name, list, challenge, rnd);
             var r := Verify(c, accounts, guest, NegotiateMessage(), Challenge(name, list, challenge), m);
             r.Done? ==> NetRun(c, ns, es, oks) && ns[0] == Net(s, r.value, up, up, [], down, down, [])
    requires i < |es| == |oks|
    ensures Verify(c, accounts, guest, NegotiateMessage(), Challenge(name, list, challenge),
                   ClientAnswer(c, f, name, list, challenge, rnd).0).Done?
    ensures oks[i]
  {
    hide Verify, ClientAnswer, NetRun, ServerList, SizesFit, SameSecret, NameSurvives, NegotiateMessage, ChallengeMessage;
    Agreement(c, f, accounts, guest, name, list, challenge, rnd);
    Lockstep(c, ns, es, oks, i);
  }
}
