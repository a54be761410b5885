/** The three NTLM messages ([MS-NLMP] section 2.2.1) byte by byte, what the client makes of a challenge
    and what the server makes of an authenticate message, as internal/ntlm does. Cryptography is
    uninterpreted. */
module NtlmSpec {
  import opened Bytes
  import opened Utf16
  import opened Segments
  import opened AvPairs
  import opened NtlmSession

  function Ascii(s: string): (b: Bytes)
    ensures |b| == |s|
  {
    seq(|s|, i requires 0 <= i < |s| => if s[i] < 256 as char then s[i] as int else 0)
  }

  const SIGNATURE: Bytes := [78, 84, 76, 77, 83, 83, 80, 0]  // "NTLMSSP\0"
  const VERSION: Bytes := [10, 0, 0, 0, 0, 0, 0, 15]
  const DEFAULT_FLAGS := 0xE288_8215

  /** The bits of defaultFlags that the handshake asks about. */
  lemma DefaultBits()
    ensures Bit(DEFAULT_FLAGS, REQUEST_TARGET) && Bit(DEFAULT_FLAGS, SIGN) && Bit(DEFAULT_FLAGS, NEGOTIATE_TARGET_INFO)
    ensures Bit(DEFAULT_FLAGS, NEGOTIATE_VERSION) && Bit(DEFAULT_FLAGS, KEY_EXCH) && Bit(DEFAULT_FLAGS, EXTENDED_SESSIONSECURITY)
    ensures DEFAULT_FLAGS < TWO32
  {
    assert Bit(0xE288_8215, 2) && Bit(0xE288_8215, 4);
    assert Shift(0xE288_8215, 8) == 0xE2_8882 && Shift(0xE2_8882, 8) == 0xE288 && Shift(0xE288, 8) == 0xE2;
    BitShift(0xE288_8215, 8, 11);
    BitShift(0xE2_8882, 8, 3);
    BitShift(0xE288_8215, 8, 15);
    BitShift(0xE2_8882, 8, 7);
    BitShift(0xE288_8215, 8, 17);
    BitShift(0xE2_8882, 8, 9);
    BitShift(0xE288, 8, 1);
    BitShift(0xE288_8215, 8, 22);
    BitShift(0xE2_8882, 8, 14);
    BitShift(0xE288, 8, 6);
    assert Bit(0xE288, 3) && Bit(0xE288, 7) && Bit(0xE2, 1) && Bit(0xE2, 6);
  }

  function Shift(a: nat, n: nat): nat { if n == 0 then a else Shift(a / 2, n - 1) }

  lemma {:induction false} BitShift(a: nat, n: nat, k: nat)
    ensures Bit(a, n + k) <==> Bit(Shift(a, n), k)
    decreases n
  {
    if n > 0 { BitShift(a / 2, n - 1, k); }
  }

  // ----- offset and length fields -----

  /** Length, maximum length, offset. */
  function Desc(len: nat, off: nat): (b: Bytes)
    ensures |b| == 8
  {
    LE16(len) + LE16(len) + LE32(off)
  }

  /** The slice that the field at `at` describes. The end is a uint32: when it wraps, the length check passes
      and the slice expression panics. */
  function FieldRange(m: Bytes, at: nat): (r: Outcome<Range>)
    requires at + 8 <= |m|
    ensures r.Done? ==> r.value.lo <= r.value.hi <= |m|
  {
    var len, max, lo := U16(m, at), U16(m, at + 2), U32(m, at + 4);
    var hi := (lo + len) % TWO32;
    if max < len || |m| < hi then Failed
    else if hi < lo then Panics
    else Done(Range(lo, hi))
  }

  /** A byte string cut to its length modulo 2^16. */
  function Cut(t: Bytes): (r: Bytes)
    ensures |r| == |t| % TWO16
  {
    t[..|t| % TWO16]
  }

  function Field(m: Bytes, at: nat): Outcome<Bytes>
    requires at + 8 <= |m|
  {
    var r :- FieldRange(m, at);
    Done(m[r.lo..r.hi])
  }

  lemma DescParts(len: nat, off: nat)
    ensures Desc(len, off)[..2] == LE16(len) && Desc(len, off)[2..4] == LE16(len) && Desc(len, off)[4..8] == LE32(off)
  {
  }

  /** A descriptor is read back modulo its field widths. */
  lemma DescRead(m: Bytes, at: nat, len: nat, off: nat)
    requires At(m, at, Desc(len, off))
    ensures U16(m, at) == len % TWO16 && U16(m, at + 2) == len % TWO16 && U32(m, at + 4) == off % TWO32
  {
    DescParts(len, off);
    var d := m[at..at + 8];
    assert m[at..at + 2] == d[..2] && m[at + 2..at + 4] == d[2..4] && m[at + 4..at + 8] == d[4..8];
    ReadLE16(m, at, len);
    ReadLE16(m, at + 2, len);
    ReadLE32(m, at + 4, off);
  }

  lemma FieldRangeRead(m: Bytes, at: nat, len: nat, off: nat)
    requires At(m, at, Desc(len, off)) && off + len <= |m| && off + len < TWO32
    ensures FieldRange(m, at) == Done(Range(off, off + len % TWO16))
  {
    DescRead(m, at, len, off);
    hide Desc, At, U16, U32;
    NoWrap(off, len);
  }

  lemma NoWrap(off: nat, len: nat)
    requires off + len < TWO32
    ensures off % TWO32 == off && len % TWO16 <= len && (off + len % TWO16) % TWO32 == off + len % TWO16
  {
  }

  /** A field that was written is read back, cut to its length modulo 2^16. */
  lemma FieldRead(m: Bytes, at: nat, t: Bytes, off: nat)
    requires At(m, at, Desc(|t|, off)) && At(m, off, t) && off + |t| < TWO32
    ensures FieldRange(m, at) == Done(Range(off, off + |t| % TWO16)) && Field(m, at) == Done(Cut(t))
  {
    FieldRangeRead(m, at, |t|, off);
    hide FieldRange;
    PrefixSlice(m, off, t, |t| % TWO16);
  }

  lemma PrefixSlice(m: Bytes, off: nat, t: Bytes, n: nat)
    requires At(m, off, t) && n <= |t|
    ensures m[off..off + n] == t[..n]
  {
    assert m[off..off + |t|][..n] == m[off..off + n];
  }

  lemma EmptyField(m: Bytes, at: nat)
    requires At(m, at, Zeros(8))
    ensures Field(m, at) == Done([])
  {
    assert Zeros(8) == Desc(0, 0);
    DescRead(m, at, 0, 0);
  }

  // ----- keys -----

  const CLIENT_SIGNING := "session key to client-to-server signing key magic constant\0"
  const SERVER_SIGNING := "session key to server-to-client signing key magic constant\0"
  const CLIENT_SEALING := "session key to client-to-server sealing key magic constant\0"
  const SERVER_SEALING := "session key to server-to-client sealing key magic constant\0"

  /** signKey; nil without extended session security. */
  function SignKey(c: Primitives, flags: nat, key: Digest, fromClient: bool): Bytes {
    if Bit(flags, EXTENDED_SESSIONSECURITY) then
      c.md5(key + Ascii(if fromClient then CLIENT_SIGNING else SERVER_SIGNING))
    else []
  }

  /** sealKey */
  function SealKey(c: Primitives, flags: nat, key: Digest, fromClient: bool): Bytes {
    if Bit(flags, EXTENDED_SESSIONSECURITY) then
      var k := if Bit(flags, NEGOTIATE_128) then key else if Bit(flags, NEGOTIATE_56) then key[..7] else key[..5];
      c.md5(k + Ascii(if fromClient then CLIENT_SEALING else SERVER_SEALING))
    else if Bit(flags, LM_KEY) then
      if Bit(flags, NEGOTIATE_56) then key[..7] + [0xa0] else key[..5] + [0xe5, 0x38, 0xb0]
    else key
  }

  /** The session both sides build from flags, user and exported key. */
  function SessionFor(c: Primitives, isClientSide: bool, flags: nat, user: Str, key: Digest): SessionState {
    SessionState(isClientSide, user, flags, key,
                 SignKey(c, flags, key, true), SignKey(c, flags, key, false),
                 Rc4(SealKey(c, flags, key, true), 0), Rc4(SealKey(c, flags, key, false), 0))
  }

  /** ntowfv2Hash: the response key. */
  function ResponseKey(c: Primitives, user: Str, hash: Bytes, domain: Bytes): Digest {
    c.hmac(hash, Encode(c.upper(user)) + domain)
  }

  function PasswordHash(c: Primitives, password: Str): Digest { c.md4(Encode(password)) }

  /** NTLMv2ClientChallenge */
  function Blob(timeStamp: Bytes, clientChallenge: Bytes, info: Bytes): Bytes {
    [1, 1] + Zeros(6) + timeStamp + clientChallenge + Zeros(4) + info
  }

  /** NTLMv2Response */
  function NtResponse(c: Primitives, key: Digest, serverChallenge: Bytes, timeStamp: Bytes, clientChallenge: Bytes, info: Bytes): (nt: Bytes)
    ensures |nt| == 28 + |timeStamp| + |clientChallenge| + |info|
  {
    var blob := Blob(timeStamp, clientChallenge, info);
    c.hmac(key, serverChallenge + blob) + blob
  }

  // ----- the messages -----

  function NegotiateSegments(): seq<Bytes> {
    [SIGNATURE, LE32(1), LE32(DEFAULT_FLAGS), Zeros(16), VERSION]
  }

  function NegotiateMessage(): Bytes { Concat(NegotiateSegments()) }

  /** The target information of a challenge: only the names that are set, and the time. */
  function TargetInfoList(nbName: Str, nbDomain: Str, dnsName: Str, dnsDomain: Str, time: Bytes): seq<AvPair> {
    [AvPair(TIMESTAMP, time)]
    + (if dnsName != [] then [AvPair(DNS_COMPUTER_NAME, Encode(dnsName))] else [])
    + (if dnsDomain != [] then [AvPair(DNS_DOMAIN_NAME, Encode(dnsDomain))] else [])
    + (if nbName != [] then [AvPair(NB_COMPUTER_NAME, Encode(nbName))] else [])
    + (if nbDomain != [] then [AvPair(NB_DOMAIN_NAME, Encode(nbDomain))] else [])
    + [AvPair(EOL, [])]
  }

  function VersionBytes(flags: nat): Bytes { if Bit(flags, NEGOTIATE_VERSION) then VERSION else [] }

  /** Where a challenge puts its target name: nowhere when the client did not ask or there is none. */
  function NameShift(flags: nat, name: Bytes): (n: nat)
    ensures n <= |name|
  {
    if name != [] && Bit(flags, REQUEST_TARGET) then |name| else 0
  }

  /** The payload: the target name behind room for the target information, then the information shifted by
      the length of the name, over the end of the name. */
  function ChallengePayload(flags: nat, name: Bytes, info: Bytes): (p: Bytes)
    ensures |p| == |info| + |name| + 4
  {
    var p := Zeros(|info| + |name| + 4);
    if NameShift(flags, name) > 0 then Splice(Splice(p, |info|, name), |name|, info) else Splice(p, 0, info)
  }

  function ChallengeSegments(flags: nat, name: Bytes, info: Bytes, challenge: Bytes): seq<Bytes> {
    var payload := 48 + |VersionBytes(flags)|;
    [SIGNATURE, LE32(2),
     if NameShift(flags, name) > 0 then Desc(|name|, payload + |info|) else Zeros(8),
     LE32(flags), challenge, Zeros(8),
     Desc(|info|, payload + NameShift(flags, name)),
     VersionBytes(flags), ChallengePayload(flags, name, info)]
  }

  function ChallengeMessage(flags: nat, name: Bytes, info: Bytes, challenge: Bytes): Bytes {
    Concat(ChallengeSegments(flags, name, info, challenge))
  }

  /** The parts of an authenticate message. */
  datatype Auth = Auth(flags: nat, domain: Bytes, user: Bytes, workstation: Bytes, nt: Bytes, encrypted: Bytes)

  function AuthLens(domain: nat, user: nat, workstation: nat, nt: nat): seq<nat> {
    [8, 4, 8, 8, 8, 8, 8, 8, 4, 8, 16, domain, user, workstation, 24, nt, 16]
  }

  function OptionalDesc(t: Bytes, off: nat): (b: Bytes)
    ensures |b| == 8
  {
    if t == [] then Zeros(8) else Desc(|t|, off)
  }

  function AuthSegments(a: Auth, mic: Bytes): seq<Bytes> {
    var user := 88 + |a.domain|;
    var workstation := user + |a.user|;
    var lm := workstation + |a.workstation|;
    [SIGNATURE, LE32(3), Desc(24, lm), Desc(|a.nt|, lm + 24), Desc(|a.domain|, 88),
     OptionalDesc(a.user, user), OptionalDesc(a.workstation, workstation),
     OptionalDesc(a.encrypted, lm + 24 + |a.nt|),
     LE32(a.flags), VERSION, mic, a.domain, a.user, a.workstation, Zeros(24), a.nt,
     if a.encrypted == [] then Zeros(16) else a.encrypted]
  }

  /** Without credentials: names only. */
  function AnonymousSegments(domain: Bytes, user: Bytes, workstation: Bytes, nt: nat): seq<Bytes> {
    [SIGNATURE, LE32(3), Zeros(8), Zeros(8), Desc(|domain|, 88),
     OptionalDesc(user, 88 + |domain|), OptionalDesc(workstation, 88 + |domain| + |user|), Zeros(8),
     Zeros(4), Zeros(8), Zeros(16), domain, user, workstation, Zeros(24), Zeros(nt), Zeros(16)]
  }

  /** The message, with the MIC over all three messages (its own field zero). */
  function Mic(c: Primitives, key: Bytes, nmsg: Bytes, cmsg: Bytes, a: Auth): Digest {
    c.hmac(key, nmsg + cmsg + Concat(AuthSegments(a, Zeros(16))))
  }

  function AuthMessage(c: Primitives, key: Bytes, nmsg: Bytes, cmsg: Bytes, a: Auth): Bytes {
    Concat(AuthSegments(a, Mic(c, key, nmsg, cmsg, a)))
  }

  // ----- the client -----

  datatype ClientConfig = ClientConfig(user: Str, password: Str, hash: Option<Bytes>, domain: Str, workstation: Str, spn: Str)

  type Bytes8 = b: Bytes | |b| == 8 witness Zeros(8)

  /** What Authenticate draws: the client challenge, the session key, and the time if the server sent none. */
  datatype ClientRandom = ClientRandom(challenge: Bytes8, sessionKey: Digest, now: Bytes8)

  function HasCredentials(f: ClientConfig): bool { f.user != [] || f.password != [] || f.hash.Some? }

  function SecretHash(c: Primitives, f: ClientConfig): Bytes {
    if f.hash.Some? then f.hash.value else PasswordHash(c, f.password)
  }

  /** copy into an 8-byte time field */
  function TimeField(t: Bytes): Bytes8 { if |t| >= 8 then t[..8] else t + Zeros(8 - |t|) }

  datatype ParsedChallenge = ParsedChallenge(flags: nat, name: Bytes, info: Range, list: seq<AvPair>)

  /** The checks of Client.Authenticate. */
  function ParseChallenge(nmsg: Bytes, cmsg: Bytes): (r: Outcome<ParsedChallenge>)
    requires |nmsg| >= 16
    ensures r.Done? ==> |cmsg| >= 48 && r.value.info.lo <= r.value.info.hi <= |cmsg|
                        && Parsed(cmsg[r.value.info.lo..r.value.info.hi]) == Some(r.value.list)
  {
    if |cmsg| < 48 || cmsg[..8] != SIGNATURE || U32(cmsg, 8) != 2 then Failed
    else
      var flags := And(U32(nmsg, 12), U32(cmsg, 20));
      if !Bit(flags, REQUEST_TARGET) then Failed
      else
        var name :- Field(cmsg, 12);
        if !Bit(flags, NEGOTIATE_TARGET_INFO) then Failed
        else
          var info :- FieldRange(cmsg, 40);
          var list := Parsed(cmsg[info.lo..info.hi]);
          if list.None? then Failed else Done(ParsedChallenge(flags, name, info, list.value))
  }

  /** The domain sent: the challenge's target name when none is configured. */
  function DomainOf(f: ClientConfig, name: Bytes): Bytes {
    if f.domain == [] then name else Encode(f.domain)
  }

  lemma InfoBytes(bs: Bytes)
    requires Parsed(bs).Some?
    ensures |EncodePairs(Parsed(bs).value)| == |bs| >= 4
  {
    EncodeOfPairs(bs);
  }

  /** The extended information in its 4 bytes longer field. */
  function InfoField(f: ClientConfig, list: seq<AvPair>): Bytes
    requires FlagsUsable(list) && |EncodePairs(list)| >= 4
  {
    Extended(list, Encode(f.spn), Zeros(16)) + Zeros(4)
  }

  function ClientTime(list: seq<AvPair>, rnd: ClientRandom): Bytes8 {
    var t := LastValue(list, TIMESTAMP);
    if t.Some? then TimeField(t.value) else rnd.now
  }

  /** The challenge as the client hashes it: with the MIC bit set in place if it came with flags. */
  function MarkedChallenge(cmsg: Bytes, p: ParsedChallenge): (r: Bytes)
    requires p.info.lo <= p.info.hi <= |cmsg| && FlagsUsable(p.list) && Parsed(cmsg[p.info.lo..p.info.hi]) == Some(p.list)
    ensures |r| == |cmsg|
  {
    InfoBytes(cmsg[p.info.lo..p.info.hi]);
    MarkedLength(p.list);
    Splice(cmsg, p.info.lo, EncodePairs(Marked(p.list)))
  }

  /** A challenge that the client parsed and can answer. */
  ghost predicate Answerable(cmsg: Bytes, p: ParsedChallenge) {
    && |cmsg| >= 48 && p.info.lo <= p.info.hi <= |cmsg| && FlagsUsable(p.list)
    && Parsed(cmsg[p.info.lo..p.info.hi]) == Some(p.list)
  }

  /** The NTLMv2 response of the client. */
  function ClientResponse(c: Primitives, f: ClientConfig, cmsg: Bytes, p: ParsedChallenge, rnd: ClientRandom): (nt: Bytes)
    requires Answerable(cmsg, p)
    ensures |nt| >= 44
  {
    InfoBytes(cmsg[p.info.lo..p.info.hi]);
    NtResponse(c, ResponseKey(c, f.user, SecretHash(c, f), DomainOf(f, p.name)),
               MarkedChallenge(cmsg, p)[24..32], ClientTime(p.list, rnd), rnd.challenge, InfoField(f, p.list))
  }

  /** The key exchange of the client: the exported key and what is sent of it. */
  function ClientKeys(c: Primitives, flags: nat, base: Digest, rnd: ClientRandom): (Digest, Bytes) {
    if Bit(flags, KEY_EXCH) then (rnd.sessionKey, XorStream(c, Rc4(base, 0), rnd.sessionKey)) else (base, [])
  }

  /** The client's session base key. */
  function ClientBase(c: Primitives, f: ClientConfig, cmsg: Bytes, p: ParsedChallenge, rnd: ClientRandom): Digest
    requires Answerable(cmsg, p)
  {
    c.hmac(ResponseKey(c, f.user, SecretHash(c, f), DomainOf(f, p.name)), ClientResponse(c, f, cmsg, p, rnd)[..16])
  }

  /** Without credentials: the names alone, and room for responses that stay zero. */
  function AnonymousMessage(f: ClientConfig, p: ParsedChallenge): Bytes {
    var info := p.info.hi - p.info.lo + (if LastIndex(p.list, FLAGS).Some? then 0 else 8) + 20
                + (if f.spn == [] then 0 else 4 + 2 * |f.spn|);
    Concat(AnonymousSegments(DomainOf(f, p.name), Encode(f.user), Encode(f.workstation), if info + 48 > 0 then info + 48 else 0))
  }

  /** The key the client exports. */
  function ClientKey(c: Primitives, f: ClientConfig, cmsg: Bytes, p: ParsedChallenge, rnd: ClientRandom): Digest
    requires Answerable(cmsg, p)
  {
    ClientKeys(c, p.flags, ClientBase(c, f, cmsg, p, rnd), rnd).0
  }

  /** What the client sends. */
  function ClientAuth(c: Primitives, f: ClientConfig, cmsg: Bytes, p: ParsedChallenge, rnd: ClientRandom): Auth
    requires Answerable(cmsg, p)
  {
    Auth(p.flags, DomainOf(f, p.name), Encode(f.user), Encode(f.workstation), ClientResponse(c, f, cmsg, p, rnd),
         ClientKeys(c, p.flags, ClientBase(c, f, cmsg, p, rnd), rnd).1)
  }

  function ClientMessage(c: Primitives, f: ClientConfig, nmsg: Bytes, cmsg: Bytes, p: ParsedChallenge, rnd: ClientRandom): Bytes
    requires Answerable(cmsg, p)
  {
    AuthMessage(c, ClientKey(c, f, cmsg, p, rnd), nmsg, MarkedChallenge(cmsg, p), ClientAuth(c, f, cmsg, p, rnd))
  }

  // ----- the server -----

  /** The MIC check of Server.Authenticate; it is made only if the client's flags say that there is a MIC. */
  function CheckMic(c: Primitives, flags: nat, key: Bytes, nmsg: Bytes, cmsg: Bytes, amsg: Bytes, info: Bytes): Outcome<()> {
    var list := Parsed(info);
    var v := if list.None? then None else LastValue(list.value, FLAGS);
    if v.None? then Done(())
    else if |v.value| < 4 then Panics
    else if !Bit(U32(v.value, 0), 1) then Done(())
    else
      var at := if Bit(flags, NEGOTIATE_VERSION) then 72 else 64;
      if |amsg| < at + 16 then Panics
      else if amsg[at..at + 16] != c.hmac(key, nmsg + cmsg + Splice(amsg, at, Zeros(16))) then Failed
      else Done(())
  }

  /** The server's end of the key exchange. */
  function ServerKey(c: Primitives, flags: nat, base: Digest, encrypted: Bytes): Outcome<Digest> {
    if !Bit(flags, KEY_EXCH) then Done(base)
    else if |encrypted| > 16 then Panics
    else Done(XorStream(c, Rc4(base, 0), encrypted) + Zeros(16 - |encrypted|))
  }

  /** The response check: the session base key if the response is the expected one. */
  function CheckResponse(c: Primitives, key: Digest, cmsg: Bytes, nt: Bytes): (r: Outcome<Digest>)
    ensures r.Done? ==> |nt| >= 44
  {
    if |nt| < 44 || |cmsg| < 32 then Panics
    else if nt != NtResponse(c, key, cmsg[24..32], nt[24..32], nt[32..40], nt[44..]) then Failed
    else Done(c.hmac(key, nt[..16]))
  }

  const GUEST: Str := [103, 117, 101, 115, 116]  // "guest"

  /** The session of a guest: no keys, and nil ciphers, for which an unused Rc4 of the empty key stands here. A
      guest session that is asked to sign panics in the source; traffic of guests is not modelled. */
  function GuestSession(flags: nat): SessionState {
    SessionState(false, GUEST, flags, Zeros(16), [], [], Rc4([], 0), Rc4([], 0))
  }

  function PasswordOf(accounts: map<Str, Str>, user: Str): Str { if user in accounts then accounts[user] else [] }

  /** Server.Authenticate. */
  function Verify(c: Primitives, accounts: map<Str, Str>, allowGuest: bool, nmsg: Bytes, cmsg: Bytes, amsg: Bytes): Outcome<SessionState> {
    if |amsg| < 64 || amsg[..8] != SIGNATURE || U32(amsg, 8) != 3 then Failed
    else
      var flags := U32(amsg, 60);
      var nt :- Field(amsg, 20);
      var domain :- Field(amsg, 28);
      var userName :- Field(amsg, 36);
      var encrypted :- Field(amsg, 52);
      if userName != [] && |nt| >= 16 then
        VerifyUser(c, accounts, allowGuest, nmsg, cmsg, amsg, flags, nt, domain, Decode(userName), encrypted)
      else if allowGuest then Done(GuestSession(flags))
      else Failed
  }

  /** The part of Server.Authenticate for a message with credentials. */
  function VerifyUser(c: Primitives, accounts: map<Str, Str>, allowGuest: bool, nmsg: Bytes, cmsg: Bytes, amsg: Bytes,
                      flags: nat, nt: Bytes, domain: Bytes, user: Str, encrypted: Bytes): Outcome<SessionState>
  {
    if user !in accounts && !allowGuest then Failed
    else
      var base :- CheckResponse(c, ResponseKey(c, user, PasswordHash(c, PasswordOf(accounts, user)), domain), cmsg, nt);
      var key :- ServerKey(c, flags, base, encrypted);
      var _ :- CheckMic(c, flags, key, nmsg, cmsg, amsg, nt[44..]);
      Done(SessionFor(c, false, flags, user, key))
  }

  // ----- what Server.Authenticate leaves in the message buffer -----

  /** The client's target information says that the message has a MIC. */
  predicate SaysMic(info: Bytes) {
    Parsed(info).Some? &&
    var v := LastValue(Parsed(info).value, FLAGS);
    v.Some? && |v.value| >= 4 && Bit(U32(v.value, 0), 1)
  }

  function MicAt(flags: nat): nat { if Bit(flags, NEGOTIATE_VERSION) then 72 else 64 }

  /** The message with its MIC field zeroed, if the check was made. */
  function MicZeroed(flags: nat, amsg: Bytes, info: Bytes): (r: Bytes)
    ensures |r| == |amsg|
  {
    if SaysMic(info) && |amsg| >= MicAt(flags) + 16 then Splice(amsg, MicAt(flags), Zeros(16)) else amsg
  }

  /** The check is made when the user may log on, the response is the expected one and the key is there. */
  predicate ReachesMic(c: Primitives, accounts: map<Str, Str>, allowGuest: bool, cmsg: Bytes,
                       flags: nat, nt: Bytes, domain: Bytes, user: Str, encrypted: Bytes) {
    (user in accounts || allowGuest) &&
    var base := CheckResponse(c, ResponseKey(c, user, PasswordHash(c, PasswordOf(accounts, user)), domain), cmsg, nt);
    base.Done? && ServerKey(c, flags, base.value, encrypted).Done?
  }

  function AfterUser(c: Primitives, accounts: map<Str, Str>, allowGuest: bool, cmsg: Bytes, amsg: Bytes,
                     flags: nat, nt: Bytes, domain: Bytes, user: Str, encrypted: Bytes): Bytes
  {
    if |nt| >= 44 && ReachesMic(c, accounts, allowGuest, cmsg, flags, nt, domain, user, encrypted) then MicZeroed(flags, amsg, nt[44..])
    else amsg
  }

  /** The buffer after Server.Authenticate. */
  function AfterVerify(c: Primitives, accounts: map<Str, Str>, allowGuest: bool, cmsg: Bytes, amsg: Bytes): Bytes {
    if |amsg| < 64 || amsg[..8] != SIGNATURE || U32(amsg, 8) != 3 then amsg
    else
      var nt, domain, userName, encrypted := Field(amsg, 20), Field(amsg, 28), Field(amsg, 36), Field(amsg, 52);
      if nt.Done? && domain.Done? && userName.Done? && encrypted.Done? && userName.value != [] && |nt.value| >= 16 then
        AfterUser(c, accounts, allowGuest, cmsg, amsg, U32(amsg, 60), nt.value, domain.value, Decode(userName.value), encrypted.value)
      else amsg
  }

  /** Whatever the verdict, at most the MIC field changes, and that to zeros. A message that is accepted for a
      user and says that it has a MIC has lost it. */
  lemma OnlyMicChanges(c: Primitives, accounts: map<Str, Str>, allowGuest: bool, nmsg: Bytes, cmsg: Bytes, amsg: Bytes)
    ensures var r := AfterVerify(c, accounts, allowGuest, cmsg, amsg);
            && |r| == |amsg|
            && (r == amsg || (|amsg| >= 80 && var at := MicAt(U32(amsg, 60)); at + 16 <= |amsg| && r == Splice(amsg, at, Zeros(16))))
    ensures var v := Verify(c, accounts, allowGuest, nmsg, cmsg, amsg);
            v.Done? && Field(amsg, 36).value != [] && |Field(amsg, 20).value| >= 44 && SaysMic(Field(amsg, 20).value[44..]) ==>
              var at := MicAt(U32(amsg, 60));
              at + 16 <= |amsg| && AfterVerify(c, accounts, allowGuest, cmsg, amsg) == Splice(amsg, at, Zeros(16))
  {
    hide Field, U32, Decode, CheckResponse, ServerKey, Parsed, LastValue, Splice, Bit, SessionFor, ResponseKey;
  }
}
