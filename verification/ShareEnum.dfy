/** NetShareEnumAll ([MS-SRVS] section 3.1.4.8): the server's encoder, internal/smb2/dcerpc.go, and the
    client's decoder, internal/msrpc/msrpc.go. */
module ShareEnum {
  import opened Bytes
  import opened Utf16
  import opened Segments

  // ----- the structures -----

  /** A Go string that is valid UTF-8: its UTF-16 code units and the length of its UTF-8 form, which takes one
      byte for a unit if the character is ASCII and more if it is not. So the lengths are equal for ASCII
      strings and only for those. (Strings that are not valid UTF-8 are outside the model: their bad bytes
      become U+FFFD, one unit for one byte.) */
  datatype GoStringData = GoStringData(units: Str, utf8Len: nat)
  type GoString = s: GoStringData | |s.units| <= s.utf8Len witness GoStringData([], 0)

  datatype UnicodeStr = UnicodeStr(maxCount: nat, offset: nat, actualCount: nat, encoded: Bytes)
  datatype ShareInfo1 = ShareInfo1(name: UnicodeStr, typ: nat, comment: UnicodeStr)
  datatype NetShareInfo1 = NetShareInfo1(count: nat, pointer: seq<ShareInfo1>)
  datatype NetShareCtr1 = NetShareCtr1(count: nat, info: NetShareInfo1)
  datatype NetShareCtr = NetShareCtr(ctr: nat, pointer: NetShareCtr1)
  datatype NetShareEnumAllResponse = NetShareEnumAllResponse(level: nat, ctr: NetShareCtr, totalEntries: nat, resume: nat, windowsError: nat)
  datatype DCERequestRes = DCERequestRes(callId: nat, allocHint: nat, contextId: nat, cancelCount: byte, data: NetShareEnumAllResponse)

  /** makeUnicodeStr: a NUL is appended, and the counts are lengths in UTF-8 bytes. */
  function MakeUnicodeStr(s: GoString): UnicodeStr {
    UnicodeStr((s.utf8Len + 1) % TWO32, 0, (s.utf8Len + 1) % TWO32, Encode(s.units + [0]))
  }

  const EMPTY: GoString := GoStringData([], 0)

  function MakeInfo(s: GoString): ShareInfo1 { ShareInfo1(MakeUnicodeStr(s), 0, MakeUnicodeStr(EMPTY)) }

  function MakeInfos(shares: seq<GoString>): (r: seq<ShareInfo1>)
    ensures |r| == |shares|
  {
    seq(|shares|, i requires 0 <= i < |shares| => MakeInfo(shares[i]))
  }

  function MakeResponse(shares: seq<GoString>): NetShareEnumAllResponse {
    var n := |shares| % TWO32;
    NetShareEnumAllResponse(1, NetShareCtr(1, NetShareCtr1(n, NetShareInfo1(n, MakeInfos(shares)))), n, 0, 0)
  }

  /** MakeNetShareEnumAllResponse */
  method MakeNetShareEnumAllResponse(shares: seq<GoString>) returns (r: NetShareEnumAllResponse)
    ensures r == MakeResponse(shares)
  {
    var infos := [];
    for i := 0 to |shares|
      invariant infos == MakeInfos(shares[..i])
    {
      infos := infos + [MakeInfo(shares[i])];
    }
    assert shares[..|shares|] == shares;
    var n := |shares| % TWO32;
    r := NetShareEnumAllResponse(1, NetShareCtr(1, NetShareCtr1(n, NetShareInfo1(n, infos))), n, 0, 0);
  }

  // ----- sizes -----

  function StrSize(u: UnicodeStr): (n: nat)
    ensures n >= 12
  {
    12 + Align4(u.actualCount * 2 % TWO32)
  }

  function InfosSize(l: seq<ShareInfo1>): (n: nat)
    ensures n >= 12 * |l|
  {
    if l == [] then 0 else InfosSize(l[..|l| - 1]) + StrSize(l[|l| - 1].name) + StrSize(l[|l| - 1].comment) + 12
  }

  function InfoSize(n: NetShareInfo1): nat { 4 + InfosSize(n.pointer) }

  function CtrSize(n: NetShareCtr): nat { if n.ctr == 1 then 8 + (InfoSize(n.pointer.info) + 8) else 0 }

  function ResponseSize(r: NetShareEnumAllResponse): nat { 20 + CtrSize(r.ctr) }

  function PacketSize(p: DCERequestRes): nat { 24 + ResponseSize(p.data) }

  // ----- bytes -----

  /** The text fits the room that its count makes for it. */
  predicate StrFits(u: UnicodeStr) { 12 + |u.encoded| <= StrSize(u) }

  predicate InfosFit(l: seq<ShareInfo1>) {
    forall i :: 0 <= i < |l| ==> StrFits(l[i].name) && StrFits(l[i].comment)
  }

  function StrBytes(u: UnicodeStr): (b: Bytes)
    requires StrFits(u)
    ensures |b| == StrSize(u)
  {
    LE32(u.maxCount) + LE32(u.offset) + LE32(u.actualCount) + u.encoded + Zeros(StrSize(u) - 12 - |u.encoded|)
  }

  /** The uint32 counter of referent ids after k draws. */
  function Id(first: nat, k: nat): nat {
    if k == 0 then first else Bump(Id(first, k - 1))
  }

  function Bump(id: nat): nat { (id + 1) % TWO32 }

  /** The ids are consecutive numbers modulo 2^32. */
  lemma {:induction false} IdIs(first: nat, k: nat)
    requires first < TWO32
    ensures Id(first, k) == (first + k) % TWO32
  {
    if k > 0 { IdIs(first, k - 1); }
  }

  lemma {:induction false} IdAdd(first: nat, m: nat, n: nat)
    ensures Id(Id(first, m), n) == Id(first, m + n)
  {
    if n > 0 { IdAdd(first, m, n - 1); }
  }

  /** The referent ids and types: for each share one id for the name and one for the comment. */
  function Referents(l: seq<ShareInfo1>, first: nat): (b: Bytes)
    ensures |b| == 12 * |l|
  {
    if l == [] then [] else Referents(l[..|l| - 1], first) + Referent(l[|l| - 1], Id(first, 2 * |l| - 2))
  }

  function Referent(i: ShareInfo1, id: nat): (b: Bytes)
    ensures |b| == 12
  {
    LE32(id) + LE32(i.typ) + LE32(Bump(id))
  }

  function Strings(l: seq<ShareInfo1>): (b: Bytes)
    requires InfosFit(l)
    ensures |b| == InfosSize(l) - 12 * |l|
  {
    if l == [] then []
    else Strings(l[..|l| - 1]) + StrBytes(l[|l| - 1].name) + StrBytes(l[|l| - 1].comment)
  }

  function InfoBytes(n: NetShareInfo1, first: nat): (b: Bytes)
    requires InfosFit(n.pointer)
    ensures |b| == InfoSize(n)
  {
    LE32(n.count) + Referents(n.pointer, first) + Strings(n.pointer)
  }

  function CtrBytes(n: NetShareCtr, first: nat): (b: Bytes)
    requires n.ctr == 1 && InfosFit(n.pointer.info.pointer)
    ensures |b| == CtrSize(n)
  {
    LE32(n.ctr) + LE32(first) + LE32(n.pointer.count) + LE32(Id(first, 1)) + InfoBytes(n.pointer.info, Id(first, 2))
  }

  function ResponseBytes(r: NetShareEnumAllResponse, first: nat): (b: Bytes)
    requires r.ctr.ctr == 1 && InfosFit(r.ctr.pointer.info.pointer)
    ensures |b| == ResponseSize(r)
  {
    var n := |r.ctr.pointer.info.pointer|;
    LE32(r.level) + CtrBytes(r.ctr, first)
    + LE32(r.totalEntries) + LE32(Id(first, 2 + 2 * n)) + LE32(r.resume) + LE32(r.windowsError)
  }

  function HeaderBytes(p: DCERequestRes): (b: Bytes)
    ensures |b| == 24
  {
    [5, 0, 2, 3, 0x10, 0, 0, 0] + LE16(PacketSize(p)) + LE16(0) + LE32(p.callId)
    + LE32(p.allocHint) + LE16(p.contextId) + [p.cancelCount, 0]
  }

  function PacketBytes(p: DCERequestRes, first: nat): (b: Bytes)
    requires p.data.ctr.ctr == 1 && InfosFit(p.data.ctr.pointer.info.pointer)
    ensures |b| == PacketSize(p)
  {
    HeaderBytes(p) + ResponseBytes(p.data, first)
  }

  // ----- the encoder -----

  /** The global counter behind refId(). */
  class RefIds {
    var next: nat  // uint32

    constructor ()
      ensures next == 0x10000
    {
      next := 0x10000;
    }

    method RefId() returns (r: nat)
      modifies this
      ensures r == old(next) && next == Bump(old(next))
    {
      r := next;
      next := (next + 1) % TWO32;
    }
  }

  method EncodeStr(u: UnicodeStr, pkt: array<byte>, off: nat, ghost done: Bytes)
    requires StrFits(u) && Written(pkt[..], done) && off == |done| && off + StrSize(u) <= pkt.Length
    modifies pkt
    ensures Written(pkt[..], done + StrBytes(u))
  {
    StrParts(u, done);
    hide Written, StrBytes, LE32;
    Append(pkt, off, LE32(u.maxCount), done);
    ghost var d := done + LE32(u.maxCount);
    Append(pkt, off + 4, LE32(u.offset), d);
    d := d + LE32(u.offset);
    Append(pkt, off + 8, LE32(u.actualCount), d);
    d := d + LE32(u.actualCount);
    Append(pkt, off + 12, u.encoded, d);
    d := d + u.encoded;
    WrittenZeros(pkt[..], d, StrSize(u) - 12 - |u.encoded|);
  }

  lemma StrParts(u: UnicodeStr, done: Bytes)
    requires StrFits(u)
    ensures done + LE32(u.maxCount) + LE32(u.offset) + LE32(u.actualCount) + u.encoded + Zeros(StrSize(u) - 12 - |u.encoded|)
            == done + StrBytes(u)
  {
  }

  /** NetShareInfo1.Encode: first all referents and types, then all strings. */
  method EncodeInfo(n: NetShareInfo1, pkt: array<byte>, off0: nat, ids: RefIds, ghost done: Bytes)
    requires InfosFit(n.pointer) && Written(pkt[..], done) && off0 == |done| && off0 + InfoSize(n) <= pkt.Length
    modifies pkt, ids
    ensures Written(pkt[..], done + InfoBytes(n, old(ids.next))) && ids.next == Id(old(ids.next), 2 * |n.pointer|)
  {
    Append(pkt, off0, LE32(n.count), done);
    InfoParts(n, done, ids.next);
    InfosSizeIs(n.pointer);
    hide Written, LE32, InfoBytes, InfosFit;
    ghost var d := done + LE32(n.count);
    EncodeReferents(n.pointer, pkt, off0 + 4, ids, d);
    d := d + Referents(n.pointer, old(ids.next));
    EncodeStrings(n.pointer, pkt, off0 + 4 + 12 * |n.pointer|, d);
  }

  lemma InfosSizeIs(l: seq<ShareInfo1>)
    requires InfosFit(l)
    ensures InfosSize(l) == 12 * |l| + |Strings(l)|
  {
  }

  lemma InfoParts(n: NetShareInfo1, done: Bytes, first: nat)
    requires InfosFit(n.pointer)
    ensures done + LE32(n.count) + Referents(n.pointer, first) + Strings(n.pointer) == done + InfoBytes(n, first)
  {
  }

  method EncodeReferents(l: seq<ShareInfo1>, pkt: array<byte>, off0: nat, ids: RefIds, ghost done: Bytes)
    requires Written(pkt[..], done) && off0 == |done| && off0 + 12 * |l| <= pkt.Length
    modifies pkt, ids
    ensures Written(pkt[..], done + Referents(l, old(ids.next))) && ids.next == Id(old(ids.next), 2 * |l|)
  {
    hide Written, LE32, Bump;
    var off := off0;
    ghost var first := ids.next;
    ReferentsStart(done, first);
    assert l[..|l|] == l && l[..0] == [];
    for i := 0 to |l|
      invariant off == off0 + 12 * i
      invariant Written(pkt[..], done + Referents(l[..i], first)) && ids.next == Id(first, 2 * i)
    {
      ghost var d := done + Referents(l[..i], first);
      ReferentsMore(l, i, first, done);
      hide Referents;
      var name := ids.RefId();
      Append(pkt, off, LE32(name), d);
      d := d + LE32(name);
      off := off + 4;
      Append(pkt, off, LE32(l[i].typ), d);
      d := d + LE32(l[i].typ);
      off := off + 4;
      var comment := ids.RefId();
      Append(pkt, off, LE32(comment), d);
      off := off + 4;
    }
  }

  lemma ReferentsStart(done: Bytes, first: nat)
    ensures done + Referents([], first) == done
  {
  }

  lemma ReferentsMore(l: seq<ShareInfo1>, i: nat, first: nat, done: Bytes)
    requires i < |l|
    ensures var id := Id(first, 2 * i);
            && Bump(Bump(id)) == Id(first, 2 * (i + 1))
            && done + Referents(l[..i + 1], first) == done + Referents(l[..i], first) + LE32(id) + LE32(l[i].typ) + LE32(Bump(id))
  {
    var m := l[..i + 1];
    assert m[..|m| - 1] == l[..i] && m[|m| - 1] == l[i];
    hide LE32, Bump;
    assert Id(first, 2 * i + 1) == Bump(Id(first, 2 * i));
    assert Referents(m, first) == Referents(l[..i], first) + Referent(l[i], Id(first, 2 * i));
  }

  method EncodeStrings(l: seq<ShareInfo1>, pkt: array<byte>, off0: nat, ghost done: Bytes)
    requires InfosFit(l) && Written(pkt[..], done) && off0 == |done| && off0 + |Strings(l)| <= pkt.Length
    modifies pkt
    ensures Written(pkt[..], done + Strings(l))
  {
    hide Written, LE32, StrBytes;
    var off := off0;
    assert l[..|l|] == l && l[..0] == [];
    assert done + Strings(l[..0]) == done;
    for i := 0 to |l|
      invariant InfosFit(l[..i]) && off == off0 + |Strings(l[..i])|
      invariant Written(pkt[..], done + Strings(l[..i]))
    {
      StringsMore(l, i, done);
      hide Strings;
      EncodeStr(l[i].name, pkt, off, done + Strings(l[..i]));
      off := off + StrSize(l[i].name);
      EncodeStr(l[i].comment, pkt, off, done + Strings(l[..i]) + StrBytes(l[i].name));
      off := off + StrSize(l[i].comment);
    }
  }

  lemma StringsMore(l: seq<ShareInfo1>, i: nat, done: Bytes)
    requires InfosFit(l) && i < |l|
    ensures done + Strings(l[..i + 1]) == done + Strings(l[..i]) + StrBytes(l[i].name) + StrBytes(l[i].comment)
    ensures |Strings(l[..i + 1])| == |Strings(l[..i])| + StrSize(l[i].name) + StrSize(l[i].comment)
    ensures |Strings(l[..i + 1])| <= |Strings(l)|
  {
    hide StrBytes, StrSize, StrFits;
    var m := l[..i + 1];
    assert m[..|m| - 1] == l[..i] && m[|m| - 1] == l[i];
    StringsGrow(l, i + 1);
    assert Strings(m) == Strings(l[..i]) + StrBytes(l[i].name) + StrBytes(l[i].comment);
  }

  lemma {:induction false} StringsGrow(l: seq<ShareInfo1>, i: nat)
    requires InfosFit(l) && i <= |l|
    ensures |Strings(l[..i])| <= |Strings(l)|
    decreases |l|
  {
    if i == |l| {
      assert l[..i] == l;
    } else {
      StringsGrow(l[..|l| - 1], i);
      assert l[..|l| - 1][..i] == l[..i];
    }
  }

  /** NetShareEnumAllResponse.Encode with the containers inside it. */
  method EncodeResponse(r: NetShareEnumAllResponse, pkt: array<byte>, off: nat, ids: RefIds, ghost done: Bytes)
    requires r.ctr.ctr == 1 && InfosFit(r.ctr.pointer.info.pointer)
    requires Written(pkt[..], done) && off == |done| && off + ResponseSize(r) <= pkt.Length
    modifies pkt, ids
    ensures Written(pkt[..], done + ResponseBytes(r, old(ids.next)))
    ensures ids.next == Id(old(ids.next), 3 + 2 * |r.ctr.pointer.info.pointer|)
  {
    ghost var first := ids.next;
    ResponseParts(r, done, first);
    hide Written, LE32, CtrBytes, CtrSize, ResponseBytes, InfosFit, Bump, Id;
    Append(pkt, off, LE32(r.level), done);
    ghost var d := done + LE32(r.level);
    EncodeCtr(r.ctr, pkt, off + 4, ids, d);
    d := d + CtrBytes(r.ctr, first);
    var at := off + 4 + CtrSize(r.ctr);
    Append(pkt, at, LE32(r.totalEntries), d);
    d := d + LE32(r.totalEntries);
    var id := ids.RefId();
    Append(pkt, at + 4, LE32(id), d);
    d := d + LE32(id);
    Append(pkt, at + 8, LE32(r.resume), d);
    d := d + LE32(r.resume);
    Append(pkt, at + 12, LE32(r.windowsError), d);
  }

  /** NetShareCtr.Encode and NetShareCtr1.Encode */
  method EncodeCtr(n: NetShareCtr, pkt: array<byte>, off: nat, ids: RefIds, ghost done: Bytes)
    requires n.ctr == 1 && InfosFit(n.pointer.info.pointer)
    requires Written(pkt[..], done) && off == |done| && off + CtrSize(n) <= pkt.Length
    modifies pkt, ids
    ensures Written(pkt[..], done + CtrBytes(n, old(ids.next)))
    ensures ids.next == Id(old(ids.next), 2 + 2 * |n.pointer.info.pointer|)
  {
    ghost var first := ids.next;
    CtrParts(n, done, first);
    hide Written, LE32, InfoBytes, InfoSize, CtrBytes, InfosFit, Bump, Id;
    Append(pkt, off, LE32(n.ctr), done);
    ghost var d := done + LE32(n.ctr);
    var id := ids.RefId();
    Append(pkt, off + 4, LE32(id), d);
    d := d + LE32(id);
    Append(pkt, off + 8, LE32(n.pointer.count), d);
    d := d + LE32(n.pointer.count);
    id := ids.RefId();
    Append(pkt, off + 12, LE32(id), d);
    d := d + LE32(id);
    EncodeInfo(n.pointer.info, pkt, off + 16, ids, d);
  }

  lemma CtrParts(n: NetShareCtr, done: Bytes, first: nat)
    requires n.ctr == 1 && InfosFit(n.pointer.info.pointer)
    ensures Id(first, 1) == Bump(first) && Id(first, 2) == Bump(Bump(first))
    ensures Id(Id(first, 2), 2 * |n.pointer.info.pointer|) == Id(first, 2 + 2 * |n.pointer.info.pointer|)
    ensures done + LE32(n.ctr) + LE32(first) + LE32(n.pointer.count) + LE32(Id(first, 1)) + InfoBytes(n.pointer.info, Id(first, 2))
            == done + CtrBytes(n, first)
  {
    IdAdd(first, 2, 2 * |n.pointer.info.pointer|);
    assert Id(first, 1) == Bump(Id(first, 0));
    hide LE32, InfoSize, InfoBytes, Bump;
  }

  lemma ResponseParts(r: NetShareEnumAllResponse, done: Bytes, first: nat)
    requires r.ctr.ctr == 1 && InfosFit(r.ctr.pointer.info.pointer)
    ensures var n := |r.ctr.pointer.info.pointer|;
            && Bump(Id(first, 2 + 2 * n)) == Id(first, 3 + 2 * n)
            && done + LE32(r.level) + CtrBytes(r.ctr, first) + LE32(r.totalEntries) + LE32(Id(first, 2 + 2 * n))
               + LE32(r.resume) + LE32(r.windowsError) == done + ResponseBytes(r, first)
  {
    hide LE32, CtrBytes, CtrSize, Bump;
  }

  /** DCERequestRes.Encode into a zeroed buffer: writes exactly the first Size() bytes. */
  method EncodePacket(p: DCERequestRes, pkt: array<byte>, ids: RefIds)
    requires p.data.ctr.ctr == 1 && InfosFit(p.data.ctr.pointer.info.pointer)
    requires pkt.Length >= PacketSize(p) && (forall i :: 0 <= i < pkt.Length ==> pkt[i] == 0)
    modifies pkt, ids
    ensures Written(pkt[..], PacketBytes(p, old(ids.next)))
    ensures ids.next == Id(old(ids.next), 3 + 2 * |p.data.ctr.pointer.info.pointer|)
  {
    PacketParts(p, ids.next);
    assert Written(pkt[..], []);
    hide Written, LE32, LE16, ResponseBytes, HeaderBytes, PacketBytes, InfosFit;
    Append(pkt, 0, [5, 0, 2, 3, 0x10, 0, 0, 0], []);
    ghost var d: Bytes := [5, 0, 2, 3, 0x10, 0, 0, 0];
    assert [] + d == d;
    Append(pkt, 8, LE16(PacketSize(p)), d);
    d := d + LE16(PacketSize(p));
    Append(pkt, 10, LE16(0), d);
    d := d + LE16(0);
    Append(pkt, 12, LE32(p.callId), d);
    d := d + LE32(p.callId);
    Append(pkt, 16, LE32(p.allocHint), d);
    d := d + LE32(p.allocHint);
    Append(pkt, 20, LE16(p.contextId), d);
    d := d + LE16(p.contextId);
    Append(pkt, 22, [p.cancelCount, 0], d);
    d := d + [p.cancelCount, 0];
    EncodeResponse(p.data, pkt, 24, ids, d);
  }

  lemma PacketParts(p: DCERequestRes, first: nat)
    requires p.data.ctr.ctr == 1 && InfosFit(p.data.ctr.pointer.info.pointer)
    ensures HeaderBytes(p) == [5, 0, 2, 3, 0x10, 0, 0, 0] + LE16(PacketSize(p)) + LE16(0) + LE32(p.callId)
                              + LE32(p.allocHint) + LE16(p.contextId) + [p.cancelCount, 0]
    ensures PacketBytes(p, first) == HeaderBytes(p) + ResponseBytes(p.data, first)
  {
  }

  // ----- the decoder -----

  /** IsInvalid */
  predicate IsInvalid(c: Bytes) {
    |c| < 24 || c[0] != 5 || c[1] != 0 || c[2] != 2
  }

  /** One conformant string at an offset: its text and the offset behind it, if all of it is there. */
  function Entry(c: Bytes, offset: nat): (r: Option<(Str, nat)>)
    ensures r.Some? ==> offset + 12 <= r.value.1 <= |c|
  {
    if |c| < offset + 12 then None
    else
      var noff, nlen := U32(c, offset + 4), U32(c, offset + 8) * 2;
      var next := Align4(offset + 12 + noff + nlen);
      if |c| < next then None else Some((Decode(c[offset + 12 + noff..offset + 12 + noff + nlen]), next))
  }

  /** The entry of one share: at level 1 a comment follows the name. */
  function ShareEntry(c: Bytes, level: nat, offset: nat): (r: Option<(Str, nat)>)
    ensures r.Some? ==> offset < r.value.1 <= |c|
  {
    var name := Entry(c, offset);
    if name.None? || level == 0 then name
    else
      var comment := Entry(c, name.value.1);
      if comment.None? then None else Some((name.value.0, comment.value.1))
  }

  /** The names of n shares from an offset on, or None if something is missing. */
  function Names(c: Bytes, level: nat, offset: nat, n: nat): (r: Option<seq<Str>>)
    ensures r.Some? ==> |r.value| == n
    decreases n
  {
    if n == 0 then Some([])
    else
      var e := ShareEntry(c, level, offset);
      if e.None? then None
      else
        var rest := Names(c, level, e.value.1, n - 1);
        if rest.None? then None else Some([e.value.0] + rest.value)
  }

  function Level(c: Bytes): nat
    requires |c| >= 48
  {
    U32(c, 24)
  }

  function Count(c: Bytes): nat
    requires |c| >= 48
  {
    U32(c, 36)
  }

  /** Where the strings start: behind the array of referents, 4 or 12 bytes for each share. */
  function FirstEntry(c: Bytes): nat
    requires |c| >= 48
  {
    48 + Count(c) * if Level(c) == 0 then 4 else 12
  }

  /** The answer's names; None if it is incomplete or of another level. */
  function Listed(c: Bytes): Option<seq<Str>> {
    if |c| < 48 || Level(c) > 1 || |c| < FirstEntry(c) then None else Names(c, Level(c), FirstEntry(c), Count(c))
  }

  /** One string skipped, as the loops of IsIncomplete do. */
  method SkipEntry(c: Bytes, offset: nat) returns (missing: bool, next: nat)
    ensures missing <==> Entry(c, offset).None?
    ensures !missing ==> next == Entry(c, offset).value.1
  {
    if |c| < offset + 12 { return true, offset; }
    var noff := U32(c, offset + 4);
    var nlen := U32(c, offset + 8) * 2;
    next := Align4(offset + 12 + noff + nlen);
    missing := |c| < next;
  }

  /** IsIncomplete, for every byte string. */
  method IsIncomplete(c: Bytes) returns (incomplete: bool)
    ensures incomplete <==> Listed(c).None?
  {
    hide U32, Entry;
    if |c| < 48 { return true; }
    var level := U32(c, 24);
    var count := U32(c, 36);
    if level > 1 { return true; }
    var offset: nat := 48 + count * if level == 0 then 4 else 12;
    if |c| < offset { return true; }
    var i := 0;
    while i < count
      invariant 0 <= i <= count
      invariant Listed(c).None? <==> Names(c, level, offset, count - i).None?
    {
      var missing;
      missing, offset := SkipEntry(c, offset);
      if missing { return true; }
      if level == 1 {
        missing, offset := SkipEntry(c, offset);
        if missing { return true; }
      }
      i := i + 1;
    }
    return false;
  }

  /** ShareNameList, for every answer that IsIncomplete lets through: all its slices are in range, it visits
      the offsets that IsIncomplete visited, and it returns one name for each share. */
  method ShareNameList(c: Bytes) returns (ss: seq<Str>)
    requires Listed(c).Some?
    ensures ss == Listed(c).value && |ss| == Count(c)
  {
    hide U32, Entry, Decode;
    var level := U32(c, 24);
    var count := U32(c, 36);
    ss := [];
    var offset: nat := 48 + count * if level == 0 then 4 else 12;
    var i := 0;
    while i < count
      invariant 0 <= i <= count && |ss| == i
      invariant Names(c, level, offset, count - i).Some?
      invariant Listed(c).value == ss + Names(c, level, offset, count - i).value
    {
      ghost var e := ShareEntry(c, level, offset).value;
      ghost var rest := Names(c, level, e.1, count - i - 1).value;
      assert ss + ([e.0] + rest) == (ss + [e.0]) + rest;
      var name;
      name, offset := TakeEntry(c, offset);
      ss := ss + [name];
      if level == 1 {
        var comment;
        comment, offset := TakeEntry(c, offset);
      }
      i := i + 1;
    }
  }

  /** One string taken, as the loops of ShareNameList do. */
  method TakeEntry(c: Bytes, offset: nat) returns (text: Str, next: nat)
    requires Entry(c, offset).Some?
    ensures Entry(c, offset) == Some((text, next))
  {
    var noff := U32(c, offset + 4);
    var nlen := U32(c, offset + 8) * 2;
    text := Decode(c[offset + 12 + noff..offset + 12 + noff + nlen]);
    next := Align4(offset + 12 + noff + nlen);
  }

  // ----- the round trip -----

  /** The limits of the uint32 counts. */
  predicate Countable(shares: seq<GoString>) {
    |shares| < TWO32 && forall i :: 0 <= i < |shares| ==> shares[i].utf8Len + 1 < 0x8000_0000
  }

  function Nuls(n: nat): Str { seq(n, _ => 0) }

  /** A name as the decoder sees it: one NUL is stripped, but the count was in UTF-8 bytes. */
  function Received(s: GoString): Str { s.units + Nuls(s.utf8Len - |s.units|) }

  /** Only an ASCII name comes back as it was. */
  lemma ReceivedIff(s: GoString)
    ensures Received(s) == s.units <==> s.utf8Len == |s.units|
  {
    if s.utf8Len > |s.units| { assert |Received(s)| > |s.units|; }
  }

  predicate Aligned(n: nat) { n % 4 == 0 }

  lemma AlignedSum(m: nat, n: nat)
    requires Aligned(m) && Aligned(n)
    ensures Aligned(m + n)
  {
  }

  lemma StrAligned(u: UnicodeStr)
    ensures Aligned(StrSize(u))
  {
  }

  /** A string that stands at an offset, 4-byte aligned, is read back. */
  lemma EntryOf(c: Bytes, offset: nat, s: GoString)
    requires s.utf8Len + 1 < 0x8000_0000 && Aligned(offset)
    ensures StrFits(MakeUnicodeStr(s))
    ensures At(c, offset, StrBytes(MakeUnicodeStr(s))) ==>
              Entry(c, offset) == Some((Received(s), offset + StrSize(MakeUnicodeStr(s))))
  {
    StrSizeIs(s);
    if At(c, offset, StrBytes(MakeUnicodeStr(s))) { EntryThere(c, offset, s); }
  }

  lemma EntryThere(c: Bytes, offset: nat, s: GoString)
    requires s.utf8Len + 1 < 0x8000_0000 && Aligned(offset)
    requires StrFits(MakeUnicodeStr(s)) && At(c, offset, StrBytes(MakeUnicodeStr(s)))
    ensures Entry(c, offset) == Some((Received(s), offset + StrSize(MakeUnicodeStr(s))))
  {
    hide StrSize, Decode, Align4, Encode, U32, StrBytes, At, Zeros, Aligned, StrFits, Received;
    var u := MakeUnicodeStr(s);
    StrSizeIs(s);
    StrReads(c, offset, u, 2 * (s.utf8Len + 1));
    TextDecodes(s, StrSize(u) - 12);
    AlignAfter(offset, 2 * (s.utf8Len + 1));
    AtEnds(c, offset, StrBytes(u));
  }

  lemma StrSizeIs(s: GoString)
    requires s.utf8Len + 1 < 0x8000_0000
    ensures var u := MakeUnicodeStr(s); StrFits(u) && StrSize(u) == 12 + Align4(2 * (s.utf8Len + 1)) && u.actualCount == s.utf8Len + 1
  {
  }

  lemma AlignAfter(offset: nat, n: nat)
    requires Aligned(offset)
    ensures Align4(offset + 12 + n) == offset + 12 + Align4(n)
  {
  }

  lemma StrReads(c: Bytes, offset: nat, u: UnicodeStr, len: nat)
    requires StrFits(u) && At(c, offset, StrBytes(u)) && u.actualCount < TWO32 && u.offset == 0
    requires len <= StrSize(u) - 12
    ensures U32(c, offset + 4) == 0 && U32(c, offset + 8) == u.actualCount
    ensures offset + 12 + len <= |c|
    ensures c[offset + 12..offset + 12 + len] == (u.encoded + Zeros(StrSize(u) - 12 - |u.encoded|))[..len]
  {
    hide LE32, U32, StrSize, StrFits;
    var b := StrBytes(u);
    var text := u.encoded + Zeros(StrSize(u) - 12 - |u.encoded|);
    assert b == LE32(u.maxCount) + LE32(u.offset) + LE32(u.actualCount) + text;
    assert b[4..8] == LE32(0) && b[8..12] == LE32(u.actualCount) && b[12..] == text;
    SubSlice(c, offset, offset + |b|, 4, 8);
    SubSlice(c, offset, offset + |b|, 8, 12);
    SubSlice(c, offset, offset + |b|, 12, 12 + len);
    ReadLE32(c, offset + 4, 0);
    ReadLE32(c, offset + 8, u.actualCount);
    assert b[12..12 + len] == b[12..][..len];
  }

  /** The text field decodes to the name and the surplus NULs. */
  lemma TextDecodes(s: GoString, room: nat)
    requires room >= 2 * (s.utf8Len + 1)
    ensures Decode((Encode(s.units + [0]) + Zeros(room - 2 * |s.units| - 2))[..2 * (s.utf8Len + 1)]) == Received(s)
  {
    var e := Encode(s.units + [0]);
    var t := (e + Zeros(room - 2 * |s.units| - 2))[..2 * (s.utf8Len + 1)];
    UnitsOfEncode(s.units + [0]);
    hide Encode;
    assert |t| / 2 == s.utf8Len + 1;
    forall i | 0 <= i <= s.utf8Len ensures Units(t)[i] == (Received(s) + [0])[i] {
      TextUnit(s, e, t, i);
    }
    assert Units(t) == Received(s) + [0];
  }

  lemma TextUnit(s: GoString, e: Bytes, t: Bytes, i: nat)
    requires Units(e) == s.units + [0] && |e| == 2 * |s.units| + 2 && |t| == 2 * (s.utf8Len + 1) && i <= s.utf8Len
    requires forall j :: 0 <= j < |t| ==> t[j] == if j < |e| then e[j] else 0
    ensures Units(t)[i] == (Received(s) + [0])[i]
  {
    if i <= |s.units| { assert Units(t)[i] == Units(e)[i]; }
  }

  lemma {:induction false} StringsPrefix(l: seq<ShareInfo1>, i: nat)
    requires InfosFit(l) && i <= |l|
    ensures Strings(l[..i]) <= Strings(l)
    decreases |l|
  {
    if i == |l| {
      assert l[..i] == l;
    } else {
      hide StrBytes, StrSize, StrFits;
      StringsPrefix(l[..|l| - 1], i);
      assert l[..|l| - 1][..i] == l[..i];
    }
  }

  /** The strings of share i stand behind those of the shares before it. */
  lemma StringsAt(c: Bytes, base: nat, l: seq<ShareInfo1>, i: nat)
    requires InfosFit(l) && i < |l| && At(c, base, Strings(l))
    ensures var at := base + |Strings(l[..i])|;
            At(c, at, StrBytes(l[i].name)) && At(c, at + StrSize(l[i].name), StrBytes(l[i].comment))
  {
    hide StrBytes, StrSize, StrFits, At, Strings, InfosFit, InfosSize;
    SomeInfosFit(l, i);
    SomeInfosFit(l, i + 1);
    EachFits(l, i);
    StringsStep(l, i);
    StringsPrefix(l, i + 1);
    var pre, name, comment := Strings(l[..i]), StrBytes(l[i].name), StrBytes(l[i].comment);
    PrefixAt(c, base, Strings(l), pre + name + comment);
    InsideOf(c, base, pre, name, comment);
  }

  lemma EachFits(l: seq<ShareInfo1>, i: nat)
    requires InfosFit(l) && i < |l|
    ensures StrFits(l[i].name) && StrFits(l[i].comment)
  {
    hide StrFits;
  }

  lemma StringsStep(l: seq<ShareInfo1>, i: nat)
    requires InfosFit(l) && i < |l|
    ensures Strings(l[..i + 1]) == Strings(l[..i]) + StrBytes(l[i].name) + StrBytes(l[i].comment)
  {
    hide StrBytes, StrSize, StrFits;
    var m := l[..i + 1];
    assert m[..|m| - 1] == l[..i] && m[|m| - 1] == l[i];
  }

  function AllReceived(shares: seq<GoString>): (r: seq<Str>)
    ensures |r| == |shares|
  {
    seq(|shares|, i requires 0 <= i < |shares| => Received(shares[i]))
  }

  lemma {:induction false} InfosAligned(l: seq<ShareInfo1>)
    requires InfosFit(l)
    ensures Aligned(|Strings(l)|)
  {
    hide StrBytes, StrSize, StrFits, Aligned;
    if l == [] {
      assert Aligned(0) by { NothingAligned(); }
    } else {
      var i := |l| - 1;
      InfosAligned(l[..i]);
      StrAligned(l[i].name);
      StrAligned(l[i].comment);
      AlignedSum(|Strings(l[..i])|, StrSize(l[i].name));
      AlignedSum(|Strings(l[..i])| + StrSize(l[i].name), StrSize(l[i].comment));
    }
  }

  lemma NothingAligned()
    ensures Aligned(0)
  {
  }

  lemma MadeInfosFit(shares: seq<GoString>)
    requires Countable(shares)
    ensures InfosFit(MakeInfos(shares))
  {
    StrSizeIs(EMPTY);
    forall i | 0 <= i < |shares| ensures StrFits(MakeUnicodeStr(shares[i])) { StrSizeIs(shares[i]); }
  }

  /** The name and comment of one share are read back. */
  lemma ShareEntryOf(c: Bytes, at: nat, s: GoString)
    requires s.utf8Len + 1 < 0x8000_0000 && Aligned(at)
    ensures StrFits(MakeUnicodeStr(s)) && StrFits(MakeUnicodeStr(EMPTY))
    ensures var name, comment := MakeUnicodeStr(s), MakeUnicodeStr(EMPTY);
            At(c, at, StrBytes(name)) && At(c, at + StrSize(name), StrBytes(comment)) ==>
              ShareEntry(c, 1, at) == Some((Received(s), at + StrSize(name) + StrSize(comment)))
  {
    hide StrBytes, StrSize, Entry, Received, At, Aligned, MakeUnicodeStr;
    EntryOf(c, at, s);
    StrAligned(MakeUnicodeStr(s));
    AlignedSum(at, StrSize(MakeUnicodeStr(s)));
    EntryOf(c, at + StrSize(MakeUnicodeStr(s)), EMPTY);
  }

  /** From the strings of share i on, the decoder reads the names of shares i, i+1, ... */
  lemma {:induction false} NamesFrom(c: Bytes, base: nat, shares: seq<GoString>, i: nat)
    requires Countable(shares) && i <= |shares| && Aligned(base)
    requires InfosFit(MakeInfos(shares)) && At(c, base, Strings(MakeInfos(shares)))
    ensures InfosFit(MakeInfos(shares)[..i])
    ensures Names(c, 1, base + |Strings(MakeInfos(shares)[..i])|, |shares| - i) == Some(AllReceived(shares[i..]))
    decreases |shares| - i
  {
    hide StrBytes, StrSize, StrFits, Strings, InfosFit, InfosSize, ShareEntry, MakeUnicodeStr, Received, At, Aligned;
    SomeInfosFit(MakeInfos(shares), i);
    if i == |shares| {
      assert shares[i..] == [];
    } else {
      hide *;
      NamesFrom(c, base, shares, i + 1);
      EntryAt(c, base, shares, i);
      NamesStep(c, base + |Strings(MakeInfos(shares)[..i])|, shares, i, base + |Strings(MakeInfos(shares)[..i + 1])|);
    }
  }

  lemma SomeInfosFit(l: seq<ShareInfo1>, i: nat)
    requires InfosFit(l) && i <= |l|
    ensures InfosFit(l[..i])
  {
  }

  lemma InfoAt(shares: seq<GoString>, i: nat)
    requires Countable(shares) && i < |shares|
    ensures shares[i].utf8Len + 1 < 0x8000_0000
    ensures var l := MakeInfos(shares); l[i].name == MakeUnicodeStr(shares[i]) && l[i].comment == MakeUnicodeStr(EMPTY)
  {
  }

  lemma EntryAt(c: Bytes, base: nat, shares: seq<GoString>, i: nat)
    requires Countable(shares) && i < |shares| && Aligned(base)
    requires InfosFit(MakeInfos(shares)) && At(c, base, Strings(MakeInfos(shares)))
    ensures var l := MakeInfos(shares);
            && InfosFit(l[..i]) && InfosFit(l[..i + 1])
            && ShareEntry(c, 1, base + |Strings(l[..i])|) == Some((Received(shares[i]), base + |Strings(l[..i + 1])|))
  {
    hide StrBytes, StrSize, StrFits, Strings, InfosFit, InfosSize, ShareEntry, MakeUnicodeStr, Received, At, Aligned;
    InfoAt(shares, i);
    EntryIn(c, base, MakeInfos(shares), i, shares[i]);
  }

  lemma EntryIn(c: Bytes, base: nat, l: seq<ShareInfo1>, i: nat, s: GoString)
    requires InfosFit(l) && At(c, base, Strings(l)) && i < |l| && Aligned(base)
    requires l[i].name == MakeUnicodeStr(s) && l[i].comment == MakeUnicodeStr(EMPTY) && s.utf8Len + 1 < 0x8000_0000
    ensures InfosFit(l[..i]) && InfosFit(l[..i + 1])
    ensures ShareEntry(c, 1, base + |Strings(l[..i])|) == Some((Received(s), base + |Strings(l[..i + 1])|))
  {
    hide StrBytes, StrSize, StrFits, Strings, InfosFit, InfosSize, ShareEntry, MakeUnicodeStr, Received, At, Aligned;
    SomeInfosFit(l, i);
    SomeInfosFit(l, i + 1);
    StringsStep(l, i);
    StringsAt(c, base, l, i);
    InfosAligned(l[..i]);
    AlignedSum(base, |Strings(l[..i])|);
    ShareEntryOf(c, base + |Strings(l[..i])|, s);
  }

  lemma NamesStep(c: Bytes, at: nat, shares: seq<GoString>, i: nat, next: nat)
    requires i < |shares| && ShareEntry(c, 1, at) == Some((Received(shares[i]), next))
    requires Names(c, 1, next, |shares| - i - 1) == Some(AllReceived(shares[i + 1..]))
    ensures Names(c, 1, at, |shares| - i) == Some(AllReceived(shares[i..]))
  {
    hide ShareEntry, AllReceived;
    FirstReceived(shares, i);
  }

  lemma FirstReceived(shares: seq<GoString>, i: nat)
    requires i < |shares|
    ensures AllReceived(shares[i..]) == [Received(shares[i])] + AllReceived(shares[i + 1..])
  {
    hide Received;
    var a, b := AllReceived(shares[i..]), [Received(shares[i])] + AllReceived(shares[i + 1..]);
    forall k | 0 <= k < |a| ensures a[k] == b[k] {
      assert shares[i..][k] == shares[i + k];
      if k > 0 { assert shares[i + 1..][k - 1] == shares[i + k]; }
    }
  }

  /** What the decoder looks at in a packet. */
  lemma PacketReads(p: DCERequestRes, first: nat, c: Bytes)
    requires p.data.ctr.ctr == 1 && InfosFit(p.data.ctr.pointer.info.pointer) && PacketBytes(p, first) <= c
    ensures |c| >= 64 && !IsInvalid(c)
    ensures At(c, 24, LE32(p.data.level)) && At(c, 36, LE32(p.data.ctr.pointer.count))
    ensures var l := p.data.ctr.pointer.info.pointer; At(c, 48 + 12 * |l|, Strings(l))
  {
    PacketParts(p, first);
    hide At, HeaderBytes, ResponseBytes, PacketBytes, LE32, InfosFit, Strings, IsInvalid;
    PrefixAt2(c, PacketBytes(p, first));
    assert [] + HeaderBytes(p) + ResponseBytes(p.data, first) == PacketBytes(p, first);
    InsideOf(c, 0, [], HeaderBytes(p), ResponseBytes(p.data, first));
    HeaderReads(p, c);
    ResponseReads(p.data, first, c, 24);
  }

  lemma HeaderReads(p: DCERequestRes, c: Bytes)
    requires At(c, 0, HeaderBytes(p))
    ensures !IsInvalid(c)
  {
    var h := HeaderBytes(p);
    assert c[0] == h[0] && c[1] == h[1] && c[2] == h[2];
  }

  lemma ResponseReads(r: NetShareEnumAllResponse, first: nat, c: Bytes, at: nat)
    requires r.ctr.ctr == 1 && InfosFit(r.ctr.pointer.info.pointer) && At(c, at, ResponseBytes(r, first))
    ensures At(c, at, LE32(r.level)) && At(c, at + 12, LE32(r.ctr.pointer.count))
    ensures var l := r.ctr.pointer.info.pointer; At(c, at + 24 + 12 * |l|, Strings(l))
    ensures at + ResponseSize(r) <= |c|
  {
    hide LE32, CtrBytes, CtrSize, InfosSize, At, Id, InfosFit, Strings;
    AtEnds(c, at, ResponseBytes(r, first));
    var n := |r.ctr.pointer.info.pointer|;
    var tail := LE32(r.totalEntries) + LE32(Id(first, 2 + 2 * n)) + LE32(r.resume) + LE32(r.windowsError);
    assert ResponseBytes(r, first) == LE32(r.level) + CtrBytes(r.ctr, first) + tail;
    InsideOf(c, at, LE32(r.level), CtrBytes(r.ctr, first), tail);
    CtrReads(r.ctr, first, c, at + 4);
  }

  lemma CtrReads(n: NetShareCtr, first: nat, c: Bytes, at: nat)
    requires n.ctr == 1 && InfosFit(n.pointer.info.pointer) && At(c, at, CtrBytes(n, first))
    ensures At(c, at + 8, LE32(n.pointer.count))
    ensures var l := n.pointer.info.pointer; At(c, at + 20 + 12 * |l|, Strings(l))
  {
    hide LE32, At, Id, InfosFit, InfosSize, Strings;
    var info := n.pointer.info;
    var a, b, x := LE32(n.ctr) + LE32(first), LE32(Id(first, 1)) + LE32(info.count), Referents(info.pointer, Id(first, 2));
    assert CtrBytes(n, first) == a + LE32(n.pointer.count) + (b + x + Strings(info.pointer));
    InsideOf(c, at, a, LE32(n.pointer.count), b + x + Strings(info.pointer));
    InsideOf(c, at + 12, b, x, Strings(info.pointer));
  }

  lemma PrefixAt2(c: Bytes, t: Bytes)
    requires t <= c
    ensures At(c, 0, t)
  {
  }

  /** Round trip. The answer for any list of shares, as the server encodes it at the front of any buffer, is
      accepted by the client's checks, and the client reads one name for each share, in order: the name, its
      NUL stripped, with as many NULs behind it as its UTF-8 form has more bytes than it has code units. */
  lemma RoundTrip(p: DCERequestRes, shares: seq<GoString>, first: nat, c: Bytes)
    requires Countable(shares) && p.data == MakeResponse(shares)
    requires InfosFit(MakeInfos(shares)) && PacketBytes(p, first) <= c
    ensures !IsInvalid(c) && Listed(c) == Some(AllReceived(shares))
  {
    hide Strings, Entry, LE32, InfosFit, PacketBytes, PacketSize, At, Names, U32, Aligned, MakeInfos, AllReceived, IsInvalid,
         MakeResponse;
    MadeParts(shares);
    NoneBefore(shares);
    var l := MakeInfos(shares);
    PacketReads(p, first, c);
    ReadWords(c, |shares|);
    BaseAligned(|shares|);
    NamesFrom(c, 48 + 12 * |shares|, shares, 0);
    NoStrings();
    AtEnds(c, 48 + 12 * |l|, Strings(l));
  }

  lemma ReadWords(c: Bytes, n: nat)
    requires At(c, 24, LE32(1)) && At(c, 36, LE32(n % TWO32))
    ensures U32(c, 24) == 1 && (n < TWO32 ==> U32(c, 36) == n)
  {
    ReadLE32(c, 24, 1);
    ReadLE32(c, 36, n % TWO32);
  }

  lemma BaseAligned(n: nat)
    ensures Aligned(48 + 12 * n)
  {
  }

  lemma MadeParts(shares: seq<GoString>)
    ensures var r := MakeResponse(shares);
            && r.level == 1 && r.ctr.ctr == 1 && r.ctr.pointer.count == |shares| % TWO32
            && r.ctr.pointer.info.pointer == MakeInfos(shares)
  {
  }

  lemma NoneBefore(shares: seq<GoString>)
    ensures MakeInfos(shares)[..0] == [] && shares[0..] == shares
  {
  }

  lemma NoStrings()
    ensures InfosFit([]) && Strings([]) == []
  {
  }

  /** The client gets the server's names if and only if each has as many UTF-8 bytes as UTF-16 units, that is,
      all of them are ASCII. */
  lemma RoundTripIff(p: DCERequestRes, shares: seq<GoString>, first: nat, c: Bytes, names: seq<Str>)
    requires Countable(shares) && p.data == MakeResponse(shares)
    requires InfosFit(MakeInfos(shares)) && PacketBytes(p, first) <= c
    requires |names| == |shares| && forall i :: 0 <= i < |names| ==> names[i] == shares[i].units
    ensures Listed(c) == Some(names) <==> forall i :: 0 <= i < |shares| ==> shares[i].utf8Len == |shares[i].units|
  {
    RoundTrip(p, shares, first, c);
    hide PacketBytes, Listed, Received, MakeInfos, InfosFit;
    var r := AllReceived(shares);
    forall i | 0 <= i < |shares| ensures r[i] == names[i] <==> shares[i].utf8Len == |shares[i].units| { ReceivedIff(shares[i]); }
    if r != names {
      var i :| 0 <= i < |shares| && r[i] != names[i];
    }
  }

  /** The whole exchange: build the answer, encode it, check it and list it. */
  method Enumerate(shares: seq<GoString>, callId: nat, ids: RefIds) returns (names: seq<Str>)
    requires Countable(shares)
    modifies ids
    ensures names == AllReceived(shares)
  {
    hide Listed, PacketBytes, Written, InfosFit, Countable, PacketSize, MakeResponse, MakeInfos, AllReceived, IsInvalid;
    MadeInfosFit(shares);
    MadeParts(shares);
    var data := MakeNetShareEnumAllResponse(shares);
    var p := DCERequestRes(callId, 0, 0, 0, data);
    ghost var first := ids.next;
    var pkt := new byte[PacketSize(p)](_ => 0);
    EncodePacket(p, pkt, ids);
    FrontOf(pkt[..], PacketBytes(p, first));
    RoundTrip(p, shares, first, pkt[..]);
    var incomplete := IsIncomplete(pkt[..]);
    assert !incomplete;
    names := ShareNameList(pkt[..]);
  }

  // ----- what is complete -----

  /** The string at off is all there, and the next one starts at next: the text stands behind twelve bytes and
      the distance given in the second word, has two bytes for each of the third, and is padded to four. */
  ghost predicate StringThere(c: Bytes, off: nat, next: nat) {
    off + 12 <= |c| &&
    var end := off + 12 + U32(c, off + 4) + 2 * U32(c, off + 8);
    end <= next < end + 4 && next % 4 == 0 && next <= |c|
  }

  function TextAt(c: Bytes, off: nat): Str
    requires off + 12 <= |c| && off + 12 + U32(c, off + 4) + 2 * U32(c, off + 8) <= |c|
  {
    var at := off + 12 + U32(c, off + 4);
    Decode(c[at..at + 2 * U32(c, off + 8)])
  }

  ghost predicate StringsThere(c: Bytes, offs: seq<nat>) {
    offs != [] && forall i :: 0 <= i < |offs| - 1 ==> StringThere(c, offs[i], offs[i + 1])
  }

  lemma EntryIff(c: Bytes, off: nat, next: nat)
    ensures StringThere(c, off, next) <==> Entry(c, off).Some? && Entry(c, off).value.1 == next
    ensures StringThere(c, off, next) ==> Entry(c, off).value.0 == TextAt(c, off)
  {
    hide U32, Decode;
    if off + 12 <= |c| { RoundedUp(off + 12 + U32(c, off + 4) + 2 * U32(c, off + 8), next); }
  }

  lemma RoundedUp(n: nat, m: nat)
    ensures m == Align4(n) <==> n <= m < n + 4 && m % 4 == 0
  {
  }

  /** Name i is the text of the string that is first in entry i. */
  ghost predicate NamesAt(c: Bytes, level: nat, offs: seq<nat>, names: seq<Str>) {
    forall i :: 0 <= i < |names| ==> NameAt(c, level, offs, i, names[i])
  }

  ghost predicate NameAt(c: Bytes, level: nat, offs: seq<nat>, i: nat, name: Str) {
    var k := if level == 0 then i else 2 * i;
    k + 1 < |offs| && StringThere(c, offs[k], offs[k + 1]) && name == TextAt(c, offs[k])
  }

  /** The offsets of the strings that the names were read from. */
  lemma {:induction false} NamesThere(c: Bytes, level: nat, offset: nat, n: nat) returns (offs: seq<nat>)
    requires level <= 1 && Names(c, level, offset, n).Some?
    ensures |offs| == n * (level + 1) + 1 && offs[0] == offset && StringsThere(c, offs)
    ensures NamesAt(c, level, offs, Names(c, level, offset, n).value)
    decreases n
  {
    hide Entry, StringThere, TextAt, StringsThere, NamesAt;
    OnlyOne(c, offset, level);
    if n == 0 {
      offs := [offset];
    } else {
      var name := Entry(c, offset).value;
      var rest := NamesThere(c, level, ShareEntry(c, level, offset).value.1, n - 1);
      EntryIff(c, offset, name.1);
      if level == 1 {
        EntryIff(c, name.1, Entry(c, name.1).value.1);
        offs := [offset, name.1] + rest;
      } else {
        offs := [offset] + rest;
      }
      FirstThere(c, level, offs, rest);
      StepBack(n, level);
      FirstNameAt(c, level, offs, rest, name.0, Names(c, level, ShareEntry(c, level, offset).value.1, n - 1).value);
    }
  }

  lemma OnlyOne(c: Bytes, offset: nat, level: nat)
    ensures StringsThere(c, [offset]) && NamesAt(c, level, [offset], [])
  {
  }

  lemma FirstNameAt(c: Bytes, level: nat, offs: seq<nat>, rest: seq<nat>, name: Str, names: seq<Str>)
    requires level <= 1 && NamesAt(c, level, rest, names) && |offs| == |rest| + level + 1 && offs[level + 1..] == rest && rest != []
    requires StringThere(c, offs[0], offs[1]) && name == TextAt(c, offs[0])
    ensures NamesAt(c, level, offs, [name] + names)
  {
    hide StringThere, TextAt;
    var all := [name] + names;
    forall i | 0 <= i < |all| ensures NameAt(c, level, offs, i, all[i]) {
      if i > 0 {
        assert NameAt(c, level, rest, i - 1, names[i - 1]);
        var k := if level == 0 then i - 1 else 2 * (i - 1);
        assert rest[k] == offs[k + level + 1] && rest[k + 1] == offs[k + level + 2];
      }
    }
  }

  lemma FirstThere(c: Bytes, level: nat, offs: seq<nat>, rest: seq<nat>)
    requires level <= 1 && StringsThere(c, rest) && |offs| == |rest| + level + 1 && offs[level + 1..] == rest
    requires StringThere(c, offs[0], offs[1]) && (level == 1 ==> StringThere(c, offs[1], offs[2]))
    ensures StringsThere(c, offs)
  {
    hide StringThere;
    forall i | 0 <= i < |offs| - 1 ensures StringThere(c, offs[i], offs[i + 1]) {
      if i > level { assert offs[i] == rest[i - level - 1] && offs[i + 1] == rest[i - level]; }
    }
  }

  lemma StepBack(i: nat, level: nat)
    requires i > 0
    ensures i * (level + 1) == (i - 1) * (level + 1) + level + 1
  {
  }

  lemma FrontThere(c: Bytes, level: nat, offs: seq<nat>, rest: seq<nat>)
    requires level <= 1 && StringsThere(c, offs) && |offs| > level + 1 && rest == offs[level + 1..]
    ensures StringThere(c, offs[0], offs[1]) && (level == 1 ==> StringThere(c, offs[1], offs[2])) && StringsThere(c, rest)
    ensures rest[0] == offs[level + 1]
  {
    hide StringThere;
    forall i | 0 <= i < |rest| - 1 ensures StringThere(c, rest[i], rest[i + 1]) {
      assert rest[i] == offs[i + level + 1] && rest[i + 1] == offs[i + level + 2];
    }
  }

  /** And the other way round. */
  lemma {:induction false} ThereNames(c: Bytes, level: nat, offs: seq<nat>, n: nat)
    requires level <= 1 && |offs| == n * (level + 1) + 1 && StringsThere(c, offs)
    ensures Names(c, level, offs[0], n).Some?
    decreases n
  {
    hide Entry, StringThere, StringsThere;
    if n > 0 {
      StepBack(n, level);
      var rest := offs[level + 1..];
      FrontThere(c, level, offs, rest);
      EntryIff(c, offs[0], offs[1]);
      if level == 1 { EntryIff(c, offs[1], offs[2]); }
      ThereNames(c, level, rest, n - 1);
    }
  }

  /** For every byte string: an answer is complete, and its names can be listed, if and only if it has its 48
      bytes of head, is of level 0 or 1, has its array, and from there on one or two strings for each share, each
      where the one before it ends. */
  lemma CompleteIff(c: Bytes)
    ensures Listed(c).Some? <==>
              && |c| >= 48 && U32(c, 24) <= 1
              && var start := 48 + U32(c, 36) * (if U32(c, 24) == 0 then 4 else 12);
                 && start <= |c|
                 && exists offs: seq<nat> :: |offs| == U32(c, 36) * (U32(c, 24) + 1) + 1 && offs[0] == start && StringsThere(c, offs)
  {
    hide U32, Names, StringsThere;
    if |c| >= 48 && U32(c, 24) <= 1 {
      var level, n := U32(c, 24), U32(c, 36);
      var start := 48 + n * (if level == 0 then 4 else 12);
      if start <= |c| {
        if Listed(c).Some? {
          var offs := NamesThere(c, level, start, n);
        }
        if exists offs: seq<nat> :: |offs| == n * (level + 1) + 1 && offs[0] == start && StringsThere(c, offs) {
          var offs: seq<nat> :| |offs| == n * (level + 1) + 1 && offs[0] == start && StringsThere(c, offs);
          ThereNames(c, level, offs, n);
        }
      }
    }
  }

  // ----- the packet, field by field -----

  /** The head of the server's answer: a response (2) in one fragment (3) with its length and call; level 1,
      container 1 with the number of shares, referent ids counting up from the first. */
  lemma PacketHead(p: DCERequestRes, shares: seq<GoString>, first: nat)
    requires Countable(shares) && p.data == MakeResponse(shares) && InfosFit(MakeInfos(shares)) && first < TWO32
    requires p.callId < TWO32 && p.allocHint < TWO32 && p.contextId < TWO16
    ensures var b := PacketBytes(p, first);
            && |b| >= 64 + 12 * |shares| && b[..8] == [5, 0, 2, 3, 0x10, 0, 0, 0] && U16(b, 8) == |b| % 0x1_0000 && U16(b, 10) == 0
            && U32(b, 12) == p.callId && U32(b, 16) == p.allocHint && U16(b, 20) == p.contextId && b[22] == p.cancelCount && b[23] == 0
            && U32(b, 24) == 1 && U32(b, 28) == 1 && U32(b, 32) == first && U32(b, 36) == |shares|
            && U32(b, 40) == (first + 1) % 0x1_0000_0000 && U32(b, 44) == |shares|
            && At(b, 48, Referents(MakeInfos(shares), Id(first, 2)))
            && U32(b, |b| - 16) == |shares| && U32(b, |b| - 12) == (first + 2 + 2 * |shares|) % 0x1_0000_0000
            && U32(b, |b| - 8) == 0 && U32(b, |b| - 4) == 0
  {
    hide LE16, LE32, U16, U32, At, Id, Strings, InfosFit, Referents, Countable, MakeInfos, InfosSize;
    MadeParts(shares);
    CountSmall(shares);
    var b := PacketBytes(p, first);
    PacketParts(p, first);
    WholeAt(b);
    HeadAndTail(b, 0, HeaderBytes(p), ResponseBytes(p.data, first));
    HeaderFields(p, b);
    ResponseFields(p.data, first, b);
  }

  lemma CountSmall(shares: seq<GoString>)
    requires Countable(shares)
    ensures |shares| % TWO32 == |shares| < TWO32
  {
  }

  lemma WholeAt(b: Bytes)
    ensures At(b, 0, b)
  {
  }

  lemma HeaderFields(p: DCERequestRes, b: Bytes)
    requires At(b, 0, HeaderBytes(p)) && p.callId < TWO32 && p.allocHint < TWO32 && p.contextId < TWO16
    ensures |b| >= 24 && b[..8] == [5, 0, 2, 3, 0x10, 0, 0, 0] && U16(b, 8) == PacketSize(p) % 0x1_0000 && U16(b, 10) == 0
    ensures U32(b, 12) == p.callId && U32(b, 16) == p.allocHint && U16(b, 20) == p.contextId && b[22] == p.cancelCount && b[23] == 0
  {
    var d: Bytes, e: Bytes := [5, 0, 2, 3, 0x10, 0, 0, 0], [p.cancelCount, 0];
    hide LE16, LE32, U16, U32, At, PacketSize;
    assert HeaderBytes(p) == d + (LE16(PacketSize(p)) + (LE16(0) + (LE32(p.callId) + (LE32(p.allocHint) + (LE16(p.contextId) + e)))));
    HeadAndTail(b, 0, d, LE16(PacketSize(p)) + (LE16(0) + (LE32(p.callId) + (LE32(p.allocHint) + (LE16(p.contextId) + e)))));
    HeadAndTail(b, 8, LE16(PacketSize(p)), LE16(0) + (LE32(p.callId) + (LE32(p.allocHint) + (LE16(p.contextId) + e))));
    HeadAndTail(b, 10, LE16(0), LE32(p.callId) + (LE32(p.allocHint) + (LE16(p.contextId) + e)));
    HeadAndTail(b, 12, LE32(p.callId), LE32(p.allocHint) + (LE16(p.contextId) + e));
    HeadAndTail(b, 16, LE32(p.allocHint), LE16(p.contextId) + e);
    HeadAndTail(b, 20, LE16(p.contextId), e);
    LastTwo(b, 22, e);
    ReadLE16(b, 8, PacketSize(p));
    ReadLE16(b, 10, 0);
    ReadWord32(b, 12, p.callId);
    ReadWord32(b, 16, p.allocHint);
    ReadWord16(b, 20, p.contextId);
  }

  lemma LastTwo(b: Bytes, off: nat, e: Bytes)
    requires At(b, off, e) && |e| == 2
    ensures off + 2 <= |b| && b[off] == e[0] && b[off + 1] == e[1]
  {
    assert b[off..off + 2][0] == b[off] && b[off..off + 2][1] == b[off + 1];
  }

  lemma ResponseFields(r: NetShareEnumAllResponse, first: nat, b: Bytes)
    requires r.level == 1 && r.ctr.ctr == 1 && InfosFit(r.ctr.pointer.info.pointer) && At(b, 24, ResponseBytes(r, first))
    requires |b| == 24 + ResponseSize(r) && first < TWO32
    requires var n := |r.ctr.pointer.info.pointer|;
             n < TWO32 && r.ctr.pointer.count == n && r.ctr.pointer.info.count == n && r.totalEntries == n && r.resume == 0 && r.windowsError == 0
    ensures var l := r.ctr.pointer.info.pointer;
            && |b| >= 64 + 12 * |l| && U32(b, 24) == 1 && U32(b, 28) == 1 && U32(b, 32) == first && U32(b, 36) == |l|
            && U32(b, 40) == (first + 1) % 0x1_0000_0000 && U32(b, 44) == |l| && At(b, 48, Referents(l, Id(first, 2)))
            && U32(b, |b| - 16) == |l| && U32(b, |b| - 12) == (first + 2 + 2 * |l|) % 0x1_0000_0000
            && U32(b, |b| - 8) == 0 && U32(b, |b| - 4) == 0
  {
    hide LE32, U32, At, Id, Strings, InfosFit, Referents, InfosSize;
    var l := r.ctr.pointer.info.pointer;
    var n := |l|;
    IdIs(first, 1);
    IdIs(first, 2 + 2 * n);
    InfosSizeIs(l);
    var y := LE32(r.totalEntries) + (LE32(Id(first, 2 + 2 * n)) + (LE32(r.resume) + LE32(r.windowsError)));
    var x := LE32(n) + (Referents(l, Id(first, 2)) + (Strings(l) + y));
    ResponseNested(r, first);
    ContainerFields(b, first, n, Id(first, 1), x);
    HeadAndTail(b, 44, LE32(n), Referents(l, Id(first, 2)) + (Strings(l) + y));
    ReadWord32(b, 44, n);
    HeadAndTail(b, 48, Referents(l, Id(first, 2)), Strings(l) + y);
    HeadAndTail(b, 48 + 12 * n, Strings(l), y);
    LastFields(b, 48 + 12 * n + |Strings(l)|, n, Id(first, 2 + 2 * n));
  }

  lemma ContainerFields(b: Bytes, first: nat, n: nat, second: nat, x: Bytes)
    requires At(b, 24, LE32(1) + (LE32(1) + (LE32(first) + (LE32(n) + (LE32(second) + x)))))
    requires first < TWO32 && n < TWO32 && second < TWO32
    ensures |b| >= 44 && U32(b, 24) == 1 && U32(b, 28) == 1 && U32(b, 32) == first && U32(b, 36) == n && U32(b, 40) == second
    ensures At(b, 44, x)
  {
    hide LE32, U32, At;
    HeadAndTail(b, 24, LE32(1), LE32(1) + (LE32(first) + (LE32(n) + (LE32(second) + x))));
    HeadAndTail(b, 28, LE32(1), LE32(first) + (LE32(n) + (LE32(second) + x)));
    HeadAndTail(b, 32, LE32(first), LE32(n) + (LE32(second) + x));
    HeadAndTail(b, 36, LE32(n), LE32(second) + x);
    HeadAndTail(b, 40, LE32(second), x);
    ReadWord32(b, 24, 1);
    ReadWord32(b, 28, 1);
    ReadWord32(b, 32, first);
    ReadWord32(b, 36, n);
    ReadWord32(b, 40, second);
  }

  lemma LastFields(b: Bytes, at: nat, n: nat, id: nat)
    requires At(b, at, LE32(n) + (LE32(id) + (LE32(0) + LE32(0)))) && n < TWO32 && id < TWO32
    ensures at + 16 <= |b| && U32(b, at) == n && U32(b, at + 4) == id && U32(b, at + 8) == 0 && U32(b, at + 12) == 0
  {
    hide LE32, U32, At;
    HeadAndTail(b, at, LE32(n), LE32(id) + (LE32(0) + LE32(0)));
    HeadAndTail(b, at + 4, LE32(id), LE32(0) + LE32(0));
    HeadAndTail(b, at + 8, LE32(0), LE32(0));
    ReadWord32(b, at, n);
    ReadWord32(b, at + 4, id);
    ReadWord32(b, at + 8, 0);
    ReadWord32(b, at + 12, 0);
  }

  lemma ResponseNested(r: NetShareEnumAllResponse, first: nat)
    requires r.level == 1 && r.ctr.ctr == 1 && InfosFit(r.ctr.pointer.info.pointer)
    requires var n := |r.ctr.pointer.info.pointer|; r.ctr.pointer.count == n && r.ctr.pointer.info.count == n
    ensures var l := r.ctr.pointer.info.pointer;
            var n := |l|;
            var y := LE32(r.totalEntries) + (LE32(Id(first, 2 + 2 * n)) + (LE32(r.resume) + LE32(r.windowsError)));
            var x := LE32(n) + (Referents(l, Id(first, 2)) + (Strings(l) + y));
            ResponseBytes(r, first) == LE32(1) + (LE32(1) + (LE32(first) + (LE32(n) + (LE32(Id(first, 1)) + x))))
  {
    hide LE32, Id, Strings, InfosFit, Referents, InfosSize;
  }

  /** The array: for each share a referent id for the name, type 0, and the next id for the comment. */
  lemma {:induction false} ReferentsStand(b: Bytes, off: nat, l: seq<ShareInfo1>, first: nat, i: nat)
    requires At(b, off, Referents(l, first)) && i < |l| && first < TWO32 && forall j :: 0 <= j < |l| ==> l[j].typ == 0
    ensures off + 12 * i + 12 <= |b|
    ensures U32(b, off + 12 * i) == (first + 2 * i) % 0x1_0000_0000 && U32(b, off + 12 * i + 4) == 0
    ensures U32(b, off + 12 * i + 8) == (first + 2 * i + 1) % 0x1_0000_0000
    decreases |l|
  {
    hide LE32, U32, At;
    var m, x := l[..|l| - 1], Referent(l[|l| - 1], Id(first, 2 * |l| - 2));
    HeadAndTail(b, off, Referents(m, first), x);
    if i == |l| - 1 {
      var id := Id(first, 2 * i);
      IdIs(first, 2 * i);
      IdIs(first, 2 * i + 1);
      HeadAndTail(b, off + 12 * i, LE32(id) + LE32(l[i].typ), LE32(Bump(id)));
      HeadAndTail(b, off + 12 * i, LE32(id), LE32(l[i].typ));
      AtEnds(b, off + 12 * i + 8, LE32(Bump(id)));
      ReadWord32(b, off + 12 * i, id);
      ReadWord32(b, off + 12 * i + 4, 0);
      ReadWord32(b, off + 12 * i + 8, Bump(id));
    } else {
      ReferentsStand(b, off, m, first, i);
    }
  }

  /** A string: both counts are the UTF-8 length with the NUL, the offset is zero, and the text has its NUL. */
  ghost predicate StringIs(b: Bytes, off: nat, s: GoString) {
    && off + 12 + 2 * |s.units| + 2 <= |b|
    && U32(b, off) == s.utf8Len + 1 && U32(b, off + 4) == 0 && U32(b, off + 8) == s.utf8Len + 1
    && b[off + 12..off + 12 + 2 * |s.units| + 2] == Encode(s.units + [0])
  }

  lemma StringStands(b: Bytes, off: nat, s: GoString)
    requires s.utf8Len + 1 < 0x8000_0000 && StrFits(MakeUnicodeStr(s)) && At(b, off, StrBytes(MakeUnicodeStr(s)))
    ensures StringIs(b, off, s)
  {
    hide LE32, U32, At, Encode, Zeros, StrSize;
    var u := MakeUnicodeStr(s);
    StrSizeIs(s);
    var rest := Zeros(StrSize(u) - 12 - |u.encoded|);
    assert StrBytes(u) == LE32(u.maxCount) + (LE32(u.offset) + (LE32(u.actualCount) + (u.encoded + rest)));
    HeadAndTail(b, off, LE32(u.maxCount), LE32(u.offset) + (LE32(u.actualCount) + (u.encoded + rest)));
    HeadAndTail(b, off + 4, LE32(u.offset), LE32(u.actualCount) + (u.encoded + rest));
    HeadAndTail(b, off + 8, LE32(u.actualCount), u.encoded + rest);
    HeadAndTail(b, off + 12, u.encoded, rest);
    ReadWord32(b, off, s.utf8Len + 1);
    ReadWord32(b, off + 4, 0);
    ReadWord32(b, off + 8, s.utf8Len + 1);
  }

  /** The place of each share in the array. */
  lemma PacketArray(p: DCERequestRes, shares: seq<GoString>, first: nat, i: nat)
    requires Countable(shares) && p.data == MakeResponse(shares) && InfosFit(MakeInfos(shares)) && first < TWO32
    requires p.callId < TWO32 && p.allocHint < TWO32 && p.contextId < TWO16 && i < |shares|
    ensures var b := PacketBytes(p, first);
            && |b| >= 60 + 12 * i && U32(b, 48 + 12 * i) == (first + 2 + 2 * i) % 0x1_0000_0000
            && U32(b, 52 + 12 * i) == 0 && U32(b, 56 + 12 * i) == (first + 3 + 2 * i) % 0x1_0000_0000
  {
    hide U32, At, Id, Strings, InfosFit, Referents, Countable, MakeInfos, PacketBytes;
    PacketHead(p, shares, first);
    NoTypes(shares);
    FirstTwo(first);
    ReferentsStand(PacketBytes(p, first), 48, MakeInfos(shares), Id(first, 2), i);
    Consecutive(first, i);
  }

  /** Where the strings of share i start: behind the array and the strings of the shares before it. */
  function TextStart(shares: seq<GoString>, i: nat): nat
    requires i <= |shares|
  {
    if i == 0 then 48 + 12 * |shares| else TextStart(shares, i - 1) + 12 + Room(shares[i - 1]) + 16
  }

  /** The text of a string, padded to four. */
  function Room(s: GoString): nat { (2 * (s.utf8Len + 1) + 3) / 4 * 4 }

  lemma {:induction false} TextStartIs(shares: seq<GoString>, i: nat)
    requires Countable(shares) && i <= |shares| && InfosFit(MakeInfos(shares)) && InfosFit(MakeInfos(shares)[..i])
    ensures TextStart(shares, i) == 48 + 12 * |shares| + |Strings(MakeInfos(shares)[..i])|
  {
    hide Strings, InfosFit, StrBytes, StrFits, StrSize, MakeInfos, Countable;
    NoneBefore(shares);
    NoStrings();
    if i > 0 {
      SomeInfosFit(MakeInfos(shares), i - 1);
      TextStartIs(shares, i - 1);
      EachFits(MakeInfos(shares), i - 1);
      StringsStep(MakeInfos(shares), i - 1);
      InfoAt(shares, i - 1);
      StrSizeIs(shares[i - 1]);
      StrSizeIs(EMPTY);
      EmptyText();
      RoomIs(2 * (shares[i - 1].utf8Len + 1));
    }
  }

  /** And its strings: the name and an empty comment. */
  lemma PacketText(p: DCERequestRes, shares: seq<GoString>, first: nat, i: nat)
    requires Countable(shares) && p.data == MakeResponse(shares) && InfosFit(MakeInfos(shares)) && i < |shares|
    ensures StringIs(PacketBytes(p, first), TextStart(shares, i), shares[i])
    ensures StringIs(PacketBytes(p, first), TextStart(shares, i) + 12 + Room(shares[i]), EMPTY)
  {
    hide At, Strings, InfosFit, Countable, MakeInfos, StrBytes, StrFits, StrSize, PacketBytes, StringIs, TextStart;
    var b, l := PacketBytes(p, first), MakeInfos(shares);
    InfoAt(shares, i);
    PacketStrings(p, shares, first);
    SomeInfosFit(l, i);
    TextStartIs(shares, i);
    StringsAt(b, 48 + 12 * |shares|, l, i);
    StrSizeIs(shares[i]);
    StrSizeIs(EMPTY);
    RoomIs(2 * (shares[i].utf8Len + 1));
    StringStands(b, TextStart(shares, i), shares[i]);
    StringStands(b, TextStart(shares, i) + 12 + Room(shares[i]), EMPTY);
  }

  lemma RoomIs(n: nat)
    ensures Align4(n) == (n + 3) / 4 * 4
  {
  }

  lemma EmptyText()
    ensures Encode(EMPTY.units + [0]) == [0, 0] && Align4(2 * (EMPTY.utf8Len + 1)) == 4
  {
    assert [0][..0] == [];
  }

  lemma NoTypes(shares: seq<GoString>)
    ensures forall j :: 0 <= j < |shares| ==> MakeInfos(shares)[j].typ == 0
  {
  }

  lemma FirstTwo(first: nat)
    requires first < TWO32
    ensures Id(first, 2) == (first + 2) % TWO32 < TWO32
  {
    IdIs(first, 2);
  }

  lemma Consecutive(first: nat, i: nat)
    ensures ((first + 2) % TWO32 + 2 * i) % TWO32 == (first + 2 + 2 * i) % TWO32
    ensures ((first + 2) % TWO32 + 2 * i + 1) % TWO32 == (first + 3 + 2 * i) % TWO32
  {
  }

  lemma PacketStrings(p: DCERequestRes, shares: seq<GoString>, first: nat)
    requires p.data == MakeResponse(shares) && InfosFit(MakeInfos(shares))
    ensures At(PacketBytes(p, first), 48 + 12 * |shares|, Strings(MakeInfos(shares)))
  {
    hide InfosFit, MakeInfos, PacketBytes, At, Strings, IsInvalid;
    MadeParts(shares);
    PacketReads(p, first, PacketBytes(p, first));
  }

  /** The client checks the version and the type of a packet. */
  lemma AcceptedIff(c: Bytes)
    ensures !IsInvalid(c) <==> |c| >= 24 && c[..3] == [5, 0, 2]
  {
    if |c| >= 24 { assert c[..3] == [c[0], c[1], c[2]]; }
  }
}
