/** Self-relative security descriptors ([MS-DTYP] sections 2.4.2.2, 2.4.4.2, 2.4.5 and 2.4.6): the encoder of
    server/acl.go, the descriptor that queryInfoSec of server/file_tree.go builds, the access-control-entry
    walk of setSecInfo, and the SID decoder of internal/smb2/dtyp.go. */
module SecurityDescriptor {
  import opened Bytes
  import opened Segments

  type Authority = a: Bytes | |a| == 6 witness Zeros(6)

  datatype SID = SID(authority: Authority, sub: seq<nat>)
  datatype ACE = ACE(sid: SID, typ: byte, mask: nat)
  type ACL = seq<ACE>
  datatype Descriptor = Descriptor(owner: Option<SID>, group: Option<SID>, sacl: Option<ACL>, dacl: Option<ACL>)

  const WORLD_AUTHORITY: Authority := [0, 0, 0, 0, 0, 1]
  const NT_AUTHORITY: Authority := [0, 0, 0, 0, 0, 5]

  function SIDFromUid(uid: nat): SID { SID(NT_AUTHORITY, [88, 1, uid]) }
  function SIDFromGid(gid: nat): SID { SID(NT_AUTHORITY, [88, 2, gid]) }
  function SIDFromMode(mode: nat): SID { SID(NT_AUTHORITY, [88, 3, mode]) }

  // ----- sizes and bytes -----

  function SidSize(s: SID): nat { 8 + 4 * |s.sub| }
  function AceSize(a: ACE): nat { 8 + SidSize(a.sid) }

  function AcesSize(l: ACL): nat { if l == [] then 0 else AcesSize(l[..|l| - 1]) + AceSize(l[|l| - 1]) }
  function AclSize(l: ACL): nat { 8 + AcesSize(l) }

  function OptSidSize(s: Option<SID>): nat { if s.None? then 0 else SidSize(s.value) }
  function OptAclSize(l: Option<ACL>): nat { if l.None? then 0 else AclSize(l.value) }

  function Size(d: Descriptor): nat {
    20 + OptSidSize(d.owner) + OptSidSize(d.group) + OptAclSize(d.sacl) + OptAclSize(d.dacl)
  }

  function SubBytes(sub: seq<nat>): (b: Bytes)
    ensures |b| == 4 * |sub|
  {
    if sub == [] then [] else SubBytes(sub[..|sub| - 1]) + LE32(sub[|sub| - 1])
  }

  /** Revision 1, count, authority, sub-authorities. */
  function SidBytes(s: SID): (b: Bytes)
    ensures |b| == SidSize(s)
  {
    [1, |s.sub| % 256] + s.authority + SubBytes(s.sub)
  }

  /** Type, no flags, size, mask, SID. */
  function AceBytes(a: ACE): (b: Bytes)
    ensures |b| == AceSize(a)
  {
    [a.typ, 0] + LE16(AceSize(a)) + LE32(a.mask) + SidBytes(a.sid)
  }

  function AcesBytes(l: ACL): (b: Bytes)
    ensures |b| == AcesSize(l)
  {
    if l == [] then [] else AcesBytes(l[..|l| - 1]) + AceBytes(l[|l| - 1])
  }

  /** Revision 2, size, number of entries, the entries. */
  function AclBytes(l: ACL): (b: Bytes)
    ensures |b| == AclSize(l)
  {
    [2, 0] + LE16(AclSize(l)) + LE16(|l|) + [0, 0] + AcesBytes(l)
  }

  function OptSidBytes(s: Option<SID>): (b: Bytes)
    ensures |b| == OptSidSize(s)
  {
    if s.None? then [] else SidBytes(s.value)
  }

  function OptAclBytes(l: Option<ACL>): (b: Bytes)
    ensures |b| == OptAclSize(l)
  {
    if l.None? then [] else AclBytes(l.value)
  }

  /** Self-relative, with a SACL, with a DACL. */
  function Control(d: Descriptor): nat {
    0x8000 + (if d.sacl.Some? then 0x10 else 0) + (if d.dacl.Some? then 4 else 0)
  }

  function Offset(present: bool, off: nat): nat { if present then off else 0 }

  /** The descriptor's segments: revision, control, four offsets, four parts. */
  function Parts(d: Descriptor): (ws: seq<Bytes>)
    ensures |ws| == 10
  {
    var group := 20 + OptSidSize(d.owner);
    var sacl := group + OptSidSize(d.group);
    var dacl := sacl + OptAclSize(d.sacl);
    [[1, 0], LE16(Control(d)), LE32(Offset(d.owner.Some?, 20)), LE32(Offset(d.group.Some?, group)),
     LE32(Offset(d.sacl.Some?, sacl)), LE32(Offset(d.dacl.Some?, dacl)),
     OptSidBytes(d.owner), OptSidBytes(d.group), OptAclBytes(d.sacl), OptAclBytes(d.dacl)]
  }

  function Lens(d: Descriptor): seq<nat> {
    [2, 2, 4, 4, 4, 4, OptSidSize(d.owner), OptSidSize(d.group), OptAclSize(d.sacl), OptAclSize(d.dacl)]
  }

  function DescriptorBytes(d: Descriptor): Bytes { Concat(Parts(d)) }

  // ----- the encoder -----

  method EncodeSid(s: SID, b: array<byte>, off: nat)
    requires off + SidSize(s) <= b.Length
    modifies b
    ensures b[..] == Splice(old(b[..]), off, SidBytes(s))
  {
    ghost var b0 := b[..];
    var head := [1, |s.sub| % 256] + s.authority;
    NoSubs(s.sub, head);
    hide Splice, SubBytes, LE32;
    Put(b, off, head);
    for i := 0 to |s.sub|
      invariant b[..] == Splice(b0, off, head + SubBytes(s.sub[..i]))
    {
      SubMore(s.sub, i, head);
      Put(b, off + 8 + 4 * i, LE32(s.sub[i]));
      SpliceMore(b0, off, head + SubBytes(s.sub[..i]), LE32(s.sub[i]));
    }
  }

  lemma NoSubs(sub: seq<nat>, head: Bytes)
    ensures head + SubBytes(sub[..0]) == head && sub[..|sub|] == sub
  {
  }

  lemma SubMore(sub: seq<nat>, i: nat, front: Bytes)
    requires i < |sub|
    ensures front + SubBytes(sub[..i + 1]) == front + SubBytes(sub[..i]) + LE32(sub[i])
  {
    var t := sub[..i + 1];
    assert t[..|t| - 1] == sub[..i] && t[|t| - 1] == sub[i];
    hide LE32;
  }

  method EncodeAce(a: ACE, b: array<byte>, off: nat)
    requires off + AceSize(a) <= b.Length
    modifies b
    ensures b[..] == Splice(old(b[..]), off, AceBytes(a))
  {
    ghost var b0 := b[..];
    assert AceBytes(a) == [a.typ, 0] + LE16(AceSize(a)) + LE32(a.mask) + SidBytes(a.sid);
    hide Splice, LE16, LE32, SidBytes, AceBytes;
    Put(b, off, [a.typ, 0]);
    Put(b, off + 2, LE16(AceSize(a)));
    SpliceMore(b0, off, [a.typ, 0], LE16(AceSize(a)));
    Put(b, off + 4, LE32(a.mask));
    SpliceMore(b0, off, [a.typ, 0] + LE16(AceSize(a)), LE32(a.mask));
    EncodeSid(a.sid, b, off + 8);
    SpliceMore(b0, off, [a.typ, 0] + LE16(AceSize(a)) + LE32(a.mask), SidBytes(a.sid));
  }

  /** ACL.Encode; the reserved bytes are not written, so the buffer must be zero there. */
  method EncodeAcl(l: ACL, b: array<byte>, off: nat)
    requires off + AclSize(l) <= b.Length
    requires b[..][off + 1..off + 2] == [0] && b[..][off + 6..off + 8] == [0, 0]
    modifies b
    ensures b[..] == Splice(old(b[..]), off, AclBytes(l))
  {
    ghost var b0 := b[..];
    hide Splice, LE16, AceBytes, AcesBytes, AclBytes, AcesSize;
    Put(b, off, [2]);
    SpliceKept(b0, off, [2], [0]);
    assert [2] + [0] == [2, 0];
    Put(b, off + 2, LE16(AclSize(l)));
    SpliceMore(b0, off, [2, 0], LE16(AclSize(l)));
    Put(b, off + 4, LE16(|l|));
    SpliceMore(b0, off, [2, 0] + LE16(AclSize(l)), LE16(|l|));
    SpliceKept(b0, off, [2, 0] + LE16(AclSize(l)) + LE16(|l|), [0, 0]);
    ghost var h := [2, 0] + LE16(AclSize(l)) + LE16(|l|) + [0, 0];
    EncodeAces(l, b, off + 8, b0, off, h);
    AclIs(l);
  }

  lemma AclIs(l: ACL)
    ensures AclBytes(l) == [2, 0] + LE16(AclSize(l)) + LE16(|l|) + [0, 0] + AcesBytes(l)
  {
  }

  /** The loop of ACL.Encode. */
  method EncodeAces(l: ACL, b: array<byte>, off0: nat, ghost b0: Bytes, ghost start: nat, ghost h: Bytes)
    requires off0 == start + |h| && off0 + AcesSize(l) <= b.Length == |b0| && b[..] == Splice(b0, start, h)
    modifies b
    ensures b[..] == Splice(b0, start, h + AcesBytes(l))
  {
    hide Splice, AceBytes, AceSize;
    var off := off0;
    assert l[..|l|] == l && l[..0] == [];
    assert h + AcesBytes(l[..0]) == h;
    for i := 0 to |l|
      invariant off == off0 + AcesSize(l[..i]) <= off0 + AcesSize(l)
      invariant b[..] == Splice(b0, start, h + AcesBytes(l[..i]))
    {
      AcesMore(l, i, h);
      hide AcesBytes;
      EncodeAce(l[i], b, off);
      SpliceMore(b0, start, h + AcesBytes(l[..i]), AceBytes(l[i]));
      off := off + AceSize(l[i]);
    }
  }

  lemma AcesMore(l: ACL, i: nat, h: Bytes)
    requires i < |l|
    ensures h + AcesBytes(l[..i + 1]) == h + AcesBytes(l[..i]) + AceBytes(l[i])
    ensures AcesSize(l[..i + 1]) == AcesSize(l[..i]) + AceSize(l[i]) <= AcesSize(l)
  {
    AcesSnoc(l, i);
    AcesGrow(l, i + 1);
    hide AceBytes, AceSize, AcesBytes, AcesSize;
    ConcatAssoc(h, AcesBytes(l[..i]), AceBytes(l[i]));
  }

  lemma ConcatAssoc(a: Bytes, b: Bytes, t: Bytes)
    ensures a + (b + t) == a + b + t
  {
  }

  lemma AcesSnoc(l: ACL, i: nat)
    requires i < |l|
    ensures AcesBytes(l[..i + 1]) == AcesBytes(l[..i]) + AceBytes(l[i])
    ensures AcesSize(l[..i + 1]) == AcesSize(l[..i]) + AceSize(l[i])
  {
    hide AceBytes, AceSize;
    assert l[..i + 1][..i] == l[..i];
  }

  lemma {:induction false} AcesGrow(l: ACL, i: nat)
    requires i <= |l|
    ensures AcesSize(l[..i]) <= AcesSize(l)
    decreases |l|
  {
    if i == |l| {
      assert l[..i] == l;
    } else {
      AcesGrow(l[..|l| - 1], i);
      assert l[..|l| - 1][..i] == l[..i];
    }
  }

  lemma PartOffsets(d: Descriptor)
    ensures var l := Lens(d);
            && Off(l, 0) == 0 && Off(l, 1) == 2 && Off(l, 2) == 4 && Off(l, 3) == 8 && Off(l, 4) == 12 && Off(l, 5) == 16
            && Off(l, 6) == 20 && Off(l, 7) == 20 + OptSidSize(d.owner)
            && Off(l, 8) == 20 + OptSidSize(d.owner) + OptSidSize(d.group)
            && Off(l, 9) == 20 + OptSidSize(d.owner) + OptSidSize(d.group) + OptAclSize(d.sacl)
            && Off(l, 10) == Size(d)
    ensures var l := Lens(d);
            && |l| == 10 && l[0] == 2 && l[1] == 2 && l[2] == 4 && l[3] == 4 && l[4] == 4 && l[5] == 4
            && l[6] == OptSidSize(d.owner) && l[7] == OptSidSize(d.group) && l[8] == OptAclSize(d.sacl) && l[9] == OptAclSize(d.dacl)
    ensures var l, z := Lens(d), Blank(Lens(d));
            && |z| == 10 && z[0] == [0, 0] && z[2] == LE32(0) && z[3] == LE32(0) && z[4] == LE32(0) && z[5] == LE32(0)
            && z[6] == Zeros(l[6]) && z[7] == Zeros(l[7]) && z[8] == Zeros(l[8]) && z[9] == Zeros(l[9])
  {
    assert LE32(0) == [0, 0, 0, 0];
  }

  /** SecurityDescriptor.Encode into a zeroed buffer of Size() bytes. */
  method Encode(d: Descriptor, b: array<byte>)
    requires b.Length == Size(d) && forall i :: 0 <= i < b.Length ==> b[i] == 0
    modifies b
    ensures b[..] == DescriptorBytes(d)
  {
    ghost var lens := Lens(d);
    PartOffsets(d);
    BlankSeg(b[..], lens);
    ghost var ws := Blank(lens);
    hide Seg, Off, Lens, Blank, Zeros, LE16, LE32, OptSidBytes, OptAclBytes, OptSidSize, OptAclSize, Parts, Control, Offset, Concat;
    EncodeHead(Control(d), b, lens, ws);
    ws := ws[0 := [1, 0]][1 := LE16(Control(d))];
    ws := EncodeSids(d, b, lens, ws);
    ws := EncodeAcls(d, b, lens, ws);
    PartsDone(d, ws);
    SegConcat(b[..], lens, ws);
  }

  /** Owner and group. */
  method EncodeSids(d: Descriptor, b: array<byte>, ghost lens: seq<nat>, ghost ws: seq<Bytes>) returns (ghost r: seq<Bytes>)
    requires |lens| == |ws| == 10 && Seg(b[..], lens, ws) && Off(lens, 2) == 4 && Off(lens, 3) == 8 && lens[2] == 4 && lens[3] == 4
    requires Off(lens, 6) == 20 && Off(lens, 7) == 20 + OptSidSize(d.owner)
    requires lens[6] == OptSidSize(d.owner) && lens[7] == OptSidSize(d.group)
    requires ws[2] == LE32(0) && ws[3] == LE32(0) && ws[6] == Zeros(lens[6]) && ws[7] == Zeros(lens[7])
    modifies b
    ensures Seg(b[..], lens, r)
    ensures r == ws[2 := LE32(Offset(d.owner.Some?, 20))][6 := OptSidBytes(d.owner)]
                   [3 := LE32(Offset(d.group.Some?, 20 + OptSidSize(d.owner)))][7 := OptSidBytes(d.group)]
  {
    hide Seg, Off, Zeros, LE32, OptSidBytes, OptSidSize, Offset;
    var offset := 20;
    EncodeSidPart(d.owner, b, offset, 4, lens, ws, 6, 2);
    r := ws[2 := LE32(Offset(d.owner.Some?, offset))][6 := OptSidBytes(d.owner)];
    offset := offset + OptSidSize(d.owner);
    EncodeSidPart(d.group, b, offset, 8, lens, r, 7, 3);
    r := r[3 := LE32(Offset(d.group.Some?, offset))][7 := OptSidBytes(d.group)];
  }

  /** SACL and DACL. */
  method EncodeAcls(d: Descriptor, b: array<byte>, ghost lens: seq<nat>, ghost ws: seq<Bytes>) returns (ghost r: seq<Bytes>)
    requires |lens| == |ws| == 10 && Seg(b[..], lens, ws) && Off(lens, 4) == 12 && Off(lens, 5) == 16 && lens[4] == 4 && lens[5] == 4
    requires Off(lens, 8) == 20 + OptSidSize(d.owner) + OptSidSize(d.group)
    requires Off(lens, 9) == Off(lens, 8) + OptAclSize(d.sacl)
    requires lens[8] == OptAclSize(d.sacl) && lens[9] == OptAclSize(d.dacl)
    requires ws[4] == LE32(0) && ws[5] == LE32(0) && ws[8] == Zeros(lens[8]) && ws[9] == Zeros(lens[9])
    modifies b
    ensures Seg(b[..], lens, r)
    ensures var off := 20 + OptSidSize(d.owner) + OptSidSize(d.group);
            r == ws[4 := LE32(Offset(d.sacl.Some?, off))][8 := OptAclBytes(d.sacl)]
                   [5 := LE32(Offset(d.dacl.Some?, off + OptAclSize(d.sacl)))][9 := OptAclBytes(d.dacl)]
  {
    hide Seg, Off, Zeros, LE32, OptAclBytes, OptAclSize, OptSidSize, Offset;
    var offset := 20 + OptSidSize(d.owner) + OptSidSize(d.group);
    EncodeAclPart(d.sacl, b, offset, 12, lens, ws, 8, 4);
    r := ws[4 := LE32(Offset(d.sacl.Some?, offset))][8 := OptAclBytes(d.sacl)];
    offset := offset + OptAclSize(d.sacl);
    EncodeAclPart(d.dacl, b, offset, 16, lens, r, 9, 5);
    r := r[5 := LE32(Offset(d.dacl.Some?, offset))][9 := OptAclBytes(d.dacl)];
  }

  /** Revision and control. */
  method EncodeHead(control: nat, b: array<byte>, ghost lens: seq<nat>, ghost ws: seq<Bytes>)
    requires Seg(b[..], lens, ws) && |lens| == |ws| == 10 && Off(lens, 0) == 0 && Off(lens, 1) == 2
    requires lens[0] == 2 && lens[1] == 2 && ws[0] == [0, 0]
    modifies b
    ensures Seg(b[..], lens, ws[0 := [1, 0]][1 := LE16(control)])
  {
    RevisionIs();
    hide Seg, Off, LE16, Splice;
    PutInside(b, 0, [1], lens, ws, 0, 0);
    PutSegment(b, 2, LE16(control), lens, ws[0 := [1, 0]], 1);
  }

  lemma RevisionIs()
    ensures Splice([0, 0], 0, [1]) == [1, 0]
  {
  }

  lemma PartsDone(d: Descriptor, ws: seq<Bytes>)
    requires var group := 20 + OptSidSize(d.owner);
             var sacl := group + OptSidSize(d.group);
             var dacl := sacl + OptAclSize(d.sacl);
             && |ws| == 10 && ws[0] == [1, 0] && ws[1] == LE16(Control(d))
             && ws[2] == LE32(Offset(d.owner.Some?, 20)) && ws[3] == LE32(Offset(d.group.Some?, group))
             && ws[4] == LE32(Offset(d.sacl.Some?, sacl)) && ws[5] == LE32(Offset(d.dacl.Some?, dacl))
             && ws[6] == OptSidBytes(d.owner) && ws[7] == OptSidBytes(d.group)
             && ws[8] == OptAclBytes(d.sacl) && ws[9] == OptAclBytes(d.dacl)
    ensures ws == Parts(d)
  {
  }

  /** The owner or the group: the SID and its offset, unless there is none. */
  method EncodeSidPart(s: Option<SID>, b: array<byte>, off: nat, field: nat, ghost lens: seq<nat>, ghost ws: seq<Bytes>, ghost i: nat, ghost j: nat)
    requires Seg(b[..], lens, ws) && i < |lens| == |ws| && j < |lens| && i != j
    requires off == Off(lens, i) && lens[i] == OptSidSize(s) && field == Off(lens, j) && lens[j] == 4
    requires ws[i] == Zeros(lens[i]) && ws[j] == LE32(0)
    modifies b
    ensures Seg(b[..], lens, ws[j := LE32(Offset(s.Some?, off))][i := OptSidBytes(s)])
  {
    SegWidth(b[..], lens, ws, i);
    hide Seg, Off, LE32, Splice, SidBytes, SidSize;
    if s.Some? {
      PutSegment(b, field, LE32(off), lens, ws, j);
      EncodeSidSegment(s.value, b, off, lens, ws[j := LE32(off)], i);
    } else {
      assert ws[j := LE32(0)][i := []] == ws;
    }
  }

  method EncodeSidSegment(s: SID, b: array<byte>, off: nat, ghost lens: seq<nat>, ghost ws: seq<Bytes>, ghost i: nat)
    requires Seg(b[..], lens, ws) && i < |lens| == |ws| && off == Off(lens, i) && lens[i] == SidSize(s)
    modifies b
    ensures Seg(b[..], lens, ws[i := SidBytes(s)])
  {
    hide Seg, Off, Splice, SidBytes, SidSize;
    SegWidth(b[..], lens, ws, i);
    SegSplice(b[..], lens, ws, i, 0, SidBytes(s));
    SpliceAll(ws[i], SidBytes(s));
    EncodeSid(s, b, off);
  }

  /** An ACL and its offset, unless there is none. */
  method EncodeAclPart(l: Option<ACL>, b: array<byte>, off: nat, field: nat, ghost lens: seq<nat>, ghost ws: seq<Bytes>, ghost i: nat, ghost j: nat)
    requires Seg(b[..], lens, ws) && i < |lens| == |ws| && j < |lens| && i != j
    requires off == Off(lens, i) && lens[i] == OptAclSize(l) && field == Off(lens, j) && lens[j] == 4
    requires ws[i] == Zeros(lens[i]) && ws[j] == LE32(0)
    modifies b
    ensures Seg(b[..], lens, ws[j := LE32(Offset(l.Some?, off))][i := OptAclBytes(l)])
  {
    SegWidth(b[..], lens, ws, i);
    hide Seg, Off, LE32, Splice, AclBytes, AcesSize;
    if l.Some? {
      PutSegment(b, field, LE32(off), lens, ws, j);
      ghost var w := ws[j := LE32(off)];
      SegAt(b[..], lens, w, i);
      ZerosAt(b[..], off, AclSize(l.value));
      SegSplice(b[..], lens, w, i, 0, AclBytes(l.value));
      SpliceAll(w[i], AclBytes(l.value));
      EncodeAcl(l.value, b, off);
    } else {
      assert ws[j := LE32(0)][i := []] == ws;
    }
  }

  lemma ZerosAt(b: Bytes, off: nat, n: nat)
    requires At(b, off, Zeros(n)) && n >= 8
    ensures b[off + 1..off + 2] == [0] && b[off + 6..off + 8] == [0, 0]
  {
    SubSlice(b, off, off + n, 1, 2);
    SubSlice(b, off, off + n, 6, 8);
    assert Zeros(n)[1..2] == [0] && Zeros(n)[6..8] == [0, 0];
  }

  // ----- what queryInfoSec builds -----

  datatype FileType = Directory | Symlink | Other

  /** syscall.S_IFDIR, S_IFLNK, S_IFREG */
  function TypeBits(t: FileType): nat {
    match t
    case Directory => 0x4000
    case Symlink => 0xA000
    case Other => 0x8000
  }

  /** UnixModeToAceMask for the three permission bits of one class. */
  function AceMask(rwx: nat): nat {
    Or(Or(if Bit(rwx, 0) then 0x12_00A0 else 0, if Bit(rwx, 1) then 0x7_0112 else 0), if Bit(rwx, 2) then 0x2_0089 else 0)
  }

  /** The mask grants execution, writing and reading exactly as the permission bits do: FILE_EXECUTE is bit 5,
      FILE_WRITE_DATA bit 1 and FILE_READ_DATA bit 0. */
  lemma MaskGrants(rwx: nat)
    ensures Bit(AceMask(rwx), 5) <==> Bit(rwx, 0)
    ensures Bit(AceMask(rwx), 1) <==> Bit(rwx, 1)
    ensures Bit(AceMask(rwx), 0) <==> Bit(rwx, 2)
  {
    hide Or;
    var x, w, r := if Bit(rwx, 0) then 0x12_00A0 else 0, if Bit(rwx, 1) then 0x7_0112 else 0, if Bit(rwx, 2) then 0x2_0089 else 0;
    forall k: nat ensures Bit(AceMask(rwx), k) <==> Bit(x, k) || Bit(w, k) || Bit(r, k) {
      BitOr(Or(x, w), r, k);
      BitOr(x, w, k);
    }
    MaskBits(0);
    MaskBits(1);
    MaskBits(5);
  }

  lemma MaskBits(k: nat)
    ensures k == 5 ==> Bit(0x12_00A0, k) && !Bit(0x7_0112, k) && !Bit(0x2_0089, k) && !Bit(0, k)
    ensures k == 1 ==> !Bit(0x12_00A0, k) && Bit(0x7_0112, k) && !Bit(0x2_0089, k) && !Bit(0, k)
    ensures k == 0 ==> !Bit(0x12_00A0, k) && !Bit(0x7_0112, k) && Bit(0x2_0089, k) && !Bit(0, k)
  {
    BitZero(k);
    if k == 5 {
      assert Bit(0x12_00A0, 5) && !Bit(0x7_0112, 5) && !Bit(0x2_0089, 5);
    }
  }

  /** The descriptor for a file's attributes: owner and group if asked for, and the DACL with owner, group,
      everyone and the mode SID. */
  function Built(wantOwner: bool, wantGroup: bool, wantDacl: bool, uid: nat, gid: nat, mode: nat, t: FileType): Descriptor {
    var full := Or(mode, TypeBits(t));
    Descriptor(
      if wantOwner then Some(SIDFromUid(uid)) else None,
      if wantGroup then Some(SIDFromGid(gid)) else None,
      None,
      if wantDacl then
        Some([ACE(SIDFromUid(uid), 0, AceMask(full / 64 % 8)),
              ACE(SIDFromGid(gid), 0, AceMask(full / 8 % 8)),
              ACE(SID(WORLD_AUTHORITY, [0]), 0, AceMask(full % 8)),
              ACE(SIDFromMode(full), 1, 0)])
      else None)
  }

  // ----- the decoders -----

  /** SidDecoder.SubAuthority */
  method SubAuthority(c: Bytes) returns (sub: seq<nat>)
    requires |c| >= 2 && |c| >= 8 + 4 * (c[1] as int)
    ensures |sub| == c[1] && forall i :: 0 <= i < |sub| ==> sub[i] == U32(c, 8 + 4 * i)
  {
    hide U32;
    sub := [];
    var count: int := c[1];
    var off := 8;
    for i := 0 to count
      invariant off == 8 + 4 * i && |sub| == i
      invariant forall j :: 0 <= j < i ==> sub[j] == U32(c, 8 + 4 * j)
    {
      sub := sub + [U32(c, off)];
      off := off + 4;
    }
  }

  function BigEndian(b: Bytes): nat { if b == [] then 0 else BigEndian(b[..|b| - 1]) * 256 + b[|b| - 1] }

  /** SidDecoder.IdentifierAuthority: the six bytes as a big-endian number. */
  method IdentifierAuthority(c: Bytes) returns (u: nat)
    requires |c| >= 8
    ensures u == BigEndian(c[2..8])
  {
    u := 0;
    var weight := 1;
    assert c[2..8][..6] == c[2..8];
    assert c[2..8][..0] == [];
    for j := 0 to 6
      invariant weight > 0
      invariant u + weight * BigEndian(c[2..8][..6 - j]) == BigEndian(c[2..8])
    {
      var rest := c[2..8][..6 - j];
      assert rest[..|rest| - 1] == c[2..8][..5 - j] && rest[|rest| - 1] == c[7 - j];
      MoreSignificant(weight, BigEndian(c[2..8][..5 - j]), c[7 - j]);
      u := u + weight * c[7 - j];
      weight := weight * 256;
    }
  }

  lemma MoreSignificant(weight: nat, v: nat, b: nat)
    ensures weight * (v * 256 + b) == weight * 256 * v + weight * b
  {
    assert weight * (v * 256 + b) == weight * (v * 256) + weight * b;
    assert weight * (v * 256) == weight * 256 * v;
  }

  /** How setSecInfo ends. */
  datatype Verdict = Stored(mode: nat) | NotSupported | AccessDenied | Crash

  /** Attributes.SetUnixMode of mode | 0600. */
  function StoredMode(mode: nat): nat { And(Or(mode, 0x180), 0x1FF) }

  /** The SID at c is the NFS mode SID; None when the test reads past the end. */
  function IsModeSid(c: Bytes): Option<bool> {
    if |c| < 2 then None
    else if c[1] != 3 then Some(false)
    else if |c| < 20 then None
    else Some(U32(c, 8) == 88 && U32(c, 12) == 3)
  }

  /** The walk over n entries: the first mode SID decides. canSet says whether SetAttr succeeds. */
  function Walk(aces: Bytes, n: nat, canSet: bool): Verdict
    decreases n
  {
    if n == 0 then AccessDenied
    else if |aces| < 8 then Crash
    else
      var m := IsModeSid(aces[8..]);
      if m.None? then Crash
      else if m.value then (if canSet then Stored(StoredMode(U32(aces, 24))) else AccessDenied)
      else if U16(aces, 2) > |aces| then Crash
      else Walk(aces[U16(aces, 2)..], n - 1, canSet)
  }

  function SetSec(sd: Bytes, canSet: bool): Verdict {
    if |sd| < 20 then Crash
    else
      var off := U32(sd, 16);
      if off == 0 then NotSupported
      else if off + 8 > |sd| then Crash
      else Walk(sd[off + 8..], U16(sd, off + 4), canSet)
  }

  /** setSecInfo, for every descriptor a client sends. */
  method SetSecInfo(sd: Bytes, canSet: bool) returns (v: Verdict)
    ensures v == SetSec(sd, canSet)
  {
    hide U16, U32, StoredMode;
    if |sd| < 20 { return Crash; }
    var off := U32(sd, 16);
    if off == 0 { return NotSupported; }
    if off + 8 > |sd| { return Crash; }
    var count := U16(sd, off + 4);
    var aceBuf := sd[off + 8..];
    for i := 0 to count
      invariant SetSec(sd, canSet) == Walk(aceBuf, count - i, canSet)
    {
      if |aceBuf| < 8 { return Crash; }
      var sid := aceBuf[8..];
      if |sid| < 2 { return Crash; }
      if sid[1] == 3 {
        if |sid| < 20 { return Crash; }
        var sub := SubAuthority(sid);
        SameWord(aceBuf, 8, 16);
        if sub[0] == 88 && sub[1] == 3 { return if canSet then Stored(StoredMode(sub[2])) else AccessDenied; }
      }
      var size := U16(aceBuf, 2);
      if size > |aceBuf| { return Crash; }
      aceBuf := aceBuf[size..];
    }
    return AccessDenied;
  }

  lemma SameWord(b: Bytes, lo: nat, off: nat)
    requires lo + off + 4 <= |b|
    ensures U32(b[lo..], off) == U32(b, lo + off)
  {
  }

  // ----- reading back -----

  predicate SidFits(s: SID) {
    |s.sub| < 256 && forall i :: 0 <= i < |s.sub| ==> s.sub[i] < TWO32
  }

  lemma {:induction false} SubAt(sub: seq<nat>, i: nat)
    requires i < |sub|
    ensures At(SubBytes(sub), 4 * i, LE32(sub[i]))
    decreases |sub|
  {
    hide LE32;
    if i < |sub| - 1 {
      SubAt(sub[..|sub| - 1], i);
      assert SubBytes(sub)[4 * i..4 * i + 4] == SubBytes(sub[..|sub| - 1])[4 * i..4 * i + 4];
    }
  }

  /** The SID decoder's answers on an encoded SID, with anything behind it. */
  lemma SidReads(s: SID, rest: Bytes)
    requires SidFits(s)
    ensures var c := SidBytes(s) + rest;
            && c[1] == |s.sub| && c[2..8] == s.authority
            && forall i :: 0 <= i < |s.sub| ==> U32(c, 8 + 4 * i) == s.sub[i]
  {
    hide U32, LE32;
    var c := SidBytes(s) + rest;
    assert c == [1, |s.sub| % 256] + s.authority + (SubBytes(s.sub) + rest);
    forall i | 0 <= i < |s.sub| ensures U32(c, 8 + 4 * i) == s.sub[i] {
      SubAt(s.sub, i);
      InsideAtTail(SubBytes(s.sub), 4 * i, LE32(s.sub[i]), c);
      ReadWord32(c, 8 + 4 * i, s.sub[i]);
    }
  }

  lemma InsideAtTail(x: Bytes, off: nat, t: Bytes, c: Bytes)
    requires At(x, off, t) && 8 + |x| <= |c| && c[8..8 + |x|] == x
    ensures At(c, 8 + off, t)
  {
    SubSlice(c, 8, 8 + |x|, off, off + |t|);
  }

  /** An entry at the front of the walk. */
  lemma AceReads(a: ACE, rest: Bytes)
    requires SidFits(a.sid) && AceSize(a) < TWO16
    ensures var b := AceBytes(a) + rest;
            && |b| >= 16 && U16(b, 2) == AceSize(a) && b[AceSize(a)..] == rest && b[8..] == SidBytes(a.sid) + rest
  {
    hide U16, LE32, LE16, SidBytes;
    var b := AceBytes(a) + rest;
    assert b == [a.typ, 0] + LE16(AceSize(a)) + LE32(a.mask) + (SidBytes(a.sid) + rest);
    assert At(b, 2, LE16(AceSize(a)));
    ReadWord16(b, 2, AceSize(a));
  }

  predicate ModeSid(s: SID) { |s.sub| == 3 && s.sub[0] == 88 && s.sub[1] == 3 }

  /** One round of the walk. */
  lemma WalkStep(a: ACE, rest: Bytes, n: nat, canSet: bool)
    requires SidFits(a.sid) && AceSize(a) < TWO16
    ensures Walk(AceBytes(a) + rest, n + 1, canSet) ==
            if !ModeSid(a.sid) then Walk(rest, n, canSet) else if canSet then Stored(StoredMode(a.sid.sub[2])) else AccessDenied
  {
    var b := AceBytes(a) + rest;
    AceReads(a, rest);
    SidReads(a.sid, rest);
    hide U16, U32, AceBytes, SidBytes, StoredMode;
    if |a.sid.sub| == 3 {
      SameWord(b, 8, 16);
      var c := SidBytes(a.sid) + rest;
      assert U32(c, 8 + 4 * 0) == a.sid.sub[0] && U32(c, 8 + 4 * 1) == a.sid.sub[1] && U32(c, 8 + 4 * 2) == a.sid.sub[2];
    }
  }

  lemma FourAces(a: ACE, b: ACE, c: ACE, d: ACE)
    ensures AcesBytes([a, b, c, d]) == AceBytes(a) + (AceBytes(b) + (AceBytes(c) + AceBytes(d)))
  {
    hide AceBytes;
    assert [a, b, c, d][..3] == [a, b, c] && [a, b, c][..2] == [a, b] && [a, b][..1] == [a] && [a][..0] == [];
    assert AcesBytes([a]) == AceBytes(a);
    assert AcesBytes([a, b]) == AceBytes(a) + AceBytes(b);
    assert AcesBytes([a, b, c]) == AceBytes(a) + AceBytes(b) + AceBytes(c);
  }

  /** Offsets and sizes of an encoded descriptor are consistent: each offset is zero or leads to its part, the
      parts follow one another, and the last one ends the bytes. */
  lemma DescriptorReads(d: Descriptor)
    requires Size(d) < TWO32
    ensures var b, group := DescriptorBytes(d), 20 + OptSidSize(d.owner);
            var sacl := group + OptSidSize(d.group);
            var dacl := sacl + OptAclSize(d.sacl);
            && |b| == Size(d) == dacl + OptAclSize(d.dacl)
            && U16(b, 2) == Control(d)
            && U32(b, 4) == Offset(d.owner.Some?, 20) && At(b, 20, OptSidBytes(d.owner))
            && U32(b, 8) == Offset(d.group.Some?, group) && At(b, group, OptSidBytes(d.group))
            && U32(b, 12) == Offset(d.sacl.Some?, sacl) && At(b, sacl, OptAclBytes(d.sacl))
            && U32(b, 16) == Offset(d.dacl.Some?, dacl) && At(b, dacl, OptAclBytes(d.dacl))
  {
    var b, lens, ws := DescriptorBytes(d), Lens(d), Parts(d);
    PartOffsets(d);
    PartsAre(d);
    hide LE16, LE32, OptSidBytes, OptAclBytes, Blank, Off, At, U16, U32, Concat, Seg, Parts, Lens, OptSidSize, OptAclSize, Control;
    SegLength(b, lens, ws);
    SegAt(b, lens, ws, 1);
    SegAt(b, lens, ws, 2);
    SegAt(b, lens, ws, 3);
    SegAt(b, lens, ws, 4);
    SegAt(b, lens, ws, 5);
    SegAt(b, lens, ws, 6);
    SegAt(b, lens, ws, 7);
    SegAt(b, lens, ws, 8);
    SegAt(b, lens, ws, 9);
    var group := 20 + OptSidSize(d.owner);
    var sacl := group + OptSidSize(d.group);
    var dacl := sacl + OptAclSize(d.sacl);
    OffsetsRead(d, b, group, sacl, dacl);
  }

  lemma PartsAre(d: Descriptor)
    ensures var ws, group := Parts(d), 20 + OptSidSize(d.owner);
            var sacl := group + OptSidSize(d.group);
            var dacl := sacl + OptAclSize(d.sacl);
            && |ws| == 10 && ws[1] == LE16(Control(d))
            && ws[2] == LE32(Offset(d.owner.Some?, 20)) && ws[3] == LE32(Offset(d.group.Some?, group))
            && ws[4] == LE32(Offset(d.sacl.Some?, sacl)) && ws[5] == LE32(Offset(d.dacl.Some?, dacl))
            && ws[6] == OptSidBytes(d.owner) && ws[7] == OptSidBytes(d.group)
            && ws[8] == OptAclBytes(d.sacl) && ws[9] == OptAclBytes(d.dacl)
    ensures Seg(DescriptorBytes(d), Lens(d), Parts(d))
  {
    hide LE16, LE32, OptSidBytes, OptAclBytes, Concat;
    var lens, ws := Lens(d), Parts(d);
    forall i | 0 <= i < 10 ensures |ws[i]| == lens[i] {}
  }

  lemma OffsetsRead(d: Descriptor, b: Bytes, group: nat, sacl: nat, dacl: nat)
    requires At(b, 2, LE16(Control(d))) && At(b, 4, LE32(Offset(d.owner.Some?, 20))) && At(b, 8, LE32(Offset(d.group.Some?, group)))
    requires At(b, 12, LE32(Offset(d.sacl.Some?, sacl))) && At(b, 16, LE32(Offset(d.dacl.Some?, dacl)))
    requires group < TWO32 && sacl < TWO32 && dacl < TWO32
    ensures |b| >= 20 && U16(b, 2) == Control(d) && U32(b, 4) == Offset(d.owner.Some?, 20) && U32(b, 8) == Offset(d.group.Some?, group)
    ensures U32(b, 12) == Offset(d.sacl.Some?, sacl) && U32(b, 16) == Offset(d.dacl.Some?, dacl)
  {
    AtEnds(b, 16, LE32(Offset(d.dacl.Some?, dacl)));
    hide At, LE16, LE32, U16, U32;
    ReadWord16(b, 2, Control(d));
    ReadWord32(b, 4, Offset(d.owner.Some?, 20));
    ReadWord32(b, 8, Offset(d.group.Some?, group));
    ReadWord32(b, 12, Offset(d.sacl.Some?, sacl));
    ReadWord32(b, 16, Offset(d.dacl.Some?, dacl));
  }

  /** The header of an encoded ACL, and its entries. */
  lemma AclReads(l: ACL, b: Bytes, off: nat)
    requires At(b, off, AclBytes(l)) && AclSize(l) < TWO16 && |l| < TWO16
    ensures off + 8 <= |b| && U16(b, off + 2) == AclSize(l) && U16(b, off + 4) == |l| && At(b, off + 8, AcesBytes(l))
  {
    hide At, U16, LE16, AcesBytes, AcesSize, AclBytes;
    AclParts(l, b, off);
    AtEnds(b, off + 8, AcesBytes(l));
    ReadWord16(b, off + 2, AclSize(l));
    ReadWord16(b, off + 4, |l|);
  }

  lemma AclParts(l: ACL, b: Bytes, off: nat)
    requires At(b, off, AclBytes(l))
    ensures At(b, off + 2, LE16(AclSize(l))) && At(b, off + 4, LE16(|l|)) && At(b, off + 8, AcesBytes(l))
  {
    AclIs(l);
    hide LE16, AcesBytes, AcesSize, AclBytes, At;
    FiveAt(b, off, [2, 0], LE16(AclSize(l)), LE16(|l|), [0, 0], AcesBytes(l));
  }

  lemma FiveAt(b: Bytes, off: nat, p: Bytes, q: Bytes, r: Bytes, s: Bytes, t: Bytes)
    requires At(b, off, p + q + r + s + t)
    ensures At(b, off + |p|, q) && At(b, off + |p| + |q|, r) && At(b, off + |p| + |q| + |r| + |s|, t)
  {
    hide At;
    InsideOf(b, off, p + q + r, s, t);
    InsideOf(b, off, p, q, r);
  }

  lemma AtEnd(b: Bytes, off: nat, t: Bytes)
    requires At(b, off, t) && |b| == off + |t|
    ensures b[off..] == t
  {
  }

  // ----- permission bits -----

  lemma ModeBits(mode: nat, t: FileType)
    requires mode < 0x200
    ensures StoredMode(Or(mode, TypeBits(t))) == Or(mode, 0x180)
    ensures Or(mode, TypeBits(t)) < TWO32
  {
    hide Or, And;
    Widths();
    Pow2Add(8, 1);
    OrBound(mode, TypeBits(t), 32);
    var l, r := StoredMode(Or(mode, TypeBits(t))), Or(mode, 0x180);
    forall k: nat ensures Bit(l, k) == Bit(r, k) {
      BitAnd(Or(Or(mode, TypeBits(t)), 0x180), 0x1FF, k);
      BitOr(Or(mode, TypeBits(t)), 0x180, k);
      BitOr(mode, TypeBits(t), k);
      BitOr(mode, 0x180, k);
      PermissionBits(mode, t, k);
    }
    SameBits(l, r);
  }

  /** Below bit 9 there are no type bits, above it no permission bits. */
  lemma PermissionBits(mode: nat, t: FileType, k: nat)
    requires mode < 0x200
    ensures if k < 9 then !Bit(TypeBits(t), k) && Bit(0x1FF, k) else !Bit(mode, k) && !Bit(0x180, k) && !Bit(0x1FF, k)
  {
    hide TypeBits, Bit, Pow2;
    NineBits();
    if k < 9 {
      TypeAboveMode(t);
      LowBits(TypeBits(t) / 512, 9, k);
    } else {
      NoHighBits(mode, 9, k);
      NoHighBits(0x180, 9, k);
      NoHighBits(0x1FF, 9, k);
    }
  }

  lemma NineBits()
    ensures Pow2(9) == 512
  {
    Widths();
    Pow2Add(8, 1);
  }

  lemma TypeAboveMode(t: FileType)
    ensures TypeBits(t) / 512 * 512 == TypeBits(t)
  {
  }

  // ----- the round trip -----

  lemma BuiltSizes(wantOwner: bool, wantGroup: bool, wantDacl: bool, uid: nat, gid: nat, mode: nat, t: FileType)
    ensures var d := Built(wantOwner, wantGroup, wantDacl, uid, gid, mode, t);
            && Size(d) <= 172 && d.sacl.None?
            && (wantDacl ==> |d.dacl.value| == 4 && AclSize(d.dacl.value) == 112)
  {
    hide Or, AceMask;
    if wantDacl {
      var l := Built(wantOwner, wantGroup, wantDacl, uid, gid, mode, t).dacl.value;
      assert l[..3] == [l[0], l[1], l[2]] && l[..3][..2] == [l[0], l[1]] && l[..3][..2][..1] == [l[0]] && l[..3][..2][..1][..0] == [];
      assert AcesSize(l[..3][..2][..1]) == 28;
      assert AcesSize(l[..3][..2]) == 56;
      assert AcesSize(l[..3]) == 76;
    }
  }

  /** For every uid, gid, mode, file type and requested subset: setSecInfo on the bytes that queryInfoSec sends
      stores the original permission bits with 0600 added and the type bits dropped if the subset has the
      DACL, and refuses the descriptor otherwise. */
  lemma RoundTrip(wantOwner: bool, wantGroup: bool, wantDacl: bool, uid: nat, gid: nat, mode: nat, t: FileType, canSet: bool)
    requires uid < TWO32 && gid < TWO32 && mode < 0x200
    ensures SetSec(DescriptorBytes(Built(wantOwner, wantGroup, wantDacl, uid, gid, mode, t)), canSet) ==
            if !wantDacl then NotSupported else if canSet then Stored(Or(mode, 0x180)) else AccessDenied
  {
    var d := Built(wantOwner, wantGroup, wantDacl, uid, gid, mode, t);
    var b := DescriptorBytes(d);
    BuiltSizes(wantOwner, wantGroup, wantDacl, uid, gid, mode, t);
    DescriptorReads(d);
    if wantDacl {
      var off := 20 + OptSidSize(d.owner) + OptSidSize(d.group);
      AclReads(d.dacl.value, b, off);
      AtEnd(b, off + 8, AcesBytes(d.dacl.value));
      ModeBits(mode, t);
      WalkBuilt(uid, gid, Or(mode, TypeBits(t)), canSet);
      hide Walk, U16, U32, DescriptorBytes, At, AclBytes, AcesBytes, Or;
    }
  }

  /** The walk skips owner, group and everyone and stops at the mode. */
  lemma WalkBuilt(uid: nat, gid: nat, full: nat, canSet: bool)
    requires uid < TWO32 && gid < TWO32 && full < TWO32
    ensures Walk(AcesBytes([ACE(SIDFromUid(uid), 0, AceMask(full / 64 % 8)), ACE(SIDFromGid(gid), 0, AceMask(full / 8 % 8)),
                            ACE(SID(WORLD_AUTHORITY, [0]), 0, AceMask(full % 8)), ACE(SIDFromMode(full), 1, 0)]), 4, canSet)
            == if canSet then Stored(StoredMode(full)) else AccessDenied
  {
    hide AceBytes, AcesBytes, Walk, AceMask, StoredMode;
    var a, b := ACE(SIDFromUid(uid), 0, AceMask(full / 64 % 8)), ACE(SIDFromGid(gid), 0, AceMask(full / 8 % 8));
    var c, d := ACE(SID(WORLD_AUTHORITY, [0]), 0, AceMask(full % 8)), ACE(SIDFromMode(full), 1, 0);
    FourAces(a, b, c, d);
    assert AceBytes(d) + [] == AceBytes(d);
    WalkStep(a, AceBytes(b) + (AceBytes(c) + AceBytes(d)), 3, canSet);
    WalkStep(b, AceBytes(c) + AceBytes(d), 2, canSet);
    WalkStep(c, AceBytes(d), 1, canSet);
    WalkStep(d, [], 0, canSet);
  }

  /** The output of queryInfoSec. */
  method QueryInfoSec(wantOwner: bool, wantGroup: bool, wantDacl: bool, uid: nat, gid: nat, mode: nat, t: FileType) returns (out: Bytes)
    ensures out == DescriptorBytes(Built(wantOwner, wantGroup, wantDacl, uid, gid, mode, t))
  {
    var sd := Descriptor(None, None, None, None);
    if wantOwner { sd := sd.(owner := Some(SIDFromUid(uid))); }
    if wantGroup { sd := sd.(group := Some(SIDFromGid(gid))); }
    if wantDacl {
      var full := Or(mode, TypeBits(t));
      sd := sd.(dacl := Some([
        ACE(SIDFromUid(uid), 0, AceMask(full / 64 % 8)),
        ACE(SIDFromGid(gid), 0, AceMask(full / 8 % 8)),
        ACE(SID(WORLD_AUTHORITY, [0]), 0, AceMask(full % 8)),
        ACE(SIDFromMode(full), 1, 0)]));
    }
    assert sd == Built(wantOwner, wantGroup, wantDacl, uid, gid, mode, t);
    hide DescriptorBytes, Built, Or, AceMask;
    var b := new byte[Size(sd)](_ => 0);
    Encode(sd, b);
    out := b[..];
  }

  /** A client that writes a queried descriptor back. */
  method WriteBack(wantOwner: bool, wantGroup: bool, wantDacl: bool, uid: nat, gid: nat, mode: nat, t: FileType, canSet: bool) returns (v: Verdict)
    requires uid < TWO32 && gid < TWO32 && mode < 0x200
    ensures v == if !wantDacl then NotSupported else if canSet then Stored(Or(mode, 0x180)) else AccessDenied
  {
    hide SetSec, DescriptorBytes, Built, Or;
    RoundTrip(wantOwner, wantGroup, wantDacl, uid, gid, mode, t, canSet);
    var sd := QueryInfoSec(wantOwner, wantGroup, wantDacl, uid, gid, mode, t);
    v := SetSecInfo(sd, canSet);
  }

  // ----- what stands in the bytes -----

  /** A SID at an offset: revision 1, count, authority (big-endian, so its last byte is the number), sub-authorities. */
  ghost predicate SidStands(b: Bytes, off: nat, authority: byte, sub: seq<nat>) {
    && off + 8 + 4 * |sub| <= |b| && |sub| < 256
    && b[off..off + 8] == [1, |sub|, 0, 0, 0, 0, 0, authority]
    && forall i :: 0 <= i < |sub| ==> U32(b, off + 8 + 4 * i) == sub[i]
  }

  lemma SidWritten(b: Bytes, off: nat, s: SID, authority: byte)
    requires At(b, off, SidBytes(s)) && SidFits(s) && s.authority == [0, 0, 0, 0, 0, authority]
    ensures SidStands(b, off, authority, s.sub)
  {
    hide LE32, U32, SubBytes;
    var h := [1, |s.sub|, 0, 0, 0, 0, 0, authority];
    assert [1, |s.sub| % 256] + s.authority == h;
    assert SidBytes(s) == h + SubBytes(s.sub);
    HeadAndTail(b, off, h, SubBytes(s.sub));
    forall i | 0 <= i < |s.sub| ensures U32(b, off + 8 + 4 * i) == s.sub[i] {
      SubAt(s.sub, i);
      PartOf(b, off + 8, SubBytes(s.sub), 4 * i, LE32(s.sub[i]));
      ReadWord32(b, off + 8 + 4 * i, s.sub[i]);
    }
  }

  /** An entry at an offset: type, no flags, its size, its mask, its SID. */
  ghost predicate AceStands(b: Bytes, off: nat, typ: byte, mask: nat, authority: byte, sub: seq<nat>) {
    && off + 16 + 4 * |sub| <= |b| && b[off] == typ && b[off + 1] == 0 && U16(b, off + 2) == 16 + 4 * |sub| && U32(b, off + 4) == mask
    && SidStands(b, off + 8, authority, sub)
  }

  lemma AceWritten(b: Bytes, off: nat, a: ACE, authority: byte)
    requires At(b, off, AceBytes(a)) && SidFits(a.sid) && a.mask < TWO32 && a.sid.authority == [0, 0, 0, 0, 0, authority]
    ensures AceStands(b, off, a.typ, a.mask, authority, a.sid.sub)
  {
    hide LE16, LE32, U16, U32, SidBytes, SidStands, At;
    var h, size, mask := [a.typ, 0], LE16(AceSize(a)), LE32(a.mask);
    assert AceBytes(a) == h + (size + (mask + SidBytes(a.sid)));
    HeadAndTail(b, off, h, size + (mask + SidBytes(a.sid)));
    HeadAndTail(b, off + 2, size, mask + SidBytes(a.sid));
    HeadAndTail(b, off + 4, mask, SidBytes(a.sid));
    TwoBytes(b, off, h);
    ReadWord16(b, off + 2, AceSize(a));
    ReadWord32(b, off + 4, a.mask);
    SidWritten(b, off + 8, a.sid, authority);
  }

  lemma TwoBytes(b: Bytes, off: nat, h: Bytes)
    requires |h| == 2 && off + 2 <= |b| && b[off..off + 2] == h
    ensures b[off] == h[0] && b[off + 1] == h[1]
  {
    assert b[off..off + 2][0] == b[off] && b[off..off + 2][1] == b[off + 1];
  }

  lemma MaskSmall(rwx: nat)
    ensures AceMask(rwx) < TWO32
  {
    hide Or;
    Widths();
    var x, w, r := if Bit(rwx, 0) then 0x12_00A0 else 0, if Bit(rwx, 1) then 0x7_0112 else 0, if Bit(rwx, 2) then 0x2_0089 else 0;
    OrBound(x, w, 32);
    OrBound(Or(x, w), r, 32);
  }

  /** What queryInfoSec sends, byte by byte: the owner is S-1-5-88-1-uid, the group S-1-5-88-2-gid, and the DACL
      allows owner, group and everyone (S-1-1-0) what their permission bits say and ends in a denying entry
      without rights for S-1-5-88-3-mode. Each part has its offset in the header if it was asked for, and zero
      otherwise. */
  lemma SentBytes(wantOwner: bool, wantGroup: bool, wantDacl: bool, uid: nat, gid: nat, mode: nat, t: FileType)
    requires uid < TWO32 && gid < TWO32 && mode < 0x200
    ensures var b := DescriptorBytes(Built(wantOwner, wantGroup, wantDacl, uid, gid, mode, t));
            var group := if wantOwner then 40 else 20;
            var dacl := if wantGroup then group + 20 else group;
            && |b| == (if wantDacl then dacl + 112 else dacl)
            && b[0] == 1 && b[1] == 0 && U16(b, 2) == (if wantDacl then 0x8004 else 0x8000)
            && U32(b, 4) == (if wantOwner then 20 else 0) && U32(b, 8) == (if wantGroup then group else 0)
            && U32(b, 12) == 0 && U32(b, 16) == (if wantDacl then dacl else 0)
            && (wantOwner ==> SidStands(b, 20, 5, [88, 1, uid]))
            && (wantGroup ==> SidStands(b, group, 5, [88, 2, gid]))
            && (wantDacl ==>
                  var full := Or(mode, TypeBits(t));
                  && b[dacl] == 2 && b[dacl + 1] == 0 && U16(b, dacl + 2) == 112 && U16(b, dacl + 4) == 4
                  && AceStands(b, dacl + 8, 0, AceMask(full / 64 % 8), 5, [88, 1, uid])
                  && AceStands(b, dacl + 36, 0, AceMask(full / 8 % 8), 5, [88, 2, gid])
                  && AceStands(b, dacl + 64, 0, AceMask(full % 8), 1, [0])
                  && AceStands(b, dacl + 84, 1, 0, 5, [88, 3, full]))
  {
    hide DescriptorBytes, SidBytes, AclBytes, AceBytes, AceMask, Or, U16, U32, SidStands, AceStands, At, AcesBytes, AcesSize, Control;
    var d := Built(wantOwner, wantGroup, wantDacl, uid, gid, mode, t);
    var b := DescriptorBytes(d);
    ModeBits(mode, t);
    BuiltSizes(wantOwner, wantGroup, wantDacl, uid, gid, mode, t);
    DescriptorReads(d);
    ControlIs(d);
    FirstBytes(d);
    var group := if wantOwner then 40 else 20;
    var dacl := if wantGroup then group + 20 else group;
    if wantOwner { SidWritten(b, 20, SIDFromUid(uid), 5); }
    if wantGroup { SidWritten(b, group, SIDFromGid(gid), 5); }
    if wantDacl { DaclWritten(b, dacl, uid, gid, Or(mode, TypeBits(t))); }
  }

  lemma ControlIs(d: Descriptor)
    requires d.sacl.None?
    ensures Control(d) == if d.dacl.Some? then 0x8004 else 0x8000
  {
  }

  lemma FirstBytes(d: Descriptor)
    ensures var b := DescriptorBytes(d); |b| >= 20 && b[0] == 1 && b[1] == 0
  {
    hide LE16, LE32, OptSidBytes, OptAclBytes, Concat;
    PartOffsets(d);
    PartsAre(d);
    SegLength(DescriptorBytes(d), Lens(d), Parts(d));
    SegAt(DescriptorBytes(d), Lens(d), Parts(d), 0);
    TwoBytes(DescriptorBytes(d), 0, [1, 0]);
  }

  lemma DaclWritten(b: Bytes, off: nat, uid: nat, gid: nat, full: nat)
    requires uid < TWO32 && gid < TWO32 && full < TWO32
    requires var l := [ACE(SIDFromUid(uid), 0, AceMask(full / 64 % 8)), ACE(SIDFromGid(gid), 0, AceMask(full / 8 % 8)),
                       ACE(SID(WORLD_AUTHORITY, [0]), 0, AceMask(full % 8)), ACE(SIDFromMode(full), 1, 0)];
             At(b, off, AclBytes(l)) && AclSize(l) == 112
    ensures off + 112 <= |b| && b[off] == 2 && b[off + 1] == 0 && U16(b, off + 2) == 112 && U16(b, off + 4) == 4
    ensures AceStands(b, off + 8, 0, AceMask(full / 64 % 8), 5, [88, 1, uid])
    ensures AceStands(b, off + 36, 0, AceMask(full / 8 % 8), 5, [88, 2, gid])
    ensures AceStands(b, off + 64, 0, AceMask(full % 8), 1, [0])
    ensures AceStands(b, off + 84, 1, 0, 5, [88, 3, full])
  {
    hide AceBytes, AceMask, U16, U32, AceStands, At, AcesBytes, LE16, AclBytes, AcesSize;
    var p, q := ACE(SIDFromUid(uid), 0, AceMask(full / 64 % 8)), ACE(SIDFromGid(gid), 0, AceMask(full / 8 % 8));
    var r, s := ACE(SID(WORLD_AUTHORITY, [0]), 0, AceMask(full % 8)), ACE(SIDFromMode(full), 1, 0);
    MaskSmall(full / 64 % 8);
    MaskSmall(full / 8 % 8);
    MaskSmall(full % 8);
    AclReads([p, q, r, s], b, off);
    AclHead([p, q, r, s], b, off);
    FourAces(p, q, r, s);
    HeadAndTail(b, off + 8, AceBytes(p), AceBytes(q) + (AceBytes(r) + AceBytes(s)));
    HeadAndTail(b, off + 36, AceBytes(q), AceBytes(r) + AceBytes(s));
    HeadAndTail(b, off + 64, AceBytes(r), AceBytes(s));
    AceWritten(b, off + 8, p, 5);
    AceWritten(b, off + 36, q, 5);
    AceWritten(b, off + 64, r, 1);
    AceWritten(b, off + 84, s, 5);
  }

  lemma AclHead(l: ACL, b: Bytes, off: nat)
    requires At(b, off, AclBytes(l))
    ensures off + AclSize(l) <= |b| && b[off] == 2 && b[off + 1] == 0
  {
    AclIs(l);
    hide LE16, AcesBytes, AcesSize, AclBytes;
    AtEnds(b, off, AclBytes(l));
    assert b[off..off + |AclBytes(l)|][0] == b[off] && b[off..off + |AclBytes(l)|][1] == b[off + 1];
  }

  /** The mask of each combination of permission bits, in numbers. */
  lemma MaskTable()
    ensures AceMask(0) == 0 && AceMask(1) == 0x12_00A0 && AceMask(2) == 0x7_0112 && AceMask(3) == 0x17_01B2
    ensures AceMask(4) == 0x2_0089 && AceMask(5) == 0x12_00A9 && AceMask(6) == 0x7_019B && AceMask(7) == 0x17_01BB
  {
    hide Or;
    OrAll();
    OrThree(0x12, 0x00, 0xA0, 0x07, 0x01, 0x12);
    OrThree(0x12, 0x00, 0xA0, 0x02, 0x00, 0x89);
    OrThree(0x07, 0x01, 0x12, 0x02, 0x00, 0x89);
    OrThree(0x17, 0x01, 0xB2, 0x02, 0x00, 0x89);
    OrNothing(0x12_00A0);
    OrNothing(0x7_0112);
    OrNothing(0x17_01B2);
    OrNothing(0x2_0089);
    OrNothing(0);
    assert Bit(1, 0) && !Bit(1, 1) && !Bit(1, 2) && !Bit(2, 0) && Bit(2, 1) && !Bit(2, 2) && Bit(3, 0) && Bit(3, 1) && !Bit(3, 2);
    assert !Bit(4, 0) && !Bit(4, 1) && Bit(4, 2) && Bit(5, 0) && !Bit(5, 1) && Bit(5, 2) && !Bit(6, 0) && Bit(6, 1) && Bit(6, 2);
    assert Bit(7, 0) && Bit(7, 1) && Bit(7, 2) && !Bit(0, 0) && !Bit(0, 1) && !Bit(0, 2);
  }

  lemma OrAll()
    ensures Or(0x12, 0x07) == 0x17 && Or(0, 0x01) == 0x01 && Or(0xA0, 0x12) == 0xB2 && Or(0x12, 0x02) == 0x12 && Or(0, 0) == 0
    ensures Or(0xA0, 0x89) == 0xA9 && Or(0x07, 0x02) == 0x07 && Or(0x01, 0) == 0x01 && Or(0x12, 0x89) == 0x9B
    ensures Or(0x17, 0x02) == 0x17 && Or(0xB2, 0x89) == 0xBB
  {
    hide Or;
    OrDigits();
    OrNothing(0);
    OrNothing(1);
    OrTwo(0x1, 0x2, 0x0, 0x7);
    OrTwo(0xA, 0x0, 0x1, 0x2);
    OrTwo(0x1, 0x2, 0x0, 0x2);
    OrTwo(0xA, 0x0, 0x8, 0x9);
    OrTwo(0x0, 0x7, 0x0, 0x2);
    OrTwo(0x1, 0x2, 0x8, 0x9);
    OrTwo(0x1, 0x7, 0x0, 0x2);
    OrTwo(0xB, 0x2, 0x8, 0x9);
  }

  lemma OrDigits()
    ensures Or(0xA, 0x1) == 0xB && Or(0xA, 0x8) == 0xA && Or(0x1, 0x8) == 0x9 && Or(0xB, 0x8) == 0xB
    ensures Or(0x2, 0x7) == 0x7 && Or(0x0, 0x2) == 0x2 && Or(0x2, 0x2) == 0x2 && Or(0x0, 0x9) == 0x9 && Or(0x7, 0x2) == 0x7 && Or(0x2, 0x9) == 0xB
  {
  }

  lemma OrTwo(a: nat, b: nat, x: nat, y: nat)
    requires b < 16 && y < 16
    ensures Or(16 * a + b, 16 * x + y) == 16 * Or(a, x) + Or(b, y)
  {
    hide Or;
    assert Pow2(4) == 16;
    OrShift(a, b, x, y, 4);
  }

  /** Byte by byte. */
  lemma OrThree(a: byte, b: byte, c: byte, x: byte, y: byte, z: byte)
    ensures Or(65536 * a + 256 * b + c, 65536 * x + 256 * y + z) == 65536 * Or(a, x) + 256 * Or(b, y) + Or(c, z)
  {
    hide Or;
    OrShift(256 * a + b, c, 256 * x + y, z, 8);
    OrShift(a, b, x, y, 8);
    Widths();
  }

  lemma {:induction false} OrShift(a: nat, b: nat, x: nat, y: nat, n: nat)
    requires b < Pow2(n) && y < Pow2(n)
    ensures Or(Pow2(n) * a + b, Pow2(n) * x + y) == Pow2(n) * Or(a, x) + Or(b, y)
    decreases n
  {
    hide Or;
    if n > 0 {
      var h := Pow2(n - 1);
      hide Pow2;
      OrShift(a, b / 2, x, y / 2, n - 1);
      OrHalves(h, a, b, x, y);
    } else {
      OrNothing(0);
    }
  }

  lemma OrHalves(h: nat, a: nat, b: nat, x: nat, y: nat)
    requires Or(h * a + b / 2, h * x + y / 2) == h * Or(a, x) + Or(b / 2, y / 2)
    ensures Or(2 * h * a + b, 2 * h * x + y) == 2 * h * Or(a, x) + Or(b, y)
  {
    hide Or;
    HalfSum(a, b, h);
    HalfSum(x, y, h);
    OrUnfolds(2 * h * a + b, 2 * h * x + y);
    OrUnfolds(b, y);
    Double(h, Or(a, x), Or(b / 2, y / 2));
  }

  lemma HalfSum(a: nat, b: nat, h: nat)
    ensures (2 * h * a + b) / 2 == h * a + b / 2 && (2 * h * a + b) % 2 == b % 2
  {
    assert 2 * h * a == 2 * (h * a);
  }

  lemma Double(h: nat, v: nat, w: nat)
    ensures 2 * (h * v + w) == 2 * h * v + 2 * w
  {
  }

  // ----- setSecInfo on any descriptor -----

  /** The mode of the first mode SID. */
  function FirstMode(l: ACL): Option<nat> {
    if l == [] then None else if ModeSid(l[0].sid) then Some(l[0].sid.sub[2]) else FirstMode(l[1..])
  }

  predicate AclFits(l: ACL) {
    forall i :: 0 <= i < |l| ==> SidFits(l[i].sid) && AceSize(l[i]) < TWO16
  }

  lemma {:induction false} AcesFront(l: ACL)
    requires l != []
    ensures AcesBytes(l) == AceBytes(l[0]) + AcesBytes(l[1..])
    decreases |l|
  {
    hide AceBytes, AcesBytes;
    var m, last := l[..|l| - 1], l[|l| - 1];
    NoAces();
    AcesSnoc(l, |l| - 1);
    assert l[..|l|] == l;
    if m == [] {
      assert l[1..] == [] && l[..0] == [];
      assert AcesBytes([]) + AceBytes(last) == AceBytes(last) + AcesBytes([]);
    } else {
      AcesFront(m);
      AcesSnoc(l[1..], |l| - 2);
      assert l[1..][..|l| - 2] == m[1..] && l[1..][..|l| - 1] == l[1..];
      ConcatAssoc(AceBytes(l[0]), AcesBytes(m[1..]), AceBytes(last));
    }
  }

  lemma NoAces()
    ensures AcesBytes([]) == []
  {
  }

  /** Whatever the entries: the first mode SID decides, and without one access is denied. */
  lemma {:induction false} WalkDecides(l: ACL, canSet: bool)
    requires AclFits(l)
    ensures Walk(AcesBytes(l), |l|, canSet) ==
            if FirstMode(l).None? || !canSet then AccessDenied else Stored(StoredMode(FirstMode(l).value))
    decreases |l|
  {
    if l != [] {
      hide AceBytes, AcesBytes, Walk, StoredMode;
      AcesFront(l);
      WalkStep(l[0], AcesBytes(l[1..]), |l| - 1, canSet);
      WalkDecides(l[1..], canSet);
    }
  }

  /** For every descriptor the encoder writes with a DACL as its last part: a missing DACL is not supported; else
      the first mode SID gives the mode stored. */
  lemma SetSecDecides(d: Descriptor, canSet: bool)
    requires Size(d) < TWO32
    requires d.dacl.Some? ==> AclFits(d.dacl.value) && AclSize(d.dacl.value) < TWO16 && |d.dacl.value| < TWO16
    ensures SetSec(DescriptorBytes(d), canSet) ==
            if d.dacl.None? then NotSupported
            else if FirstMode(d.dacl.value).None? || !canSet then AccessDenied
            else Stored(StoredMode(FirstMode(d.dacl.value).value))
  {
    hide Walk, U16, U32, DescriptorBytes, At, AclBytes, AcesBytes, AcesSize, StoredMode, FirstMode, AclFits, SidSize;
    var b := DescriptorBytes(d);
    DescriptorReads(d);
    if d.dacl.Some? {
      var off := 20 + OptSidSize(d.owner) + OptSidSize(d.group) + OptAclSize(d.sacl);
      AclReads(d.dacl.value, b, off);
      AtEnd(b, off + 8, AcesBytes(d.dacl.value));
      WalkDecides(d.dacl.value, canSet);
    }
  }

  /** What is stored: the nine permission bits, with reading and writing by the owner added. */
  lemma StoredBits(mode: nat, k: nat)
    ensures Bit(StoredMode(mode), k) <==> k < 9 && (Bit(mode, k) || k == 7 || k == 8)
  {
    hide And, Or;
    BitAnd(Or(mode, 0x180), 0x1FF, k);
    BitOr(mode, 0x180, k);
    NineBits();
    if k < 9 {
      LowBits(0, 9, k);
      assert !Bit(0x180, 0) && !Bit(0x180, 1) && !Bit(0x180, 2) && !Bit(0x180, 3) && !Bit(0x180, 4) && !Bit(0x180, 5) && !Bit(0x180, 6);
      assert Bit(0x180, 7) && Bit(0x180, 8);
    } else {
      NoHighBits(0x1FF, 9, k);
    }
  }
}
