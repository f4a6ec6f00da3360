/** The body of a HELLO message: neighbours grouped by neighbour type and link type, each
    group with a link code and its own size, as both serializers write it and as the
    receiver reads it. */
module HelloFormat {
  import opened Entries
  import opened Framing
  import Words

  const UNSPEC_LINK: nat := 0
  const ASYM_LINK: nat := 1
  const SYM_LINK: nat := 2
  const LOST_LINK: nat := 3
  const MAX_NEIGH: nat := 2

  const GROUP_HEADER: nat := 4

  /** A neighbour as it is announced; `lq` is its serialized link quality, and empty in a
      classic HELLO. */
  datatype Neighbor = Neighbor(neighType: nat, linkType: nat, addr: seq<Byte>, lq: seq<Byte>)

  predicate Fits(z: Sizes, n: Neighbor) {
    Sized(z, n.addr, n.lq)
  }

  /** A type pair that a link code can carry. */
  predicate Listed(n: Neighbor) {
    n.neighType <= MAX_NEIGH && n.linkType <= LOST_LINK
  }

  /** CREATE_LINK_CODE */
  function LinkCode(neighType: nat, linkType: nat): Byte
    requires neighType <= MAX_NEIGH && linkType <= LOST_LINK
  {
    linkType + 4 * neighType
  }

  /** EXTRACT_STATUS and EXTRACT_LINK */
  function CodeStatus(code: Byte): nat {
    code / 4 % 4
  }

  function CodeLink(code: Byte): nat {
    code % 4
  }

  /** The layout of section 6.1.1 of RFC 3626: the two lowest bits are the link type, the next two
      the neighbour type, and the others are zero. */
  lemma CodeBits(neighType: nat, linkType: nat, i: nat)
    requires neighType <= MAX_NEIGH && linkType <= LOST_LINK
    ensures Words.Bit(LinkCode(neighType, linkType), i) <==>
      if i < 2 then Words.Bit(linkType, i) else i < 4 && Words.Bit(neighType, i - 2)
  {
    var code := LinkCode(neighType, linkType);
    assert code / 2 == linkType / 2 + 2 * neighType && code / 2 / 2 == neighType;
    if i >= 2 {
      assert Words.Bit(code, i) == Words.Bit(code / 2, i - 1) == Words.Bit(neighType, i - 2);
      if i >= 4 {
        assert neighType / 2 / 2 == 0;
        assert Words.Bit(neighType, i - 2) == Words.Bit(neighType / 2, i - 3) == Words.Bit(0, i - 4);
        Words.ZeroBits(i - 4);
      }
    }
  }

  /** Neighbours that share their type pair. */
  datatype Group = Group(neighType: nat, linkType: nat, members: seq<Neighbor>)

  predicate ValidGroup(z: Sizes, g: Group) {
    && g.neighType <= MAX_NEIGH && g.linkType <= LOST_LINK
    && forall i :: 0 <= i < |g.members| ==>
      Fits(z, g.members[i]) && g.members[i].neighType == g.neighType && g.members[i].linkType == g.linkType
  }

  predicate ValidGroups(z: Sizes, gs: seq<Group>) {
    forall i :: 0 <= i < |gs| ==> ValidGroup(z, gs[i])
  }

  function MemberBytes(ms: seq<Neighbor>): seq<Byte> {
    if ms == [] then [] else ms[0].addr + ms[0].lq + MemberBytes(ms[1..])
  }

  function GroupHeader(code: Byte, size: nat): seq<Byte> {
    [code, 0] + Net16(size)
  }

  function GroupBytes(z: Sizes, g: Group): seq<Byte>
    requires ValidGroup(z, g)
  {
    var body := MemberBytes(g.members);
    GroupHeader(LinkCode(g.neighType, g.linkType), GROUP_HEADER + |body|) + body
  }

  function Encode(z: Sizes, gs: seq<Group>): seq<Byte>
    requires ValidGroups(z, gs)
  {
    if gs == [] then [] else GroupBytes(z, gs[0]) + Encode(z, gs[1..])
  }

  /** The neighbours of all groups, in order. */
  function Members(gs: seq<Group>): seq<Neighbor> {
    if gs == [] then [] else gs[0].members + Members(gs[1..])
  }

  lemma {:induction false} MembersAppend(gs: seq<Group>, hs: seq<Group>)
    ensures Members(gs + hs) == Members(gs) + Members(hs)
  {
    if gs == [] {
      assert gs + hs == hs;
    } else {
      MembersAppend(gs[1..], hs);
      assert (gs + hs)[1..] == gs[1..] + hs;
      Associative(gs[0].members, Members(gs[1..]), Members(hs));
    }
  }

  lemma {:induction false} MemberBytesSnoc(ms: seq<Neighbor>, n: Neighbor)
    ensures MemberBytes(ms + [n]) == MemberBytes(ms) + (n.addr + n.lq)
  {
    if ms == [] {
      assert (ms + [n])[1..] == [];
    } else {
      MemberBytesSnoc(ms[1..], n);
      assert (ms + [n])[1..] == ms[1..] + [n];
      Associative(ms[0].addr + ms[0].lq, MemberBytes(ms[1..]), n.addr + n.lq);
    }
  }

  lemma {:induction false} MemberBytesSize(z: Sizes, ms: seq<Neighbor>)
    requires forall i :: 0 <= i < |ms| ==> Fits(z, ms[i])
    ensures |MemberBytes(ms)| == EntrySize(z) * |ms|
  {
    if ms != [] {
      MemberBytesSize(z, ms[1..]);
      assert EntrySize(z) * |ms| == EntrySize(z) + EntrySize(z) * (|ms| - 1);
    }
  }

  lemma {:induction false} EncodeSnoc(z: Sizes, gs: seq<Group>, g: Group)
    requires ValidGroups(z, gs) && ValidGroup(z, g)
    ensures ValidGroups(z, gs + [g]) && Encode(z, gs + [g]) == Encode(z, gs) + GroupBytes(z, g)
  {
    if gs == [] {
      assert gs + [g] == [g] && Encode(z, [g]) == GroupBytes(z, g) + [];
    } else {
      EncodeSnoc(z, gs[1..], g);
      assert (gs + [g])[1..] == gs[1..] + [g];
      Associative(GroupBytes(z, gs[0]), Encode(z, gs[1..]), GroupBytes(z, g));
    }
  }

  // ----- The receiver

  /** The inner loop of the receiver over the entries of one group. */
  function DecodeMembers(z: Sizes, code: Byte, b: seq<Byte>): seq<Neighbor> {
    if EntrySize(z) == 0 || |b| < EntrySize(z) then []
    else
      [Neighbor(CodeStatus(code), CodeLink(code), b[..z.ip], b[z.ip..z.ip + z.lq])] +
      DecodeMembers(z, code, b[EntrySize(z)..])
  }

  /** The outer loop of the receiver: group by group, as the size fields say. */
  function DecodeGroups(z: Sizes, b: seq<Byte>): seq<Neighbor> {
    if |b| < GROUP_HEADER then []
    else
      var size := U16(b[2], b[3]);
      if size < GROUP_HEADER || |b| < size then []
      else DecodeMembers(z, b[0], b[GROUP_HEADER..size]) + DecodeGroups(z, b[size..])
  }

  lemma CodeRoundTrip(neighType: nat, linkType: nat)
    requires neighType <= MAX_NEIGH && linkType <= LOST_LINK
    ensures CodeStatus(LinkCode(neighType, linkType)) == neighType &&
      CodeLink(LinkCode(neighType, linkType)) == linkType
  {
  }

  lemma FirstEntry(a: seq<Byte>, l: seq<Byte>, rest: seq<Byte>)
    ensures var b := a + l + rest;
      b[..|a|] == a && b[|a|..|a| + |l|] == l && b[|a| + |l|..] == rest
  {
  }

  lemma {:induction false} DecodeMembersRoundTrip(z: Sizes, g: Group)
    requires ValidGroup(z, g) && EntrySize(z) > 0
    ensures DecodeMembers(z, LinkCode(g.neighType, g.linkType), MemberBytes(g.members)) == g.members
    decreases g.members
  {
    if g.members != [] {
      var n, rest := g.members[0], g.(members := g.members[1..]);
      DecodeMembersRoundTrip(z, rest);
      CodeRoundTrip(g.neighType, g.linkType);
      FirstEntry(n.addr, n.lq, MemberBytes(rest.members));
    }
  }

  /** Reading a body gives back every neighbour that was written, with its own type pair and
      link quality, in the order in which it was written. */
  lemma {:induction false} DecodeRoundTrip(z: Sizes, gs: seq<Group>)
    requires ValidGroups(z, gs) && EntrySize(z) > 0 && |Encode(z, gs)| < 65536
    ensures DecodeGroups(z, Encode(z, gs)) == Members(gs)
  {
    if gs != [] {
      var g, b := gs[0], Encode(z, gs);
      DecodeRoundTrip(z, gs[1..]);
      DecodeMembersRoundTrip(z, g);
      var m := MemberBytes(g.members);
      var size := GROUP_HEADER + |m|;
      Net16RoundTrip(size);
      hide Net16, U16, DecodeMembers, MemberBytes, LinkCode;
      assert b[..size] == GroupBytes(z, g);
      assert b[2] == GroupBytes(z, g)[2] == Net16(size)[0] && b[3] == GroupBytes(z, g)[3] == Net16(size)[1];
      assert b[0] == LinkCode(g.neighType, g.linkType);
      assert b[GROUP_HEADER..size] == m && b[size..] == Encode(z, gs[1..]);
    }
  }

  // ----- A body while it is being written

  /** Bytes e, then a group header at h that still lacks its size, then the entries m. */
  predicate DraftBytes(b: seq<Byte>, h: nat, e: seq<Byte>, code: Byte, m: seq<Byte>) {
    && h + GROUP_HEADER <= |b|
    && b[..h] == e && b[h] == code && b[h + 1] == 0
    && b[h + GROUP_HEADER..] == m
  }

  /** Writes the size of the group that starts at h and reaches to the end. */
  function Patch(b: seq<Byte>, h: nat): (p: seq<Byte>)
    requires h + GROUP_HEADER <= |b|
    ensures |p| == |b|
  {
    var size := Net16(|b| - h);
    b[h + 2 := size[0]][h + 3 := size[1]]
  }

  lemma PatchBytes(b: seq<Byte>, h: nat, e: seq<Byte>, code: Byte, m: seq<Byte>)
    requires DraftBytes(b, h, e, code, m)
    ensures Patch(b, h) == e + (GroupHeader(code, GROUP_HEADER + |m|) + m)
    ensures DraftBytes(Patch(b, h), h, e, code, m)
  {
    hide Net16;
    var p := Patch(b, h);
    assert p == p[..h] + (p[h..h + GROUP_HEADER] + p[h + GROUP_HEADER..]);
    assert p[..h] == b[..h] && p[h + GROUP_HEADER..] == b[h + GROUP_HEADER..];
    assert p[h..h + GROUP_HEADER] == GroupHeader(code, GROUP_HEADER + |m|);
  }

  lemma DraftRoom(b: seq<Byte>, h: nat, e: seq<Byte>, code: Byte, m: seq<Byte>)
    requires DraftBytes(b, h, e, code, m)
    ensures h + GROUP_HEADER <= |b|
  {
  }

  lemma EmptyBody(z: Sizes)
    ensures ValidGroups(z, []) && Encode(z, []) == [] && Members([]) == []
  {
  }

  lemma AppendBytes(b: seq<Byte>, h: nat, e: seq<Byte>, code: Byte, m: seq<Byte>, x: seq<Byte>)
    requires DraftBytes(b, h, e, code, m)
    ensures DraftBytes(b + x, h, e, code, m + x)
  {
  }

  function LastGroup(gs: seq<Group>): Group
    requires gs != []
  {
    gs[|gs| - 1]
  }

  function AllButLast(gs: seq<Group>): seq<Group>
    requires gs != []
  {
    gs[..|gs| - 1]
  }

  function GroupCode(z: Sizes, g: Group): Byte
    requires ValidGroup(z, g)
  {
    LinkCode(g.neighType, g.linkType)
  }

  /** Everything up to the last group is final; the last group, whose header starts at h,
      still lacks its size. */
  predicate Draft(z: Sizes, b: seq<Byte>, gs: seq<Group>, h: nat) {
    && gs != [] && ValidGroups(z, AllButLast(gs)) && ValidGroup(z, LastGroup(gs))
    && DraftBytes(b, h, Encode(z, AllButLast(gs)), GroupCode(z, LastGroup(gs)), MemberBytes(LastGroup(gs).members))
  }

  /** Writing the size finishes the last group. */
  lemma PatchFinishes(z: Sizes, b: seq<Byte>, gs: seq<Group>, h: nat)
    requires Draft(z, b, gs, h)
    ensures h + GROUP_HEADER <= |b|
    ensures ValidGroups(z, gs) && Patch(b, h) == Encode(z, gs) && Draft(z, Patch(b, h), gs, h)
  {
    hide ValidGroup, Encode, MemberBytes, DraftBytes, Patch;
    var init, g := AllButLast(gs), LastGroup(gs);
    assert gs == init + [g];
    EncodeSnoc(z, init, g);
    assert h + GROUP_HEADER <= |b| by { DraftRoom(b, h, Encode(z, init), GroupCode(z, g), MemberBytes(g.members)); }
    PatchBytes(b, h, Encode(z, init), GroupCode(z, g), MemberBytes(g.members));
  }

  /** A new group is opened behind a finished body. */
  lemma OpenGroup(z: Sizes, gs: seq<Group>, neighType: nat, linkType: nat, x: Byte, y: Byte)
    requires ValidGroups(z, gs) && neighType <= MAX_NEIGH && linkType <= LOST_LINK
    ensures Draft(z, Encode(z, gs) + [LinkCode(neighType, linkType), 0, x, y],
                  gs + [Group(neighType, linkType, [])], |Encode(z, gs)|)
    ensures Members(gs + [Group(neighType, linkType, [])]) == Members(gs)
  {
    hide Encode, DraftBytes, LinkCode, Members;
    var g := Group(neighType, linkType, []);
    assert AllButLast(gs + [g]) == gs && LastGroup(gs + [g]) == g;
    OpenBytes(Encode(z, gs), LinkCode(neighType, linkType), x, y);
    OpenMembers(gs, g);
  }

  lemma OpenBytes(e: seq<Byte>, code: Byte, x: Byte, y: Byte)
    ensures DraftBytes(e + [code, 0, x, y], |e|, e, code, [])
  {
  }

  lemma OpenMembers(gs: seq<Group>, g: Group)
    requires g.members == []
    ensures Members(gs + [g]) == Members(gs)
  {
    MembersAppend(gs, [g]);
    assert Members([g]) == [] + Members([]);
  }

  /** The groups after neighbour n joined the last one. */
  function Join(gs: seq<Group>, n: Neighbor): seq<Group>
    requires gs != []
  {
    AllButLast(gs) + [LastGroup(gs).(members := LastGroup(gs).members + [n])]
  }

  lemma JoinMembers(gs: seq<Group>, n: Neighbor)
    requires gs != []
    ensures Members(Join(gs, n)) == Members(gs) + [n]
  {
    var init, g := AllButLast(gs), LastGroup(gs);
    var g' := g.(members := g.members + [n]);
    assert gs == init + [g];
    MembersAppend(init, [g]);
    MembersAppend(init, [g']);
    assert Members([g]) == g.members + Members([]) && Members([g']) == g'.members + Members([]);
    Associative(Members(init), g.members, [n]);
  }

  /** A neighbour is added to the open group. */
  lemma AddMember(z: Sizes, b: seq<Byte>, gs: seq<Group>, h: nat, n: Neighbor)
    requires Draft(z, b, gs, h) && Fits(z, n)
    requires n.neighType == LastGroup(gs).neighType && n.linkType == LastGroup(gs).linkType
    ensures Draft(z, b + (n.addr + n.lq), Join(gs, n), h)
  {
    var init, g := AllButLast(gs), LastGroup(gs);
    var g' := g.(members := g.members + [n]);
    assert ValidGroup(z, g');
    hide ValidGroup, Encode, MemberBytes, DraftBytes;
    assert AllButLast(Join(gs, n)) == init && LastGroup(Join(gs, n)) == g';
    MemberBytesSnoc(g.members, n);
    AppendBytes(b, h, Encode(z, init), GroupCode(z, g), MemberBytes(g.members), n.addr + n.lq);
  }
}
