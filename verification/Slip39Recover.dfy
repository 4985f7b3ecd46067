/** Two-level recovery of the master secret from share mnemonics. */
module Slip39Recover {
  import opened Options
  import opened Bits
  import opened Rs1024
  import opened Poly
  import opened Slip39Gf
  import opened Slip39Share
  import opened Slip39Secret
  import F = Slip39Feistel

  // ----- grouping the shares

  datatype Group = Group(index: nat, shares: seq<Share>)

  /** The parameters all shares of one secret have in common. */
  predicate SameCommon(s: Share, t: Share)
  {
    && s.identifier == t.identifier && s.extendable == t.extendable && s.exponent == t.exponent
    && s.groupThreshold == t.groupThreshold && s.groupCount == t.groupCount && |s.value| == |t.value|
  }

  /** No conflict between two shares: one threshold per group, one value per member. */
  predicate Agree(s: Share, t: Share)
  {
    && SameCommon(s, t)
    && (s.groupIndex == t.groupIndex ==>
          s.memberThreshold == t.memberThreshold && (s.memberIndex == t.memberIndex ==> s.value == t.value))
  }

  ghost predicate Consistent(shares: seq<Share>)
  {
    forall i, j :: 0 <= i < j < |shares| ==> Agree(shares[i], shares[j])
  }

  ghost predicate AllValid(shares: seq<Share>)
  {
    forall s <- shares :: ValidShare(s)
  }

  /** A group lists different members of one group, all of them given. */
  ghost predicate IsGroup(shares: seq<Share>, g: Group)
  {
    && |g.shares| > 0
    && (forall s <- g.shares :: s in shares && s.groupIndex == g.index)
    && forall i, j :: 0 <= i < j < |g.shares| ==> g.shares[i].memberIndex != g.shares[j].memberIndex
  }

  /** The groups hold every given share once, in one group per group index. */
  ghost predicate Grouping(shares: seq<Share>, groups: seq<Group>)
  {
    && (forall g <- groups :: IsGroup(shares, g))
    && (forall i, j :: 0 <= i < j < |groups| ==> groups[i].index != groups[j].index)
    && forall s <- shares :: exists g :: g in groups && s in g.shares
  }

  /** Distinct numbers below `n` are at most `n` many. */
  lemma {:induction false} Pigeonhole(xs: seq<nat>, n: nat)
    requires forall i :: 0 <= i < |xs| ==> xs[i] < n
    requires forall i, j :: 0 <= i < j < |xs| ==> xs[i] != xs[j]
    ensures |xs| <= n
  {
    assert |xs| > 0 ==> xs[0] < n;
    if n - 1 in xs {
      var k :| 0 <= k < |xs| && xs[k] == n - 1;
      Pigeonhole(xs[..k] + xs[k + 1..], n - 1);
    } else if n > 0 {
      Pigeonhole(xs, n - 1);
    }
  }

  function Indices(groups: seq<Group>): (r: seq<nat>)
    ensures |r| == |groups| && forall i :: 0 <= i < |r| ==> r[i] == groups[i].index
  {
    seq(|groups|, i requires 0 <= i < |groups| => groups[i].index)
  }

  function MemberIndices(shares: seq<Share>): (r: seq<nat>)
    ensures |r| == |shares| && forall i :: 0 <= i < |r| ==> r[i] == shares[i].memberIndex
  {
    seq(|shares|, i requires 0 <= i < |shares| => shares[i].memberIndex)
  }

  /** A group index not seen yet leaves room for it among the sixteen slots. */
  lemma GroupRoom(shares: seq<Share>, groups: seq<Group>, s: Share)
    requires AllValid(shares) && Grouping(shares, groups) && ValidShare(s)
    requires forall i :: 0 <= i < |groups| ==> groups[i].index != s.groupIndex
    ensures |groups| < 16
  {
    forall i | 0 <= i < |groups|
      ensures groups[i].index < 16
    {
      assert IsGroup(shares, groups[i]);
      assert groups[i].shares[0] in groups[i].shares;
    }
    Pigeonhole(Indices(groups) + [s.groupIndex], 16);
  }

  lemma MemberRoom(shares: seq<Share>, g: Group, s: Share)
    requires AllValid(shares) && IsGroup(shares, g) && ValidShare(s)
    requires forall i :: 0 <= i < |g.shares| ==> g.shares[i].memberIndex != s.memberIndex
    ensures |g.shares| < 16
  {
    forall i | 0 <= i < |g.shares|
      ensures g.shares[i].memberIndex < 16
    {
      assert g.shares[i] in g.shares;
    }
    Pigeonhole(MemberIndices(g.shares) + [s.memberIndex], 16);
  }

  lemma GroupGrows(shares: seq<Share>, g: Group, s: Share)
    requires IsGroup(shares, g)
    ensures IsGroup(shares + [s], g)
  {
  }

  /** A first share of its group opens a new group. */
  lemma OpenGroup(shares: seq<Share>, groups: seq<Group>, s: Share)
    requires Grouping(shares, groups)
    requires forall i :: 0 <= i < |groups| ==> groups[i].index != s.groupIndex
    ensures Grouping(shares + [s], groups + [Group(s.groupIndex, [s])])
  {
    hide IsGroup;
    var now := groups + [Group(s.groupIndex, [s])];
    forall g | g in now
      ensures IsGroup(shares + [s], g)
    {
      if g in groups {
        GroupGrows(shares, g, s);
      } else {
        assert IsGroup(shares + [s], g) by {
          NewGroup(shares, s);
        }
      }
    }
    forall t | t in shares + [s]
      ensures exists g :: g in now && t in g.shares
    {
      if t in shares {
        var g :| g in groups && t in g.shares;
        assert g in now;
      } else {
        assert now[|groups|] in now && t in now[|groups|].shares;
      }
    }
  }

  lemma NewGroup(shares: seq<Share>, s: Share)
    ensures IsGroup(shares + [s], Group(s.groupIndex, [s]))
  {
  }

  /** A further member of a known group joins it. */
  lemma JoinGroup(shares: seq<Share>, groups: seq<Group>, s: Share, k: nat)
    requires Grouping(shares, groups) && k < |groups| && groups[k].index == s.groupIndex
    requires forall i :: 0 <= i < |groups[k].shares| ==> groups[k].shares[i].memberIndex != s.memberIndex
    ensures Grouping(shares + [s], groups[k := Group(s.groupIndex, groups[k].shares + [s])])
  {
    hide IsGroup;
    var joined := Group(s.groupIndex, groups[k].shares + [s]);
    var now := groups[k := joined];
    forall g | g in now
      ensures IsGroup(shares + [s], g)
    {
      if g in groups {
        GroupGrows(shares, g, s);
      } else {
        assert IsGroup(shares, groups[k]);
        JoinedGroup(shares, groups[k], s);
      }
    }
    forall t | t in shares + [s]
      ensures exists g :: g in now && t in g.shares
    {
      assert now[k] in now;
      if t in shares {
        var g :| g in groups && t in g.shares;
        var i :| 0 <= i < |groups| && groups[i] == g;
        assert now[i] in now;
      }
    }
  }

  lemma JoinedGroup(shares: seq<Share>, g: Group, s: Share)
    requires IsGroup(shares, g) && g.index == s.groupIndex
    requires forall i :: 0 <= i < |g.shares| ==> g.shares[i].memberIndex != s.memberIndex
    ensures IsGroup(shares + [s], Group(s.groupIndex, g.shares + [s]))
  {
  }

  /** A card given twice changes nothing. */
  lemma SameCard(shares: seq<Share>, groups: seq<Group>, s: Share)
    requires Grouping(shares, groups) && s in shares
    ensures Grouping(shares + [s], groups)
  {
    hide IsGroup;
    forall g | g in groups
      ensures IsGroup(shares + [s], g)
    {
      GroupGrows(shares, g, s);
    }
  }

  /** Files one share: succeeds exactly when it agrees with all the shares before it, and then the
      groups hold it too. The guards against a seventeenth group or member cannot fire. */
  method AddShare(ghost shares: seq<Share>, groups: seq<Group>, first: Share, s: Share) returns (r: Option<seq<Group>>)
    requires AllValid(shares) && ValidShare(s) && Consistent(shares)
    requires Grouping(shares, groups) && |shares| > 0 && first == shares[0]
    ensures r.Some? <==> Consistent(shares + [s])
    ensures r.Some? ==> Grouping(shares + [s], r.value)
  {
    hide Consistent;
    hide IsGroup;
    hide Grouping;
    hide AllValid;
    if !SameCommon(s, first) {
      FirstAgrees(shares, s);
      return None;
    }
    GroupOf(shares, groups);
    var gi := 0;
    while gi < |groups| && groups[gi].index != s.groupIndex
      invariant gi <= |groups| && forall i :: 0 <= i < gi ==> groups[i].index != s.groupIndex
    {
      gi := gi + 1;
    }
    if gi == |groups| {
      GroupRoom(shares, groups, s);
      assert |groups| < 16;
      AgreeWithNone(shares, groups, first, s);
      OpenGroup(shares, groups, s);
      return Some(groups + [Group(s.groupIndex, [s])]);
    }
    var members := groups[gi].shares;
    AgreeWithGroup(shares, groups, first, s, gi);
    if members[0].memberThreshold != s.memberThreshold {
      return None;
    }
    var k := 0;
    while k < |members| && members[k].memberIndex != s.memberIndex
      invariant k <= |members| && forall i :: 0 <= i < k ==> members[i].memberIndex != s.memberIndex
    {
      k := k + 1;
    }
    if k < |members| {
      assert members[k] in members;
      if members[k].value != s.value {
        return None;
      }
      OneMember(shares, groups[gi], s, k);
      SameCard(shares, groups, s);
      return Some(groups);
    }
    MemberRoom(shares, groups[gi], s);
    assert |members| < 16;
    JoinGroup(shares, groups, s, gi);
    return Some(groups[gi := Group(s.groupIndex, members + [s])]);
  }

  lemma OneMember(shares: seq<Share>, g: Group, s: Share, k: nat)
    requires IsGroup(shares, g) && k < |g.shares| && g.shares[0].memberThreshold == s.memberThreshold
    requires g.shares[k].memberIndex == s.memberIndex && g.shares[k].value == s.value
    ensures FitsGroup(g.shares, s)
  {
  }

  lemma GroupOf(shares: seq<Share>, groups: seq<Group>)
    requires Grouping(shares, groups)
    ensures forall g <- groups :: IsGroup(shares, g) && |g.shares| > 0
  {
  }

  lemma FirstAgrees(shares: seq<Share>, s: Share)
    requires |shares| > 0 && !SameCommon(s, shares[0])
    ensures !Consistent(shares + [s])
  {
    assert !Agree((shares + [s])[0], (shares + [s])[|shares|]);
  }

  lemma AgreeWithNone(shares: seq<Share>, groups: seq<Group>, first: Share, s: Share)
    requires Consistent(shares) && |shares| > 0 && first == shares[0] && SameCommon(s, first)
    requires Grouping(shares, groups)
    requires forall i :: 0 <= i < |groups| ==> groups[i].index != s.groupIndex
    ensures Consistent(shares + [s])
  {
    forall i | 0 <= i < |shares|
      ensures Agree(shares[i], s)
    {
      assert shares[i] in shares;
      var g :| g in groups && shares[i] in g.shares;
      assert IsGroup(shares, g);
      assert i > 0 ==> Agree(shares[0], shares[i]);
    }
  }

  predicate FitsGroup(members: seq<Share>, s: Share)
    requires |members| > 0
  {
    && members[0].memberThreshold == s.memberThreshold
    && forall m <- members :: m.memberIndex == s.memberIndex ==> m.value == s.value
  }

  lemma MemberAgrees(shares: seq<Share>, groups: seq<Group>, s: Share, k: nat, m: Share)
    requires Consistent(shares) && Grouping(shares, groups) && k < |groups| && groups[k].index == s.groupIndex
    requires m in groups[k].shares
    ensures |groups[k].shares| > 0 && m in shares && m.groupIndex == s.groupIndex
    ensures Agree(groups[k].shares[0], m) && Agree(shares[0], m)
    ensures Consistent(shares + [s]) ==> Agree(m, s)
  {
    hide Agree;
    assert IsGroup(shares, groups[k]);
    assert groups[k].shares[0] in groups[k].shares;
    InConsistent(shares, groups[k].shares[0], m);
    InConsistent(shares, shares[0], m);
    if Consistent(shares + [s]) {
      var j :| 0 <= j < |shares| && shares[j] == m;
      assert Agree((shares + [s])[j], (shares + [s])[|shares|]);
    }
  }

  /** Agreement with all the shares is agreement with the members of the group. */
  lemma AgreeWithGroup(shares: seq<Share>, groups: seq<Group>, first: Share, s: Share, k: nat)
    requires Consistent(shares) && |shares| > 0 && first == shares[0] && SameCommon(s, first)
    requires Grouping(shares, groups) && k < |groups| && groups[k].index == s.groupIndex
    ensures |groups[k].shares| > 0
    ensures Consistent(shares + [s]) <==> FitsGroup(groups[k].shares, s)
    ensures FitsGroup(groups[k].shares, s) && (exists m <- groups[k].shares :: m.memberIndex == s.memberIndex)
            ==> s in shares
  {
    hide IsGroup;
    hide Grouping;
    GroupOf(shares, groups);
    var ms := groups[k].shares;
    assert groups[k] in groups && ms[0] in ms;
    forall m | m in ms
      ensures m in shares && m.groupIndex == s.groupIndex && Agree(ms[0], m) && Agree(first, m)
      ensures Consistent(shares + [s]) ==> Agree(m, s)
    {
      MemberAgrees(shares, groups, s, k, m);
    }
    if FitsGroup(ms, s) {
      FitsAll(shares, groups, s, k);
      forall m | m in ms && m.memberIndex == s.memberIndex
        ensures s in shares
      {
        assert m == s;
      }
    }
  }

  lemma FitsAll(shares: seq<Share>, groups: seq<Group>, s: Share, k: nat)
    requires Consistent(shares) && |shares| > 0 && SameCommon(s, shares[0])
    requires Grouping(shares, groups) && k < |groups| && groups[k].index == s.groupIndex
    requires |groups[k].shares| > 0 && FitsGroup(groups[k].shares, s)
    ensures Consistent(shares + [s])
  {
    hide IsGroup;
    hide Grouping;
    forall i | 0 <= i < |shares|
      ensures Agree(shares[i], s)
    {
      InConsistent(shares, shares[0], shares[i]);
      if shares[i].groupIndex == s.groupIndex {
        OwnGroup(shares, groups, i, k);
        MemberAgrees(shares, groups, s, k, shares[i]);
        MemberAgrees(shares, groups, s, k, groups[k].shares[0]);
      }
    }
  }

  lemma InConsistent(shares: seq<Share>, s: Share, t: Share)
    requires Consistent(shares) && s in shares && t in shares
    ensures Agree(s, t)
  {
    var i :| 0 <= i < |shares| && shares[i] == s;
    var j :| 0 <= j < |shares| && shares[j] == t;
    if i < j {
      assert Agree(shares[i], shares[j]);
    } else if j < i {
      assert Agree(shares[j], shares[i]);
    }
  }

  lemma OwnGroup(shares: seq<Share>, groups: seq<Group>, i: nat, k: nat)
    requires Grouping(shares, groups) && i < |shares| && k < |groups|
    requires groups[k].index == shares[i].groupIndex
    ensures shares[i] in groups[k].shares
  {
    assert shares[i] in shares;
    var g :| g in groups && shares[i] in g.shares;
    var j :| 0 <= j < |groups| && groups[j] == g;
    assert IsGroup(shares, g);
    assert groups[j].index == groups[k].index;
  }

  // ----- combining the groups

  datatype Primitives = Primitives(hmac: Mac, kdf: F.Kdf)

  ghost predicate IsPrimitives(p: Primitives)
  {
    IsMac(p.hmac) && F.IsKdf(p.kdf)
  }

  function RawMember(s: Share): RawShare
    requires ValidShare(s)
  {
    RawShare(s.memberIndex, s.value)
  }

  function RawMembers(shares: seq<Share>): (r: seq<RawShare>)
    requires forall s <- shares :: ValidShare(s)
    ensures |r| == |shares|
  {
    seq(|shares|, i requires 0 <= i < |shares| => RawMember(shares[i]))
  }

  ghost predicate GoodGroup(g: Group, vlen: nat)
  {
    |g.shares| > 0 && g.index < 16 && forall s <- g.shares :: ValidShare(s) && |s.value| == vlen
  }

  ghost function GroupSecret(hmac: Mac, g: Group, vlen: nat): Option<seq<byte>>
    requires IsMac(hmac) && GoodGroup(g, vlen)
  {
    var t := g.shares[0].memberThreshold;
    if |g.shares| < t then None else SecretOf(hmac, t, RawMembers(g.shares[..t]), vlen)
  }

  ghost function GroupSecrets(hmac: Mac, groups: seq<Group>, vlen: nat): (r: Option<seq<RawShare>>)
    requires IsMac(hmac) && forall g <- groups :: GoodGroup(g, vlen)
  {
    if |groups| == 0 then Some([]) else
      var n := |groups| - 1;
      var before := GroupSecrets(hmac, groups[..n], vlen);
      var last := GroupSecret(hmac, groups[n], vlen);
      if before.None? || last.None? then None else Some(before.value + [RawShare(groups[n].index, last.value)])
  }

  function Salt(s: Share): seq<byte>
  {
    if s.extendable then []
    else
      ['s' as int, 'h' as int, 'a' as int, 'm' as int, 'i' as int, 'r' as int]
      + [s.identifier / 256 % 256, s.identifier % 256]
  }

  function RoundOf(p: Primitives, passphrase: seq<byte>, s: Share): F.RoundFunction
  {
    F.ShareRound(p.kdf, passphrase, s.exponent, Salt(s))
  }

  lemma RoundKeeps(p: Primitives, passphrase: seq<byte>, s: Share)
    requires IsPrimitives(p)
    ensures F.KeepsLength(RoundOf(p, passphrase, s))
  {
    F.ShareRoundKeeps(p.kdf, passphrase, s.exponent, Salt(s));
  }

  /** What the groups decrypt to: exactly the threshold of groups, each with its threshold of members. */
  ghost function Combined(p: Primitives, passphrase: seq<byte>, first: Share, groups: seq<Group>): Option<seq<byte>>
    requires IsPrimitives(p) && forall g <- groups :: GoodGroup(g, |first.value|)
  {
    var secrets := GroupSecrets(p.hmac, groups, |first.value|);
    if |groups| != first.groupThreshold || secrets.None? then None else
      var encrypted := SecretOf(p.hmac, first.groupThreshold, secrets.value, |first.value|);
      if encrypted.None? || |encrypted.value| < 2 || |encrypted.value| % 2 == 1 then None else
        RoundKeeps(p, passphrase, first);
        Some(F.Decrypt(RoundOf(p, passphrase, first), encrypted.value))
  }

  /** The first members of a group, as many as its threshold, yield the group's secret `x`. */
  ghost predicate GroupYields(hmac: Mac, g: Group, vlen: nat, x: seq<byte>)
    requires IsMac(hmac) && GoodGroup(g, vlen)
  {
    var t := g.shares[0].memberThreshold;
    t <= |g.shares| && Yields(hmac, t, RawMembers(g.shares[..t]), vlen, x)
  }

  lemma GroupExact(hmac: Mac, g: Group, vlen: nat, x: seq<byte>)
    requires IsMac(hmac) && GoodGroup(g, vlen)
    ensures GroupSecret(hmac, g, vlen) == Some(x) <==> GroupYields(hmac, g, vlen, x)
  {
    hide SecretOf;
    hide Yields;
    var t := g.shares[0].memberThreshold;
    assert g.shares[0] in g.shares;
    if t <= |g.shares| {
      var members := RawMembers(g.shares[..t]);
      assert |members| > 0 ==> members[0].data == g.shares[0].value;
      SecretExact(hmac, t, members, vlen, x);
    }
  }

  /** One share per group, of the secret its members yield. */
  ghost predicate GroupLevel(hmac: Mac, groups: seq<Group>, vlen: nat, raw: seq<RawShare>)
    requires IsMac(hmac) && forall g <- groups :: GoodGroup(g, vlen)
  {
    && |raw| == |groups|
    && forall k :: 0 <= k < |groups| ==>
      raw[k].x == groups[k].index && GroupYields(hmac, groups[k], vlen, raw[k].data)
  }

  lemma {:induction false} GroupLevelExact(hmac: Mac, groups: seq<Group>, vlen: nat, raw: seq<RawShare>)
    requires IsMac(hmac) && forall g <- groups :: GoodGroup(g, vlen)
    ensures GroupSecrets(hmac, groups, vlen) == Some(raw) <==> GroupLevel(hmac, groups, vlen, raw)
  {
    hide GoodGroup;
    hide GroupSecret;
    hide GroupYields;
    if |groups| > 0 {
      var n := |groups| - 1;
      assert groups[n] in groups;
      GroupIndexSmall(groups[n], vlen);
      if |raw| == |groups| {
        GroupLevelExact(hmac, groups[..n], vlen, raw[..n]);
        GroupExact(hmac, groups[n], vlen, raw[n].data);
        GroupLevelSplit(hmac, groups, vlen, raw);
        assert raw == raw[..n] + [RawShare(raw[n].x, raw[n].data)];
      }
      if GroupSecrets(hmac, groups, vlen) == Some(raw) {
        SecretsLength(hmac, groups, vlen);
      }
    }
  }

  lemma {:induction false} SecretsLength(hmac: Mac, groups: seq<Group>, vlen: nat)
    requires IsMac(hmac) && forall g <- groups :: GoodGroup(g, vlen)
    ensures GroupSecrets(hmac, groups, vlen).Some? ==> |GroupSecrets(hmac, groups, vlen).value| == |groups|
  {
    hide GoodGroup;
    hide GroupSecret;
    if |groups| > 0 {
      SecretsLength(hmac, groups[..|groups| - 1], vlen);
    }
  }

  lemma GroupLevelSplit(hmac: Mac, groups: seq<Group>, vlen: nat, raw: seq<RawShare>)
    requires IsMac(hmac) && |groups| > 0 && |raw| == |groups| && forall g <- groups :: GoodGroup(g, vlen)
    ensures var n := |groups| - 1;
      GroupLevel(hmac, groups, vlen, raw) <==>
        GroupLevel(hmac, groups[..n], vlen, raw[..n])
        && raw[n].x == groups[n].index && GroupYields(hmac, groups[n], vlen, raw[n].data)
  {
    hide GoodGroup;
    hide GroupYields;
    var n := |groups| - 1;
    if GroupLevel(hmac, groups[..n], vlen, raw[..n])
       && raw[n].x == groups[n].index && GroupYields(hmac, groups[n], vlen, raw[n].data) {
      forall k | 0 <= k < |groups|
        ensures raw[k].x == groups[k].index && GroupYields(hmac, groups[k], vlen, raw[k].data)
      {
        assert k < n ==> groups[..n][k] == groups[k] && raw[..n][k] == raw[k];
      }
    }
  }

  /** `m` is the master secret the groups hold: exactly the threshold of groups, whose secrets yield the
      encryption of `m`. */
  ghost predicate Holds(p: Primitives, passphrase: seq<byte>, first: Share, groups: seq<Group>, m: seq<byte>)
    requires IsPrimitives(p) && forall g <- groups :: GoodGroup(g, |first.value|)
  {
    && |groups| == first.groupThreshold && |m| == |first.value| >= 2 && |m| % 2 == 0
    && (RoundKeeps(p, passphrase, first);
        var encrypted := F.Encrypt(RoundOf(p, passphrase, first), m);
        exists raw :: GroupLevel(p.hmac, groups, |m|, raw)
                      && Yields(p.hmac, first.groupThreshold, raw, |m|, encrypted))
  }

  /** The groups decrypt to exactly the secret they hold. */
  lemma CombinedExact(p: Primitives, passphrase: seq<byte>, first: Share, groups: seq<Group>, m: seq<byte>)
    requires IsPrimitives(p) && |groups| > 0 && forall g <- groups :: GoodGroup(g, |first.value|)
    ensures Combined(p, passphrase, first, groups) == Some(m) <==> Holds(p, passphrase, first, groups, m)
  {
    hide GoodGroup;
    hide SecretOf;
    hide GroupSecrets;
    hide GroupLevel;
    hide Yields;
    hide F.Encrypt;
    hide F.Decrypt;
    hide F.ShareRound;
    var vlen := |first.value|;
    var f := RoundOf(p, passphrase, first);
    RoundKeeps(p, passphrase, first);
    var secrets := GroupSecrets(p.hmac, groups, vlen);
    if secrets.Some? {
      GroupLevelExact(p.hmac, groups, vlen, secrets.value);
      RawLengths(p.hmac, groups, vlen, secrets.value);
    }
    if Combined(p, passphrase, first, groups) == Some(m) {
      var e := SecretOf(p.hmac, first.groupThreshold, secrets.value, vlen).value;
      SecretExact(p.hmac, first.groupThreshold, secrets.value, vlen, e);
      YieldsLength(p.hmac, first.groupThreshold, secrets.value, vlen, e);
      F.DecryptInverts(f, e);
    }
    if Holds(p, passphrase, first, groups, m) {
      var e := F.Encrypt(f, m);
      var raw :| GroupLevel(p.hmac, groups, |m|, raw) && Yields(p.hmac, first.groupThreshold, raw, |m|, e);
      GroupLevelExact(p.hmac, groups, vlen, raw);
      SecretExact(p.hmac, first.groupThreshold, raw, vlen, e);
      F.DecryptInverts(f, m);
    }
  }

  lemma YieldsLength(hmac: Mac, t: nat, shares: seq<RawShare>, vlen: nat, x: seq<byte>)
    requires IsMac(hmac) && Yields(hmac, t, shares, vlen, x)
    ensures |x| == vlen
  {
  }

  lemma RawLengths(hmac: Mac, groups: seq<Group>, vlen: nat, raw: seq<RawShare>)
    requires IsMac(hmac) && |groups| > 0 && (forall g <- groups :: GoodGroup(g, vlen))
    requires GroupLevel(hmac, groups, vlen, raw)
    ensures |raw| > 0 && |raw[0].data| == vlen
  {
    hide GoodGroup;
    hide RawMembers;
    assert groups[0] in groups;
    assert GroupYields(hmac, groups[0], vlen, raw[0].data);
  }

  lemma GroupsGood(shares: seq<Share>, groups: seq<Group>)
    requires AllValid(shares) && Consistent(shares) && Grouping(shares, groups) && |shares| > 0
    ensures forall g <- groups :: GoodGroup(g, |shares[0].value|)
  {
    forall g | g in groups
      ensures GoodGroup(g, |shares[0].value|)
    {
      assert IsGroup(shares, g);
      assert g.shares[0] in g.shares;
      forall s | s in g.shares
        ensures ValidShare(s) && |s.value| == |shares[0].value|
      {
        InConsistent(shares, shares[0], s);
      }
    }
  }

  /** Recovers the group secrets in order, then the encrypted secret, and decrypts it: the result is exactly
      the master secret the groups hold. */
  method CombineGroups(p: Primitives, exp: seq<byte>, log: seq<byte>, passphrase: seq<byte>, first: Share,
                       groups: seq<Group>)
    returns (r: Option<seq<byte>>)
    requires IsPrimitives(p) && IsLogTables(exp, log) && |groups| > 0
    requires forall g <- groups :: GoodGroup(g, |first.value|)
    ensures r == Combined(p, passphrase, first, groups)
    ensures forall m :: r == Some(m) <==> Holds(p, passphrase, first, groups, m)
  {
    forall m
      ensures Combined(p, passphrase, first, groups) == Some(m) <==> Holds(p, passphrase, first, groups, m)
    {
      CombinedExact(p, passphrase, first, groups, m);
    }
    hide Holds;
    hide Yields;
    hide GoodGroup;
    hide IsLogTables;
    hide SecretOf;
    hide GroupSecret;
    var vlen := |first.value|;
    if |groups| != first.groupThreshold {
      return None;
    }
    var secrets: seq<RawShare> := [];
    for gi := 0 to |groups|
      invariant GroupSecrets(p.hmac, groups[..gi], vlen) == Some(secrets)
      invariant |secrets| == gi && forall k :: 0 <= k < gi ==> |secrets[k].data| == vlen
    {
      assert groups[gi] in groups;
      assert groups[..gi + 1][..gi] == groups[..gi];
      var one := RecoverGroup(p.hmac, exp, log, groups[gi], vlen);
      if one.None? {
        NoSecrets(p.hmac, groups, vlen, gi);
        return None;
      }
      GroupIndexSmall(groups[gi], vlen);
      secrets := secrets + [RawShare(groups[gi].index, one.value)];
    }
    assert groups[..|groups|] == groups;
    var encrypted := RecoverSecret(p.hmac, exp, log, first.groupThreshold, secrets, vlen);
    if encrypted.None? {
      return None;
    }
    RoundKeeps(p, passphrase, first);
    r := F.FeistelDecrypt(RoundOf(p, passphrase, first), encrypted.value);
  }

  lemma GroupIndexSmall(g: Group, vlen: nat)
    requires GoodGroup(g, vlen)
    ensures g.index < 16 && |g.shares| > 0
  {
  }

  method RecoverGroup(hmac: Mac, exp: seq<byte>, log: seq<byte>, g: Group, vlen: nat) returns (r: Option<seq<byte>>)
    requires IsMac(hmac) && IsLogTables(exp, log) && GoodGroup(g, vlen)
    ensures r == GroupSecret(hmac, g, vlen)
    ensures r.Some? ==> |r.value| == vlen
  {
    hide IsLogTables;
    hide SecretOf;
    var t := g.shares[0].memberThreshold;
    if |g.shares| < t {
      return None;
    }
    assert g.shares[0] in g.shares;
    var members := RawMembers(g.shares[..t]);
    assert members[0].data == g.shares[0].value;
    r := RecoverSecret(hmac, exp, log, t, members, vlen);
  }

  lemma {:induction false} NoSecrets(hmac: Mac, groups: seq<Group>, vlen: nat, k: nat)
    requires IsMac(hmac) && k < |groups| && forall g <- groups :: GoodGroup(g, vlen)
    requires GroupSecret(hmac, groups[k], vlen).None?
    ensures GroupSecrets(hmac, groups, vlen).None?
  {
    hide GroupSecret;
    hide GoodGroup;
    var n := |groups| - 1;
    if k < n {
      NoSecrets(hmac, groups[..n], vlen, k);
    }
  }
}
