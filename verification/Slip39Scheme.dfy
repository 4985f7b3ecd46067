/** Shares dealt from one master secret, and their recovery end to end. */
module Slip39Scheme {
  import opened Options
  import opened Bits
  import opened Rs1024
  import opened Poly
  import opened Slip39Gf
  import opened Slip39Share
  import opened Slip39Secret
  import opened Slip39Recover
  import F = Slip39Feistel

  /** A dealt secret: one sharing of the encrypted secret among groups, one of each group's secret among members. */
  datatype Scheme = Scheme(identifier: nat, extendable: bool, exponent: nat, groupThreshold: nat, groupCount: nat,
                           master: seq<byte>, groupPolys: seq<Poly>, thresholds: seq<nat>, memberPolys: seq<seq<Poly>>)

  function ShareOf(c: Scheme, g: nat, m: nat): (s: Share)
    requires g < |c.memberPolys| && g < |c.thresholds| && m < 16
  {
    Share(c.identifier, c.extendable, c.exponent, g, c.groupThreshold, c.groupCount, m, c.thresholds[g],
          ValuesAt(c.memberPolys[g], m))
  }

  /** The parameters share cards carry, as the round function sees them. */
  function Template(c: Scheme): Share
  {
    Share(c.identifier, c.extendable, c.exponent, 0, c.groupThreshold, c.groupCount, 0, 1, c.master)
  }

  ghost function Encrypted(p: Primitives, passphrase: seq<byte>, c: Scheme): (e: seq<byte>)
    requires IsPrimitives(p) && |c.master| % 2 == 0
    ensures |e| == |c.master|
  {
    RoundKeeps(p, passphrase, Template(c));
    F.Encrypt(RoundOf(p, passphrase, Template(c)), c.master)
  }

  ghost predicate ValidScheme(p: Primitives, passphrase: seq<byte>, c: Scheme)
    requires IsPrimitives(p)
  {
    && c.identifier < 0x8000 && c.exponent < 16 && 1 <= c.groupThreshold <= c.groupCount <= 16
    && 16 <= |c.master| <= MaxSecretBytes && |c.master| % 2 == 0
    && Shares(p.hmac, c.groupThreshold, Encrypted(p, passphrase, c), c.groupPolys)
    && |c.thresholds| == |c.memberPolys| == c.groupCount
    && forall g :: 0 <= g < c.groupCount ==>
      c.thresholds[g] <= 16 && Shares(p.hmac, c.thresholds[g], ValuesAt(c.groupPolys, g), c.memberPolys[g])
  }

  /** The scheme a two-level split deals: the encrypted secret among the groups, each group's secret among
      its members. */
  ghost function SplitScheme(p: Primitives, passphrase: seq<byte>, params: Share, thresholds: seq<nat>,
                             rnd: Randomness, rnds: seq<Randomness>): (c: Scheme)
    requires IsPrimitives(p) && SplitAllowed(params, thresholds, rnd, rnds)
  {
    var bare := Scheme(params.identifier, params.extendable, params.exponent, params.groupThreshold, |thresholds|,
                       params.value, [], thresholds, []);
    var groupPolys := LevelPolys(p.hmac, params.groupThreshold, Encrypted(p, passphrase, bare), rnd);
    LevelShares(p.hmac, params.groupThreshold, Encrypted(p, passphrase, bare), rnd);
    var memberPolys := seq(|thresholds|, g requires 0 <= g < |thresholds| =>
      LevelPolys(p.hmac, thresholds[g], ValuesAt(groupPolys, g), rnds[g]));
    bare.(groupPolys := groupPolys, memberPolys := memberPolys)
  }

  /** What the splitter demands: parameters that fit their fields, a secret of even length from 16 bytes,
      thresholds from 1 to 16, and random data of the right lengths. */
  predicate SplitAllowed(params: Share, thresholds: seq<nat>, rnd: Randomness, rnds: seq<Randomness>)
  {
    && params.identifier < 0x8000 && params.exponent < 16
    && params.groupThreshold <= |thresholds| == |rnds| <= 16
    && 16 <= |params.value| <= MaxSecretBytes && |params.value| % 2 == 0
    && Drawn(params.groupThreshold, |params.value|, rnd)
    && forall g :: 0 <= g < |rnds| ==> Drawn(thresholds[g], |params.value|, rnds[g])
  }

  /** Every two-level split, threshold 1 included, is a valid scheme of its master secret. */
  lemma SplitValid(p: Primitives, passphrase: seq<byte>, params: Share, thresholds: seq<nat>,
                   rnd: Randomness, rnds: seq<Randomness>)
    requires IsPrimitives(p) && SplitAllowed(params, thresholds, rnd, rnds)
    ensures var c := SplitScheme(p, passphrase, params, thresholds, rnd, rnds);
      ValidScheme(p, passphrase, c) && c.master == params.value && c.thresholds == thresholds
  {
    hide LevelPolys;
    hide ValuesAt;
    var c := SplitScheme(p, passphrase, params, thresholds, rnd, rnds);
    var e := Encrypted(p, passphrase, c);
    EncryptedSame(p, passphrase, c, c.(groupPolys := [], memberPolys := []));
    LevelShares(p.hmac, params.groupThreshold, e, rnd);
    forall g | 0 <= g < c.groupCount
      ensures Shares(p.hmac, c.thresholds[g], ValuesAt(c.groupPolys, g), c.memberPolys[g])
    {
      LevelShares(p.hmac, thresholds[g], ValuesAt(c.groupPolys, g), rnds[g]);
    }
  }

  /** Encryption looks at the parameters and the secret, not at the polynomials. */
  lemma EncryptedSame(p: Primitives, passphrase: seq<byte>, c: Scheme, d: Scheme)
    requires IsPrimitives(p) && |c.master| % 2 == 0
    requires d == c.(groupPolys := d.groupPolys, memberPolys := d.memberPolys)
    ensures Encrypted(p, passphrase, c) == Encrypted(p, passphrase, d)
  {
    assert Template(c) == Template(d);
  }

  /** One card of a hand: its group and its place in the group. */
  datatype Pick = Pick(group: nat, member: nat)

  predicate InScheme(c: Scheme, x: Pick)
  {
    x.group < |c.memberPolys| && x.group < |c.thresholds| && x.member < 16
  }

  predicate IsHand(c: Scheme, hand: seq<Pick>)
  {
    |hand| > 0 && forall x <- hand :: InScheme(c, x)
  }

  function Dealt(c: Scheme, hand: seq<Pick>): (shares: seq<Share>)
    requires IsHand(c, hand)
    ensures |shares| == |hand|
    ensures forall i :: 0 <= i < |hand| ==>
      InScheme(c, hand[i]) && shares[i] == ShareOf(c, hand[i].group, hand[i].member)
  {
    seq(|hand|, i requires 0 <= i < |hand| => assert hand[i] in hand; ShareOf(c, hand[i].group, hand[i].member))
  }

  function GroupsIn(hand: seq<Pick>): set<nat>
  {
    set x | x in hand :: x.group
  }

  function MembersIn(hand: seq<Pick>, g: nat): set<nat>
  {
    set x | x in hand && x.group == g :: x.member
  }

  /** Exactly the threshold of groups, and in each at least its threshold of different members. */
  predicate Enough(c: Scheme, hand: seq<Pick>)
    requires IsHand(c, hand)
  {
    && |GroupsIn(hand)| == c.groupThreshold
    && forall x <- hand :: assert InScheme(c, x); |MembersIn(hand, x.group)| >= c.thresholds[x.group]
  }

  lemma ShareOfValid(p: Primitives, passphrase: seq<byte>, c: Scheme, x: Pick)
    requires IsPrimitives(p) && ValidScheme(p, passphrase, c) && InScheme(c, x)
    ensures ValidShare(ShareOf(c, x.group, x.member))
    ensures |ShareOf(c, x.group, x.member).value| == |c.master|
  {
    hide Eval;
    assert Shares(p.hmac, c.thresholds[x.group], ValuesAt(c.groupPolys, x.group), c.memberPolys[x.group]);
  }

  /** Cards of one scheme never conflict. */
  lemma DealtConsistent(p: Primitives, passphrase: seq<byte>, c: Scheme, hand: seq<Pick>)
    requires IsPrimitives(p) && ValidScheme(p, passphrase, c) && IsHand(c, hand)
    ensures AllValid(Dealt(c, hand)) && Consistent(Dealt(c, hand))
    ensures forall s <- Dealt(c, hand) :: |s.value| == |c.master|
  {
    hide ValidShare;
    hide ValidScheme;
    hide ValuesAt;
    forall i | 0 <= i < |hand|
      ensures ValidShare(Dealt(c, hand)[i]) && |Dealt(c, hand)[i].value| == |c.master|
    {
      ShareOfValid(p, passphrase, c, hand[i]);
    }
  }

  function ToSet(xs: seq<nat>): set<nat>
  {
    set x | x in xs
  }

  lemma {:induction false} DistinctCount(xs: seq<nat>)
    requires forall i, j :: 0 <= i < j < |xs| ==> xs[i] != xs[j]
    ensures |ToSet(xs)| == |xs|
  {
    if |xs| > 0 {
      DistinctCount(xs[1..]);
      assert ToSet(xs) == {xs[0]} + ToSet(xs[1..]);
    }
  }

  /** The groups found are those of the hand. */
  lemma GroupsFound(c: Scheme, hand: seq<Pick>, groups: seq<Group>)
    requires IsHand(c, hand) && Grouping(Dealt(c, hand), groups)
    ensures |groups| == |GroupsIn(hand)|
  {
    hide IsHand;
    var shares := Dealt(c, hand);
    forall n | n in ToSet(Indices(groups))
      ensures n in GroupsIn(hand)
    {
      var k :| 0 <= k < |groups| && groups[k].index == n;
      assert groups[k] in groups && IsGroup(shares, groups[k]);
      assert groups[k].shares[0] in groups[k].shares;
      var i :| 0 <= i < |shares| && shares[i] == groups[k].shares[0];
      assert hand[i] in hand;
    }
    forall n | n in GroupsIn(hand)
      ensures n in ToSet(Indices(groups))
    {
      var i :| 0 <= i < |hand| && hand[i].group == n;
      assert shares[i] in shares;
      var g :| g in groups && shares[i] in g.shares;
      var k :| 0 <= k < |groups| && groups[k] == g;
      assert IsGroup(shares, g);
      assert Indices(groups)[k] == n;
    }
    assert ToSet(Indices(groups)) == GroupsIn(hand);
    DistinctCount(Indices(groups));
  }

  /** The members found in a group are those of the hand. */
  lemma MembersFound(c: Scheme, hand: seq<Pick>, groups: seq<Group>, k: nat)
    requires IsHand(c, hand) && Grouping(Dealt(c, hand), groups) && k < |groups|
    ensures |groups[k].shares| == |MembersIn(hand, groups[k].index)|
    ensures exists x <- hand :: x.group == groups[k].index
  {
    hide IsHand;
    hide ValuesAt;
    var shares := Dealt(c, hand);
    var ms := groups[k].shares;
    var g := groups[k].index;
    assert groups[k] in groups && IsGroup(shares, groups[k]);
    hide IsGroup;
    hide Grouping;
    forall j | 0 <= j < |ms|
      ensures exists x <- hand :: x.group == g && x.member == ms[j].memberIndex
    {
      assert ms[j] in ms;
      var i :| 0 <= i < |shares| && shares[i] == ms[j];
      assert hand[i] in hand;
    }
    forall n | n in MembersIn(hand, g)
      ensures n in ToSet(MemberIndices(ms))
    {
      var i :| 0 <= i < |hand| && hand[i].group == g && hand[i].member == n;
      OwnGroup(shares, groups, i, k);
      var j :| 0 <= j < |ms| && ms[j] == shares[i];
      assert MemberIndices(ms)[j] == n;
    }
    assert ToSet(MemberIndices(ms)) == MembersIn(hand, g);
    DistinctCount(MemberIndices(ms));
    assert exists x <- hand :: x.group == g && x.member == ms[0].memberIndex;
  }

  /** A group gives the group's secret exactly when it has its threshold of members. */
  ghost predicate GroupResult(p: Primitives, c: Scheme, g: Group)
    requires IsPrimitives(p) && GoodGroup(g, |c.master|) && g.index < |c.thresholds|
  {
    GroupSecret(p.hmac, g, |c.master|)
    == if |g.shares| < c.thresholds[g.index] then None else Some(ValuesAt(c.groupPolys, g.index))
  }

  lemma GroupRecovers(p: Primitives, passphrase: seq<byte>, c: Scheme, hand: seq<Pick>, groups: seq<Group>, k: nat)
    requires IsPrimitives(p) && ValidScheme(p, passphrase, c) && IsHand(c, hand) && k < |groups|
    requires Grouping(Dealt(c, hand), groups) && GoodGroup(groups[k], |c.master|)
    ensures groups[k].index < c.groupCount && GroupResult(p, c, groups[k])
  {
    hide ValuesAt;
    hide SecretOf;
    hide IsHand;
    var g, ms := groups[k].index, groups[k].shares;
    assert groups[k] in groups && IsGroup(Dealt(c, hand), groups[k]);
    forall j | 0 <= j < |ms|
      ensures g < c.groupCount && ms[j] == ShareOf(c, g, ms[j].memberIndex)
    {
      assert ms[j] in ms;
      var i :| 0 <= i < |hand| && Dealt(c, hand)[i] == ms[j];
    }
    assert ms[0] == ShareOf(c, g, ms[0].memberIndex);
    var t := c.thresholds[g];
    assert Shares(p.hmac, t, ValuesAt(c.groupPolys, g), c.memberPolys[g]);
    if t <= |ms| {
      var raw := RawMembers(ms[..t]);
      RawDistinct(ms[..t]);
      forall i | 0 <= i < t
        ensures raw[i].data == ValuesAt(c.memberPolys[g], raw[i].x)
      {
        assert ms[i] == ShareOf(c, g, ms[i].memberIndex);
      }
      AnyThresholdShares(p.hmac, t, ValuesAt(c.groupPolys, g), c.memberPolys[g], raw);
    }
  }

  lemma RawDistinct(ms: seq<Share>)
    requires forall s <- ms :: ValidShare(s)
    requires forall i, j :: 0 <= i < j < |ms| ==> ms[i].memberIndex != ms[j].memberIndex
    ensures Distinct(Points(RawMembers(ms)))
  {
  }

  ghost predicate AllEnough(c: Scheme, groups: seq<Group>)
    requires |c.thresholds| == c.groupCount && forall g <- groups :: g.index < c.groupCount
  {
    forall k :: 0 <= k < |groups| ==> |groups[k].shares| >= c.thresholds[groups[k].index]
  }

  function GroupShares(c: Scheme, groups: seq<Group>): (r: seq<RawShare>)
    requires forall g <- groups :: g.index < 16
    ensures |r| == |groups|
    ensures forall k :: 0 <= k < |r| ==>
      r[k].x == groups[k].index && r[k].data == ValuesAt(c.groupPolys, groups[k].index)
  {
    seq(|groups|, k requires 0 <= k < |groups| => assert groups[k] in groups;
      RawShare(groups[k].index, ValuesAt(c.groupPolys, groups[k].index)))
  }

  lemma {:induction false} SecretsRecovered(p: Primitives, c: Scheme, groups: seq<Group>)
    requires IsPrimitives(p) && |c.thresholds| == c.groupCount <= 16
    requires forall g <- groups :: GoodGroup(g, |c.master|) && g.index < c.groupCount
    requires forall k :: 0 <= k < |groups| ==> GroupResult(p, c, groups[k])
    ensures GroupSecrets(p.hmac, groups, |c.master|)
      == if AllEnough(c, groups) then Some(GroupShares(c, groups)) else None
  {
    hide GoodGroup;
    hide GroupSecret;
    hide ValuesAt;
    hide GroupShares;
    if |groups| > 0 {
      var n := |groups| - 1;
      forall k | 0 <= k < n
        ensures groups[..n][k] in groups && GroupResult(p, c, groups[..n][k])
      {
        assert GroupResult(p, c, groups[k]);
      }
      SecretsRecovered(p, c, groups[..n]);
      assert groups[n] in groups && GroupResult(p, c, groups[n]);
      EnoughSplit(c, groups);
      SharesSplit(c, groups);
    } else {
      assert GroupShares(c, groups) == [];
    }
  }

  lemma EnoughSplit(c: Scheme, groups: seq<Group>)
    requires |groups| > 0 && |c.thresholds| == c.groupCount && forall g <- groups :: g.index < c.groupCount
    ensures var n := |groups| - 1;
      AllEnough(c, groups) <==> AllEnough(c, groups[..n]) && |groups[n].shares| >= c.thresholds[groups[n].index]
  {
    var n := |groups| - 1;
    if AllEnough(c, groups[..n]) && |groups[n].shares| >= c.thresholds[groups[n].index] {
      forall k | 0 <= k < |groups|
        ensures |groups[k].shares| >= c.thresholds[groups[k].index]
      {
        assert k < n ==> groups[..n][k] == groups[k];
      }
    }
  }

  lemma SharesSplit(c: Scheme, groups: seq<Group>)
    requires |groups| > 0 && forall g <- groups :: g.index < 16
    ensures groups[|groups| - 1] in groups
    ensures var n := |groups| - 1;
      GroupShares(c, groups)
      == GroupShares(c, groups[..n]) + [RawShare(groups[n].index, ValuesAt(c.groupPolys, groups[n].index))]
  {
    hide ValuesAt;
  }

  /** Whatever groups the cards of one scheme are sorted into, they decrypt to its master secret
      exactly when the hand is enough. */
  lemma HandRecovers(p: Primitives, passphrase: seq<byte>, c: Scheme, hand: seq<Pick>, groups: seq<Group>)
    requires IsPrimitives(p) && ValidScheme(p, passphrase, c) && IsHand(c, hand)
    requires Grouping(Dealt(c, hand), groups)
    ensures forall g <- groups :: GoodGroup(g, |Dealt(c, hand)[0].value|)
    ensures Combined(p, passphrase, Dealt(c, hand)[0], groups)
      == if Enough(c, hand) then Some(c.master) else None
  {
    hide ValuesAt;
    hide SecretOf;
    hide GoodGroup;
    hide GroupSecret;
    hide AllValid;
    hide Consistent;
    var shares := Dealt(c, hand);
    DealtConsistent(p, passphrase, c, hand);
    GroupsGood(shares, groups);
    assert |shares[0].value| == |c.master|;
    forall k | 0 <= k < |groups|
      ensures groups[k].index < c.groupCount
      ensures GroupResult(p, c, groups[k])
    {
      assert groups[k] in groups;
      GroupRecovers(p, passphrase, c, hand, groups, k);
    }
    SecretsRecovered(p, c, groups);
    GroupsFound(c, hand, groups);
    EnoughFound(c, hand, groups);
    if Enough(c, hand) {
      SecretRecovered(p, passphrase, c, hand, groups);
    }
  }

  lemma EnoughFound(c: Scheme, hand: seq<Pick>, groups: seq<Group>)
    requires IsHand(c, hand) && Grouping(Dealt(c, hand), groups)
    requires |c.thresholds| == c.groupCount && forall g <- groups :: g.index < c.groupCount
    ensures Enough(c, hand) <==> |groups| == c.groupThreshold && AllEnough(c, groups)
  {
    GroupsFound(c, hand, groups);
    forall k | 0 <= k < |groups|
      ensures |groups[k].shares| == |MembersIn(hand, groups[k].index)|
      ensures exists x <- hand :: x.group == groups[k].index
    {
      MembersFound(c, hand, groups, k);
    }
    forall x | x in hand
      ensures exists k :: 0 <= k < |groups| && groups[k].index == x.group
    {
      var i :| 0 <= i < |hand| && hand[i] == x;
      assert Dealt(c, hand)[i] in Dealt(c, hand);
      var g :| g in groups && Dealt(c, hand)[i] in g.shares;
      var k :| 0 <= k < |groups| && groups[k] == g;
      assert IsGroup(Dealt(c, hand), g);
    }
  }

  lemma GroupsDistinct(c: Scheme, groups: seq<Group>)
    requires forall g <- groups :: g.index < 16
    requires forall i, j :: 0 <= i < j < |groups| ==> groups[i].index != groups[j].index
    ensures Distinct(Points(GroupShares(c, groups)))
  {
    hide ValuesAt;
  }

  lemma SecretRecovered(p: Primitives, passphrase: seq<byte>, c: Scheme, hand: seq<Pick>, groups: seq<Group>)
    requires IsPrimitives(p) && ValidScheme(p, passphrase, c) && IsHand(c, hand)
    requires |groups| == c.groupThreshold && forall g <- groups :: GoodGroup(g, |c.master|) && g.index < 16
    requires forall i, j :: 0 <= i < j < |groups| ==> groups[i].index != groups[j].index
    requires |Dealt(c, hand)[0].value| == |c.master|
    requires GroupSecrets(p.hmac, groups, |c.master|) == Some(GroupShares(c, groups))
    ensures Combined(p, passphrase, Dealt(c, hand)[0], groups) == Some(c.master)
  {
    hide ValuesAt;
    hide SecretOf;
    hide GroupSecret;
    hide GroupSecrets;
    hide IsGroup;
    hide Grouping;
    hide GoodGroup;
    hide ValidShare;
    hide F.Decrypt;
    hide F.Encrypt;
    hide F.ShareRound;
    var raw := GroupShares(c, groups);
    var encrypted := Encrypted(p, passphrase, c);
    GroupsDistinct(c, groups);
    AnyThresholdShares(p.hmac, c.groupThreshold, encrypted, c.groupPolys, raw);
    assert RoundOf(p, passphrase, Template(c)) == RoundOf(p, passphrase, Dealt(c, hand)[0]);
    RoundKeeps(p, passphrase, Template(c));
    F.DecryptInverts(RoundOf(p, passphrase, Template(c)), c.master);
  }

  // ----- from mnemonics to the master secret

  /** The mnemonics read as these shares. */
  ghost predicate Reads(cards: seq<seq<word>>, shares: seq<Share>)
  {
    |shares| == |cards| && forall i :: 0 <= i < |cards| ==> Card(cards[i], shares[i])
  }

  /** The mnemonics are the cards of a hand dealt from a scheme. */
  ghost predicate DealtCards(p: Primitives, passphrase: seq<byte>, c: Scheme, hand: seq<Pick>, cards: seq<seq<word>>)
    requires IsPrimitives(p)
  {
    ValidScheme(p, passphrase, c) && IsHand(c, hand) && Reads(cards, Dealt(c, hand))
  }

  lemma ReadsUnique(cards: seq<seq<word>>, s: seq<Share>, t: seq<Share>)
    requires Reads(cards, s) && Reads(cards, t)
    ensures s == t
  {
    hide Card;
    forall i | 0 <= i < |cards|
      ensures s[i] == t[i]
    {
      CardUnique(cards[i], s[i], t[i]);
    }
  }

  lemma ReadsPrefix(cards: seq<seq<word>>, s: seq<Share>, n: nat)
    requires Reads(cards, s) && n <= |cards|
    ensures Reads(cards[..n], s[..n])
    ensures n < |cards| ==> Card(cards[n], s[n])
  {
    hide Card;
  }

  lemma PrefixConsistent(shares: seq<Share>, n: nat)
    requires Consistent(shares) && n <= |shares|
    ensures Consistent(shares[..n])
  {
    hide Agree;
    forall i, j | 0 <= i < j < n
      ensures Agree(shares[..n][i], shares[..n][j])
    {
      assert Agree(shares[i], shares[j]);
    }
  }

  /** A mnemonic without a share, or shares in conflict, leave nothing to recover. */
  lemma PrefixRefused(cards: seq<seq<word>>, n: nat, shares: seq<Share>)
    requires n < |cards| && Reads(cards[..n], shares)
    requires forall s :: Card(cards[n], s) ==> !Consistent(shares + [s])
    ensures forall ss: seq<Share> :: Reads(cards, ss) ==> !Consistent(ss)
  {
    hide Card;
    hide Consistent;
    forall ss | Reads(cards, ss)
      ensures !Consistent(ss)
    {
      ReadsPrefix(cards, ss, n);
      ReadsUnique(cards[..n], ss[..n], shares);
      assert ss[..n + 1] == shares + [ss[n]];
      if Consistent(ss) {
        PrefixConsistent(ss, n + 1);
        assert false;
      }
    }
  }

  lemma AppendRead(cards: seq<seq<word>>, n: nat, shares: seq<Share>, s: Share)
    requires n < |cards| && Reads(cards[..n], shares) && Card(cards[n], s) && AllValid(shares)
    ensures Reads(cards[..n + 1], shares + [s]) && AllValid(shares + [s])
  {
    hide Card;
    hide ValidShare;
    CardValid(cards[n], s);
    forall i | 0 <= i < n + 1
      ensures Card(cards[..n + 1][i], (shares + [s])[i])
    {
      assert i < n ==> Card(cards[..n][i], shares[i]);
    }
  }

  /** Recovers the master secret: reads every mnemonic, groups the shares, combines the groups. Whatever the
      cards, the result is the secret their groups hold, if they hold one. For the cards of one dealt secret
      the result is that secret exactly when the hand is enough. */
  method Recover(p: Primitives, cards: seq<seq<word>>, passphrase: seq<byte>)
    returns (r: Option<seq<byte>>, ghost groups: seq<Group>)
    requires IsPrimitives(p)
    ensures forall ss: seq<Share> :: Reads(cards, ss) && |cards| > 0 && Consistent(ss) ==>
      && Grouping(ss, groups) && (forall g <- groups :: GoodGroup(g, |ss[0].value|))
      && r == Combined(p, passphrase, ss[0], groups)
      && forall m :: r == Some(m) <==> Holds(p, passphrase, ss[0], groups, m)
    ensures r.Some? ==> |cards| > 0 && exists ss: seq<Share> :: Reads(cards, ss) && Consistent(ss)
    ensures forall c, hand :: DealtCards(p, passphrase, c, hand, cards) ==>
      r == if Enough(c, hand) then Some(c.master) else None
  {
    hide Card;
    hide Consistent;
    hide Grouping;
    hide GoodGroup;
    hide Combined;
    hide Holds;
    hide ValidScheme;
    r, groups := RecoverShares(p, cards, passphrase);
    forall c, hand | DealtCards(p, passphrase, c, hand, cards)
      ensures r == if Enough(c, hand) then Some(c.master) else None
    {
      DealtConsistent(p, passphrase, c, hand);
      HandRecovers(p, passphrase, c, hand, groups);
    }
  }

  method RecoverShares(p: Primitives, cards: seq<seq<word>>, passphrase: seq<byte>)
    returns (r: Option<seq<byte>>, ghost found: seq<Group>)
    requires IsPrimitives(p)
    ensures forall ss: seq<Share> :: Reads(cards, ss) && |cards| > 0 && Consistent(ss) ==>
      && Grouping(ss, found) && (forall g <- found :: GoodGroup(g, |ss[0].value|))
      && r == Combined(p, passphrase, ss[0], found)
      && forall m :: r == Some(m) <==> Holds(p, passphrase, ss[0], found, m)
    ensures r.Some? ==> |cards| > 0 && exists ss: seq<Share> :: Reads(cards, ss) && Consistent(ss)
  {
    hide Card;
    hide Consistent;
    hide Grouping;
    hide GoodGroup;
    hide Combined;
    hide Holds;
    hide AllValid;
    hide IsLogTables;
    var exp, log := ShareGfInit();
    found := [];
    if |cards| == 0 {
      return None, [];
    }
    var read := ParseShare(cards[0]);
    if read.None? {
      PrefixRefused(cards, 0, []);
      return None, [];
    }
    var first := read.value;
    var groups := [Group(first.groupIndex, [first])];
    ghost var shares := [first];
    FirstShare(cards, first);
    for i := 1 to |cards|
      invariant Reads(cards[..i], shares) && |shares| > 0 && shares[0] == first
      invariant AllValid(shares) && Consistent(shares) && Grouping(shares, groups)
    {
      read := ParseShare(cards[i]);
      if read.None? {
        PrefixRefused(cards, i, shares);
        return None, [];
      }
      CardValid(cards[i], read.value);
      var filed := AddShare(shares, groups, first, read.value);
      if filed.None? {
        OnlyCard(cards[i], read.value);
        PrefixRefused(cards, i, shares);
        return None, [];
      }
      AppendRead(cards, i, shares, read.value);
      groups := filed.value;
      shares := shares + [read.value];
    }
    assert cards[..|cards|] == cards;
    GroupsGood(shares, groups);
    GroupsNonempty(shares, groups);
    r := CombineGroups(p, exp, log, passphrase, first, groups);
    found := groups;
    forall ss | Reads(cards, ss)
      ensures ss == shares
    {
      ReadsUnique(cards, ss, shares);
    }
  }

  lemma FirstShare(cards: seq<seq<word>>, first: Share)
    requires |cards| > 0 && Card(cards[0], first)
    ensures Reads(cards[..1], [first]) && AllValid([first]) && Consistent([first])
    ensures Grouping([first], [Group(first.groupIndex, [first])])
  {
    hide Words;
    var g := Group(first.groupIndex, [first]);
    assert [g][0] in [g];
  }

  lemma CardValid(ws: seq<word>, s: Share)
    requires Card(ws, s)
    ensures ValidShare(s)
  {
  }

  lemma OnlyCard(ws: seq<word>, s: Share)
    requires Card(ws, s)
    ensures forall t :: Card(ws, t) ==> t == s
  {
    hide Card;
    forall t | Card(ws, t)
      ensures t == s
    {
      CardUnique(ws, s, t);
    }
  }

  lemma GroupsNonempty(shares: seq<Share>, groups: seq<Group>)
    requires Grouping(shares, groups) && |shares| > 0
    ensures |groups| > 0
  {
    assert shares[0] in shares;
  }
}
