/** What the hashed byte strings of the profile determine: seeds, member handles, ring digests and
    challenges each fix every value they are computed from, and never share a byte string. */
module Binding {
  import opened Bytes
  import opened Cursors
  import opened Field
  import opened Suites
  import opened Accumulator
  import opened Circuit
  import opened Tracing

  lemma SplitEqual(a: seq<byte>, x: seq<byte>, b: seq<byte>, y: seq<byte>)
    requires |a| == |b|
    ensures a + x == b + y <==> a == b && x == y
  {
    Peel(a, x);
    Peel(b, y);
  }

  lemma WordsEqual(m: word, n: word)
    ensures Encode(m, 32) == Encode(n, 32) <==> m == n
  {
    Widths();
    hide Encode, Value, Pow256;
    if Encode(m, 32) == Encode(n, 32) { EncodeInjective(m, n, 32); }
  }

  lemma CoordinatesEqual(p: (word, word), q: (word, word))
    ensures Encode(p.0, 32) + Encode(p.1, 32) == Encode(q.0, 32) + Encode(q.1, 32) <==> p == q
  {
    WordsEqual(p.0, q.0);
    WordsEqual(p.1, q.1);
    hide Encode;
    SplitEqual(Encode(p.0, 32), Encode(p.1, 32), Encode(q.0, 32), Encode(q.1, 32));
  }

  lemma SecpPointsEqual(s: Suite, p: int, q: int)
    ensures |s.SecpBytes(p)| == |s.SecpBytes(q)| == 64
    ensures s.SecpBytes(p) == s.SecpBytes(q) <==> s.secpXY(p) == s.secpXY(q)
  {
    CoordinatesEqual(s.secpXY(p), s.secpXY(q));
    hide Encode;
  }

  /** The seed preimage determines the secret, the issue and the branch. */
  lemma SeedBinds(x: word, issue: Digest, branch: byte, x': word, issue': Digest, branch': byte)
    ensures SeedPreimage(x, issue, branch) == SeedPreimage(x', issue', branch')
            <==> x == x' && issue == issue' && branch == branch'
  {
    WordsEqual(x, x');
    hide Encode;
    SplitEqual(Encode(x, 32) + issue, [branch], Encode(x', 32) + issue', [branch']);
    SplitEqual(Encode(x, 32), issue, Encode(x', 32), issue');
  }

  /** The member preimage determines both points of the account. */
  lemma MemberBinds(s: Suite, a: Account, b: Account)
    ensures s.MemberPreimage(a) == s.MemberPreimage(b)
            <==> s.secpXY(a.u) == s.secpXY(b.u) && s.secpXY(a.y) == s.secpXY(b.y)
  {
    var tag := Ascii("lktrs/member/v1");
    SecpPointsEqual(s, a.u, b.u);
    SecpPointsEqual(s, a.y, b.y);
    hide Suite.SecpBytes, Ascii;
    var u, y, u', y' := s.SecpBytes(a.u), s.SecpBytes(a.y), s.SecpBytes(b.u), s.SecpBytes(b.y);
    SplitEqual(tag + u, y, tag + u', y');
    SplitEqual(tag, u, tag, u');
  }

  /** The same ordered list of points. */
  ghost predicate SamePoints(s: Suite, a: seq<Account>, b: seq<Account>) {
    && |a| == |b|
    && forall i | 0 <= i < |a| :: s.secpXY(a[i].u) == s.secpXY(b[i].u) && s.secpXY(a[i].y) == s.secpXY(b[i].y)
  }

  lemma {:induction false} PointsBind(s: Suite, a: seq<Account>, b: seq<Account>)
    ensures PointBytes(s, a) == PointBytes(s, b) <==> SamePoints(s, a, b)
    decreases |a|
  {
    PointsLength(s, a);
    PointsLength(s, b);
    hide Encode, PointBytes;
    if |a| == |b| {
      if a == [] {
        assert b == [];
      } else {
        hide SamePoints;
        var n := |a| - 1;
        PointsBind(s, a[..n], b[..n]);
        LastPoint(s, a, b);
        LastBytes(s, a, b);
      }
    } else {
      assert |PointBytes(s, a)| != |PointBytes(s, b)|;
    }
  }

  /** The last account of two lists of one length. */
  lemma LastBytes(s: Suite, a: seq<Account>, b: seq<Account>)
    requires |a| == |b| > 0
    ensures var n := |a| - 1;
            PointBytes(s, a) == PointBytes(s, b) <==>
              && PointBytes(s, a[..n]) == PointBytes(s, b[..n])
              && s.secpXY(a[n].u) == s.secpXY(b[n].u) && s.secpXY(a[n].y) == s.secpXY(b[n].y)
  {
    var n := |a| - 1;
    PointsLength(s, a[..n]);
    PointsLength(s, b[..n]);
    SecpPointsEqual(s, a[n].u, b[n].u);
    SecpPointsEqual(s, a[n].y, b[n].y);
    hide Suite.SecpBytes;
    var p, q := PointBytes(s, a[..n]), PointBytes(s, b[..n]);
    SplitEqual(p + s.SecpBytes(a[n].u), s.SecpBytes(a[n].y), q + s.SecpBytes(b[n].u), s.SecpBytes(b[n].y));
    SplitEqual(p, s.SecpBytes(a[n].u), q, s.SecpBytes(b[n].u));
  }

  lemma LastPoint(s: Suite, a: seq<Account>, b: seq<Account>)
    requires |a| == |b| > 0
    ensures var n := |a| - 1;
            SamePoints(s, a, b) <==>
              && SamePoints(s, a[..n], b[..n])
              && s.secpXY(a[n].u) == s.secpXY(b[n].u) && s.secpXY(a[n].y) == s.secpXY(b[n].y)
  {
    var n := |a| - 1;
    if SamePoints(s, a[..n], b[..n]) {
      forall i | 0 <= i < n
        ensures s.secpXY(a[i].u) == s.secpXY(b[i].u) && s.secpXY(a[i].y) == s.secpXY(b[i].y)
      {
        assert a[..n][i] == a[i] && b[..n][i] == b[i];
      }
    }
  }

  lemma {:induction false} PointsLength(s: Suite, a: seq<Account>)
    ensures |PointBytes(s, a)| == 128 * |a|
  {
    hide Encode;
    if a != [] { PointsLength(s, a[..|a| - 1]); }
  }

  /** The ring preimage determines the ordered ring. */
  lemma RingBinds(s: Suite, a: seq<Account>, b: seq<Account>)
    requires |a| < TWO32 && |b| < TWO32
    ensures RingPreimage(s, a) == RingPreimage(s, b) <==> SamePoints(s, a, b)
  {
    Widths();
    PointsBind(s, a, b);
    var tag := Ascii("lktrs/ring/v1");
    hide Encode, Ascii, PointBytes, Pow256;
    SplitEqual(tag + Encode(|a|, 4), PointBytes(s, a), tag + Encode(|b|, 4), PointBytes(s, b));
    SplitEqual(tag, Encode(|a|, 4), tag, Encode(|b|, 4));
    if Encode(|a|, 4) == Encode(|b|, 4) { EncodeInjective(|a|, |b|, 4); }
  }

  /** In the ring preimage the i-th account's U and Y are at fixed places behind the count. */
  lemma RingLayout(s: Suite, a: seq<Account>, i: nat)
    requires i < |a|
    ensures |RingPreimage(s, a)| == 17 + 128 * |a| && RingPreimage(s, a)[13..17] == Encode(|a|, 4)
    ensures RingPreimage(s, a)[17 + 128 * i..17 + 128 * i + 64] == s.SecpBytes(a[i].u)
    ensures RingPreimage(s, a)[17 + 128 * i + 64..17 + 128 * i + 128] == s.SecpBytes(a[i].y)
  {
    PointAt(s, a, i);
    var tag, n, points := Ascii("lktrs/ring/v1"), Encode(|a|, 4), PointBytes(s, a);
    assert |tag| == 13;
    hide *;
    assert RingPreimage(s, a) == tag + n + points by { PreimageIs(s, a); }
    Behind(tag, n, points, 128 * i);
    Behind(tag, n, points, 128 * i + 64);
  }

  lemma PreimageIs(s: Suite, a: seq<Account>)
    ensures RingPreimage(s, a) == Ascii("lktrs/ring/v1") + Encode(|a|, 4) + PointBytes(s, a)
  {
  }

  lemma Behind(a: seq<byte>, b: seq<byte>, c: seq<byte>, i: nat)
    requires i + 64 <= |c|
    ensures (a + b + c)[|a|..|a| + |b|] == b
    ensures (a + b + c)[|a| + |b| + i..|a| + |b| + i + 64] == c[i..i + 64]
  {
  }

  lemma {:induction false} PointAt(s: Suite, a: seq<Account>, i: nat)
    requires i < |a|
    ensures |PointBytes(s, a)| == 128 * |a|
    ensures PointBytes(s, a)[128 * i..128 * i + 64] == s.SecpBytes(a[i].u)
    ensures PointBytes(s, a)[128 * i + 64..128 * i + 128] == s.SecpBytes(a[i].y)
    decreases |a|
  {
    hide *;
    var n := |a| - 1;
    PointsSnoc(s, a);
    var p, u, y := PointBytes(s, a[..n]), s.SecpBytes(a[n].u), s.SecpBytes(a[n].y);
    if i < n {
      PointAt(s, a[..n], i);
      Regroup(p, u, y);
      Early(p, u + y, 128 * i);
      Early(p, u + y, 128 * i + 64);
    } else {
      LastTwo(p, u, y);
    }
  }

  lemma PointsSnoc(s: Suite, a: seq<Account>)
    requires a != []
    ensures var n := |a| - 1;
            && PointBytes(s, a) == PointBytes(s, a[..n]) + s.SecpBytes(a[n].u) + s.SecpBytes(a[n].y)
            && |PointBytes(s, a)| == 128 * |a| && |PointBytes(s, a[..n])| == 128 * n
            && |s.SecpBytes(a[n].u)| == |s.SecpBytes(a[n].y)| == 64
  {
    PointsLength(s, a);
    PointsLength(s, a[..|a| - 1]);
    hide Encode;
  }

  lemma Early(a: seq<byte>, b: seq<byte>, i: nat)
    requires i + 64 <= |a|
    ensures (a + b)[i..i + 64] == a[i..i + 64]
  {
  }

  lemma LastTwo(p: seq<byte>, u: seq<byte>, y: seq<byte>)
    requires |u| == |y| == 64
    ensures (p + u + y)[|p|..|p| + 64] == u && (p + u + y)[|p| + 64..|p| + 128] == y
  {
  }

  /** The challenge preimage determines issue, ring digest, message digest, pseudonym, timestamp and quota. */
  lemma ChallengeBinds(s: Suite, a: Statement, b: Statement)
    requires a.timestamp < TWO64 && b.timestamp < TWO64 && a.k < TWO32 && b.k < TWO32
    ensures ChallengePreimage(s, a) == ChallengePreimage(s, b) <==>
            && a.issue == b.issue && a.ringDigest == b.ringDigest && a.messageDigest == b.messageDigest
            && s.bnXY(a.nym) == s.bnXY(b.nym) && a.timestamp == b.timestamp && a.k == b.k
  {
    Widths();
    CoordinatesEqual(s.bnXY(a.nym), s.bnXY(b.nym));
    var tag := Ascii("lktrs/challenge/v1");
    hide Encode, Ascii, Pow256;
    NumbersEqual(a.timestamp, b.timestamp, 8);
    NumbersEqual(a.k, b.k, 4);
    SixParts(tag, a.issue, a.ringDigest, a.messageDigest, s.BnBytes(a.nym), Encode(a.timestamp, 8), Encode(a.k, 4),
             b.issue, b.ringDigest, b.messageDigest, s.BnBytes(b.nym), Encode(b.timestamp, 8), Encode(b.k, 4));
  }

  lemma NumbersEqual(m: nat, n: nat, width: nat)
    requires m < Pow256(width) && n < Pow256(width)
    ensures Encode(m, width) == Encode(n, width) <==> m == n
  {
    hide Encode, Pow256;
    if Encode(m, width) == Encode(n, width) { EncodeInjective(m, n, width); }
  }

  lemma SixParts(tag: seq<byte>, a: seq<byte>, b: seq<byte>, c: seq<byte>, d: seq<byte>, e: seq<byte>, f: seq<byte>,
                 a': seq<byte>, b': seq<byte>, c': seq<byte>, d': seq<byte>, e': seq<byte>, f': seq<byte>)
    requires |a| == |a'| && |b| == |b'| && |c| == |c'| && |d| == |d'| && |e| == |e'| && |f| == |f'|
    ensures tag + a + b + c + d + e + f == tag + a' + b' + c' + d' + e' + f' <==>
            a == a' && b == b' && c == c' && d == d' && e == e' && f == f'
  {
    SplitEqual(tag + a + b + c + d + e, f, tag + a' + b' + c' + d' + e', f');
    SplitEqual(tag + a + b + c + d, e, tag + a' + b' + c' + d', e');
    SplitEqual(tag + a + b + c, d, tag + a' + b' + c', d');
    SplitEqual(tag + a + b, c, tag + a' + b', c');
    SplitEqual(tag + a, b, tag + a', b');
    SplitEqual(tag, a, tag, a');
  }

  /** No seed, member, ring and challenge preimage is another one: already their lengths differ. */
  lemma DomainsSeparate(s: Suite, x: word, issue: Digest, branch: byte, a: Account, ring: seq<Account>, st: Statement)
    ensures SeedPreimage(x, issue, branch) != s.MemberPreimage(a)
    ensures SeedPreimage(x, issue, branch) != RingPreimage(s, ring)
    ensures SeedPreimage(x, issue, branch) != ChallengePreimage(s, st)
    ensures s.MemberPreimage(a) != RingPreimage(s, ring)
    ensures s.MemberPreimage(a) != ChallengePreimage(s, st)
    ensures RingPreimage(s, ring) != ChallengePreimage(s, st)
  {
    PointsLength(s, ring);
    hide Encode, PointBytes;
    assert |Ascii("lktrs/member/v1")| == 15 && |Ascii("lktrs/ring/v1")| == 13 && |Ascii("lktrs/challenge/v1")| == 18;
    hide Ascii;
    assert |SeedPreimage(x, issue, branch)| == 65;
    assert |s.MemberPreimage(a)| == 143;
    assert |RingPreimage(s, ring)| == 17 + 128 * |ring|;
    assert |ChallengePreimage(s, st)| == 190;
  }

  /** Rings with the same points have the same handles, so under any parameters the same accumulator. */
  lemma SameAccumulator(s: Suite, p: Params, a: seq<Account>, b: seq<Account>)
    requires s.Valid() && RingOk(s, a) && RingOk(s, b) && SamePoints(s, a, b)
    ensures AccumulatorOf(s, p, a) == AccumulatorOf(s, p, b)
  {
    forall i | 0 <= i < |a| ensures s.Handle(a[i]) == s.Handle(b[i]) {
      MemberBinds(s, a[i], b[i]);
      hide Suite.MemberPreimage, Suite.ValidAccount;
      assert s.Member(a[i]).Ok? && s.Member(b[i]).Ok?;
    }
    hide Suite.Handle, RingValue, ParamsOk;
    assert Handles(s, a) == Handles(s, b);
  }

  /** Where the hash does not collide on the two rings and the two messages, a signature made for one
      verification context and message passes the check of another exactly when issue, quota, message
      and the points of the ring, in order, are the same. */
  lemma SignedBindsContext(s: Suite, ctx: Context, message: seq<byte>, st: Statement, wit: SecretWitness,
                           x: int, timestamp: nat, ctx': Context, message': seq<byte>)
    requires s.Valid() && BuiltFor(s, ctx, message, st, wit, x, timestamp) && ContextOk(s, ctx')
    requires ctx'.params == ctx.params
    requires s.sha(message) == s.sha(message') ==> message == message'
    requires s.sha(RingPreimage(s, ctx.accounts)) == s.sha(RingPreimage(s, ctx'.accounts)) ==>
               RingPreimage(s, ctx.accounts) == RingPreimage(s, ctx'.accounts)
    ensures Verified(s, ctx', message', st) <==>
            && ctx.issue == ctx'.issue && ctx.k == ctx'.k && message == message'
            && SamePoints(s, ctx.accounts, ctx'.accounts)
  {
    SignedVerifies(s, ctx, message, st, wit, x, timestamp, ctx', message');
    hide IsPrime, Verified, Check, Define, Draft, Seeds, RingPreimage, AccumulatorOf, HandleFits, SamePoints;
    assert ContextOk(s, ctx);
    RingBinds(s, ctx.accounts, ctx'.accounts);
    if SamePoints(s, ctx.accounts, ctx'.accounts) {
      SameAccumulator(s, ctx.params, ctx.accounts, ctx'.accounts);
    }
  }
}
