/** The length-prefixed encodings of serialization.cpp: ring labels, challenge transcripts
    and public signatures. */
module Serialization {
  import opened Common
  import opened Bytes
  import opened Cursors

  const MAX_TOTAL: nat := 16 * 1024 * 1024
  const MAX_FIELD: nat := 1024 * 1024
  const MAX_ACCOUNTS: nat := 100000

  type Text = seq<byte>

  /** A fixed-width canonical element encoding: to_bytes and from_bytes. */
  datatype Canonical = Canonical(width: nat, order: int, encode: int -> seq<byte>, decode: seq<byte> -> Option<int>)

  ghost predicate CanonicalOk(c: Canonical) {
    && c.width <= MAX_FIELD
    && (forall p | 0 <= p < c.order :: |c.encode(p)| == c.width && c.decode(c.encode(p)) == Some(p))
    && (forall b | c.decode(b).Some? :: 0 <= c.decode(b).value < c.order && c.encode(c.decode(b).value) == b)
  }

  /** The element encodings of the standalone group, the scalars and the pairing group. */
  datatype Elements = Elements(gp: Canonical, scalar: Canonical, g1: Canonical) {
    ghost predicate Valid() {
      CanonicalOk(gp) && CanonicalOk(scalar) && CanonicalOk(g1)
    }
  }

  datatype Key = Key(userId: Text, accountId: Text, u: int, y: int, member: int)

  datatype RingLabel = RingLabel(issue: Text, accounts: seq<Key>)

  const VERSION: seq<byte> := [1]
  const RING_NAME: Text := [108, 107, 116, 114, 115, 47, 114, 105, 110, 103, 45, 108, 97, 98, 101, 108]
  const CHALLENGE_NAME: Text := [108, 107, 116, 114, 115, 47, 99, 104, 97, 108, 108, 101, 110, 103, 101]
  const SIGNATURE_NAME: Text :=
    [108, 107, 116, 114, 115, 47, 99, 108, 101, 97, 114, 45, 115, 105, 103, 110, 97, 116, 117, 114, 101]

  // --- one field -------------------------------------------------------------------------------

  /** append_bytes and append_text. */
  function Field(f: seq<byte>): seq<byte> {
    Encode(|f|, 8) + f
  }

  /** Reader::bytes and Reader::text: the field and what follows it. */
  function ParseField(b: seq<byte>): Option<(seq<byte>, seq<byte>)> {
    if |b| < 8 then None
    else
      var n := Value(b[..8]);
      if n > MAX_FIELD || n > |b[8..]| then None else Some((b[8..][..n], b[8..][n..]))
  }

  lemma FieldOfBytes(f: seq<byte>, tail: seq<byte>)
    requires |f| <= MAX_FIELD
    ensures ParseField(Field(f) + tail) == Some((f, tail))
  {
    Widths();
    hide Encode, Value, Pow256;
    var b := Field(f) + tail;
    assert b[..8] == Encode(|f|, 8) && b[8..] == f + tail;
    Peel(f, tail);
  }

  lemma BytesOfField(b: seq<byte>)
    requires ParseField(b).Some?
    ensures |ParseField(b).value.0| <= MAX_FIELD
    ensures b == Field(ParseField(b).value.0) + ParseField(b).value.1
  {
    EncodeValue(b[..8]);
    hide Encode, Value;
    var head, rest := b[..8], b[8..];
    var n := Value(head);
    Rejoin(b, 8);
    Rejoin(rest, n);
    Regroup(head, rest[..n], rest[n..]);
  }

  /** Equal fields at the front of equal strings, whatever their lengths. */
  lemma FieldInjective(f: seq<byte>, x: seq<byte>, g: seq<byte>, y: seq<byte>)
    requires |f| < TWO64 && |g| < TWO64 && Field(f) + x == Field(g) + y
    ensures f == g && x == y
  {
    hide Encode, Value, Pow256;
    Regroup(Encode(|f|, 8), f, x);
    Regroup(Encode(|g|, 8), g, y);
    EncodeInjectiveAt(|f|, |g|, f + x, g + y, Field(f) + x);
    Peel(f, x);
    Peel(g, y);
  }

  lemma EncodeInjectiveAt(m: nat, n: nat, x: seq<byte>, y: seq<byte>, b: seq<byte>)
    requires m < TWO64 && n < TWO64 && b == Encode(m, 8) + x == Encode(n, 8) + y
    ensures m == n && x == y
  {
    Widths();
    hide Encode, Value, Pow256;
    Peel(Encode(m, 8), x);
    Peel(Encode(n, 8), y);
    EncodeInjective(m, n, 8);
  }

  method ReadField(r: Cursor) returns (res: Result<seq<byte>>)
    requires r.Valid()
    modifies r`pos
    ensures r.Valid()
    ensures res.Ok? <==> ParseField(old(r.Rest())).Some?
    ensures res.Ok? ==> ParseField(old(r.Rest())) == Some((res.value, r.Rest()))
  {
    hide Value;
    var n := r.Number(8);
    if n.Err? { return Err; }
    if n.value > MAX_FIELD { return Err; }
    res := r.Take(n.value);
  }

  // --- one account -----------------------------------------------------------------------------

  /** append_public_key, then the bytes that follow. */
  function KeyBytes(e: Elements, k: Key, tail: seq<byte>): seq<byte> {
    Field(k.userId) + (Field(k.accountId) + (Field(e.gp.encode(k.u)) + (Field(e.gp.encode(k.y))
    + (Field(e.scalar.encode(k.member)) + tail))))
  }

  /** An element field. */
  function ParseElement(c: Canonical, b: seq<byte>): Option<(int, seq<byte>)> {
    match ParseField(b)
    case None => None
    case Some((f, rest)) => match c.decode(f) case None => None case Some(p) => Some((p, rest))
  }

  ghost predicate ElementOk(c: Canonical, p: int) { 0 <= p < c.order }

  ghost predicate KeyElements(e: Elements, k: Key) {
    ElementOk(e.gp, k.u) && ElementOk(e.gp, k.y) && ElementOk(e.scalar, k.member)
  }

  ghost predicate KeyOk(e: Elements, k: Key) {
    KeyElements(e, k) && |k.userId| <= MAX_FIELD && |k.accountId| <= MAX_FIELD
  }

  function ParseKey(e: Elements, b: seq<byte>): Option<(Key, seq<byte>)> {
    match ParseField(b)
    case None => None
    case Some((userId, b1)) =>
      match ParseField(b1)
      case None => None
      case Some((accountId, b2)) =>
        match ParseElement(e.gp, b2)
        case None => None
        case Some((u, b3)) =>
          match ParseElement(e.gp, b3)
          case None => None
          case Some((y, b4)) =>
            match ParseElement(e.scalar, b4)
            case None => None
            case Some((member, b5)) => Some((Key(userId, accountId, u, y, member), b5))
  }

  lemma ElementOfBytes(c: Canonical, p: int, tail: seq<byte>)
    requires CanonicalOk(c) && ElementOk(c, p)
    ensures ParseElement(c, Field(c.encode(p)) + tail) == Some((p, tail))
  {
    FieldOfBytes(c.encode(p), tail);
  }

  lemma BytesOfElement(c: Canonical, b: seq<byte>)
    requires CanonicalOk(c) && ParseElement(c, b).Some?
    ensures ElementOk(c, ParseElement(c, b).value.0)
    ensures b == Field(c.encode(ParseElement(c, b).value.0)) + ParseElement(c, b).value.1
  {
    hide ParseField;
    BytesOfField(b);
  }

  lemma KeyOfBytes(e: Elements, k: Key, tail: seq<byte>)
    requires e.Valid() && KeyOk(e, k)
    ensures ParseKey(e, KeyBytes(e, k, tail)) == Some((k, tail))
  {
    hide ParseField, ParseElement, Field, CanonicalOk;
    var b5 := tail;
    var b4 := Field(e.scalar.encode(k.member)) + b5;
    var b3 := Field(e.gp.encode(k.y)) + b4;
    var b2 := Field(e.gp.encode(k.u)) + b3;
    var b1 := Field(k.accountId) + b2;
    FieldOfBytes(k.userId, b1);
    FieldOfBytes(k.accountId, b2);
    ElementOfBytes(e.gp, k.u, b3);
    ElementOfBytes(e.gp, k.y, b4);
    ElementOfBytes(e.scalar, k.member, b5);
  }

  lemma BytesOfKey(e: Elements, b: seq<byte>)
    requires e.Valid() && ParseKey(e, b).Some?
    ensures KeyOk(e, ParseKey(e, b).value.0)
    ensures b == KeyBytes(e, ParseKey(e, b).value.0, ParseKey(e, b).value.1)
  {
    hide ParseField, ParseElement, Field, CanonicalOk, ElementOk;
    var b1 := ParseField(b).value.1;
    var b2 := ParseField(b1).value.1;
    var b3 := ParseElement(e.gp, b2).value.1;
    var b4 := ParseElement(e.gp, b3).value.1;
    BytesOfField(b);
    BytesOfField(b1);
    BytesOfElement(e.gp, b2);
    BytesOfElement(e.gp, b3);
    BytesOfElement(e.scalar, b4);
  }

  /** Texts whose length is a 64-bit word. */
  ghost predicate KeyWords(k: Key) { |k.userId| < TWO64 && |k.accountId| < TWO64 }

  lemma ElementInjective(c: Canonical, p: int, x: seq<byte>, q: int, y: seq<byte>)
    requires CanonicalOk(c) && ElementOk(c, p) && ElementOk(c, q) && Field(c.encode(p)) + x == Field(c.encode(q)) + y
    ensures p == q && x == y
  {
    hide Field;
    FieldInjective(c.encode(p), x, c.encode(q), y);
    assert c.decode(c.encode(p)) == Some(p) && c.decode(c.encode(q)) == Some(q);
  }

  lemma KeyInjective(e: Elements, k: Key, x: seq<byte>, l: Key, y: seq<byte>)
    requires e.Valid() && KeyElements(e, k) && KeyElements(e, l) && KeyWords(k) && KeyWords(l)
    requires KeyBytes(e, k, x) == KeyBytes(e, l, y)
    ensures k == l && x == y
  {
    hide Field, CanonicalOk, ElementOk;
    var k4, l4 := Field(e.scalar.encode(k.member)) + x, Field(e.scalar.encode(l.member)) + y;
    var k3, l3 := Field(e.gp.encode(k.y)) + k4, Field(e.gp.encode(l.y)) + l4;
    var k2, l2 := Field(e.gp.encode(k.u)) + k3, Field(e.gp.encode(l.u)) + l3;
    FieldInjective(k.userId, Field(k.accountId) + k2, l.userId, Field(l.accountId) + l2);
    FieldInjective(k.accountId, k2, l.accountId, l2);
    ElementInjective(e.gp, k.u, k3, l.u, l3);
    ElementInjective(e.gp, k.y, k4, l.y, l4);
    ElementInjective(e.scalar, k.member, x, l.member, y);
  }

  // --- the account list --------------------------------------------------------------------------

  function KeysBytes(e: Elements, keys: seq<Key>): seq<byte> {
    if keys == [] then [] else KeyBytes(e, keys[0], KeysBytes(e, keys[1..]))
  }

  function ParseKeys(e: Elements, n: nat, b: seq<byte>): Option<(seq<Key>, seq<byte>)> {
    if n == 0 then Some(([], b))
    else
      match ParseKey(e, b)
      case None => None
      case Some((k, rest)) => Prepend([k], ParseKeys(e, n - 1, rest))
  }

  function Prepend(a: seq<Key>, rest: Option<(seq<Key>, seq<byte>)>): Option<(seq<Key>, seq<byte>)> {
    match rest
    case None => None
    case Some((b, tail)) => Some((a + b, tail))
  }

  lemma {:induction false} KeysOfBytes(e: Elements, keys: seq<Key>)
    requires e.Valid() && forall i | 0 <= i < |keys| :: KeyOk(e, keys[i])
    ensures ParseKeys(e, |keys|, KeysBytes(e, keys)) == Some((keys, []))
    decreases |keys|
  {
    hide ParseKey, KeyBytes, KeyOk, Elements.Valid;
    if keys != [] {
      KeyOfBytes(e, keys[0], KeysBytes(e, keys[1..]));
      KeysOfBytes(e, keys[1..]);
      assert [keys[0]] + keys[1..] == keys;
    }
  }

  lemma {:induction false} BytesOfKeys(e: Elements, n: nat, b: seq<byte>)
    requires e.Valid() && ParseKeys(e, n, b).Some? && ParseKeys(e, n, b).value.1 == []
    ensures var keys := ParseKeys(e, n, b).value.0;
            |keys| == n && KeysBytes(e, keys) == b && forall i | 0 <= i < n :: KeyOk(e, keys[i])
    decreases n
  {
    hide ParseKey, KeyBytes, KeyOk, Elements.Valid;
    if n > 0 {
      var (k, rest) := ParseKey(e, b).value;
      BytesOfKey(e, b);
      BytesOfKeys(e, n - 1, rest);
      var others := ParseKeys(e, n - 1, rest).value.0;
      assert ([k] + others)[1..] == others;
    }
  }

  lemma {:induction false} KeysInjective(e: Elements, a: seq<Key>, b: seq<Key>)
    requires e.Valid() && |a| == |b| && KeysBytes(e, a) == KeysBytes(e, b)
    requires forall i | 0 <= i < |a| :: KeyElements(e, a[i]) && KeyWords(a[i])
    requires forall i | 0 <= i < |b| :: KeyElements(e, b[i]) && KeyWords(b[i])
    ensures a == b
    decreases |a|
  {
    hide KeyBytes, KeyElements, KeyWords, Elements.Valid;
    if a != [] {
      KeyInjective(e, a[0], KeysBytes(e, a[1..]), b[0], KeysBytes(e, b[1..]));
      KeysInjective(e, a[1..], b[1..]);
      assert a == [a[0]] + a[1..] && b == [b[0]] + b[1..];
    }
  }

  // --- ring labels ----------------------------------------------------------------------------------

  function RingBytes(e: Elements, l: RingLabel): seq<byte> {
    Field(VERSION) + (Field(RING_NAME) + (Field(l.issue) + (Encode(|l.accounts|, 8) + KeysBytes(e, l.accounts))))
  }

  /** The limits of the decoder. */
  ghost predicate WithinLimits(e: Elements, l: RingLabel) {
    && |l.issue| <= MAX_FIELD && |l.accounts| <= MAX_ACCOUNTS
    && (forall i | 0 <= i < |l.accounts| :: KeyOk(e, l.accounts[i]))
    && |RingBytes(e, l)| <= MAX_TOTAL
  }

  /** An account with texts of at most 1 MiB and canonical elements. */
  ghost predicate Readable(e: Elements, k: Key) {
    && |k.userId| <= 1048576 && |k.accountId| <= 1048576
    && 0 <= k.u < e.gp.order && 0 <= k.y < e.gp.order && 0 <= k.member < e.scalar.order
  }

  lemma LimitsMean(e: Elements, l: RingLabel)
    ensures WithinLimits(e, l) <==>
            && |l.issue| <= 1048576 && |l.accounts| <= 100000 && |RingBytes(e, l)| <= 16777216
            && forall i | 0 <= i < |l.accounts| :: Readable(e, l.accounts[i])
  {
    hide RingBytes;
    forall i | 0 <= i < |l.accounts| ensures KeyOk(e, l.accounts[i]) <==> Readable(e, l.accounts[i]) {}
  }

  /** A field that must have a given value, and the rest. */
  function ParseExpected(b: seq<byte>, f: seq<byte>): Option<seq<byte>> {
    match ParseField(b)
    case None => None
    case Some((g, rest)) => if g == f then Some(rest) else None
  }

  /** The account count and the accounts, up to the end. */
  function ParseAccounts(e: Elements, b: seq<byte>): Option<seq<Key>> {
    if |b| < 8 || Value(b[..8]) > MAX_ACCOUNTS then None
    else
      match ParseKeys(e, Value(b[..8]), b[8..])
      case None => None
      case Some((keys, rest)) => if rest == [] then Some(keys) else None
  }

  function ParseRing(e: Elements, raw: seq<byte>): Result<RingLabel> {
    if |raw| > MAX_TOTAL then Err
    else
      match ParseExpected(raw, VERSION)
      case None => Err
      case Some(b1) =>
        match ParseExpected(b1, RING_NAME)
        case None => Err
        case Some(b2) =>
          match ParseField(b2)
          case None => Err
          case Some((issue, b3)) =>
            match ParseAccounts(e, b3)
            case None => Err
            case Some(accounts) => Ok(RingLabel(issue, accounts))
  }

  lemma AccountsOfBytes(e: Elements, keys: seq<Key>)
    requires e.Valid() && |keys| <= MAX_ACCOUNTS && forall i | 0 <= i < |keys| :: KeyOk(e, keys[i])
    ensures ParseAccounts(e, Encode(|keys|, 8) + KeysBytes(e, keys)) == Some(keys)
  {
    Widths();
    hide Encode, Value, Pow256, KeysBytes, ParseKeys, KeyOk, Elements.Valid;
    KeysOfBytes(e, keys);
    Peel(Encode(|keys|, 8), KeysBytes(e, keys));
  }

  lemma BytesOfAccounts(e: Elements, b: seq<byte>)
    requires e.Valid() && ParseAccounts(e, b).Some?
    ensures var keys := ParseAccounts(e, b).value;
            && |keys| <= MAX_ACCOUNTS && b == Encode(|keys|, 8) + KeysBytes(e, keys)
            && forall i | 0 <= i < |keys| :: KeyOk(e, keys[i])
  {
    hide Encode, Value, KeysBytes, ParseKeys, KeyOk, Elements.Valid;
    BytesOfKeys(e, Value(b[..8]), b[8..]);
    EncodeValue(b[..8]);
    Rejoin(b, 8);
  }

  /** Decoding an encoded label within the limits gives it back. */
  lemma RingOfBytes(e: Elements, l: RingLabel)
    requires e.Valid()
    requires |l.issue| <= 1048576 && |l.accounts| <= 100000 && |RingBytes(e, l)| <= 16777216
    requires forall i | 0 <= i < |l.accounts| :: Readable(e, l.accounts[i])
    ensures ParseRing(e, RingBytes(e, l)) == Ok(l)
  {
    LimitsMean(e, l);
    hide ParseField, ParseAccounts, Field, Encode, KeysBytes, KeyOk, Elements.Valid;
    var b3 := Encode(|l.accounts|, 8) + KeysBytes(e, l.accounts);
    var b2 := Field(l.issue) + b3;
    FieldOfBytes(VERSION, Field(RING_NAME) + b2);
    FieldOfBytes(RING_NAME, b2);
    FieldOfBytes(l.issue, b3);
    AccountsOfBytes(e, l.accounts);
  }

  /** Only the encoding of a label within the limits is accepted. */
  lemma BytesOfRing(e: Elements, raw: seq<byte>)
    requires e.Valid() && ParseRing(e, raw).Ok?
    ensures var l := ParseRing(e, raw).value;
            && RingBytes(e, l) == raw
            && |l.issue| <= 1048576 && |l.accounts| <= 100000 && |raw| <= 16777216
            && forall i | 0 <= i < |l.accounts| :: Readable(e, l.accounts[i])
  {
    LimitsMean(e, ParseRing(e, raw).value);
    hide ParseField, ParseAccounts, Field, Encode, KeysBytes, KeyOk, Elements.Valid;
    BytesOfField(raw);
    var b1 := ParseField(raw).value.1;
    BytesOfField(b1);
    var b2 := ParseField(b1).value.1;
    BytesOfField(b2);
    BytesOfAccounts(e, ParseField(b2).value.1);
  }

  // --- challenge transcripts --------------------------------------------------------------------------

  ghost predicate Wordsized(e: Elements, l: RingLabel) {
    && |l.issue| < TWO64 && |l.accounts| < TWO64 && |RingBytes(e, l)| < TWO64
    && forall i | 0 <= i < |l.accounts| :: KeyElements(e, l.accounts[i]) && KeyWords(l.accounts[i])
  }

  function Transcript(e: Elements, l: RingLabel, message: Text, nym: int, timestamp: nat): seq<byte> {
    Field(VERSION) + (Field(CHALLENGE_NAME) + (Field(RingBytes(e, l)) + (Field(message)
    + (Field(e.g1.encode(nym)) + Encode(timestamp, 8)))))
  }

  /** Labels with equal encodings are equal, of any length. */
  lemma RingInjective(e: Elements, l: RingLabel, m: RingLabel)
    requires e.Valid() && Wordsized(e, l) && Wordsized(e, m) && RingBytes(e, l) == RingBytes(e, m)
    ensures l == m
  {
    hide Field, Encode, KeysBytes, KeyElements, KeyWords, Elements.Valid;
    var l3 := Encode(|l.accounts|, 8) + KeysBytes(e, l.accounts);
    var m3 := Encode(|m.accounts|, 8) + KeysBytes(e, m.accounts);
    var l2, m2 := Field(l.issue) + l3, Field(m.issue) + m3;
    FieldInjective(VERSION, Field(RING_NAME) + l2, VERSION, Field(RING_NAME) + m2);
    FieldInjective(RING_NAME, l2, RING_NAME, m2);
    FieldInjective(l.issue, l3, m.issue, m3);
    EncodeInjectiveAt(|l.accounts|, |m.accounts|, KeysBytes(e, l.accounts), KeysBytes(e, m.accounts), l3);
    KeysInjective(e, l.accounts, m.accounts);
  }

  /** Equal challenge transcripts bind the same label, message, pseudonym and timestamp. */
  lemma TranscriptInjective(e: Elements, l: RingLabel, message: Text, nym: int, timestamp: nat,
                            l': RingLabel, message': Text, nym': int, timestamp': nat)
    requires e.Valid() && Wordsized(e, l) && Wordsized(e, l') && ElementOk(e.g1, nym) && ElementOk(e.g1, nym')
    requires |message| < TWO64 && |message'| < TWO64 && timestamp < TWO64 && timestamp' < TWO64
    requires Transcript(e, l, message, nym, timestamp) == Transcript(e, l', message', nym', timestamp')
    ensures l == l' && message == message' && nym == nym' && timestamp == timestamp'
  {
    RingInjectiveIf(e, l, l');
    ElementTail(e.g1, nym, timestamp, nym', timestamp');
    hide Field, Encode, RingBytes, ElementOk, CanonicalOk;
    var a4, b4 := Field(e.g1.encode(nym)) + Encode(timestamp, 8), Field(e.g1.encode(nym')) + Encode(timestamp', 8);
    var a3, b3 := Field(message) + a4, Field(message') + b4;
    var a2, b2 := Field(RingBytes(e, l)) + a3, Field(RingBytes(e, l')) + b3;
    FieldInjective(VERSION, Field(CHALLENGE_NAME) + a2, VERSION, Field(CHALLENGE_NAME) + b2);
    FieldInjective(CHALLENGE_NAME, a2, CHALLENGE_NAME, b2);
    FieldInjective(RingBytes(e, l), a3, RingBytes(e, l'), b3);
    FieldInjective(message, a4, message', b4);
  }

  lemma RingInjectiveIf(e: Elements, l: RingLabel, m: RingLabel)
    requires e.Valid() && Wordsized(e, l) && Wordsized(e, m)
    ensures RingBytes(e, l) == RingBytes(e, m) ==> l == m
  {
    if RingBytes(e, l) == RingBytes(e, m) { RingInjective(e, l, m); }
  }

  lemma ElementTail(c: Canonical, p: int, t: nat, q: int, u: nat)
    requires CanonicalOk(c) && ElementOk(c, p) && ElementOk(c, q) && t < TWO64 && u < TWO64
    ensures Field(c.encode(p)) + Encode(t, 8) == Field(c.encode(q)) + Encode(u, 8) ==> p == q && t == u
  {
    Widths();
    hide Field, Encode, Pow256;
    if Field(c.encode(p)) + Encode(t, 8) == Field(c.encode(q)) + Encode(u, 8) {
      ElementInjective(c, p, Encode(t, 8), q, Encode(u, 8));
      EncodeInjective(t, u, 8);
    }
  }

  // --- the methods ------------------------------------------------------------------------------------------

  method EncodeKey(e: Elements, k: Key) returns (out: seq<byte>)
    ensures forall tail :: KeyBytes(e, k, tail) == out + tail
  {
    hide Field;
    out := Field(k.userId);
    out := out + Field(k.accountId);
    out := out + Field(e.gp.encode(k.u));
    out := out + Field(e.gp.encode(k.y));
    out := out + Field(e.scalar.encode(k.member));
    forall tail ensures KeyBytes(e, k, tail) == out + tail {
      KeyThen(e, k, tail);
    }
  }

  lemma KeyThen(e: Elements, k: Key, tail: seq<byte>)
    ensures KeyBytes(e, k, tail) ==
            Field(k.userId) + Field(k.accountId) + Field(e.gp.encode(k.u)) + Field(e.gp.encode(k.y))
            + Field(e.scalar.encode(k.member)) + tail
  {
    hide Field;
  }

  method EncodeRingLabel(e: Elements, l: RingLabel) returns (out: seq<byte>)
    ensures out == RingBytes(e, l)
  {
    hide Field, KeyBytes, Encode;
    out := Field(VERSION);
    out := out + Field(RING_NAME);
    out := out + Field(l.issue);
    out := out + Encode(|l.accounts|, 8);
    ghost var head := out;
    assert l.accounts[0..] == l.accounts;
    for i := 0 to |l.accounts|
      invariant head + KeysBytes(e, l.accounts) == out + KeysBytes(e, l.accounts[i..])
    {
      var key := EncodeKey(e, l.accounts[i]);
      assert l.accounts[i..][1..] == l.accounts[i + 1..];
      assert out + (key + KeysBytes(e, l.accounts[i + 1..])) == (out + key) + KeysBytes(e, l.accounts[i + 1..]);
      out := out + key;
    }
    assert out + [] == out;
    assert head + KeysBytes(e, l.accounts) == RingBytes(e, l);
  }

  method ReadElement(c: Canonical, r: Cursor) returns (res: Result<int>)
    requires r.Valid()
    modifies r`pos
    ensures r.Valid()
    ensures res.Ok? <==> ParseElement(c, old(r.Rest())).Some?
    ensures res.Ok? ==> ParseElement(c, old(r.Rest())) == Some((res.value, r.Rest()))
  {
    hide ParseField;
    var f := ReadField(r);
    if f.Err? { return Err; }
    var p := c.decode(f.value);
    if p.None? { return Err; }
    res := Ok(p.value);
  }

  method ReadKey(e: Elements, r: Cursor) returns (res: Result<Key>)
    requires r.Valid()
    modifies r`pos
    ensures r.Valid()
    ensures res.Ok? <==> ParseKey(e, old(r.Rest())).Some?
    ensures res.Ok? ==> ParseKey(e, old(r.Rest())) == Some((res.value, r.Rest()))
  {
    hide ParseField, ParseElement;
    var userId := ReadField(r);
    if userId.Err? { return Err; }
    var accountId := ReadField(r);
    if accountId.Err? { return Err; }
    var u := ReadElement(e.gp, r);
    if u.Err? { return Err; }
    var y := ReadElement(e.gp, r);
    if y.Err? { return Err; }
    var member := ReadElement(e.scalar, r);
    if member.Err? { return Err; }
    res := Ok(Key(userId.value, accountId.value, u.value, y.value, member.value));
  }

  method ReadAccounts(e: Elements, r: Cursor) returns (res: Result<seq<Key>>)
    requires r.Valid()
    modifies r`pos
    ensures r.Valid()
    ensures res.Ok? <==> ParseAccounts(e, old(r.Rest())).Some?
    ensures res.Ok? ==> ParseAccounts(e, old(r.Rest())) == Some(res.value)
  {
    hide ParseKey, Value;
    var count := r.Number(8);
    if count.Err? { return Err; }
    if count.value > MAX_ACCOUNTS { return Err; }
    ghost var all := ParseKeys(e, count.value, r.Rest());
    PrependNothing(all);
    var keys: seq<Key> := [];
    for i := 0 to count.value
      invariant r.Valid()
      invariant all == Prepend(keys, ParseKeys(e, count.value - i, r.Rest()))
    {
      var k := ReadKey(e, r);
      if k.Err? { return Err; }
      PrependTwice(keys, k.value, ParseKeys(e, count.value - i - 1, r.Rest()));
      keys := keys + [k.value];
    }
    assert keys + [] == keys;
    var left := r.Left();
    if left != 0 { return Err; }
    res := Ok(keys);
  }

  lemma PrependNothing(rest: Option<(seq<Key>, seq<byte>)>)
    ensures Prepend([], rest) == rest
  {
    if rest.Some? { assert [] + rest.value.0 == rest.value.0; }
  }

  lemma PrependTwice(a: seq<Key>, k: Key, rest: Option<(seq<Key>, seq<byte>)>)
    ensures Prepend(a, Prepend([k], rest)) == Prepend(a + [k], rest)
  {
    if rest.Some? { assert a + ([k] + rest.value.0) == (a + [k]) + rest.value.0; }
  }

  /** A field that must have a given value: the version or the name. */
  method ReadExpected(r: Cursor, f: seq<byte>) returns (ok: bool)
    requires r.Valid()
    modifies r`pos
    ensures r.Valid()
    ensures ok <==> ParseExpected(old(r.Rest()), f).Some?
    ensures ok ==> ParseExpected(old(r.Rest()), f) == Some(r.Rest())
  {
    hide ParseField;
    var g := ReadField(r);
    ok := g.Ok? && g.value == f;
  }

  method DecodeRingLabel(e: Elements, raw: seq<byte>) returns (res: Result<RingLabel>)
    ensures res == ParseRing(e, raw)
  {
    hide ParseField, ParseExpected, ParseAccounts;
    if |raw| > MAX_TOTAL { return Err; }
    var r := new Cursor(raw);
    var ok := ReadExpected(r, VERSION);
    if !ok { return Err; }
    ok := ReadExpected(r, RING_NAME);
    if !ok { return Err; }
    var issue := ReadField(r);
    if issue.Err? { return Err; }
    var accounts := ReadAccounts(e, r);
    if accounts.Err? { return Err; }
    res := Ok(RingLabel(issue.value, accounts.value));
  }

  // --- public signatures -----------------------------------------------------------------------------------

  datatype PublicSignature = PublicSignature(nym: int, value: int, pass: int, tag: int, challenge: int, timestamp: nat)

  ghost predicate SignatureOk(e: Elements, g: PublicSignature) {
    && ElementOk(e.g1, g.nym) && ElementOk(e.g1, g.value) && ElementOk(e.gp, g.pass) && ElementOk(e.gp, g.tag)
    && ElementOk(e.scalar, g.challenge) && g.timestamp < TWO64
  }

  /** The five elements, then the bytes that follow. */
  function ElementsBytes(e: Elements, g: PublicSignature, tail: seq<byte>): seq<byte> {
    Field(e.g1.encode(g.nym)) + (Field(e.g1.encode(g.value)) + (Field(e.gp.encode(g.pass))
    + (Field(e.gp.encode(g.tag)) + (Field(e.scalar.encode(g.challenge)) + tail))))
  }

  function SignatureBytes(e: Elements, g: PublicSignature): seq<byte> {
    Field(VERSION) + (Field(SIGNATURE_NAME) + ElementsBytes(e, g, Encode(g.timestamp, 8)))
  }

  /** The five elements, with no timestamp yet, and the rest. */
  function ParseElements(e: Elements, b: seq<byte>): Option<(PublicSignature, seq<byte>)> {
    match ParseElement(e.g1, b)
    case None => None
    case Some((nym, b1)) =>
      match ParseElement(e.g1, b1)
      case None => None
      case Some((value, b2)) =>
        match ParseElement(e.gp, b2)
        case None => None
        case Some((pass, b3)) =>
          match ParseElement(e.gp, b3)
          case None => None
          case Some((tag, b4)) =>
            match ParseElement(e.scalar, b4)
            case None => None
            case Some((challenge, b5)) => Some((PublicSignature(nym, value, pass, tag, challenge, 0), b5))
  }

  function ParseSignature(e: Elements, raw: seq<byte>): Result<PublicSignature> {
    if |raw| > MAX_TOTAL then Err
    else
      match ParseExpected(raw, VERSION)
      case None => Err
      case Some(b1) =>
        match ParseExpected(b1, SIGNATURE_NAME)
        case None => Err
        case Some(b2) =>
          match ParseElements(e, b2)
          case None => Err
          case Some((g, b3)) => if |b3| == 8 then Ok(g.(timestamp := Value(b3))) else Err
  }

  lemma ElementsOfBytes(e: Elements, g: PublicSignature, tail: seq<byte>)
    requires e.Valid() && SignatureOk(e, g)
    ensures ParseElements(e, ElementsBytes(e, g, tail)) == Some((g.(timestamp := 0), tail))
  {
    hide ParseElement, Field, CanonicalOk;
    var b4 := Field(e.scalar.encode(g.challenge)) + tail;
    var b3 := Field(e.gp.encode(g.tag)) + b4;
    var b2 := Field(e.gp.encode(g.pass)) + b3;
    ElementOfBytes(e.g1, g.nym, Field(e.g1.encode(g.value)) + b2);
    ElementOfBytes(e.g1, g.value, b2);
    ElementOfBytes(e.gp, g.pass, b3);
    ElementOfBytes(e.gp, g.tag, b4);
    ElementOfBytes(e.scalar, g.challenge, tail);
  }

  lemma BytesOfElements(e: Elements, b: seq<byte>)
    requires e.Valid() && ParseElements(e, b).Some?
    ensures SignatureOk(e, ParseElements(e, b).value.0)
    ensures b == ElementsBytes(e, ParseElements(e, b).value.0, ParseElements(e, b).value.1)
  {
    hide ParseElement, Field, CanonicalOk, ElementOk;
    var b1 := ParseElement(e.g1, b).value.1;
    var b2 := ParseElement(e.g1, b1).value.1;
    var b3 := ParseElement(e.gp, b2).value.1;
    BytesOfElement(e.g1, b);
    BytesOfElement(e.g1, b1);
    BytesOfElement(e.gp, b2);
    BytesOfElement(e.gp, b3);
    BytesOfElement(e.scalar, ParseElement(e.gp, b3).value.1);
  }

  lemma SignatureOkMeans(e: Elements, g: PublicSignature)
    ensures SignatureOk(e, g) <==>
            && 0 <= g.nym < e.g1.order && 0 <= g.value < e.g1.order && 0 <= g.pass < e.gp.order && 0 <= g.tag < e.gp.order
            && 0 <= g.challenge < e.scalar.order && g.timestamp < TWO64
  {
  }

  /** Decoding an encoded public signature gives it back. */
  lemma SignatureOfBytes(e: Elements, g: PublicSignature)
    requires e.Valid() && |SignatureBytes(e, g)| <= 16777216
    requires 0 <= g.nym < e.g1.order && 0 <= g.value < e.g1.order && 0 <= g.pass < e.gp.order && 0 <= g.tag < e.gp.order
    requires 0 <= g.challenge < e.scalar.order && g.timestamp < TWO64
    ensures ParseSignature(e, SignatureBytes(e, g)) == Ok(g)
  {
    Widths();
    SignatureOkMeans(e, g);
    hide ParseField, ParseElements, ElementsBytes, Field, Encode, Value, Pow256, Elements.Valid, SignatureOk;
    var b3 := Encode(g.timestamp, 8);
    var b2 := ElementsBytes(e, g, b3);
    FieldOfBytes(VERSION, Field(SIGNATURE_NAME) + b2);
    FieldOfBytes(SIGNATURE_NAME, b2);
    ElementsOfBytes(e, g, b3);
  }

  /** Only canonical encodings are accepted. */
  lemma BytesOfSignature(e: Elements, raw: seq<byte>)
    requires e.Valid() && ParseSignature(e, raw).Ok?
    ensures var g := ParseSignature(e, raw).value;
            && SignatureBytes(e, g) == raw && |raw| <= 16777216
            && 0 <= g.nym < e.g1.order && 0 <= g.value < e.g1.order && 0 <= g.pass < e.gp.order && 0 <= g.tag < e.gp.order
            && 0 <= g.challenge < e.scalar.order && g.timestamp < TWO64
  {
    Widths();
    SignatureOkMeans(e, ParseSignature(e, raw).value);
    BytesOfField(raw);
    var b1 := ParseField(raw).value.1;
    BytesOfField(b1);
    var b2 := ParseField(b1).value.1;
    BytesOfElements(e, b2);
    var (g, b3) := ParseElements(e, b2).value;
    EncodeValue(b3);
    hide ParseField, ParseElements, Field, Encode, Value, Pow256, Elements.Valid, ElementOk;
  }

  method ReadElements(e: Elements, r: Cursor) returns (res: Result<PublicSignature>)
    requires r.Valid()
    modifies r`pos
    ensures r.Valid()
    ensures res.Ok? <==> ParseElements(e, old(r.Rest())).Some?
    ensures res.Ok? ==> ParseElements(e, old(r.Rest())) == Some((res.value, r.Rest()))
  {
    hide ParseElement;
    var nym := ReadElement(e.g1, r);
    if nym.Err? { return Err; }
    var value := ReadElement(e.g1, r);
    if value.Err? { return Err; }
    var pass := ReadElement(e.gp, r);
    if pass.Err? { return Err; }
    var tag := ReadElement(e.gp, r);
    if tag.Err? { return Err; }
    var challenge := ReadElement(e.scalar, r);
    if challenge.Err? { return Err; }
    res := Ok(PublicSignature(nym.value, value.value, pass.value, tag.value, challenge.value, 0));
  }

  method DecodePublicSignature(e: Elements, raw: seq<byte>) returns (res: Result<PublicSignature>)
    ensures res == ParseSignature(e, raw)
  {
    hide ParseExpected, ParseElements, Value;
    if |raw| > MAX_TOTAL { return Err; }
    var r := new Cursor(raw);
    var ok := ReadExpected(r, VERSION);
    if !ok { return Err; }
    ok := ReadExpected(r, SIGNATURE_NAME);
    if !ok { return Err; }
    var elements := ReadElements(e, r);
    if elements.Err? { return Err; }
    ghost var rest := r.Rest();
    var timestamp := r.Number(8);
    if timestamp.Err? { return Err; }
    var left := r.Left();
    if left != 0 { return Err; }
    assert rest[..8] == rest;
    res := Ok(elements.value.(timestamp := timestamp.value));
  }
}
