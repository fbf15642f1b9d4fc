module Common {
  datatype Option<+T> = None | Some(value: T)

  /** A Go (value, error) pair; the text of an error is not modelled. */
  datatype Result<+T> = Ok(value: T) | Err
}

/** The two prime-order groups and the hashes of the native profile, with the account
    and member-handle computations that only depend on them.

    A group element is represented by its exponent to the group's generator: BN254 G1 and
    G2 elements by integers modulo r, secp256k1 points by integers modulo ell. Zero is the
    identity, and an integer outside the range stands for a point that is off the curve or
    outside the subgroup. Scalar multiplication is multiplication, addition is addition,
    and a pairing multiplies the two exponents. */
module Suites {
  import opened Common
  import opened Bytes
  import opened Field

  type Digest = b: seq<byte> | |b| == 32 witness seq(32, _ => 0)

  datatype Account = Account(u: int, y: int, d: Option<int>)

  datatype Suite = Suite(
    r: int,                            // order of the BN254 groups
    ell: int,                          // order of secp256k1
    sha: seq<byte> -> Digest,          // SHA-256
    secpXY: int -> (word, word),       // affine coordinates of a secp256k1 point
    bnXY: int -> (word, word),         // affine coordinates of a BN254 G1 point
    issuePoint: Digest -> int,         // secp256k1.HashToG1(issue, IssueDST)
    nymBases: (int, int, int)          // bn254.HashToG1 of "g0", "g1", "g2"
  ) {
    ghost predicate Valid() {
      && IsPrime(r) && IsPrime(ell)
      && TWO64 < r && 2 * TWO32 < ell < TWO256
    }

    /** EncodeSecpPoint and EncodeBNPoint: big-endian x, then y. */
    function SecpBytes(p: int): seq<byte> { Encode(secpXY(p).0, 32) + Encode(secpXY(p).1, 32) }

    function BnBytes(p: int): seq<byte> { Encode(bnXY(p).0, 32) + Encode(bnXY(p).1, 32) }

    predicate GoodBN(p: int) { 0 < p < r }

    predicate GoodSecp(p: int) { 0 < p < ell }

    /** canonicalNonzero for a secp256k1 scalar. */
    predicate SecpScalar(n: int) { 0 < n < ell }

    /** canonicalNonzero for a BN254 scalar. */
    predicate BNScalar(n: int) { 0 < n < r }

    /** SHA-256 as a big-endian integer reduced modulo m; zero is an error. */
    function HashScalar(data: seq<byte>, m: int): (h: Result<int>)
      ensures h.Ok? ==> 0 < h.value < m
    {
      if m < 2 then Err
      else
        var n := Value(sha(data)) % m;
        if n == 0 then Err else Ok(n)
    }

    /** Both points are proper, and a published exponent d is canonical with U = [d]u. */
    predicate ValidAccount(a: Account) {
      && GoodSecp(a.u) && GoodSecp(a.y)
      && (a.d.Some? ==> SecpScalar(a.d.value) && a.d.value == a.u)
    }

    /** The public account of secret x with exponent d: U = [d]u, Y = [x]U. */
    function NewAccount(x: int, d: int): (a: Result<Account>)
      requires ell > 0
      ensures a.Ok? ==> ValidAccount(a.value) && a.value.u == d && a.value.y == (a.value.u * x) % ell && a.value.d == Some(d)
    {
      if !SecpScalar(x) || !SecpScalar(d) then Err
      else
        var a := Account(d, (d * x) % ell, Some(d));
        if ValidAccount(a) then Ok(a) else Err
    }

    function MemberPreimage(a: Account): seq<byte> {
      Ascii("lktrs/member/v1") + SecpBytes(a.u) + SecpBytes(a.y)
    }

    /** The handle under which an account enters the accumulator. */
    function Member(a: Account): (m: Result<int>)
      ensures m.Ok? ==> ValidAccount(a) && BNScalar(m.value)
    {
      if !ValidAccount(a) then Err else HashScalar(MemberPreimage(a), r)
    }

    /** A handle exists exactly for proper points whose published exponent, if any, is that of U, and
        whose hash does not reduce to zero. */
    lemma MemberExact(a: Account)
      requires r >= 2
      ensures Member(a).Ok? <==>
              && 0 < a.u < ell && 0 < a.y < ell && (a.d.Some? ==> a.d.value == a.u)
              && Value(sha(MemberPreimage(a))) % r != 0
      ensures Member(a).Ok? ==> Member(a).value == Value(sha(MemberPreimage(a))) % r
    {
    }

    function Handle(a: Account): int {
      match Member(a) case Ok(m) => m case Err => 0
    }

    /** With a prime order, canonical nonzero scalars always give a valid account. */
    lemma NewAccountSucceeds(x: int, d: int)
      requires IsPrime(ell)
      ensures NewAccount(x, d).Ok? <==> SecpScalar(x) && SecpScalar(d)
      ensures NewAccount(x, d).Ok? ==>
                var a := NewAccount(x, d).value; a.u == d && a.y == (d * x) % ell && a.d == Some(d)
    {
      if SecpScalar(x) && SecpScalar(d) {
        SmallMod(ell, d);
        SmallMod(ell, x);
        NoZeroDivisors(ell, d, x);
      }
    }
  }

  function Ascii(s: string): seq<byte> {
    seq(|s|, i requires 0 <= i < |s| => (s[i] as int) % 256)
  }
}
