/** Text helpers the service relies on: string order, sorting, blank names, hexadecimal. */
module Text {
  import opened Common
  import opened Sequences
  import opened Bytes

  // --- order and sorting ---------------------------------------------------------------------

  /** Go's string order. */
  predicate Less(a: string, b: string) {
    if a == [] then b != []
    else b != [] && (a[0] < b[0] || (a[0] == b[0] && Less(a[1..], b[1..])))
  }

  lemma {:induction false} LessTotal(a: string, b: string)
    ensures Less(a, b) || a == b || Less(b, a)
  {
    if a != [] && b != [] && a[0] == b[0] {
      LessTotal(a[1..], b[1..]);
      assert a == [a[0]] + a[1..] && b == [b[0]] + b[1..];
    }
  }

  lemma {:induction false} LessIrreflexive(a: string)
    ensures !Less(a, a)
  {
    if a != [] { LessIrreflexive(a[1..]); }
  }

  lemma {:induction false} LessTransitive(a: string, b: string, c: string)
    requires Less(a, b) && Less(b, c)
    ensures Less(a, c)
  {
    if a != [] && a[0] == b[0] && b[0] == c[0] {
      LessTransitive(a[1..], b[1..], c[1..]);
    }
  }

  predicate Sorted(q: seq<string>) {
    forall i, j | 0 <= i < j < |q| :: Less(q[i], q[j])
  }

  /** q lists the elements of s in increasing order, each once. */
  ghost predicate Lists(q: seq<string>, s: set<string>) {
    Sorted(q) && forall x :: x in q <==> x in s
  }

  /** Insertion into a sorted list. */
  method Insert(q: seq<string>, x: string) returns (r: seq<string>)
    requires Sorted(q) && x !in q
    ensures Sorted(r) && forall y :: y in r <==> y == x || y in q
  {
    var i := 0;
    while i < |q| && Less(q[i], x)
      invariant 0 <= i <= |q|
      invariant forall j | 0 <= j < i :: Less(q[j], x)
    {
      i := i + 1;
    }
    InsertedSorted(q, x, i);
    r := q[..i] + [x] + q[i..];
    assert q == q[..i] + q[i..];
  }

  lemma InsertedSorted(q: seq<string>, x: string, i: nat)
    requires Sorted(q) && x !in q && i <= |q|
    requires forall j | 0 <= j < i :: Less(q[j], x)
    requires i < |q| ==> !Less(q[i], x)
    ensures Sorted(q[..i] + [x] + q[i..])
  {
    var r := q[..i] + [x] + q[i..];
    forall j | i <= j < |q| ensures Less(x, q[j]) {
      LessTotal(q[i], x);
      if i < j { LessTransitive(x, q[i], q[j]); }
    }
    assert forall j | 0 <= j < i :: r[j] == q[j];
    assert r[i] == x;
    assert forall j | i < j < |r| :: r[j] == q[j - 1];
  }

  /** sort.Strings over the keys of a Go map. */
  method SortStrings(s: set<string>) returns (q: seq<string>)
    ensures Lists(q, s)
  {
    q := [];
    var rest := s;
    while rest != {}
      invariant rest <= s && Lists(q, s - rest)
      decreases rest
    {
      var x :| x in rest;
      q := Insert(q, x);
      rest := rest - {x};
    }
  }

  lemma {:induction false} ListsExist(s: set<string>) returns (q: seq<string>)
    ensures Lists(q, s)
    decreases s
  {
    if s == {} {
      q := [];
    } else {
      var x :| x in s;
      var t := ListsExist(s - {x});
      var i := 0;
      while i < |t| && Less(t[i], x)
        invariant 0 <= i <= |t|
        invariant forall j | 0 <= j < i :: Less(t[j], x)
      {
        i := i + 1;
      }
      InsertedSorted(t, x, i);
      q := t[..i] + [x] + t[i..];
      assert t == t[..i] + t[i..];
      assert forall y :: y in q <==> y == x || y in t;
    }
  }

  /** A set has one sorted listing. */
  lemma {:induction false} ListsUnique(p: seq<string>, q: seq<string>, s: set<string>)
    requires Lists(p, s) && Lists(q, s)
    ensures p == q
    decreases |p|
  {
    HasFirst(p);
    HasFirst(q);
    if p != [] {
      assert p[0] in q;
      SameFirst(p, q);
      var s' := s - {p[0]};
      TailLists(p, s);
      TailLists(q, s);
      ListsUnique(p[1..], q[1..], s');
      assert p == [p[0]] + p[1..] && q == [q[0]] + q[1..];
    }
  }

  lemma HasFirst(q: seq<string>)
    ensures q != [] ==> q[0] in q
  {
  }

  lemma SameFirst(p: seq<string>, q: seq<string>)
    requires Sorted(p) && Sorted(q) && p != [] && q != [] && p[0] in q && q[0] in p
    ensures p[0] == q[0]
  {
    var i :| 0 <= i < |q| && q[i] == p[0];
    var j :| 0 <= j < |p| && p[j] == q[0];
    if i > 0 && j > 0 {
      LessTransitive(q[0], p[0], q[0]);
      LessIrreflexive(q[0]);
    }
  }

  lemma TailLists(p: seq<string>, s: set<string>)
    requires Lists(p, s) && p != []
    ensures Lists(p[1..], s - {p[0]})
  {
    assert p == [p[0]] + p[1..];
    forall i | 1 <= i < |p| ensures p[i] != p[0] {
      LessIrreflexive(p[0]);
    }
  }

  /** The sorted listing of a set. */
  ghost function Listing(s: set<string>): (q: seq<string>)
    ensures Lists(q, s)
  {
    ListingExists(s);
    var q :| Lists(q, s);
    q
  }

  lemma ListingExists(s: set<string>)
    ensures exists q :: Lists(q, s)
  {
    var q := ListsExist(s);
  }

  lemma ListsDistinct(q: seq<string>)
    requires Sorted(q)
    ensures Distinct(q)
  {
    forall i, j | 0 <= i < j < |q| ensures q[i] != q[j] {
      LessIrreflexive(q[i]);
    }
  }

  /** A listing holds every element once. */
  lemma ListedMultiset(q: seq<string>, s: set<string>)
    requires Lists(q, s)
    ensures multiset(q) == multiset(s)
  {
    ListsDistinct(q);
    forall x ensures multiset(q)[x] == multiset(s)[x] {
      DistinctCount(q, x);
      assert x in q <==> x in multiset(q);
    }
  }

  // --- blank names --------------------------------------------------------------------------------

  predicate Space(c: char) {
    var n := c as int;
    || 9 <= n <= 13 || n == 32 || n == 0x85 || n == 0xa0 || n == 0x1680
    || 0x2000 <= n <= 0x200a || n == 0x2028 || n == 0x2029 || n == 0x202f || n == 0x205f || n == 0x3000
  }

  /** strings.TrimSpace(s) == "". */
  predicate Blank(s: string) {
    forall i | 0 <= i < |s| :: Space(s[i])
  }

  // --- hexadecimal ----------------------------------------------------------------------------------

  const HEX := "0123456789abcdef"

  function HexEncode(b: seq<byte>): (s: string)
    ensures |s| == 2 * |b|
  {
    if b == [] then [] else [HEX[b[0] / 16], HEX[b[0] % 16]] + HexEncode(b[1..])
  }

  function HexDigit(c: char): Option<nat> {
    if '0' <= c <= '9' then Some(c as int - '0' as int)
    else if 'a' <= c <= 'f' then Some(c as int - 'a' as int + 10)
    else if 'A' <= c <= 'F' then Some(c as int - 'A' as int + 10)
    else None
  }

  lemma HexDigitRange(c: char)
    ensures HexDigit(c).Some? ==> HexDigit(c).value < 16
  {
  }

  /** hex.DecodeString. */
  function HexDecode(s: string): Option<seq<byte>> {
    if s == [] then Some([])
    else if |s| == 1 then None
    else
      HexDigitRange(s[0]);
      HexDigitRange(s[1]);
      match (HexDigit(s[0]), HexDigit(s[1]), HexDecode(s[2..]))
      case (Some(h), Some(l), Some(rest)) => Some([16 * h + l] + rest)
      case _ => None
  }

  lemma HexDigitInverse(n: nat)
    requires n < 16
    ensures HexDigit(HEX[n]) == Some(n)
  {
    assert HEX[0] == '0' && HEX[9] == '9' && HEX[10] == 'a' && HEX[15] == 'f';
  }

  lemma HexPair(h: nat, l: nat, rest: string)
    requires h < 16 && l < 16
    ensures var s := [HEX[h], HEX[l]] + rest;
            HexDecode(s) == match HexDecode(rest) case Some(t) => Some([16 * h + l] + t) case None => None
  {
    HexDigitInverse(h);
    HexDigitInverse(l);
    hide HexDigit;
    var s := [HEX[h], HEX[l]] + rest;
    assert s[0] == HEX[h] && s[1] == HEX[l] && s[2..] == rest;
  }

  /** Decoding inverts encoding, so different bytes have different text; the text is in lower case. */
  lemma {:induction false} HexRoundTrip(b: seq<byte>)
    ensures HexDecode(HexEncode(b)) == Some(b)
    ensures forall c | c in HexEncode(b) :: '0' <= c <= '9' || 'a' <= c <= 'f'
  {
    if b != [] {
      hide HexDecode;
      HexPair(b[0] / 16, b[0] % 16, HexEncode(b[1..]));
      HexRoundTrip(b[1..]);
      assert b == [b[0]] + b[1..];
    }
  }

  predicate LowerHex(c: char) { '0' <= c <= '9' || 'a' <= c <= 'f' }

  predicate AnyHex(c: char) { LowerHex(c) || 'A' <= c <= 'F' }

  lemma DigitExact(c: char)
    ensures HexDigit(c).Some? <==> AnyHex(c)
    ensures HexDigit(c).Some? ==> HexDigit(c).value < 16 && (HEX[HexDigit(c).value] == c <==> LowerHex(c))
  {
    HexDigitRange(c);
    if HexDigit(c).Some? { HexLetter(HexDigit(c).value); }
  }

  lemma HexLetter(n: nat)
    requires n < 16
    ensures HEX[n] as int == if n < 10 then '0' as int + n else 'a' as int + (n - 10)
  {
    assert HEX == ['0', '1', '2', '3', '4', '5', '6', '7', '8', '9', 'a', 'b', 'c', 'd', 'e', 'f'];
  }

  predicate AllHex(s: string) { forall i | 0 <= i < |s| :: AnyHex(s[i]) }

  predicate AllLower(s: string) { forall i | 0 <= i < |s| :: LowerHex(s[i]) }

  lemma PairFirst(s: string)
    requires |s| >= 2
    ensures AllHex(s) <==> AnyHex(s[0]) && AnyHex(s[1]) && AllHex(s[2..])
    ensures AllLower(s) <==> LowerHex(s[0]) && LowerHex(s[1]) && AllLower(s[2..])
  {
    hide AnyHex, LowerHex;
    var t := s[2..];
    assert forall i | 2 <= i < |s| :: s[i] == t[i - 2];
    assert forall i | 0 <= i < |t| :: t[i] == s[i + 2];
  }

  /** Exactly texts of an even number of hex digits of either case decode, and exactly the lower-case
      ones are the encoding of what they decode to. */
  lemma {:induction false} HexExact(s: string)
    ensures HexDecode(s).Some? <==> |s| % 2 == 0 && AllHex(s)
    ensures HexDecode(s).Some? ==> (HexEncode(HexDecode(s).value) == s <==> AllLower(s))
    decreases |s|
  {
    if |s| >= 2 {
      hide *;
      HexExact(s[2..]);
      PairExact(s);
      PairFirst(s);
    }
  }

  lemma PairExact(s: string)
    requires |s| >= 2
    ensures HexDecode(s).Some? <==> AnyHex(s[0]) && AnyHex(s[1]) && HexDecode(s[2..]).Some?
    ensures HexDecode(s).Some? ==>
              (HexEncode(HexDecode(s).value) == s <==>
               LowerHex(s[0]) && LowerHex(s[1]) && HexEncode(HexDecode(s[2..]).value) == s[2..])
  {
    hide HexDigit, HexDecode, HexEncode, LowerHex, AnyHex;
    HexStep(s);
    DigitExact(s[0]);
    DigitExact(s[1]);
    if HexDecode(s).Some? {
      var h, l, rest := HexDigit(s[0]).value, HexDigit(s[1]).value, HexDecode(s[2..]).value;
      EncodePair(h, l, rest);
      SplitPair(s, HEX[h], HEX[l], HexEncode(rest));
    }
  }

  lemma SplitPair(s: string, a: char, b: char, e: string)
    requires |s| >= 2
    ensures [a, b] + e == s <==> a == s[0] && b == s[1] && e == s[2..]
  {
    assert s == [s[0], s[1]] + s[2..];
    assert ([a, b] + e)[2..] == e;
  }

  lemma HexStep(s: string)
    requires |s| >= 2
    ensures HexDecode(s).Some? <==> HexDigit(s[0]).Some? && HexDigit(s[1]).Some? && HexDecode(s[2..]).Some?
    ensures HexDecode(s).Some? ==>
              && HexDigit(s[0]).value < 16 && HexDigit(s[1]).value < 16
              && HexDecode(s).value == [16 * HexDigit(s[0]).value + HexDigit(s[1]).value] + HexDecode(s[2..]).value
  {
    HexDigitRange(s[0]);
    HexDigitRange(s[1]);
    hide HexDigit;
  }

  lemma EncodePair(h: nat, l: nat, rest: seq<byte>)
    requires h < 16 && l < 16
    ensures HexEncode([16 * h + l] + rest) == [HEX[h], HEX[l]] + HexEncode(rest)
  {
    var b: seq<byte> := [16 * h + l] + rest;
    assert b[0] / 16 == h && b[0] % 16 == l && b[1..] == rest;
  }
}
