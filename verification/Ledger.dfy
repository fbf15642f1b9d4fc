/** The durable ledger of service.go: its file format, persistState and loadState. */
module Ledgers {
  import opened Common
  import opened Suites
  import opened Text

  /** Pinned quotas, revoked users and consumed envelope digests. */
  datatype Ledger = Ledger(policies: map<Digest, nat>, revoked: set<string>, seen: set<Digest>)

  const EMPTY := Ledger(map[], {}, {})

  /** The JSON document. */
  datatype LedgerFile = LedgerFile(version: int, policies: map<string, nat>, revoked: seq<string>, seen: seq<string>)

  lemma {:induction false} HexDecodeLength(s: string)
    ensures HexDecode(s).Some? ==> 2 * |HexDecode(s).value| == |s|
  {
    if |s| >= 2 { HexDecodeLength(s[2..]); }
  }

  /** 32 bytes of canonical lower-case hex. */
  function DecodeIssue(s: string): Option<Digest> {
    match HexDecode(s)
    case Some(b) => if |b| == 32 && HexEncode(b) == s then Some(b) else None
    case None => None
  }

  /** 64 hex digits of either case. */
  function DecodeSeen(s: string): Option<Digest> {
    HexDecodeLength(s);
    if |s| != 64 then None else HexDecode(s)
  }

  lemma DecodeInverse(d: Digest)
    ensures DecodeIssue(HexEncode(d)) == Some(d)
    ensures DecodeSeen(HexEncode(d)) == Some(d)
  {
    HexRoundTrip(d);
  }

  lemma IssueKey(s: string)
    ensures DecodeIssue(s).Some? ==> HexEncode(DecodeIssue(s).value) == s
  {
  }

  // --- loading --------------------------------------------------------------------------------

  /** loadState accepts the file. */
  predicate FileOk(f: LedgerFile) {
    && f.version == 1
    && (forall s | s in f.policies :: DecodeIssue(s).Some? && f.policies[s] != 0)
    && (forall i | 0 <= i < |f.revoked| :: !Blank(f.revoked[i]))
    && (forall i | 0 <= i < |f.seen| :: DecodeSeen(f.seen[i]).Some?)
  }

  /** loadState accepts exactly the files of version 1 in which every issue is 64 lower-case hex digits
      with a nonzero quota, no revoked user is blank, and every digest is 64 hex digits. */
  lemma FileExact(f: LedgerFile)
    ensures FileOk(f) <==>
            && f.version == 1
            && (forall s | s in f.policies :: |s| == 64 && AllLower(s) && f.policies[s] > 0)
            && (forall i | 0 <= i < |f.revoked| :: !Blank(f.revoked[i]))
            && (forall k | 0 <= k < |f.seen| :: |f.seen[k]| == 64 && AllHex(f.seen[k]))
  {
    hide DecodeIssue, DecodeSeen, Blank, AllLower, AllHex;
    forall s ensures DecodeIssue(s).Some? <==> |s| == 64 && AllLower(s) { DecodeExact(s); }
    forall s ensures DecodeSeen(s).Some? <==> |s| == 64 && AllHex(s) { DecodeExact(s); }
  }

  lemma DecodeExact(s: string)
    ensures DecodeIssue(s).Some? <==> |s| == 64 && AllLower(s)
    ensures DecodeSeen(s).Some? <==> |s| == 64 && AllHex(s)
  {
    HexDecodeLength(s);
    HexExact(s);
    assert AllLower(s) ==> AllHex(s);
    hide HexDecode, HexEncode, AllLower, AllHex;
  }

  function PoliciesOf(m: map<string, nat>, keys: set<string>): map<Digest, nat>
    requires keys <= m.Keys
  {
    map d | d in (set s | s in keys && DecodeIssue(s).Some? :: DecodeIssue(s).value) && HexEncode(d) in keys
      :: m[HexEncode(d)]
  }

  function SeenOf(q: seq<string>): set<Digest> {
    set s | s in q && DecodeSeen(s).Some? :: DecodeSeen(s).value
  }

  /** What an accepted file means. */
  function Contents(f: LedgerFile): Ledger {
    Ledger(PoliciesOf(f.policies, f.policies.Keys), (set u | u in f.revoked), SeenOf(f.seen))
  }

  /** Reads every entry back, or fails on the first bad one. */
  method LoadState(f: LedgerFile) returns (res: Result<Ledger>)
    ensures res.Ok? <==> FileOk(f)
    ensures res.Ok? ==> res.value == Contents(f)
  {
    hide DecodeIssue, DecodeSeen, Blank, HexEncode;
    if f.version != 1 { return Err; }
    var policies: map<Digest, nat> := map[];
    var rest := f.policies.Keys;
    assert PoliciesOf(f.policies, f.policies.Keys - rest) == map[];
    while rest != {}
      invariant rest <= f.policies.Keys
      invariant policies == PoliciesOf(f.policies, f.policies.Keys - rest)
      invariant forall s | s in f.policies.Keys - rest :: DecodeIssue(s).Some? && f.policies[s] != 0
      decreases rest
    {
      var s :| s in rest;
      var issue := DecodeIssue(s);
      if issue.None? || f.policies[s] == 0 { return Err; }
      AddPolicy(f.policies, f.policies.Keys - rest, s);
      policies := policies[issue.value := f.policies[s]];
      rest := rest - {s};
      assert f.policies.Keys - rest == (f.policies.Keys - (rest + {s})) + {s};
    }
    assert f.policies.Keys - rest == f.policies.Keys;
    var revoked: set<string> := {};
    for i := 0 to |f.revoked|
      invariant revoked == set u | u in f.revoked[..i]
      invariant forall j | 0 <= j < i :: !Blank(f.revoked[j])
    {
      if Blank(f.revoked[i]) { return Err; }
      assert f.revoked[..i + 1] == f.revoked[..i] + [f.revoked[i]];
      revoked := revoked + {f.revoked[i]};
    }
    assert f.revoked[..|f.revoked|] == f.revoked;
    var seen: set<Digest> := {};
    for i := 0 to |f.seen|
      invariant seen == SeenOf(f.seen[..i])
      invariant forall j | 0 <= j < i :: DecodeSeen(f.seen[j]).Some?
    {
      var d := DecodeSeen(f.seen[i]);
      if d.None? { return Err; }
      assert f.seen[..i + 1] == f.seen[..i] + [f.seen[i]];
      AddSeen(f.seen[..i], f.seen[i]);
      seen := seen + {d.value};
    }
    assert f.seen[..|f.seen|] == f.seen;
    res := Ok(Ledger(policies, revoked, seen));
  }

  lemma AddPolicy(m: map<string, nat>, keys: set<string>, s: string)
    requires keys <= m.Keys && s in m && DecodeIssue(s).Some?
    ensures PoliciesOf(m, keys + {s}) == PoliciesOf(m, keys)[DecodeIssue(s).value := m[s]]
  {
    IssueKey(s);
    hide DecodeIssue, HexEncode;
    var d := DecodeIssue(s).value;
    var a, b := PoliciesOf(m, keys + {s}), PoliciesOf(m, keys)[d := m[s]];
    forall e: Digest ensures e in a <==> e in b {
      if e in a && e != d { assert HexEncode(e) in keys + {s}; SameText(e, d); }
    }
    forall e | e in a ensures a[e] == b[e] {
    }
  }

  lemma SameText(a: Digest, b: Digest)
    ensures HexEncode(a) == HexEncode(b) ==> a == b
  {
    HexRoundTrip(a);
    HexRoundTrip(b);
  }

  lemma AddSeen(q: seq<string>, s: string)
    requires DecodeSeen(s).Some?
    ensures SeenOf(q + [s]) == SeenOf(q) + {DecodeSeen(s).value}
  {
    hide DecodeSeen;
    var p := q + [s];
    assert forall x :: x in p <==> x in q || x == s;
    forall d ensures d in SeenOf(p) <==> d in SeenOf(q) + {DecodeSeen(s).value} {
      if d in SeenOf(q) {
        var x :| x in q && DecodeSeen(x).Some? && DecodeSeen(x).value == d;
        assert x in p;
      }
      if d in SeenOf(p) {
        var x :| x in p && DecodeSeen(x).Some? && DecodeSeen(x).value == d;
        assert x == s || x in q;
      }
      assert s in p;
    }
  }

  // --- persisting -------------------------------------------------------------------------------

  function Texts(ds: set<Digest>): set<string> {
    set d | d in ds :: HexEncode(d)
  }

  lemma AddText(ds: set<Digest>, d: Digest)
    ensures Texts(ds + {d}) == Texts(ds) + {HexEncode(d)}
  {
    hide HexEncode;
  }

  /** The file persistState writes for a ledger. */
  ghost predicate Encodes(l: Ledger, f: LedgerFile) {
    && f.version == 1
    && f.policies.Keys == Texts(l.policies.Keys)
    && (forall d | d in l.policies :: HexEncode(d) in f.policies && f.policies[HexEncode(d)] == l.policies[d])
    && Lists(f.revoked, l.revoked)
    && Lists(f.seen, Texts(l.seen))
  }

  method PersistState(l: Ledger) returns (f: LedgerFile)
    ensures Encodes(l, f)
  {
    hide HexEncode;
    var policies: map<string, nat> := map[];
    var rest := l.policies.Keys;
    while rest != {}
      invariant rest <= l.policies.Keys
      invariant policies.Keys == Texts(l.policies.Keys - rest)
      invariant forall d | d in l.policies.Keys - rest :: HexEncode(d) in policies && policies[HexEncode(d)] == l.policies[d]
      decreases rest
    {
      var d :| d in rest;
      forall e: Digest ensures HexEncode(d) == HexEncode(e) ==> d == e { SameText(d, e); }
      AddText(l.policies.Keys - rest, d);
      assert l.policies.Keys - (rest - {d}) == (l.policies.Keys - rest) + {d};
      policies := policies[HexEncode(d) := l.policies[d]];
      rest := rest - {d};
    }
    var revoked := SortStrings(l.revoked);
    var seen := SortStrings(Texts(l.seen));
    f := LedgerFile(1, policies, revoked, seen);
  }

  /** Ledgers that loadState will read back. */
  predicate LedgerOk(l: Ledger) {
    (forall d | d in l.policies :: l.policies[d] != 0) && (forall u | u in l.revoked :: !Blank(u))
  }

  /** A persisted ledger loads exactly when it has no zero quota and no blank user, and then
      every quota, revocation and digest is back, and nothing else. */
  lemma LoadRestores(l: Ledger, f: LedgerFile)
    requires Encodes(l, f)
    ensures FileOk(f) <==> LedgerOk(l)
    ensures Contents(f) == l
  {
    RestoresPolicies(l, f);
    RestoresSeen(l, f);
    RestoresRevoked(l, f);
    assert f.version == 1;
    hide DecodeIssue, DecodeSeen, Blank, HexEncode, PoliciesOf, SeenOf, Encodes;
  }

  lemma RestoresRevoked(l: Ledger, f: LedgerFile)
    requires Encodes(l, f)
    ensures (set u | u in f.revoked) == l.revoked
    ensures (forall i | 0 <= i < |f.revoked| :: !Blank(f.revoked[i])) <==> (forall u | u in l.revoked :: !Blank(u))
  {
    hide Blank, HexEncode, Sorted;
    assert forall i | 0 <= i < |f.revoked| :: f.revoked[i] in l.revoked;
    forall u | u in l.revoked ensures exists i :: 0 <= i < |f.revoked| && f.revoked[i] == u {
      assert u in f.revoked;
    }
  }

  lemma RestoresPolicies(l: Ledger, f: LedgerFile)
    requires Encodes(l, f)
    ensures PoliciesOf(f.policies, f.policies.Keys) == l.policies
    ensures forall s | s in f.policies :: DecodeIssue(s).Some?
    ensures (forall s | s in f.policies :: f.policies[s] != 0) <==> (forall d | d in l.policies :: l.policies[d] != 0)
  {
    hide DecodeIssue, HexEncode;
    var m := PoliciesOf(f.policies, f.policies.Keys);
    forall s | s in f.policies
      ensures DecodeIssue(s).Some? && DecodeIssue(s).value in l.policies && HexEncode(DecodeIssue(s).value) == s
    {
      assert s in Texts(l.policies.Keys);
      var d :| d in l.policies && HexEncode(d) == s;
      DecodeInverse(d);
    }
    forall d: Digest ensures d in m <==> d in l.policies {
      DecodeInverse(d);
      if d in l.policies { assert HexEncode(d) in f.policies; }
      if d in m { assert HexEncode(d) in f.policies; }
    }
    forall s | s in f.policies ensures f.policies[s] == l.policies[DecodeIssue(s).value] {
      assert HexEncode(DecodeIssue(s).value) == s;
    }
  }

  lemma RestoresSeen(l: Ledger, f: LedgerFile)
    requires Encodes(l, f)
    ensures SeenOf(f.seen) == l.seen
    ensures forall i | 0 <= i < |f.seen| :: DecodeSeen(f.seen[i]).Some?
  {
    hide DecodeSeen, HexEncode, Sorted;
    var texts := Texts(l.seen);
    forall s | s in f.seen ensures DecodeSeen(s).Some? && DecodeSeen(s).value in l.seen {
      assert s in texts;
      var d :| d in l.seen && HexEncode(d) == s;
      DecodeInverse(d);
    }
    forall d | d in l.seen ensures d in SeenOf(f.seen) {
      DecodeInverse(d);
      assert HexEncode(d) in texts;
      assert HexEncode(d) in f.seen;
    }
  }

  /** Sorting makes the file a function of the ledger. */
  lemma EncodingCanonical(l: Ledger, f: LedgerFile, g: LedgerFile)
    requires Encodes(l, f) && Encodes(l, g)
    ensures f == g
  {
    ListsUnique(f.revoked, g.revoked, l.revoked);
    ListsUnique(f.seen, g.seen, Texts(l.seen));
    hide HexEncode, Lists;
    assert forall s :: s in f.policies <==> s in g.policies;
    forall s | s in f.policies ensures f.policies[s] == g.policies[s] {
      assert s in Texts(l.policies.Keys);
      var d :| d in l.policies && HexEncode(d) == s;
    }
    assert f.policies == g.policies;
  }
}
