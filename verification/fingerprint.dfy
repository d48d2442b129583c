/** References, and the composite fingerprint that covers a schema together with its references. */
module Fingerprints {
  import opened Text

  /** A reference as a client writes it: the name it is used under and the subject version it points to. */
  datatype Reference = Reference(name: string, subject: string, version: int)

  /** A schema fingerprint: the parser's own one, or a SHA-256 digest. The digest is represented by
      the text that is hashed, which makes it collision-free and never equal to a parser's own. */
  datatype Fingerprint = Bare(body: string) | Digest(preimage: string)

  /** The comparator handed to the sort: subject, then version, then name. */
  predicate RefLess(a: Reference, b: Reference) {
    if a.subject != b.subject then Less(a.subject, b.subject)
    else if a.version != b.version then a.version < b.version
    else Less(a.name, b.name)
  }

  lemma RefLessTotal(a: Reference, b: Reference)
    ensures a == b || RefLess(a, b) || RefLess(b, a)
    ensures !(RefLess(a, b) && RefLess(b, a))
    ensures a == b ==> !RefLess(a, b)
  {
    LessTotal(a.subject, b.subject);
    LessTotal(a.name, b.name);
  }

  lemma RefLessTransitive(a: Reference, b: Reference, c: Reference)
    requires RefLess(a, b) && RefLess(b, c)
    ensures RefLess(a, c)
  {
    LessTotal(a.subject, c.subject);
    LessTotal(a.subject, b.subject);
    if a.subject != b.subject && b.subject != c.subject {
      LessTransitive(a.subject, b.subject, c.subject);
    } else if a.subject == b.subject == c.subject && a.version == b.version == c.version {
      LessTransitive(a.name, b.name, c.name);
    }
  }

  predicate Sorted(s: seq<Reference>) {
    s == [] || ((forall x | x in s[1..] :: !RefLess(x, s[0])) && Sorted(s[1..]))
  }

  function Insert(x: Reference, s: seq<Reference>): (r: seq<Reference>)
    ensures multiset(r) == multiset(s) + multiset{x}
    ensures forall y | y in r :: y == x || y in s
  {
    if s == [] || !RefLess(s[0], x) then [x] + s
    else
      assert s == [s[0]] + s[1..];
      [s[0]] + Insert(x, s[1..])
  }

  /** What sorting a copy of the list with RefLess yields. Any sort gives this: see SortUnique. */
  function Sort(s: seq<Reference>): (r: seq<Reference>)
    ensures multiset(r) == multiset(s) && |r| == |s|
  {
    if s == [] then []
    else
      assert s == [s[0]] + s[1..];
      var r := Insert(s[0], Sort(s[1..]));
      assert |multiset(r)| == |multiset(s)|;
      r
  }

  lemma {:induction false} InsertSorted(x: Reference, s: seq<Reference>)
    requires Sorted(s)
    ensures Sorted(Insert(x, s))
  {
    if s == [] {
      assert [x][1..] == [];
    } else if !RefLess(s[0], x) {
      var r := [x] + s;
      assert r[1..] == s;
      forall y | y in s ensures !RefLess(y, x) {
        RefLessTotal(s[0], x);
        if RefLess(y, x) && s[0] != x && y in s[1..] {
          RefLessTransitive(y, x, s[0]);
        }
      }
    } else {
      InsertSorted(x, s[1..]);
      RefLessTotal(s[0], x);
      assert Insert(x, s)[1..] == Insert(x, s[1..]);
    }
  }

  lemma {:induction false} SortSorted(s: seq<Reference>)
    ensures Sorted(Sort(s))
  {
    if s != [] {
      SortSorted(s[1..]);
      InsertSorted(s[0], Sort(s[1..]));
    }
  }

  /** The comparator is a total order on (name, subject, version), so a sorted permutation is unique:
      it does not matter which algorithm sorts the copy, or whether it is stable. */
  lemma {:induction false} SortUnique(a: seq<Reference>, b: seq<Reference>)
    requires Sorted(a) && Sorted(b) && multiset(a) == multiset(b)
    ensures a == b
  {
    if a == [] {
      assert |multiset(b)| == 0;
    } else {
      assert |multiset(a)| == |multiset(b)|;
      assert a[0] in multiset(b) && b[0] in multiset(a);
      SortedHead(a, b[0]);
      SortedHead(b, a[0]);
      RefLessTotal(a[0], b[0]);
      TailMultiset(a);
      TailMultiset(b);
      SortUnique(a[1..], b[1..]);
    }
  }

  lemma SortedHead(a: seq<Reference>, x: Reference)
    requires Sorted(a) && x in a
    ensures !RefLess(x, a[0])
  {
    RefLessTotal(x, x);
  }

  lemma TailMultiset(a: seq<Reference>)
    requires a != []
    ensures a == [a[0]] + a[1..]
    ensures multiset(a[1..]) == multiset(a) - multiset{a[0]}
  {
    assert a == [a[0]] + a[1..];
  }

  function Piece(r: Reference): string {
    "\0" + r.name + "\0" + r.subject + "\0" + Dec(r.version)
  }

  function Pieces(s: seq<Reference>): string {
    if s == [] then "" else Piece(s[0]) + Pieces(s[1..])
  }

  function GlobalFingerprint(body: string, refs: seq<Reference>): Fingerprint {
    if refs == [] then Bare(body) else Digest(body + Pieces(Sort(refs)))
  }

  lemma PiecesFrom(s: seq<Reference>, i: nat)
    requires i < |s|
    ensures Pieces(s[i..]) == Piece(s[i]) + Pieces(s[i + 1..])
  {
    assert s[i..][1..] == s[i + 1..];
  }

  lemma Associative(a: string, b: string, c: string)
    ensures a + b + c == a + (b + c)
  {
  }

  method ComputeGlobalFingerprint(body: string, refs: seq<Reference>) returns (f: Fingerprint)
    ensures f == GlobalFingerprint(body, refs)
  {
    if |refs| == 0 {
      return Bare(body);
    }
    var h := body;
    var sorted := Sort(refs);
    for i := 0 to |sorted|
      invariant h + Pieces(sorted[i..]) == body + Pieces(sorted)
    {
      PiecesFrom(sorted, i);
      Associative(h, Piece(sorted[i]), Pieces(sorted[i + 1..]));
      h := h + Piece(sorted[i]);
    }
    assert h + "" == h;
    f := Digest(h);
  }

  predicate NulFree(s: string) { '\0' !in s }

  predicate NulFreeRefs(refs: seq<Reference>) {
    forall r | r in refs :: NulFree(r.name) && NulFree(r.subject)
  }

  /** A separator-prefixed list of fields, read from the front: its first field and what follows. */
  lemma FieldCut(u: string, t: string, u': string, t': string)
    requires NulFree(u) && NulFree(u')
    requires t == "" || t[0] == '\0'
    requires t' == "" || t'[0] == '\0'
    requires u + t == u' + t'
    ensures u == u' && t == t'
  {
    assert forall i | 0 <= i < |u| :: (u + t)[i] == u[i];
    assert forall i | 0 <= i < |u'| :: (u' + t')[i] == u'[i];
    assert t != "" ==> (u + t)[|u|] == '\0';
    assert t' != "" ==> (u' + t')[|u'|] == '\0';
    assert |u| == |u'|;
    assert u == (u + t)[..|u|] && u' == (u' + t')[..|u'|];
    assert t == (u + t)[|u|..] && t' == (u' + t')[|u'|..];
  }

  lemma {:induction false} PiecesInjective(a: seq<Reference>, b: seq<Reference>)
    requires NulFreeRefs(a) && NulFreeRefs(b)
    requires Pieces(a) == Pieces(b)
    ensures a == b
  {
    if a != [] && b != [] {
      PieceCut(a[0], Pieces(a[1..]), b[0], Pieces(b[1..]));
      PiecesInjective(a[1..], b[1..]);
      assert a == [a[0]] + a[1..] && b == [b[0]] + b[1..];
    }
  }

  /** The same when the first field comes after a separator. */
  lemma NextCut(u: string, t: string, u': string, t': string)
    requires NulFree(u) && NulFree(u')
    requires t == "" || t[0] == '\0'
    requires t' == "" || t'[0] == '\0'
    requires "\0" + (u + t) == "\0" + (u' + t')
    ensures u == u' && t == t'
  {
    assert ("\0" + (u + t))[1..] == u + t && ("\0" + (u' + t'))[1..] == u' + t';
    FieldCut(u, t, u', t');
  }

  lemma PieceGrouped(r: Reference, t: string)
    ensures Piece(r) + t == "\0" + (r.name + ("\0" + (r.subject + ("\0" + (Dec(r.version) + t)))))
  {
  }

  lemma PieceCut(a: Reference, t: string, b: Reference, t': string)
    requires NulFreeRefs([a]) && NulFreeRefs([b])
    requires t == "" || t[0] == '\0'
    requires t' == "" || t'[0] == '\0'
    requires Piece(a) + t == Piece(b) + t'
    ensures a == b && t == t'
  {
    assert a in [a] && b in [b];
    PieceGrouped(a, t);
    PieceGrouped(b, t');
    CutThree(a.name, a.subject, Dec(a.version), t, b.name, b.subject, Dec(b.version), t');
    DecInjective(a.version, b.version);
  }

  lemma CutThree(n: string, s: string, v: string, t: string, n': string, s': string, v': string, t': string)
    requires NulFree(n) && NulFree(s) && NulFree(v) && NulFree(n') && NulFree(s') && NulFree(v')
    requires t == "" || t[0] == '\0'
    requires t' == "" || t'[0] == '\0'
    requires "\0" + (n + ("\0" + (s + ("\0" + (v + t))))) == "\0" + (n' + ("\0" + (s' + ("\0" + (v' + t')))))
    ensures n == n' && s == s' && v == v' && t == t'
  {
    NextCut(n, "\0" + (s + ("\0" + (v + t))), n', "\0" + (s' + ("\0" + (v' + t'))));
    NextCut(s, "\0" + (v + t), s', "\0" + (v' + t'));
    NextCut(v, t, v', t');
  }

  /** The composite fingerprint is canonical: two registrations share it exactly when the schema
      bodies have the same fingerprint and the reference lists are permutations of each other. */
  lemma FingerprintCanonical(f: string, a: seq<Reference>, g: string, b: seq<Reference>)
    requires NulFree(f) && NulFree(g) && NulFreeRefs(a) && NulFreeRefs(b)
    ensures GlobalFingerprint(f, a) == GlobalFingerprint(g, b) <==> f == g && multiset(a) == multiset(b)
  {
    assert a == [] <==> |multiset(a)| == 0;
    assert b == [] <==> |multiset(b)| == 0;
    var (x, y) := (Sort(a), Sort(b));
    SortSorted(a);
    SortSorted(b);
    SortKeepsNulFree(a);
    SortKeepsNulFree(b);
    if GlobalFingerprint(f, a) == GlobalFingerprint(g, b) && a != [] {
      FieldCut(f, Pieces(x), g, Pieces(y));
      PiecesInjective(x, y);
    }
    if multiset(a) == multiset(b) {
      SortUnique(x, y);
    }
  }

  lemma SortKeepsNulFree(a: seq<Reference>)
    requires NulFreeRefs(a)
    ensures NulFreeRefs(Sort(a))
  {
    forall r | r in Sort(a) ensures NulFree(r.name) && NulFree(r.subject) {
      assert r in multiset(Sort(a));
      assert r in a;
    }
  }

  lemma SortOfOne(r: Reference)
    ensures Sort([r]) == [r] && Pieces([r]) == Piece(r)
  {
    assert [r][1..] == [];
    assert Piece(r) + "" == Piece(r);
  }

  lemma SortOfTwo(p: Reference, q: Reference)
    requires !RefLess(q, p)
    ensures Sort([p, q]) == [p, q] && Pieces([p, q]) == Piece(p) + Piece(q)
  {
    SortOfOne(q);
    assert [p, q][1..] == [q];
    assert [p] + [q] == [p, q];
  }

  // ----- names with NUL

  function Nuls(s: string): nat {
    if s == "" then 0 else Nuls(s[..|s| - 1]) + if s[|s| - 1] == '\0' then 1 else 0
  }

  lemma {:induction false} NulsOfConcat(a: string, b: string)
    ensures Nuls(a + b) == Nuls(a) + Nuls(b)
  {
    if b == "" {
      assert a + b == a;
    } else {
      NulsOfConcat(a, b[..|b| - 1]);
      assert (a + b)[..|a + b| - 1] == a + b[..|b| - 1];
    }
  }

  lemma {:induction false} NulsExact(s: string)
    ensures Nuls(s) == 0 <==> NulFree(s)
  {
    if s != "" {
      NulsExact(s[..|s| - 1]);
      assert s == s[..|s| - 1] + [s[|s| - 1]];
    }
  }

  /** Three separators, and what the name and the subject bring. */
  lemma NulsOfPiece(r: Reference)
    ensures Nuls(Piece(r)) == 3 + Nuls(r.name) + Nuls(r.subject)
  {
    NulsOfConcat("\0", r.name);
    NulsOfConcat("\0" + r.name, "\0");
    NulsOfConcat("\0" + r.name + "\0", r.subject);
    NulsOfConcat("\0" + r.name + "\0" + r.subject, "\0");
    NulsOfConcat("\0" + r.name + "\0" + r.subject + "\0", Dec(r.version));
    NulsExact(Dec(r.version));
    assert "\0"[..0] == "";
  }

  predicate HasNul(r: Reference) {
    !NulFree(r.name) || !NulFree(r.subject)
  }

  /** Four fields read as three in two ways. */
  lemma BorderFree(x: string, y: string, z: string, version: int)
    ensures Piece(Reference(x + "\0" + y, z, version)) == Piece(Reference(x, y + "\0" + z, version))
  {
    var v := "\0" + Dec(version);
    assert "\0" + (x + "\0" + y) + "\0" + z + v == "\0" + x + "\0" + (y + "\0" + z) + v;
  }

  lemma SplitAtNul(s: string) returns (x: string, y: string)
    requires !NulFree(s)
    ensures s == x + "\0" + y && |x| < |s|
  {
    var i :| 0 <= i < |s| && s[i] == '\0';
    x, y := s[..i], s[i + 1..];
  }

  /** A reference with a NUL, and another one that is hashed as the same piece: the border moves to that NUL. */
  lemma BorderMoves(r: Reference) returns (q: Reference)
    requires HasNul(r)
    ensures q != r && Piece(q) == Piece(r)
  {
    if !NulFree(r.name) {
      var x, y := SplitAtNul(r.name);
      q := Reference(x, y + "\0" + r.subject, r.version);
      BorderFree(x, y, r.subject, r.version);
    } else {
      var x, y := SplitAtNul(r.subject);
      q := Reference(r.name + "\0" + x, y, r.version);
      BorderFree(r.name, x, y, r.version);
    }
  }

  lemma PieceWithoutNul(r: Reference, q: Reference)
    requires !HasNul(r) && Piece(q) == Piece(r)
    ensures q == r
  {
    NulsOfPiece(r);
    NulsOfPiece(q);
    NulsExact(r.name);
    NulsExact(r.subject);
    NulsExact(q.name);
    NulsExact(q.subject);
    assert Piece(q) + "" == Piece(q) && Piece(r) + "" == Piece(r);
    PieceCut(q, "", r, "");
  }

  /** A reference shares its hashed piece with another one exactly if its name or its subject contains NUL. */
  lemma PieceSharedExactly(r: Reference)
    ensures HasNul(r) <==> exists q :: q != r && Piece(q) == Piece(r)
  {
    if HasNul(r) {
      var q := BorderMoves(r);
    } else {
      forall q | Piece(q) == Piece(r)
        ensures q == r
      {
        PieceWithoutNul(r, q);
      }
    }
  }

  lemma GlobalOfOne(f: string, q: Reference, r: Reference)
    ensures GlobalFingerprint(f, [q]) == GlobalFingerprint(f, [r]) <==> Piece(q) == Piece(r)
  {
    SortOfOne(q);
    SortOfOne(r);
    assert (f + Piece(q))[|f|..] == Piece(q) && (f + Piece(r))[|f|..] == Piece(r);
  }

  /** So a schema with one reference shares its fingerprint with the same schema under another one in the same cases. */
  lemma OneReferenceSharedExactly(f: string, r: Reference)
    ensures HasNul(r) <==> exists q :: q != r && GlobalFingerprint(f, [q]) == GlobalFingerprint(f, [r])
  {
    PieceSharedExactly(r);
    if HasNul(r) {
      var q :| q != r && Piece(q) == Piece(r);
      GlobalOfOne(f, q, r);
    } else {
      forall q | GlobalFingerprint(f, [q]) == GlobalFingerprint(f, [r])
        ensures q == r
      {
        GlobalOfOne(f, q, r);
      }
    }
  }

  function NulsInRefs(refs: seq<Reference>): nat {
    if refs == [] then 0 else Nuls(refs[0].name) + Nuls(refs[0].subject) + NulsInRefs(refs[1..])
  }

  lemma {:induction false} NulsOfPieces(refs: seq<Reference>)
    ensures Nuls(Pieces(refs)) == 3 * |refs| + NulsInRefs(refs)
  {
    if refs != [] {
      NulsOfPiece(refs[0]);
      NulsOfConcat(Piece(refs[0]), Pieces(refs[1..]));
      NulsOfPieces(refs[1..]);
    }
  }

  lemma {:induction false} NulsInRefsExact(refs: seq<Reference>)
    ensures NulsInRefs(refs) == 0 <==> NulFreeRefs(refs)
  {
    if refs != [] {
      NulsInRefsExact(refs[1..]);
      NulsExact(refs[0].name);
      NulsExact(refs[0].subject);
      assert refs == [refs[0]] + refs[1..];
    }
  }

  lemma NulFreePermuted(a: seq<Reference>, b: seq<Reference>)
    requires multiset(a) == multiset(b) && NulFreeRefs(a)
    ensures NulFreeRefs(b)
  {
    forall r | r in b
      ensures NulFree(r.name) && NulFree(r.subject)
    {
      assert r in multiset(b);
      assert r in a;
    }
  }

  /** Among lists of the same length it is enough that one of them is without NUL; the other may be anything. */
  lemma OneSideIsEnough(f: string, a: seq<Reference>, g: string, b: seq<Reference>)
    requires NulFree(f) && NulFree(g) && NulFreeRefs(a) && |a| == |b|
    ensures GlobalFingerprint(f, a) == GlobalFingerprint(g, b) <==> f == g && multiset(a) == multiset(b)
  {
    var x, y := Sort(a), Sort(b);
    if GlobalFingerprint(f, a) == GlobalFingerprint(g, b) {
      NulsOfConcat(f, Pieces(x));
      NulsOfConcat(g, Pieces(y));
      NulsExact(f);
      NulsExact(g);
      NulsOfPieces(x);
      NulsOfPieces(y);
      SortKeepsNulFree(a);
      NulsInRefsExact(x);
      NulsInRefsExact(y);
      NulFreePermuted(y, b);
    } else if multiset(a) == multiset(b) {
      NulFreePermuted(a, b);
    }
    if NulFreeRefs(b) {
      FingerprintCanonical(f, a, g, b);
    }
  }

  /** The NUL premise is needed: a name that contains NUL can spell out a second reference. */
  lemma NulNameCollides()
    ensures GlobalFingerprint("f", [Reference("a", "b", 1), Reference("c", "d", 2)])
         == GlobalFingerprint("f", [Reference("a\0b\01\0c", "d", 2)])
  {
    var p, q, r := Reference("a", "b", 1), Reference("c", "d", 2), Reference("a\0b\01\0c", "d", 2);
    assert Dec(1) == "1" && Dec(2) == "2";
    assert Less("b", "d") && !Less("d", "b");
    SortOfTwo(p, q);
    SortOfOne(r);
    assert Piece(p) + Piece(q) == Piece(r);
  }

  // ----- what is hashed

  lemma {:induction false} SortedPairs(s: seq<Reference>, i: nat, j: nat)
    requires Sorted(s) && i < j < |s|
    ensures !RefLess(s[j], s[i])
  {
    if i == 0 {
      assert s[j] == s[1..][j - 1];
      assert s[j] in s[1..];
    } else {
      SortedPairs(s[1..], i - 1, j - 1);
    }
  }

  /** The references are hashed by subject, then by version, then by name. */
  lemma SortOrder(refs: seq<Reference>, i: nat, j: nat)
    requires i < j < |refs|
    ensures var (a, b) := (Sort(refs)[i], Sort(refs)[j]);
            || Less(a.subject, b.subject)
            || (a.subject == b.subject && (a.version < b.version || (a.version == b.version && (Less(a.name, b.name) || a.name == b.name))))
  {
    SortSorted(refs);
    SortedPairs(Sort(refs), i, j);
    RefLessTotal(Sort(refs)[i], Sort(refs)[j]);
  }

  /** Of each reference its name, its subject and its version are hashed, each after a NUL, one reference after another. */
  lemma {:induction false} HashedText(refs: seq<Reference>, r: Reference)
    ensures Pieces([]) == ""
    ensures Pieces(refs + [r]) == Pieces(refs) + ("\0" + r.name + "\0" + r.subject + "\0" + Dec(r.version))
  {
    if refs == [] {
      assert [r][1..] == [];
      assert [] + [r] == [r];
      assert Piece(r) + "" == "" + Piece(r);
    } else {
      assert (refs + [r])[1..] == refs[1..] + [r];
      HashedText(refs[1..], r);
      Associative(Piece(refs[0]), Pieces(refs[1..]), Piece(r));
    }
  }
}
