/** Edit distance: the two-row table, the recursive definition, and edit scripts. */
module EditDistance {

  newtype byte = x: int | 0 <= x < 256

  type Bytes = seq<byte>

  function Min(x: nat, y: nat): nat {
    if x < y then x else y
  }

  function Init(a: Bytes): Bytes
    requires a != []
  {
    a[..|a| - 1]
  }

  function Last(a: Bytes): byte
    requires a != []
  {
    a[|a| - 1]
  }

  /** The recurrence on prefixes that the table tabulates. */
  function Distance(a: Bytes, b: Bytes): nat
    decreases |a| + |b|
  {
    if a == [] then |b|
    else if b == [] then |a|
    else
      var cost := if Last(a) == Last(b) then 0 else 1;
      Min(Distance(a, Init(b)) + 1, Min(Distance(Init(a), b) + 1, Distance(Init(a), Init(b)) + cost))
  }

  /** One entry from its three neighbours. */
  lemma Recurrence(a: Bytes, b: Bytes, i: nat, j: nat)
    requires 1 <= i <= |a| && 1 <= j <= |b|
    ensures Distance(a[..i], b[..j]) ==
            Min(Distance(a[..i], b[..j - 1]) + 1,
              Min(Distance(a[..i - 1], b[..j]) + 1,
                  Distance(a[..i - 1], b[..j - 1]) + if a[i - 1] == b[j - 1] then 0 else 1))
  {
    assert Init(a[..i]) == a[..i - 1] && Init(b[..j]) == b[..j - 1];
  }

  /** A table of numbers that obeys the boundary and the recurrence in row i. */
  ghost predicate Tabulates(table: (nat, nat) -> nat, a: Bytes, b: Bytes, i: nat)
    requires 1 <= i <= |a|
  {
    && table(i, 0) == i
    && forall j | 1 <= j <= |b| ::
         table(i, j) == Min(table(i, j - 1) + 1,
                          Min(table(i - 1, j) + 1, table(i - 1, j - 1) + if a[i - 1] == b[j - 1] then 0 else 1))
  }

  ghost function Table(a: Bytes, b: Bytes): (nat, nat) -> nat {
    (i: nat, j: nat) => if i <= |a| && j <= |b| then Distance(a[..i], b[..j]) else 0
  }

  lemma TableTabulates(a: Bytes, b: Bytes, i: nat)
    requires 1 <= i <= |a|
    ensures Tabulates(Table(a, b), a, b, i)
  {
    assert b[..0] == [];
    forall j | 1 <= j <= |b|
      ensures Table(a, b)(i, j) ==
              Min(Table(a, b)(i, j - 1) + 1,
                Min(Table(a, b)(i - 1, j) + 1, Table(a, b)(i - 1, j - 1) + if a[i - 1] == b[j - 1] then 0 else 1))
    {
      Recurrence(a, b, i, j);
    }
  }

  ghost predicate IsRow(row: seq<nat>, table: (nat, nat) -> nat, i: nat) {
    forall j | 0 <= j < |row| :: row[j] == table(i, j)
  }

  /** The inner loop: row i of the table from the row before it. */
  method FillRow(a: Bytes, b: Bytes, i: nat, prev: array<nat>, curr: array<nat>, ghost table: (nat, nat) -> nat)
    requires 1 <= i <= |a| && prev != curr && prev.Length == curr.Length == |b| + 1
    requires Tabulates(table, a, b, i) && IsRow(prev[..], table, i - 1)
    modifies curr
    ensures IsRow(curr[..], table, i)
  {
    assert forall k | 0 <= k <= |b| :: prev[..][k] == prev[k];
    curr[0] := i;
    for j := 1 to |b| + 1
      invariant forall k | 0 <= k < j :: curr[k] == table(i, k)
      invariant forall k | 0 <= k <= |b| :: prev[k] == table(i - 1, k)
    {
      var cost := 1;
      if a[i - 1] == b[j - 1] {
        cost := 0;
      }
      curr[j] := Min(curr[j - 1] + 1, Min(prev[j] + 1, prev[j - 1] + cost));
    }
  }

  method LevenshteinDistance(a: Bytes, b: Bytes) returns (d: nat)
    ensures d == Distance(a, b)
  {
    var la, lb := |a|, |b|;
    if la == 0 {
      return lb;
    }
    if lb == 0 {
      return la;
    }
    var prev := new nat[lb + 1];
    var curr := new nat[lb + 1];
    for j := 0 to lb + 1
      invariant forall k | 0 <= k < j :: prev[k] == k
    {
      prev[j] := j;
    }
    ghost var table := Table(a, b);
    assert a[..0] == [];
    assert IsRow(prev[..], table, 0);
    for i := 1 to la + 1
      invariant prev.Length == curr.Length == lb + 1 && prev != curr && fresh(prev) && fresh(curr)
      invariant IsRow(prev[..], table, i - 1)
    {
      TableTabulates(a, b, i);
      FillRow(a, b, i, prev, curr, table);
      prev, curr := curr, prev;
    }
    assert a[..la] == a && b[..lb] == b;
    assert prev[..][lb] == table(la, lb);
    d := prev[lb];
  }

  // ----- edit scripts

  datatype Edit = Keep | Substitute | Insert | Delete

  /** The script, read from its end, turns `a` into `b`: it uses up both strings exactly. */
  predicate Transforms(s: seq<Edit>, a: Bytes, b: Bytes) {
    if s == [] then a == [] && b == []
    else
      var rest := s[..|s| - 1];
      match s[|s| - 1]
      case Keep => a != [] && b != [] && Last(a) == Last(b) && Transforms(rest, Init(a), Init(b))
      case Substitute => a != [] && b != [] && Transforms(rest, Init(a), Init(b))
      case Insert => b != [] && Transforms(rest, a, Init(b))
      case Delete => a != [] && Transforms(rest, Init(a), b)
  }

  /** The number of insertions, deletions and substitutions. */
  function Cost(s: seq<Edit>): nat {
    if s == [] then 0 else Cost(s[..|s| - 1]) + if s[|s| - 1] == Keep then 0 else 1
  }

  lemma Snoc(s: seq<Edit>, e: Edit)
    ensures (s + [e])[..|s + [e]| - 1] == s && (s + [e])[|s + [e]| - 1] == e
    ensures Cost(s + [e]) == Cost(s) + if e == Keep then 0 else 1
  {
    assert (s + [e])[..|s|] == s;
  }

  /** Some script reaches the distance... */
  lemma {:induction false} BestScript(a: Bytes, b: Bytes) returns (s: seq<Edit>)
    ensures Transforms(s, a, b) && Cost(s) == Distance(a, b)
    decreases |a| + |b|
  {
    if a == [] && b == [] {
      s := [];
    } else if a == [] {
      s := BestScript(a, Init(b));
      Snoc(s, Insert);
      s := s + [Insert];
    } else if b == [] {
      s := BestScript(Init(a), b);
      Snoc(s, Delete);
      s := s + [Delete];
    } else {
      var d := Distance(a, b);
      if d == Distance(a, Init(b)) + 1 {
        s := BestScript(a, Init(b));
        Snoc(s, Insert);
        s := s + [Insert];
      } else if d == Distance(Init(a), b) + 1 {
        s := BestScript(Init(a), b);
        Snoc(s, Delete);
        s := s + [Delete];
      } else {
        s := BestScript(Init(a), Init(b));
        var e := if Last(a) == Last(b) then Keep else Substitute;
        Snoc(s, e);
        s := s + [e];
      }
    }
  }

  /** ...and no script is cheaper. */
  lemma {:induction false} NoCheaperScript(s: seq<Edit>, a: Bytes, b: Bytes)
    requires Transforms(s, a, b)
    ensures Distance(a, b) <= Cost(s)
  {
    if s != [] {
      var rest := s[..|s| - 1];
      match s[|s| - 1]
      case Keep => NoCheaperScript(rest, Init(a), Init(b));
      case Substitute => NoCheaperScript(rest, Init(a), Init(b));
      case Insert => NoCheaperScript(rest, a, Init(b));
      case Delete => NoCheaperScript(rest, Init(a), b);
    }
  }

  /** The computed distance is the least cost of a script from `a` to `b`. */
  lemma DistanceIsLeastCost(a: Bytes, b: Bytes)
    ensures exists s :: Transforms(s, a, b) && Cost(s) == Distance(a, b)
    ensures forall s | Transforms(s, a, b) :: Distance(a, b) <= Cost(s)
  {
    var s := BestScript(a, b);
    forall t | Transforms(t, a, b) ensures Distance(a, b) <= Cost(t) {
      NoCheaperScript(t, a, b);
    }
  }

  // ----- metric laws, by surgery on scripts

  lemma {:induction false} FreeScript(s: seq<Edit>, a: Bytes, b: Bytes)
    requires Transforms(s, a, b) && Cost(s) == 0
    ensures a == b
  {
    if s != [] {
      assert s[|s| - 1] == Keep;
      FreeScript(s[..|s| - 1], Init(a), Init(b));
      assert a == Init(a) + [Last(a)] && b == Init(b) + [Last(b)];
    }
  }

  lemma {:induction false} KeepAll(a: Bytes) returns (s: seq<Edit>)
    ensures Transforms(s, a, a) && Cost(s) == 0
  {
    if a == [] {
      s := [];
    } else {
      s := KeepAll(Init(a));
      Snoc(s, Keep);
      s := s + [Keep];
    }
  }

  lemma {:induction false} Reversal(s: seq<Edit>, a: Bytes, b: Bytes) returns (r: seq<Edit>)
    requires Transforms(s, a, b)
    ensures Transforms(r, b, a) && Cost(r) == Cost(s)
  {
    if s == [] {
      r := [];
    } else {
      var rest := s[..|s| - 1];
      match s[|s| - 1]
      case Keep => r := Reversal(rest, Init(a), Init(b)); Snoc(r, Keep); r := r + [Keep];
      case Substitute => r := Reversal(rest, Init(a), Init(b)); Snoc(r, Substitute); r := r + [Substitute];
      case Insert => r := Reversal(rest, a, Init(b)); Snoc(r, Delete); r := r + [Delete];
      case Delete => r := Reversal(rest, Init(a), b); Snoc(r, Insert); r := r + [Insert];
    }
  }

  /** Two scripts in a row can be merged into one that costs no more than both. */
  lemma {:induction false} Composition(s: seq<Edit>, t: seq<Edit>, a: Bytes, b: Bytes, c: Bytes) returns (r: seq<Edit>)
    requires Transforms(s, a, b) && Transforms(t, b, c)
    ensures Transforms(r, a, c) && Cost(r) <= Cost(s) + Cost(t)
    decreases |s| + |t|
  {
    if s == [] && t == [] {
      r := [];
    } else if s != [] && s[|s| - 1] == Delete {
      r := Composition(s[..|s| - 1], t, Init(a), b, c);
      Snoc(r, Delete);
      r := r + [Delete];
    } else if t != [] && t[|t| - 1] == Insert {
      r := Composition(s, t[..|t| - 1], a, b, Init(c));
      Snoc(r, Insert);
      r := r + [Insert];
    } else {
      // both scripts end by dealing with the last byte of b
      var (s', t') := (s[..|s| - 1], t[..|t| - 1]);
      var (e, f) := (s[|s| - 1], t[|t| - 1]);
      if e == Insert && f == Delete {
        r := Composition(s', t', a, Init(b), c);
      } else if e == Insert {
        r := Composition(s', t', a, Init(b), Init(c));
        Snoc(r, Insert);
        r := r + [Insert];
      } else if f == Delete {
        r := Composition(s', t', Init(a), Init(b), c);
        Snoc(r, Delete);
        r := r + [Delete];
      } else {
        r := Composition(s', t', Init(a), Init(b), Init(c));
        var g := if e == Keep && f == Keep then Keep else Substitute;
        Snoc(r, g);
        r := r + [g];
      }
    }
  }

  lemma {:induction false} ScriptLengths(s: seq<Edit>, a: Bytes, b: Bytes)
    requires Transforms(s, a, b)
    ensures |a| <= |b| + Cost(s) && |b| <= |a| + Cost(s)
  {
    if s != [] {
      var rest := s[..|s| - 1];
      match s[|s| - 1]
      case Keep => ScriptLengths(rest, Init(a), Init(b));
      case Substitute => ScriptLengths(rest, Init(a), Init(b));
      case Insert => ScriptLengths(rest, a, Init(b));
      case Delete => ScriptLengths(rest, Init(a), b);
    }
  }

  lemma {:induction false} DistanceAtMostLonger(a: Bytes, b: Bytes)
    ensures Distance(a, b) <= |a| || Distance(a, b) <= |b|
  {
    if a != [] && b != [] {
      DistanceAtMostLonger(Init(a), Init(b));
    }
  }

  /** Distance is a metric on byte strings, between the difference and the maximum of the lengths. */
  lemma DistanceIsMetric(a: Bytes, b: Bytes, c: Bytes)
    ensures Distance(a, b) == 0 <==> a == b
    ensures Distance(a, b) == Distance(b, a)
    ensures Distance(a, c) <= Distance(a, b) + Distance(b, c)
    ensures |a| - |b| <= Distance(a, b) && |b| - |a| <= Distance(a, b)
    ensures Distance(a, b) <= if |a| < |b| then |b| else |a|
  {
    var ab := BestScript(a, b);
    var ba := BestScript(b, a);
    var bc := BestScript(b, c);
    if Distance(a, b) == 0 {
      FreeScript(ab, a, b);
    }
    if a == b {
      var k := KeepAll(a);
      NoCheaperScript(k, a, a);
    }
    var r := Reversal(ab, a, b);
    NoCheaperScript(r, b, a);
    r := Reversal(ba, b, a);
    NoCheaperScript(r, a, b);
    r := Composition(ab, bc, a, b, c);
    NoCheaperScript(r, a, c);
    ScriptLengths(ab, a, b);
    DistanceAtMostLonger(a, b);
  }

  // ----- fuzzy score

  /** The similarity score over the reals; `lower` stands for the library's lower-casing. */
  function Score(lower: Bytes -> Bytes, query: Bytes, target: Bytes): real {
    var (q, t) := (lower(query), lower(target));
    var longer := if |q| < |t| then |t| else |q|;
    if longer == 0 then 1.0 else 1.0 - Distance(q, t) as real / longer as real
  }

  method FuzzyScore(lower: Bytes -> Bytes, query: Bytes, target: Bytes) returns (score: real)
    ensures score == Score(lower, query, target)
  {
    var (q, t) := (lower(query), lower(target));
    DistanceIsMetric(q, t, t);
    if q == t {
      return 1.0;
    }
    var maxLen := |q|;
    if |t| > maxLen {
      maxLen := |t|;
    }
    if maxLen == 0 {
      return 1.0;
    }
    var dist := LevenshteinDistance(q, t);
    score := 1.0 - dist as real / maxLen as real;
  }

  /** The score is this share of the length. */
  ghost predicate IsShare(score: real, part: int, length: nat) {
    score * length as real == part as real
  }

  lemma Quotient(d: nat, n: nat)
    requires n > 0
    ensures IsShare(1.0 - d as real / n as real, n - d, n)
  {
    var r := d as real / n as real;
    assert r * n as real == d as real;
  }

  /** The score is the share of the longer string that need not be edited, after lower-casing; two empty strings score 1. */
  lemma ScoreExactly(lower: Bytes -> Bytes, query: Bytes, target: Bytes, longer: nat)
    requires longer == |lower(query)| || longer == |lower(target)|
    requires longer >= |lower(query)| && longer >= |lower(target)|
    ensures longer == 0 ==> Score(lower, query, target) == 1.0
    ensures longer > 0 ==> IsShare(Score(lower, query, target), longer - Distance(lower(query), lower(target)), longer)
  {
    if longer > 0 {
      Quotient(Distance(lower(query), lower(target)), longer);
    }
  }

  /** Scores lie in [0,1], do not depend on the order, and are 1 exactly for strings equal up to case. */
  lemma ScoreBounds(lower: Bytes -> Bytes, query: Bytes, target: Bytes)
    ensures 0.0 <= Score(lower, query, target) <= 1.0
    ensures Score(lower, query, target) == 1.0 <==> lower(query) == lower(target)
    ensures Score(lower, query, target) == Score(lower, target, query)
  {
    var (q, t) := (lower(query), lower(target));
    DistanceIsMetric(q, t, t);
    var longer := if |q| < |t| then |t| else |q|;
    if longer > 0 {
      Ratio(Distance(q, t), longer);
    }
  }

  lemma Ratio(d: nat, n: nat)
    requires d <= n && n > 0
    ensures 0.0 <= d as real / n as real <= 1.0
    ensures d as real / n as real == 0.0 <==> d == 0
  {
    var r := d as real / n as real;
    assert r * n as real == d as real;
    assert r < 0.0 ==> r * n as real < 0.0;
    assert r > 1.0 ==> r * n as real > n as real;
  }
}
