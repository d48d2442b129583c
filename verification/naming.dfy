/** Field-name normalisation and the casing variants of a name, on ASCII text. */
module Naming {

  predicate IsLower(c: char) {
    'a' <= c <= 'z'
  }

  predicate IsUpper(c: char) {
    'A' <= c <= 'Z'
  }

  predicate IsDigit(c: char) {
    '0' <= c <= '9'
  }

  function ToLower(c: char): char {
    if IsUpper(c) then (c as int + 32) as char else c
  }

  function ToUpper(c: char): char {
    if IsLower(c) then (c as int - 32) as char else c
  }

  predicate IsSeparator(c: char) {
    c == '-' || c == '.' || c == ' '
  }

  predicate LowerOrDigit(c: char) {
    IsLower(c) || IsDigit(c)
  }

  /** What one character becomes after `prev`, the text before it in the name (its last character, or nothing). */
  function Piece(prev: string, c: char): string {
    if IsSeparator(c) then "_"
    else (if IsUpper(c) && prev != "" && LowerOrDigit(prev[|prev| - 1]) then "_" else "") + [ToLower(c)]
  }

  /** The normal form of `s` when it follows the text `prev`. */
  function SnakeAfter(prev: string, s: string): string
    decreases |s|
  {
    if s == "" then "" else Piece(prev, s[0]) + SnakeAfter(prev + [s[0]], s[1..])
  }

  function Snake(name: string): string {
    SnakeAfter("", name)
  }

  lemma {:induction false} SnakeAfterConcat(prev: string, a: string, b: string)
    ensures SnakeAfter(prev, a + b) == SnakeAfter(prev, a) + SnakeAfter(prev + a, b)
    decreases |a|
  {
    if a == "" {
      assert a + b == b && prev + a == prev;
    } else {
      assert (a + b)[1..] == a[1..] + b && prev + [a[0]] + a[1..] == prev + a;
      SnakeAfterConcat(prev + [a[0]], a[1..], b);
    }
  }

  lemma SnakeOfLast(s: string, c: char)
    ensures Snake(s + [c]) == Snake(s) + Piece(s, c)
  {
    SnakeAfterConcat("", s, [c]);
    assert "" + s == s && [c][1..] == "";
    assert SnakeAfter(s, [c]) == Piece(s, c) + "";
  }

  method NormalizeFieldName(name: string) returns (result: string)
    ensures result == Snake(name)
  {
    result := "";
    for i := 0 to |name|
      invariant result == Snake(name[..i])
    {
      var r := name[i];
      ghost var before := result;
      SnakeOfLast(name[..i], r);
      assert name[..i + 1] == name[..i] + [r];
      if IsSeparator(r) {
        result := result + "_";
        continue;
      }
      if IsUpper(r) && i > 0 {
        var prev := name[i - 1];
        if IsLower(prev) || IsDigit(prev) {
          result := result + "_";
          assert before + ("_" + [ToLower(r)]) == result + [ToLower(r)];
        }
      }
      result := result + [ToLower(r)];
    }
    assert name[..|name|] == name;
  }

  predicate EndsInWord(a: string) {
    a != "" && ('a' <= a[|a| - 1] <= 'z' || '0' <= a[|a| - 1] <= '9')
  }

  /** The normal form, one character after another. */
  lemma NormalFormGrows(a: string, c: char)
    ensures Snake("") == ""
    ensures c in {'-', '.', ' '} ==> Snake(a + [c]) == Snake(a) + "_"
    ensures 'A' <= c <= 'Z' && EndsInWord(a) ==> Snake(a + [c]) == Snake(a) + "_" + [(c as int + 32) as char]
    ensures 'A' <= c <= 'Z' && !EndsInWord(a) ==> Snake(a + [c]) == Snake(a) + [(c as int + 32) as char]
    ensures c !in {'-', '.', ' '} && !('A' <= c <= 'Z') ==> Snake(a + [c]) == Snake(a) + [c]
  {
    SnakeOfLast(a, c);
    if 'A' <= c <= 'Z' && EndsInWord(a) {
      assert Snake(a) + ("_" + [ToLower(c)]) == Snake(a) + "_" + [ToLower(c)];
    }
    assert Snake(a) + ("" + [ToLower(c)]) == Snake(a) + "" + [ToLower(c)];
  }

  /** No upper-case letter and no separator other than '_'. */
  ghost predicate IsClean(s: string) {
    forall c | c in s :: !IsUpper(c) && !IsSeparator(c)
  }

  lemma {:induction false} CleanIsNormal(prev: string, s: string)
    requires IsClean(s)
    ensures SnakeAfter(prev, s) == s
    decreases |s|
  {
    if s != "" {
      assert s[0] in s;
      CleanIsNormal(prev + [s[0]], s[1..]);
    }
  }

  lemma {:induction false} NormalIsClean(prev: string, s: string)
    ensures IsClean(SnakeAfter(prev, s))
    decreases |s|
  {
    if s != "" {
      NormalIsClean(prev + [s[0]], s[1..]);
      assert IsClean(Piece(prev, s[0]));
    }
  }

  /** Normalising twice is normalising once, for every name. */
  lemma SnakeIdempotent(name: string)
    ensures Snake(Snake(name)) == Snake(name)
  {
    NormalIsClean("", name);
    CleanIsNormal("", Snake(name));
  }

  // ----- parts

  function Join(parts: seq<string>, sep: string): string {
    if parts == [] then ""
    else if |parts| == 1 then parts[0]
    else parts[0] + sep + Join(parts[1..], sep)
  }

  /** `strings.Split(s, "_")`: always at least one part. */
  function Split(s: string): (parts: seq<string>)
    ensures parts != []
  {
    if s == "" then [""]
    else
      var rest := Split(s[1..]);
      if s[0] == '_' then [""] + rest else [[s[0]] + rest[0]] + rest[1..]
  }

  lemma {:induction false} JoinOfSplit(s: string)
    ensures Join(Split(s), "_") == s
    ensures forall p | p in Split(s) :: '_' !in p && forall c | c in p :: c in s
  {
    if s != "" {
      var rest := Split(s[1..]);
      JoinOfSplit(s[1..]);
      assert s == [s[0]] + s[1..];
      if s[0] == '_' {
        assert ([""] + rest)[1..] == rest;
      } else {
        var parts := [[s[0]] + rest[0]] + rest[1..];
        assert parts[1..] == rest[1..];
        assert Join(parts, "_") == [s[0]] + Join(rest, "_");
        assert forall p | p in parts :: p == [s[0]] + rest[0] || p in rest;
      }
    }
  }

  // ----- the variants

  function Capital(p: string): string {
    if |p| > 0 then [ToUpper(p[0])] + p[1..] else ""
  }

  function Capitals(parts: seq<string>): string {
    if parts == [] then "" else Capital(parts[0]) + Capitals(parts[1..])
  }

  function LowerAll(s: string): (r: string)
    ensures |r| == |s|
  {
    if s == "" then "" else [ToLower(s[0])] + LowerAll(s[1..])
  }

  function Camel(parts: seq<string>): string
    requires parts != []
  {
    LowerAll(parts[0]) + Capitals(parts[1..])
  }

  /** Keep the first of equal strings. */
  function Unique(list: seq<string>): seq<string> {
    if list == [] then []
    else
      var init, last := Unique(list[..|list| - 1]), list[|list| - 1];
      if last in init then init else init + [last]
  }

  function Variants(name: string): seq<string> {
    var parts := Split(Snake(name));
    Unique([Join(parts, "_"), Camel(parts), Capitals(parts), Join(parts, "-")])
  }

  lemma {:induction false} CapitalsConcat(a: seq<string>, b: seq<string>)
    ensures Capitals(a + b) == Capitals(a) + Capitals(b)
  {
    if a == [] {
      assert a + b == b;
    } else {
      assert (a + b)[1..] == a[1..] + b;
      CapitalsConcat(a[1..], b);
    }
  }

  lemma {:induction false} JoinOfCapitals(parts: seq<string>, capitals: seq<string>)
    requires |parts| == |capitals| && forall i | 0 <= i < |parts| :: capitals[i] == Capital(parts[i])
    ensures Join(capitals, "") == Capitals(parts)
  {
    if |parts| == 1 {
      assert parts[1..] == [];
    } else if parts != [] {
      JoinOfCapitals(parts[1..], capitals[1..]);
    }
  }

  lemma {:induction false} UniqueHolds(list: seq<string>, v: string)
    ensures v in Unique(list) <==> v in list
  {
    if list != [] {
      UniqueHolds(list[..|list| - 1], v);
      assert list == list[..|list| - 1] + [list[|list| - 1]];
    }
  }

  lemma JoinOfCamel(parts: seq<string>, list: seq<string>)
    requires |parts| == |list| > 0 && list[0] == LowerAll(parts[0])
    requires forall i | 1 <= i < |parts| :: list[i] == Capital(parts[i])
    ensures Join(list, "") == Camel(parts)
  {
    JoinOfCapitals(parts[1..], list[1..]);
  }

  method CamelCase(parts: seq<string>) returns (camel: string)
    requires parts != []
    ensures camel == Camel(parts)
  {
    var camelParts := new string[|parts|](_ => "");
    camelParts[0] := LowerAll(parts[0]);
    for i := 1 to |parts|
      invariant camelParts[0] == LowerAll(parts[0])
      invariant forall j | 1 <= j < |parts| :: camelParts[j] == if j < i then Capital(parts[j]) else ""
    {
      if |parts[i]| > 0 {
        camelParts[i] := [ToUpper(parts[i][0])] + parts[i][1..];
      }
    }
    camel := Join(camelParts[..], "");
    JoinOfCamel(parts, camelParts[..]);
  }

  method PascalCase(parts: seq<string>) returns (pascal: string)
    ensures pascal == Capitals(parts)
  {
    var pascalParts := new string[|parts|](_ => "");
    for i := 0 to |parts|
      invariant forall j | 0 <= j < |parts| :: pascalParts[j] == if j < i then Capital(parts[j]) else ""
    {
      if |parts[i]| > 0 {
        pascalParts[i] := [ToUpper(parts[i][0])] + parts[i][1..];
      }
    }
    var list := pascalParts[..];
    pascal := Join(list, "");
    JoinOfCapitals(parts, list);
  }

  method Deduplicate(list: seq<string>) returns (unique: seq<string>)
    ensures unique == Unique(list)
  {
    var seen: set<string> := {};
    unique := [];
    for k := 0 to |list|
      invariant unique == Unique(list[..k]) && forall v :: v in seen <==> v in unique
    {
      assert list[..k + 1][..k] == list[..k];
      if list[k] !in seen {
        seen := seen + {list[k]};
        unique := unique + [list[k]];
      }
    }
    assert list[..|list|] == list;
  }

  method NamingVariants(name: string) returns (variants: seq<string>)
    ensures variants == Variants(name)
  {
    var snake := NormalizeFieldName(name);
    var parts := Split(snake);
    var snakeCase := Join(parts, "_");
    var camelCase := CamelCase(parts);
    var pascalCase := PascalCase(parts);
    var kebabCase := Join(parts, "-");
    variants := Deduplicate([snakeCase, camelCase, pascalCase, kebabCase]);
  }

  // ----- which variants normalise back

  /** The text ends in a lower-case letter or a digit, so that a capital after it starts a new part. */
  predicate EndsSmall(s: string) {
    s != "" && LowerOrDigit(s[|s| - 1])
  }

  /** After the capitalised `p` the start of `q` can be seen: what precedes ends small, what follows starts with a letter. */
  predicate Seam(p: string, q: string) {
    q != "" && IsLower(q[0]) && EndsSmall(Capital(p))
  }

  ghost predicate Splittable(parts: seq<string>) {
    forall i | 0 <= i < |parts| - 1 :: Seam(parts[i], parts[i + 1])
  }

  function Boundary(prev: string, p: string): bool {
    p != "" && IsLower(p[0]) && EndsSmall(prev)
  }

  lemma CapitalPiece(prev: string, c: char)
    requires !IsUpper(c) && !IsSeparator(c)
    ensures Piece(prev, ToUpper(c)) == (if IsLower(c) && EndsSmall(prev) then "_" else "") + [c]
  {
    assert ToLower(ToUpper(c)) == c && !IsSeparator(ToUpper(c));
  }

  lemma HeadAndTail(head: string, p: string)
    requires p != ""
    ensures head + [p[0]] + p[1..] == head + p
  {
  }

  /** A capitalised clean part normalises to itself, after a '_' if its start can be seen. */
  lemma CapitalNormal(prev: string, p: string)
    requires IsClean(p)
    ensures SnakeAfter(prev, Capital(p)) == (if Boundary(prev, p) then "_" else "") + p
  {
    if p != "" {
      var c, head := Capital(p), (if Boundary(prev, p) then "_" else "");
      assert p[0] in p;
      assert c[1..] == p[1..];
      CapitalPiece(prev, p[0]);
      CleanIsNormal(prev + [c[0]], p[1..]);
      HeadAndTail(head, p);
    }
  }

  /** The parts, each after a '_'. */
  function Spelled(parts: seq<string>): string {
    if parts == [] then "" else "_" + parts[0] + Spelled(parts[1..])
  }

  lemma {:induction false} JoinIsSpelled(parts: seq<string>)
    requires parts != []
    ensures Join(parts, "_") == parts[0] + Spelled(parts[1..])
  {
    if |parts| > 1 {
      JoinIsSpelled(parts[1..]);
      assert parts[1..][1..] == parts[2..] && parts[1..][0] == parts[1];
    }
  }

  /** All boundaries can be seen, from the text before on. */
  predicate AllSeen(prev: string, parts: seq<string>)
    decreases |parts|
  {
    parts == [] || (Boundary(prev, parts[0]) && AllSeen(prev + Capital(parts[0]), parts[1..]))
  }

  lemma {:induction false} CapitalsNormal(prev: string, parts: seq<string>)
    requires forall p | p in parts :: IsClean(p)
    ensures |SnakeAfter(prev, Capitals(parts))| <= |Spelled(parts)|
    ensures SnakeAfter(prev, Capitals(parts)) == Spelled(parts) <==> AllSeen(prev, parts)
    decreases |parts|
  {
    if parts != [] {
      var p, rest := parts[0], parts[1..];
      var after := SnakeAfter(prev + Capital(p), Capitals(rest));
      CapitalNormal(prev, p);
      SnakeAfterConcat(prev, Capital(p), Capitals(rest));
      CapitalsNormal(prev + Capital(p), rest);
      if Boundary(prev, p) {
        assert ("_" + p + after)[|p| + 1..] == after;
        assert ("_" + p + Spelled(rest))[|p| + 1..] == Spelled(rest);
      }
    }
  }

  lemma SplittableRest(parts: seq<string>)
    requires |parts| > 1
    ensures Splittable(parts) <==> Seam(parts[0], parts[1]) && Splittable(parts[1..])
  {
    var rest := parts[1..];
    if Splittable(parts) {
      forall i | 0 <= i < |rest| - 1
        ensures Seam(rest[i], rest[i + 1])
      {
        assert Seam(parts[i + 1], parts[i + 2]);
      }
    }
    if Seam(parts[0], parts[1]) && Splittable(rest) {
      forall i | 0 <= i < |parts| - 1
        ensures Seam(parts[i], parts[i + 1])
      {
        assert i > 0 ==> Seam(rest[i - 1], rest[i]);
      }
    }
  }

  lemma EndsSmallLast(before: string, p: string)
    requires p != ""
    ensures EndsSmall(before + Capital(p)) == EndsSmall(Capital(p))
  {
  }

  lemma {:induction false} AllSeenIsSplittable(prev: string, parts: seq<string>)
    requires parts != [] && (EndsSmall(prev + Capital(parts[0])) <==> EndsSmall(Capital(parts[0])))
    ensures AllSeen(prev + Capital(parts[0]), parts[1..]) <==> Splittable(parts)
    decreases |parts|
  {
    if |parts| > 1 {
      var before := prev + Capital(parts[0]);
      SplittableRest(parts);
      assert parts[1..][0] == parts[1];
      if Seam(parts[0], parts[1]) {
        EndsSmallLast(before, parts[1]);
        AllSeenIsSplittable(before, parts[1..]);
      }
    }
  }

  lemma PrefixCancels(a: string, b: string, c: string)
    ensures a + b == a + c <==> b == c
  {
    assert (a + b)[|a|..] == b && (a + c)[|a|..] == c;
  }

  /** The first part, capitalised or not, normalises to itself. */
  lemma HeadNormal(first: string, tail: string)
    requires IsClean(first)
    ensures Snake(Capital(first) + tail) == first + SnakeAfter(Capital(first), tail)
    ensures Snake(first + tail) == first + SnakeAfter(first, tail)
  {
    CapitalNormal("", first);
    SnakeAfterConcat("", Capital(first), tail);
    CleanIsNormal("", first);
    SnakeAfterConcat("", first, tail);
    assert "" + Capital(first) == Capital(first) && "" + first == first;
  }

  lemma RestSeen(parts: seq<string>)
    requires parts != []
    ensures AllSeen(Capital(parts[0]), parts[1..]) <==> Splittable(parts)
  {
    assert "" + Capital(parts[0]) == Capital(parts[0]);
    AllSeenIsSplittable("", parts);
  }

  lemma PascalNormal(parts: seq<string>)
    requires parts != [] && forall p | p in parts :: IsClean(p)
    ensures Snake(Capitals(parts)) == Join(parts, "_") <==> Splittable(parts)
  {
    var first, rest := parts[0], parts[1..];
    HeadNormal(first, Capitals(rest));
    JoinIsSpelled(parts);
    CapitalsNormal(Capital(first), rest);
    RestSeen(parts);
    PrefixCancels(first, SnakeAfter(Capital(first), Capitals(rest)), Spelled(rest));
  }

  lemma {:induction false} LowerAllClean(s: string)
    requires IsClean(s)
    ensures LowerAll(s) == s
  {
    if s != "" {
      assert s[0] in s;
      LowerAllClean(s[1..]);
    }
  }

  /** A name that ends small when capitalised ends small as it is. */
  lemma UncapitalisedEndsSmall(p: string)
    requires EndsSmall(Capital(p))
    ensures EndsSmall(p)
  {
  }

  lemma {:induction false} AllSeenFrom(prev: string, other: string, parts: seq<string>)
    requires AllSeen(prev, parts) && (EndsSmall(prev) ==> EndsSmall(other))
    ensures AllSeen(other, parts)
    decreases |parts|
  {
    if parts != [] {
      EndsSmallLast(prev, parts[0]);
      EndsSmallLast(other, parts[0]);
      AllSeenFrom(prev + Capital(parts[0]), other + Capital(parts[0]), parts[1..]);
    }
  }

  lemma CamelNormal(parts: seq<string>)
    requires parts != [] && (forall p | p in parts :: IsClean(p)) && Splittable(parts)
    ensures Snake(Camel(parts)) == Join(parts, "_")
  {
    var first, rest := parts[0], parts[1..];
    LowerAllClean(first);
    HeadNormal(first, Capitals(rest));
    JoinIsSpelled(parts);
    RestSeen(parts);
    if EndsSmall(Capital(first)) {
      UncapitalisedEndsSmall(first);
    }
    AllSeenFrom(Capital(first), first, rest);
    CapitalsNormal(first, rest);
  }

  lemma {:induction false} KebabAfter(prev: string, parts: seq<string>)
    requires parts != [] && forall p | p in parts :: IsClean(p)
    ensures SnakeAfter(prev, Join(parts, "-")) == Join(parts, "_")
    decreases |parts|
  {
    var p := parts[0];
    CleanIsNormal(prev, p);
    if |parts| > 1 {
      var rest := Join(parts[1..], "-");
      SnakeAfterConcat(prev, p + "-", rest);
      SnakeAfterConcat(prev, p, "-");
      assert "-"[1..] == "" && Piece(prev + p, '-') + "" == "_";
      KebabAfter(prev + (p + "-"), parts[1..]);
      assert Join(parts, "-") == p + "-" + rest;
    }
  }

  /** The parts of a normalised name are clean. */
  lemma PartsAreClean(name: string)
    ensures forall p | p in Split(Snake(name)) :: IsClean(p)
  {
    NormalIsClean("", name);
    JoinOfSplit(Snake(name));
  }

  /**
    * Every casing variant of a name normalises back to the name's normal form exactly if each part but the first starts
    * with a letter and each part but the last, once capitalised, ends in a lower-case letter or a digit.
    */
  lemma VariantsNormaliseBack(name: string)
    ensures (forall v | v in Variants(name) :: Snake(v) == Snake(name)) <==> Splittable(Split(Snake(name)))
  {
    var parts := Split(Snake(name));
    PartsAreClean(name);
    JoinOfSplit(Snake(name));
    SnakeIdempotent(name);
    KebabAfter("", parts);
    PascalNormal(parts);
    var list := [Join(parts, "_"), Camel(parts), Capitals(parts), Join(parts, "-")];
    forall v
      ensures v in Variants(name) <==> v in list
    {
      UniqueHolds(list, v);
    }
    if Splittable(parts) {
      CamelNormal(parts);
    }
    assert Capitals(parts) in list;
  }

  /** In particular, if every part has at least two characters and starts with a letter, and all are letters and digits. */
  lemma OrdinaryNamesNormaliseBack(name: string)
    requires forall p | p in Split(Snake(name)) :: |p| >= 2 && IsLower(p[0]) && forall c | c in p :: LowerOrDigit(c)
    ensures forall v | v in Variants(name) :: Snake(v) == Snake(name)
  {
    var parts := Split(Snake(name));
    forall i | 0 <= i < |parts| - 1
      ensures Seam(parts[i], parts[i + 1])
    {
      var p := parts[i];
      assert p in parts && p[|p| - 1] in p && Capital(p)[|p| - 1] == p[|p| - 1];
      assert parts[i + 1] in parts;
    }
    VariantsNormaliseBack(name);
  }

  // ----- the variants of a name with several parts

  predicate StartSmall(parts: seq<string>) {
    forall i | 0 <= i < |parts| :: parts[i] != "" && 'a' <= parts[i][0] <= 'z'
  }

  /** Each part with its first letter raised, one after another. */
  function Raised(parts: seq<string>): string
    requires StartSmall(parts)
  {
    if parts == [] then "" else [(parts[0][0] as int - 32) as char] + parts[0][1..] + Raised(parts[1..])
  }

  function Dashed(s: string): string {
    seq(|s|, i requires 0 <= i < |s| => if s[i] == '_' then '-' else s[i])
  }

  lemma {:induction false} CapitalsAreRaised(parts: seq<string>)
    requires StartSmall(parts)
    ensures Capitals(parts) == Raised(parts)
  {
    if parts != [] {
      CapitalsAreRaised(parts[1..]);
    }
  }

  lemma {:induction false} JoinedIsDashed(parts: seq<string>)
    requires forall p | p in parts :: '_' !in p
    ensures Join(parts, "-") == Dashed(Join(parts, "_"))
  {
    if |parts| == 1 {
      assert parts[0] in parts;
      assert Dashed(parts[0]) == parts[0];
    } else if parts != [] {
      assert parts[0] in parts;
      JoinedIsDashed(parts[1..]);
      var p, rest := parts[0], Join(parts[1..], "_");
      assert Dashed(p + "_" + rest) == p + "-" + Dashed(rest);
    }
  }

  lemma {:induction false} CapitalsLack(parts: seq<string>, c: char)
    requires (forall p | p in parts :: c !in p) && !IsUpper(c)
    ensures c !in Capitals(parts)
  {
    if parts != [] {
      assert parts[0] in parts;
      CapitalsLack(parts[1..], c);
      assert c !in Capital(parts[0]);
    }
  }

  lemma UniqueOfFour(a: string, b: string, c: string, d: string)
    requires a != b && a != c && a != d && b != c && b != d && c != d
    ensures Unique([a, b, c, d]) == [a, b, c, d]
  {
    assert [a, b, c, d][..3] == [a, b, c] && [a, b, c][..2] == [a, b] && [a, b][..1] == [a] && [a][..0] == [];
    assert Unique([a]) == [a];
    assert Unique([a, b]) == [a, b];
    assert Unique([a, b, c]) == [a, b, c];
  }

  lemma CleanHasNoDash(parts: seq<string>)
    requires forall p | p in parts :: IsClean(p)
    ensures forall p | p in parts :: '-' !in p
  {
    assert IsSeparator('-');
  }

  /** Neither camel nor Pascal case has a separator, and they start differently. */
  lemma CasesDiffer(parts: seq<string>)
    requires parts != [] && StartSmall(parts) && forall p | p in parts :: IsClean(p) && '_' !in p
    ensures '_' !in Camel(parts) && '_' !in Capitals(parts) && '-' !in Camel(parts) && '-' !in Capitals(parts)
    ensures Camel(parts) != Capitals(parts)
  {
    var first, rest := parts[0], parts[1..];
    assert first in parts;
    CleanHasNoDash(parts);
    LowerAllClean(first);
    CapitalsLack(parts, '_');
    CapitalsLack(parts, '-');
    CapitalsLack(rest, '_');
    CapitalsLack(rest, '-');
    assert Camel(parts)[0] == first[0] && Capitals(parts)[0] == ToUpper(first[0]);
  }

  /** Of snake and kebab case each has its own separator. */
  lemma JoinsDiffer(parts: seq<string>)
    requires |parts| > 1 && forall p | p in parts :: '_' !in p
    ensures '_' in Join(parts, "_") && '-' in Join(parts, "-") && '_' !in Join(parts, "-")
  {
    JoinedIsDashed(parts);
    assert Join(parts, "_")[|parts[0]|] == '_' && Join(parts, "-")[|parts[0]|] == '-';
  }

  /** Parts that start with a letter: the name in snake, camel, Pascal and kebab case, in this order. */
  lemma VariantsInOrder(name: string, first: string, rest: seq<string>)
    requires Split(Snake(name)) == [first] + rest && rest != []
    requires StartSmall([first] + rest) && StartSmall(rest)
    ensures Variants(name) == [Snake(name), first + Raised(rest), Raised([first] + rest), Dashed(Snake(name))]
  {
    var parts := [first] + rest;
    assert parts[0] == first && parts[1..] == rest;
    PartsAreClean(name);
    JoinOfSplit(Snake(name));
    CasesDiffer(parts);
    JoinsDiffer(parts);
    LowerAllClean(first);
    CapitalsAreRaised(parts);
    CapitalsAreRaised(rest);
    JoinedIsDashed(parts);
    UniqueOfFour(Join(parts, "_"), Camel(parts), Capitals(parts), Join(parts, "-"));
  }

  lemma UniqueOfTwice(a: string, b: string)
    requires a != b
    ensures Unique([a, a, b, a]) == [a, b]
  {
    assert [a, a, b, a][..3] == [a, a, b] && [a, a, b][..2] == [a, a] && [a, a][..1] == [a] && [a][..0] == [];
    assert Unique([a]) == [a];
    assert Unique([a, a]) == [a];
    assert Unique([a, a, b]) == [a, b];
  }

  /** A single part that starts with a letter: as it is and with that letter raised. */
  lemma VariantsOfOnePart(name: string)
    requires Split(Snake(name)) == [Snake(name)] && StartSmall([Snake(name)])
    ensures Variants(name) == [Snake(name), Raised([Snake(name)])]
  {
    var part := Snake(name);
    var parts := [part];
    NormalIsClean("", name);
    LowerAllClean(part);
    CapitalsAreRaised(parts);
    assert parts[1..] == [] && Raised([]) == "" && part + "" == part;
    assert Raised(parts) == [(part[0] as int - 32) as char] + part[1..];
    UniqueOfTwice(part, Raised(parts));
  }
}
