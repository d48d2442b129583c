/** Byte-wise string order and decimal printing, as Go's `<` on strings and `%d` give them. */
module Text {

  function Digit(d: nat): char
    requires d < 10
  {
    (48 + d) as char
  }

  /** Decimal digits of a natural number, most significant first, without leading zeros. */
  function DecNat(n: nat): (s: string)
    ensures s != [] && forall c | c in s :: '0' <= c <= '9'
  {
    if n < 10 then [Digit(n)] else DecNat(n / 10) + [Digit(n % 10)]
  }

  function Dec(n: int): (s: string)
    ensures s != [] && forall c | c in s :: c == '-' || '0' <= c <= '9'
  {
    if n < 0 then "-" + DecNat(-n) else DecNat(n)
  }

  function ValueOf(s: string): int {
    if s == [] then 0 else 10 * ValueOf(s[..|s| - 1]) + (s[|s| - 1] as int - 48)
  }

  lemma {:induction false} ValueOfDecNat(n: nat)
    ensures ValueOf(DecNat(n)) == n
  {
    var s := DecNat(n);
    if n < 10 {
      assert s[..0] == [];
    } else {
      ValueOfDecNat(n / 10);
      assert s[..|s| - 1] == DecNat(n / 10);
    }
  }

  /** There are no leading zeros. */
  lemma {:induction false} NoLeadingZero(n: nat)
    ensures n > 0 ==> DecNat(n)[0] != '0'
    ensures n == 0 ==> DecNat(n) == "0"
  {
    if n >= 10 {
      NoLeadingZero(n / 10);
    }
  }

  lemma DecInjective(m: int, n: int)
    requires Dec(m) == Dec(n)
    ensures m == n
  {
    ValueOfDecNat(if m < 0 then -m else m);
    ValueOfDecNat(if n < 0 then -n else n);
    assert m < 0 ==> Dec(m)[1..] == DecNat(-m) && Dec(m)[0] == '-';
    assert n < 0 ==> Dec(n)[1..] == DecNat(-n) && Dec(n)[0] == '-';
    assert m >= 0 ==> Dec(m)[0] in Dec(m);
    assert n >= 0 ==> Dec(n)[0] in Dec(n);
  }

  /** Go's `a < b` on strings. */
  predicate Less(a: string, b: string) {
    b != [] && (a == [] || a[0] < b[0] || (a[0] == b[0] && Less(a[1..], b[1..])))
  }

  lemma {:induction false} LessTotal(a: string, b: string)
    ensures (a == b) || Less(a, b) || Less(b, a)
    ensures !(Less(a, b) && Less(b, a))
    ensures a == b ==> !Less(a, b)
  {
    if a != [] && b != [] && a[0] == b[0] {
      LessTotal(a[1..], b[1..]);
      assert a == [a[0]] + a[1..] && b == [b[0]] + b[1..];
    }
  }

  lemma {:induction false} LessTransitive(a: string, b: string, c: string)
    requires Less(a, b) && Less(b, c)
    ensures Less(a, c)
  {
    if a != [] && a[0] == b[0] && b[0] == c[0] {
      LessTransitive(a[1..], b[1..], c[1..]);
    }
  }

  /** The two strings agree up to `i`; there the first ends, or has the smaller character. */
  predicate DiffersAt(a: string, b: string, i: nat) {
    i <= |a| && i < |b| && a[..i] == b[..i] && (i == |a| || a[i] < b[i])
  }

  lemma SameFirst(a: string, b: string, i: nat)
    requires DiffersAt(a, b, i) && a != [] && a[0] >= b[0]
    ensures i > 0 && a[0] == b[0]
  {
    if i > 0 {
      assert a[..i][0] == a[0] && b[..i][0] == b[0];
    }
  }

  lemma DiffersLater(a: string, b: string, i: nat)
    requires a != [] && b != [] && a[0] == b[0]
    ensures DiffersAt(a[1..], b[1..], i) <==> DiffersAt(a, b, i + 1)
  {
    if i < |b| && i < |a| {
      assert a[..i + 1] == [a[0]] + a[1..][..i] && b[..i + 1] == [b[0]] + b[1..][..i];
      assert a[..i + 1][1..] == a[1..][..i] && b[..i + 1][1..] == b[1..][..i];
    }
  }

  /** A string comes before another exactly if it is a proper prefix or has the smaller character where they first differ. */
  lemma {:induction false} LessExactly(a: string, b: string)
    ensures Less(a, b) <==> exists i: nat :: DiffersAt(a, b, i)
  {
    if b != [] && (a == [] || a[0] < b[0]) {
      assert DiffersAt(a, b, 0);
    } else if b != [] {
      forall i: nat | DiffersAt(a, b, i)
        ensures i > 0 && a[0] == b[0]
      {
        SameFirst(a, b, i);
      }
      if a[0] == b[0] {
        LessExactly(a[1..], b[1..]);
        forall i: nat {
          DiffersLater(a, b, i);
        }
        if exists i: nat :: DiffersAt(a, b, i) {
          var i: nat :| DiffersAt(a, b, i);
          assert DiffersAt(a[1..], b[1..], i - 1);
        }
      }
    }
  }
}
