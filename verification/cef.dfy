/** The Common Event Format line of an audit event, and a reader that recovers what was printed. */
module Cef {
  import opened Options
  import opened Text

  // ----- escaping

  /** Go's `strings.ReplaceAll` for a one-character pattern. */
  function ReplaceAll(s: string, target: char, image: string): string {
    if s == [] then [] else (if s[0] == target then image else [s[0]]) + ReplaceAll(s[1..], target, image)
  }

  function EscapeHeader(s: string): string {
    ReplaceAll(ReplaceAll(s, '\\', "\\\\"), '|', "\\|")
  }

  function EscapeValue(s: string): string {
    ReplaceAll(ReplaceAll(ReplaceAll(ReplaceAll(s, '\\', "\\\\"), '=', "\\="), '\n', "\\n"), '\r', "\\r")
  }

  function HeaderEscape(c: char): string {
    if c == '\\' then "\\\\" else if c == '|' then "\\|" else [c]
  }

  function ValueEscape(c: char): string {
    if c == '\\' then "\\\\" else if c == '=' then "\\=" else if c == '\n' then "\\n" else if c == '\r' then "\\r" else [c]
  }

  /** One pass over the string, each character replaced on its own. */
  function Mapped(s: string, f: char -> string): string {
    if s == [] then [] else f(s[0]) + Mapped(s[1..], f)
  }

  lemma {:induction false} ReplaceAllConcat(a: string, b: string, target: char, image: string)
    ensures ReplaceAll(a + b, target, image) == ReplaceAll(a, target, image) + ReplaceAll(b, target, image)
  {
    if a == [] {
      assert a + b == b;
    } else {
      assert (a + b)[1..] == a[1..] + b;
      ReplaceAllConcat(a[1..], b, target, image);
    }
  }

  lemma {:induction false} EscapeHeaderIsOnePass(s: string)
    ensures EscapeHeader(s) == Mapped(s, HeaderEscape)
  {
    if s != [] {
      EscapeHeaderIsOnePass(s[1..]);
      var head := if s[0] == '\\' then "\\\\" else [s[0]];
      ReplaceAllConcat(head, ReplaceAll(s[1..], '\\', "\\\\"), '|', "\\|");
      assert ReplaceAll(head, '|', "\\|") == HeaderEscape(s[0]);
    }
  }

  /** The four replacements of one character, each of which may see the output of the one before. */
  lemma ValueEscapeChain(c: char)
    ensures EscapeValue([c]) == ValueEscape(c)
  {
    var a := if c == '\\' then "\\\\" else [c];
    assert ReplaceAll([c], '\\', "\\\\") == a;
    var b := if c == '=' then "\\=" else a;
    assert ReplaceAll(a, '=', "\\=") == b;
    var d := if c == '\n' then "\\n" else b;
    assert ReplaceAll(b, '\n', "\\n") == d;
    assert ReplaceAll(d, '\r', "\\r") == ValueEscape(c);
  }

  /** In a value backslash, equals sign, line feed and carriage return are escaped; in the header backslash and pipe. */
  lemma EscapedCharacters(c: char)
    ensures EscapeValue("\\") == "\\\\" && EscapeValue("=") == "\\=" && EscapeValue("\n") == "\\n" && EscapeValue("\r") == "\\r"
    ensures c !in {'\\', '=', '\n', '\r'} ==> EscapeValue([c]) == [c]
    ensures EscapeHeader("\\") == "\\\\" && EscapeHeader("|") == "\\|"
    ensures c !in {'\\', '|'} ==> EscapeHeader([c]) == [c]
  {
    ValueEscapeChain('\\');
    ValueEscapeChain('=');
    ValueEscapeChain('\n');
    ValueEscapeChain('\r');
    ValueEscapeChain(c);
    HeaderEscapeChain('\\');
    HeaderEscapeChain('|');
    HeaderEscapeChain(c);
  }

  lemma HeaderEscapeChain(c: char)
    ensures EscapeHeader([c]) == HeaderEscape(c)
  {
    var a := if c == '\\' then "\\\\" else [c];
    assert ReplaceAll([c], '\\', "\\\\") == a;
    assert ReplaceAll(a, '|', "\\|") == HeaderEscape(c);
  }

  lemma EscapeValueConcat(a: string, b: string)
    ensures EscapeValue(a + b) == EscapeValue(a) + EscapeValue(b)
  {
    ReplaceAllConcat(a, b, '\\', "\\\\");
    var a1, b1 := ReplaceAll(a, '\\', "\\\\"), ReplaceAll(b, '\\', "\\\\");
    ReplaceAllConcat(a1, b1, '=', "\\=");
    var a2, b2 := ReplaceAll(a1, '=', "\\="), ReplaceAll(b1, '=', "\\=");
    ReplaceAllConcat(a2, b2, '\n', "\\n");
    ReplaceAllConcat(ReplaceAll(a2, '\n', "\\n"), ReplaceAll(b2, '\n', "\\n"), '\r', "\\r");
  }

  lemma {:induction false} EscapeValueIsOnePass(s: string)
    ensures EscapeValue(s) == Mapped(s, ValueEscape)
  {
    if s != [] {
      EscapeValueIsOnePass(s[1..]);
      EscapeValueConcat([s[0]], s[1..]);
      ValueEscapeChain(s[0]);
      assert s == [s[0]] + s[1..];
    }
  }

  lemma {:induction false} MappedConcat(a: string, b: string, f: char -> string)
    ensures Mapped(a + b, f) == Mapped(a, f) + Mapped(b, f)
  {
    if a == [] {
      assert a + b == b;
    } else {
      assert (a + b)[1..] == a[1..] + b;
      MappedConcat(a[1..], b, f);
    }
  }

  /** The number of consecutive backslashes that end at position `k`. */
  function Backslashes(s: string, k: nat): nat
    requires k <= |s|
  {
    if k == 0 || s[k - 1] != '\\' then 0 else Backslashes(s, k - 1) + 1
  }

  lemma {:induction false} BackslashesPrefix(s: string, t: string, k: nat)
    requires k <= |s|
    ensures Backslashes(s + t, k) == Backslashes(s, k)
  {
    if k > 0 {
      assert (s + t)[k - 1] == s[k - 1];
      BackslashesPrefix(s, t, k - 1);
    }
  }

  /** Every '=' left in an escaped value is itself escaped: an odd run of backslashes precedes it. */
  lemma {:induction false} EqualsAreEscaped(s: string, k: nat)
    requires k < |EscapeValue(s)| && EscapeValue(s)[k] == '='
    ensures Backslashes(EscapeValue(s), k) % 2 == 1
  {
    EscapeValueIsOnePass(s);
    RunsAreEven(s, k);
  }

  /** One more escaped character: after it the run is even again, and an '=' in it is preceded by an odd run. */
  lemma RunAfterCharacter(before: string, c: char, k: nat)
    requires Backslashes(before, |before|) % 2 == 0
    requires |before| <= k <= |before + ValueEscape(c)|
    ensures k == |before + ValueEscape(c)| ==> Backslashes(before + ValueEscape(c), k) % 2 == 0
    ensures k < |before + ValueEscape(c)| && (before + ValueEscape(c))[k] == '=' ==>
              Backslashes(before + ValueEscape(c), k) % 2 == 1
  {
    var last := ValueEscape(c);
    var all := before + last;
    var n := |before|;
    BackslashesPrefix(before, last, n);
    assert all[n] == last[0];
    assert Backslashes(all, n + 1) == if last[0] == '\\' then Backslashes(all, n) + 1 else 0;
    if |last| == 2 {
      assert all[n + 1] == last[1];
      assert Backslashes(all, n + 2) == if last[1] == '\\' then Backslashes(all, n + 1) + 1 else 0;
    }
  }

  lemma {:induction false} RunsAreEven(s: string, k: nat)
    requires k <= |Mapped(s, ValueEscape)|
    ensures k == |Mapped(s, ValueEscape)| ==> Backslashes(Mapped(s, ValueEscape), k) % 2 == 0
    ensures k < |Mapped(s, ValueEscape)| && Mapped(s, ValueEscape)[k] == '=' ==>
              Backslashes(Mapped(s, ValueEscape), k) % 2 == 1
  {
    if s != [] {
      var init, c := s[..|s| - 1], s[|s| - 1];
      var before := Mapped(init, ValueEscape);
      assert Mapped(s, ValueEscape) == before + ValueEscape(c) by {
        assert s == init + [c];
        MappedConcat(init, [c], ValueEscape);
        assert Mapped([c], ValueEscape) == ValueEscape(c);
      }
      if k < |before| {
        BackslashesPrefix(before, ValueEscape(c), k);
        RunsAreEven(init, k);
      } else {
        RunsAreEven(init, |before|);
        RunAfterCharacter(before, c, k);
      }
    }
  }

  // ----- reading the extension back

  /** A separator '=', or a character of a key or a value with its escape undone. */
  datatype Token = Equals | Lit(c: char)

  function Unescaped(c: char): char {
    if c == 'n' then '\n' else if c == 'r' then '\r' else c
  }

  function Tokens(s: string): seq<Token> {
    if s == [] then []
    else if s[0] == '\\' && |s| >= 2 then [Lit(Unescaped(s[1]))] + Tokens(s[2..])
    else [if s[0] == '=' then Equals else Lit(s[0])] + Tokens(s[1..])
  }

  function Lits(s: string): (t: seq<Token>)
    ensures |t| == |s|
  {
    if s == [] then [] else [Lit(s[0])] + Lits(s[1..])
  }

  function Chars(t: seq<Token>): string {
    if t == [] then [] else [if t[0].Lit? then t[0].c else '='] + Chars(t[1..])
  }

  lemma CharsOfFirst(c: char, t: seq<Token>)
    ensures Chars([Lit(c)] + t) == [c] + Chars(t)
  {
    assert ([Lit(c)] + t)[1..] == t;
  }

  lemma {:induction false} CharsOfLits(s: string)
    ensures Chars(Lits(s)) == s
  {
    if s != [] {
      CharsOfLits(s[1..]);
      CharsOfFirst(s[0], Lits(s[1..]));
      assert s == [s[0]] + s[1..];
    }
  }

  lemma {:induction false} LitsHold(s: string, x: Token)
    ensures x in Lits(s) <==> x.Lit? && x.c in s
  {
    if s != [] {
      LitsHold(s[1..], x);
      assert s == [s[0]] + s[1..];
    }
  }

  function Unescape(s: string): string {
    Chars(Tokens(s))
  }

  lemma TokensOfCharacter(c: char, rest: string)
    ensures Tokens(ValueEscape(c) + rest) == [Lit(c)] + Tokens(rest)
  {
    var head := ValueEscape(c);
    var all := head + rest;
    assert all[|head|..] == rest && all[0] == head[0];
    assert |head| == 2 ==> all[1] == head[1];
  }

  lemma {:induction false} TokensOfValue(v: string, rest: string)
    ensures Tokens(EscapeValue(v) + rest) == Lits(v) + Tokens(rest)
  {
    if v == [] {
      assert EscapeValue(v) + rest == rest;
    } else {
      var tail := EscapeValue(v[1..]) + rest;
      assert EscapeValue(v) + rest == ValueEscape(v[0]) + tail by {
        EscapeValueIsOnePass(v);
        EscapeValueIsOnePass(v[1..]);
      }
      TokensOfValue(v[1..], rest);
      TokensOfCharacter(v[0], tail);
      assert Lits(v) + Tokens(rest) == [Lit(v[0])] + (Lits(v[1..]) + Tokens(rest));
    }
  }

  /** Undoing the escapes of a value gives the value back. */
  lemma UnescapeInverts(v: string)
    ensures Unescape(EscapeValue(v)) == v
  {
    TokensOfValue(v, []);
    assert EscapeValue(v) + [] == EscapeValue(v);
    assert Lits(v) + Tokens([]) == Lits(v);
    CharsOfLits(v);
  }

  datatype Field = Field(key: string, value: string)

  /** What the reader asks of a key: no space, no '=', no backslash. */
  predicate PlainKey(key: string) {
    forall i | 0 <= i < |key| :: key[i] != ' ' && key[i] != '=' && key[i] != '\\'
  }

  predicate PlainKeys(fields: seq<Field>) {
    forall f | f in fields :: PlainKey(f.key)
  }

  function FieldText(key: string, value: string): string {
    key + "=" + EscapeValue(value)
  }

  function Appended(ext: string, key: string, value: string): string {
    (if |ext| > 0 then ext + " " else ext) + FieldText(key, value)
  }

  function Extension(fields: seq<Field>): string {
    if fields == [] then ""
    else
      var f := fields[|fields| - 1];
      Appended(Extension(fields[..|fields| - 1]), f.key, f.value)
  }

  /** The position of the last `x`, or -1. */
  function LastIndex(t: seq<Token>, x: Token): (i: int)
    ensures -1 <= i < |t|
  {
    if t == [] then -1
    else if t[|t| - 1] == x then |t| - 1
    else LastIndex(t[..|t| - 1], x)
  }

  /**
    * A reader of the extension: the last separator splits off the last value, the last space before that
    * separator splits off its key, and what is before the space is read in the same way.
    */
  function ReadFields(t: seq<Token>): seq<Field>
    decreases |t|
  {
    var i := LastIndex(t, Equals);
    if i < 0 then [] else
      var k := LastIndex(t[..i], Lit(' '));
      var f := Field(Chars(t[k + 1..i]), Chars(t[i + 1..]));
      if k < 0 then [f] else ReadFields(t[..k]) + [f]
  }

  lemma {:induction false} LastIndexAt(a: seq<Token>, x: Token, b: seq<Token>)
    requires x !in b
    ensures LastIndex(a + [x] + b, x) == |a|
  {
    var t := a + [x] + b;
    if b == [] {
      assert t == a + [x];
    } else {
      assert t[|t| - 1] == b[|b| - 1] && b[|b| - 1] in b;
      assert t[..|t| - 1] == a + [x] + b[..|b| - 1];
      LastIndexAt(a, x, b[..|b| - 1]);
    }
  }

  lemma {:induction false} LastIndexNone(t: seq<Token>, x: Token)
    requires x !in t
    ensures LastIndex(t, x) == -1
  {
    if t != [] {
      assert t[|t| - 1] in t;
      LastIndexNone(t[..|t| - 1], x);
    }
  }

  function FieldTokens(f: Field): seq<Token> {
    Lits(f.key) + [Equals] + Lits(f.value)
  }

  /** The tokens of the fields: a space before every field but the first. */
  function Flat(fields: seq<Field>): seq<Token> {
    if fields == [] then []
    else
      var init, f := fields[..|fields| - 1], fields[|fields| - 1];
      if init == [] then FieldTokens(f) else Flat(init) + [Lit(' ')] + FieldTokens(f)
  }

  lemma {:induction false} TokensOfKey(key: string, rest: string)
    requires PlainKey(key)
    ensures Tokens(key + rest) == Lits(key) + Tokens(rest)
  {
    if key == [] {
      assert key + rest == rest;
    } else {
      assert (key + rest)[1..] == key[1..] + rest;
      assert key[0] in key;
      TokensOfKey(key[1..], rest);
      assert Lits(key) == [Lit(key[0])] + Lits(key[1..]);
    }
  }

  lemma TokensOfField(f: Field, rest: string)
    requires PlainKey(f.key)
    ensures Tokens(FieldText(f.key, f.value) + rest) == FieldTokens(f) + Tokens(rest)
  {
    var v := EscapeValue(f.value) + rest;
    assert FieldText(f.key, f.value) + rest == f.key + ("=" + v);
    TokensOfKey(f.key, "=" + v);
    assert ("=" + v)[1..] == v;
    TokensOfValue(f.value, rest);
  }

  lemma TokensOfSpace(rest: string)
    ensures Tokens(" " + rest) == [Lit(' ')] + Tokens(rest)
  {
    assert (" " + rest)[1..] == rest;
  }

  lemma ExtensionOfLast(fields: seq<Field>, f: Field)
    ensures fields == [] ==> Extension(fields + [f]) == FieldText(f.key, f.value)
    ensures fields != [] ==> Extension(fields + [f]) == Extension(fields) + " " + FieldText(f.key, f.value)
    ensures fields == [] ==> Flat(fields + [f]) == FieldTokens(f)
    ensures fields != [] ==> Flat(fields + [f]) == Flat(fields) + [Lit(' ')] + FieldTokens(f)
  {
    assert (fields + [f])[..|fields + [f]| - 1] == fields;
  }

  lemma ExtensionEmpty(fields: seq<Field>)
    ensures |Extension(fields)| == 0 <==> fields == []
  {
  }

  lemma Associative<T>(a: seq<T>, b: seq<T>, c: seq<T>, d: seq<T>)
    ensures a + b + c + d == a + (b + (c + d)) == a + (b + c + d)
  {
  }

  lemma {:induction false} TokensOfExtension(fields: seq<Field>, rest: string)
    requires PlainKeys(fields)
    ensures Tokens(Extension(fields) + rest) == Flat(fields) + Tokens(rest)
  {
    if fields == [] {
      assert Extension(fields) + rest == rest;
    } else {
      var init, f := fields[..|fields| - 1], fields[|fields| - 1];
      assert fields == init + [f];
      ExtensionOfLast(init, f);
      TokensOfField(f, rest);
      if init != [] {
        var text := FieldText(f.key, f.value);
        TokensOfExtension(init, " " + (text + rest));
        TokensOfSpace(text + rest);
        Associative(Extension(init), " ", text, rest);
        Associative(Flat(init), [Lit(' ')], FieldTokens(f), Tokens(rest));
      }
    }
  }

  lemma Slices<T>(a: seq<T>, k: seq<T>, x: T, v: seq<T>)
    ensures (a + k + [x] + v)[..|a| + |k|] == a + k
    ensures (a + k + [x] + v)[|a| + |k| + 1..] == v
    ensures (a + k + [x] + v)[|a|..|a| + |k|] == k
    ensures a != [] ==> (a + k + [x] + v)[..|a| - 1] == a[..|a| - 1]
  {
  }

  /** One step of the reader, on a list cut at its last separator and at the last space before that. */
  lemma ReadFieldsStep(t: seq<Token>, i: int, k: int)
    requires LastIndex(t, Equals) == i >= 0 && LastIndex(t[..i], Lit(' ')) == k
    ensures ReadFields(t) == (if k < 0 then [] else ReadFields(t[..k])) + [Field(Chars(t[k + 1..i]), Chars(t[i + 1..]))]
  {
  }

  lemma LastField(before: seq<Token>, key: seq<Token>, value: seq<Token>)
    requires Equals !in value && LastIndex(before + key, Lit(' ')) == |before| - 1
    ensures ReadFields(before + key + [Equals] + value) ==
            (if before == [] then [] else ReadFields(before[..|before| - 1])) + [Field(Chars(key), Chars(value))]
  {
    var t := before + key + [Equals] + value;
    LastIndexAt(before + key, Equals, value);
    Slices(before, key, Equals, value);
    ReadFieldsStep(t, |before| + |key|, |before| - 1);
  }

  lemma ReadOneField(before: seq<Token>, f: Field)
    requires LastIndex(before + Lits(f.key), Lit(' ')) == |before| - 1
    ensures ReadFields(before + FieldTokens(f)) ==
            (if before == [] then [] else ReadFields(before[..|before| - 1])) + [f]
  {
    assert Equals !in Lits(f.value) by {
      LitsHold(f.value, Equals);
    }
    LastField(before, Lits(f.key), Lits(f.value));
    CharsOfLits(f.key);
    CharsOfLits(f.value);
    Associative(before, Lits(f.key), [Equals], Lits(f.value));
  }

  lemma {:induction false} ReadFieldsOfFlat(fields: seq<Field>)
    requires PlainKeys(fields)
    ensures ReadFields(Flat(fields)) == fields
  {
    if fields == [] {
      LastIndexNone([], Equals);
    } else {
      var init, f := fields[..|fields| - 1], fields[|fields| - 1];
      assert fields == init + [f];
      ExtensionOfLast(init, f);
      LitsHold(f.key, Lit(' '));
      if init == [] {
        LastIndexNone(Lits(f.key), Lit(' '));
        assert [] + Lits(f.key) == Lits(f.key) && [] + FieldTokens(f) == FieldTokens(f);
        ReadOneField([], f);
      } else {
        ReadFieldsOfFlat(init);
        var before := Flat(init) + [Lit(' ')];
        LastIndexAt(Flat(init), Lit(' '), Lits(f.key));
        ReadOneField(before, f);
        assert before[..|before| - 1] == Flat(init);
      }
    }
  }

  /** Whatever the values hold - spaces, '=', pipes, backslashes, line ends - the fields can be read back. */
  lemma ExtensionReadsBack(fields: seq<Field>)
    requires PlainKeys(fields)
    ensures ReadFields(Tokens(Extension(fields))) == fields
  {
    TokensOfExtension(fields, []);
    assert Extension(fields) + [] == Extension(fields) && Flat(fields) + Tokens([]) == Flat(fields);
    ReadFieldsOfFlat(fields);
  }

  // ----- reading the header back

  function HeaderText(header: seq<string>): string {
    if header == [] then "" else EscapeHeader(header[0]) + "|" + HeaderText(header[1..])
  }

  /** The text up to the first unescaped pipe, with its escapes undone, and the text after that pipe. */
  function ReadHeaderField(s: string): (r: (string, string))
    ensures |r.1| <= |s|
  {
    if s == [] then ([], [])
    else if s[0] == '|' then ([], s[1..])
    else if s[0] == '\\' && |s| >= 2 then
      var (v, rest) := ReadHeaderField(s[2..]);
      ([s[1]] + v, rest)
    else
      var (v, rest) := ReadHeaderField(s[1..]);
      ([s[0]] + v, rest)
  }

  function ReadHeader(n: nat, s: string): (seq<string>, string) {
    if n == 0 then ([], s)
    else
      var (v, rest) := ReadHeaderField(s);
      var (vs, end) := ReadHeader(n - 1, rest);
      ([v] + vs, end)
  }

  lemma {:induction false} HeaderFieldReadsBack(v: string, rest: string)
    ensures ReadHeaderField(EscapeHeader(v) + "|" + rest) == (v, rest)
  {
    EscapeHeaderIsOnePass(v);
    if v == [] {
      assert EscapeHeader(v) + "|" + rest == "|" + rest;
      assert ("|" + rest)[1..] == rest;
    } else {
      EscapeHeaderIsOnePass(v[1..]);
      HeaderFieldReadsBack(v[1..], rest);
      var head, tail := HeaderEscape(v[0]), EscapeHeader(v[1..]) + "|" + rest;
      var all := head + tail;
      assert EscapeHeader(v) + "|" + rest == all;
      assert all[|head|..] == tail && all[0] == head[0];
      assert |head| == 2 ==> all[1] == head[1];
      assert v == [v[0]] + v[1..];
    }
  }

  lemma {:induction false} HeaderReadsBack(header: seq<string>, rest: string)
    ensures ReadHeader(|header|, HeaderText(header) + rest) == (header, rest)
  {
    if header == [] {
      assert HeaderText(header) + rest == rest;
    } else {
      var tail := HeaderText(header[1..]) + rest;
      assert HeaderText(header) + rest == EscapeHeader(header[0]) + "|" + tail;
      HeaderFieldReadsBack(header[0], tail);
      HeaderReadsBack(header[1..], rest);
      assert header == [header[0]] + header[1..];
    }
  }

  lemma {:induction false} PlainHeader(s: string)
    requires '|' !in s && '\\' !in s
    ensures EscapeHeader(s) == s
  {
    EscapeHeaderIsOnePass(s);
    if s != [] {
      assert s[0] in s;
      PlainHeader(s[1..]);
      EscapeHeaderIsOnePass(s[1..]);
    }
  }
}
