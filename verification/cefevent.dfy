/** The fields an audit event prints as, in order, and what a printed line says about the event. */
module CefEvents {
  import opened Cef
  import opened Text

  /** The attributes the line carries; `timestamp` is its RFC 3339 text, `duration` is in nanoseconds. */
  datatype AuditEvent = AuditEvent(
    timestamp: string, duration: int, eventType: string, outcome: string,
    actorID: string, actorType: string, role: string, authMethod: string,
    targetType: string, targetID: string, schemaID: int, beforeHash: string, afterHash: string,
    context: string, requestID: string, sourceIP: string, userAgent: string, verb: string, path: string,
    statusCode: int, reason: string, error: string)

  /** The fixed tables that turn an event into its description and its severity. */
  datatype Wording = Wording(describe: string -> string, severity: (string, string) -> int)

  datatype Key =
    | Rt | Outcome | Suser | Cs1 | Cs1Label | Cs2 | Cs2Label | Cs3 | Cs3Label | Cs4 | Cs4Label | Cs5 | Cs5Label
    | Src | RequestClientApplication | RequestMethod | Request | Cn1 | Cn1Label | Cn2 | Cn2Label | Cn3 | Cn3Label
    | Cs6 | Cs6Label | Reason | Msg | OldFileHash | FileHash | ExternalId

  function Name(k: Key): string {
    match k
    case Rt => "rt"
    case Outcome => "outcome"
    case Suser => "suser"
    case Cs1 => "cs1"
    case Cs1Label => "cs1Label"
    case Cs2 => "cs2"
    case Cs2Label => "cs2Label"
    case Cs3 => "cs3"
    case Cs3Label => "cs3Label"
    case Cs4 => "cs4"
    case Cs4Label => "cs4Label"
    case Cs5 => "cs5"
    case Cs5Label => "cs5Label"
    case Src => "src"
    case RequestClientApplication => "requestClientApplication"
    case RequestMethod => "requestMethod"
    case Request => "request"
    case Cn1 => "cn1"
    case Cn1Label => "cn1Label"
    case Cn2 => "cn2"
    case Cn2Label => "cn2Label"
    case Cn3 => "cn3"
    case Cn3Label => "cn3Label"
    case Cs6 => "cs6"
    case Cs6Label => "cs6Label"
    case Reason => "reason"
    case Msg => "msg"
    case OldFileHash => "oldFileHash"
    case FileHash => "fileHash"
    case ExternalId => "externalId"
  }

  /** The place of a key in the line. */
  function Rank(k: Key): nat {
    match k
    case Rt => 0
    case Outcome => 1
    case Suser => 2
    case Cs1 => 3
    case Cs1Label => 4
    case Cs2 => 5
    case Cs2Label => 6
    case Cs3 => 7
    case Cs3Label => 8
    case Cs4 => 9
    case Cs4Label => 10
    case Cs5 => 11
    case Cs5Label => 12
    case Src => 13
    case RequestClientApplication => 14
    case RequestMethod => 15
    case Request => 16
    case Cn1 => 17
    case Cn1Label => 18
    case Cn2 => 19
    case Cn2Label => 20
    case Cn3 => 21
    case Cn3Label => 22
    case Cs6 => 23
    case Cs6Label => 24
    case Reason => 25
    case Msg => 26
    case OldFileHash => 27
    case FileHash => 28
    case ExternalId => 29
  }

  predicate Alphanumeric(s: string) {
    forall i | 0 <= i < |s| :: '0' <= s[i] <= '9' || 'A' <= s[i] <= 'Z' || 'a' <= s[i] <= 'z'
  }

  lemma CounterNamesArePlain(k: Key)
    requires Rank(k) in {3, 4, 5, 6, 7, 8, 9, 10, 11, 12, 17, 18, 19, 20, 21, 22, 23, 24}
    ensures Alphanumeric(Name(k))
  {
  }

  lemma OtherNamesArePlain(k: Key)
    requires Rank(k) !in {3, 4, 5, 6, 7, 8, 9, 10, 11, 12, 17, 18, 19, 20, 21, 22, 23, 24}
    ensures Alphanumeric(Name(k))
  {
  }

  lemma NamesArePlain(k: Key)
    ensures PlainKey(Name(k)) && '\n' !in Name(k)
  {
    if Rank(k) in {3, 4, 5, 6, 7, 8, 9, 10, 11, 12, 17, 18, 19, 20, 21, 22, 23, 24} {
      CounterNamesArePlain(k);
    } else {
      OtherNamesArePlain(k);
    }
  }

  /** A number that tells the key names apart: their lengths and their second and third characters. */
  function Code(s: string): nat {
    if |s| < 3 then |s| else |s| * 65536 + s[1] as int * 256 + s[2] as int
  }

  function CodeOf(k: Key): nat {
    match k
    case Rt => 2
    case Outcome => 488820
    case Suser => 357747
    case Cs1 => 226097
    case Cs1Label => 553777
    case Cs2 => 226098
    case Cs2Label => 553778
    case Cs3 => 226099
    case Cs3Label => 553779
    case Cs4 => 226100
    case Cs4Label => 553780
    case Cs5 => 226101
    case Cs5Label => 553781
    case Src => 225891
    case RequestClientApplication => 1598833
    case RequestMethod => 877937
    case Request => 484721
    case Cn1 => 224817
    case Cn1Label => 552497
    case Cn2 => 224818
    case Cn2Label => 552498
    case Cn3 => 224819
    case Cn3Label => 552499
    case Cs6 => 226102
    case Cs6Label => 553782
    case Reason => 419169
    case Msg => 226151
    case OldFileHash => 748644
    case FileHash => 551276
    case ExternalId => 686196
  }

  lemma CodesOfNames(k: Key)
    ensures Code(Name(k)) == CodeOf(k)
  {
  }

  lemma CodesAreDistinct(k: Key, l: Key)
    requires CodeOf(k) == CodeOf(l)
    ensures k == l
  {
  }

  lemma NamesAreDistinct(k: Key, l: Key)
    requires Name(k) == Name(l)
    ensures k == l
  {
    CodesOfNames(k);
    CodesOfNames(l);
    CodesAreDistinct(k, l);
  }

  /** What is written under a key: nothing, a text, or - under a label key - its fixed caption. */
  datatype Content = Absent | Text(s: string) | Caption

  datatype Slot = Slot(key: Key, content: Content)

  function CaptionOf(k: Key): string {
    match k
    case Cs1Label => "actorType"
    case Cs2Label => "authMethod"
    case Cs3Label => "role"
    case Cs4Label => "targetType"
    case Cs5Label => "targetID"
    case Cn1Label => "statusCode"
    case Cn2Label => "schemaID"
    case Cn3Label => "durationMs"
    case Cs6Label => "context"
    case _ => ""
  }

  predicate IsLabel(k: Key) {
    || k == Cs1Label || k == Cs2Label || k == Cs3Label || k == Cs4Label || k == Cs5Label || k == Cs6Label
    || k == Cn1Label || k == Cn2Label || k == Cn3Label
  }

  function IfSet(s: string): Content {
    if |s| > 0 then Text(s) else Absent
  }

  function IfNonZero(n: int): Content {
    if n == 0 then Absent else Text(Dec(n))
  }

  function Millis(ns: int): Content {
    if ns > 0 then Text(Dec(ns / 1000000)) else Absent
  }

  function LabelFor(content: Content): Content {
    if content == Absent then Absent else Caption
  }

  function One(key: Key, content: Content): seq<Slot> {
    [Slot(key, content)]
  }

  function Pair(key: Key, content: Content, labelKey: Key): seq<Slot> {
    [Slot(key, content), Slot(labelKey, LabelFor(content))]
  }

  function ActorSlots(e: AuditEvent): seq<Slot> {
    One(Rt, Text(e.timestamp)) + One(Outcome, Text(e.outcome)) + One(Suser, IfSet(e.actorID))
  }

  function IdentitySlots(e: AuditEvent): seq<Slot> {
    Pair(Cs1, IfSet(e.actorType), Cs1Label) + Pair(Cs2, IfSet(e.authMethod), Cs2Label) + Pair(Cs3, IfSet(e.role), Cs3Label)
  }

  function TargetSlots(e: AuditEvent): seq<Slot> {
    Pair(Cs4, IfSet(e.targetType), Cs4Label) + Pair(Cs5, IfSet(e.targetID), Cs5Label)
  }

  function RequestSlots(e: AuditEvent): seq<Slot> {
    One(Src, IfSet(e.sourceIP)) + One(RequestClientApplication, IfSet(e.userAgent)) + One(RequestMethod, Text(e.verb))
    + One(Request, Text(e.path))
  }

  function NumberSlots(e: AuditEvent): seq<Slot> {
    Pair(Cn1, IfNonZero(e.statusCode), Cn1Label) + Pair(Cn2, IfNonZero(e.schemaID), Cn2Label) + Pair(Cn3, Millis(e.duration), Cn3Label)
  }

  function DetailSlots(e: AuditEvent): seq<Slot> {
    Pair(Cs6, IfSet(e.context), Cs6Label) + One(Reason, IfSet(e.reason)) + One(Msg, IfSet(e.error))
  }

  function HashSlots(e: AuditEvent): seq<Slot> {
    One(OldFileHash, IfSet(e.beforeHash)) + One(FileHash, IfSet(e.afterHash)) + One(ExternalId, IfSet(e.requestID))
  }

  function Slots(e: AuditEvent): seq<Slot> {
    ActorSlots(e) + IdentitySlots(e) + TargetSlots(e) + RequestSlots(e) + NumberSlots(e) + DetailSlots(e) + HashSlots(e)
  }

  function Contents(slot: Slot): string {
    if slot.content.Text? then slot.content.s else CaptionOf(slot.key)
  }

  function FieldOf(slot: Slot): seq<Field> {
    if slot.content == Absent then [] else [Field(Name(slot.key), Contents(slot))]
  }

  /** The fields of the slots that are not left out. */
  function Present(slots: seq<Slot>): seq<Field> {
    if slots == [] then [] else Present(slots[..|slots| - 1]) + FieldOf(slots[|slots| - 1])
  }

  lemma PresentOfLast(slots: seq<Slot>, slot: Slot)
    ensures Present(slots + [slot]) == Present(slots) + FieldOf(slot)
  {
    assert (slots + [slot])[..|slots|] == slots;
  }

  function Product(): seq<string> {
    ["CEF:0", "AxonOps", "SchemaRegistry", "1.0"]
  }

  function Prefix(): string {
    "CEF:0" + "|" + "AxonOps" + "|" + "SchemaRegistry" + "|" + "1.0" + "|"
  }

  function Header(w: Wording, e: AuditEvent): seq<string> {
    Product() + [e.eventType, w.describe(e.eventType), Dec(w.severity(e.outcome, e.eventType))]
  }

  /** The format string of the line, after its fixed prefix. */
  function Printed(prefix: string, eventType: string, description: string, severity: int, ext: string): string {
    prefix + EscapeHeader(eventType) + "|" + EscapeHeader(description) + "|" + Dec(severity) + "|" + ext + "\n"
  }

  function Line(w: Wording, e: AuditEvent): string {
    Printed(Prefix(), e.eventType, w.describe(e.eventType),
            w.severity(e.outcome, e.eventType), Extension(Present(Slots(e))))
  }

  // ----- the printer

  /** The string builder; `slots` records what was offered to it, written or not. */
  class Builder {
    var text: string
    ghost var slots: seq<Slot>

    ghost predicate Valid()
      reads this
    {
      text == Extension(Present(slots))
    }

    constructor ()
      ensures Valid() && slots == []
    {
      text := "";
      slots := [];
    }

    method WriteExtField(key: Key, content: Content)
      requires Valid() && content != Absent
      modifies this
      ensures Valid() && slots == old(slots) + One(key, content)
    {
      var value := Contents(Slot(key, content));
      ghost var fields := Present(slots);
      PresentOfLast(slots, Slot(key, content));
      ExtensionOfLast(fields, Field(Name(key), value));
      ExtensionEmpty(fields);
      var field := Name(key) + "=" + EscapeValue(value);
      text := if |text| > 0 then text + " " + field else field;
      slots := slots + [Slot(key, content)];
    }

    ghost method Skip(key: Key)
      requires Valid()
      modifies this`slots
      ensures Valid() && slots == old(slots) + One(key, Absent)
    {
      PresentOfLast(slots, Slot(key, Absent));
      assert Present(slots) + FieldOf(Slot(key, Absent)) == Present(slots);
      slots := slots + [Slot(key, Absent)];
    }

    /** A field that is written only if its attribute is set. */
    method WriteIfSet(key: Key, content: Content)
      requires Valid()
      modifies this
      ensures Valid() && slots == old(slots) + One(key, content)
    {
      if content != Absent {
        WriteExtField(key, content);
      } else {
        Skip(key);
      }
    }

    /** A guarded field that comes with a label. */
    method WriteLabelled(key: Key, content: Content, labelKey: Key)
      requires Valid()
      modifies this
      ensures Valid() && slots == old(slots) + Pair(key, content, labelKey)
    {
      Regrouped(slots, One(key, content), One(labelKey, LabelFor(content)), [], []);
      PairIsTwo(key, content, labelKey);
      if content != Absent {
        WriteExtField(key, content);
        WriteExtField(labelKey, Caption);
      } else {
        Skip(key);
        Skip(labelKey);
      }
    }
  }

  lemma PairIsTwo(key: Key, content: Content, labelKey: Key)
    ensures One(key, content) + One(labelKey, LabelFor(content)) == Pair(key, content, labelKey)
  {
  }

  lemma Regrouped(o: seq<Slot>, a: seq<Slot>, b: seq<Slot>, c: seq<Slot>, d: seq<Slot>)
    ensures o + a + b == o + (a + b)
    ensures o + a + b + c == o + (a + b + c)
    ensures o + a + b + c + d == o + (a + b + c + d)
  {
  }

  method WriteActor(b: Builder, e: AuditEvent)
    requires b.Valid()
    modifies b
    ensures b.Valid() && b.slots == old(b.slots) + ActorSlots(e)
  {
    Regrouped(b.slots, One(Rt, Text(e.timestamp)), One(Outcome, Text(e.outcome)),
              One(Suser, IfSet(e.actorID)), []);
    b.WriteExtField(Rt, Text(e.timestamp));
    b.WriteExtField(Outcome, Text(e.outcome));
    b.WriteIfSet(Suser, IfSet(e.actorID));
  }

  method WriteIdentity(b: Builder, e: AuditEvent)
    requires b.Valid()
    modifies b
    ensures b.Valid() && b.slots == old(b.slots) + IdentitySlots(e)
  {
    Regrouped(b.slots, Pair(Cs1, IfSet(e.actorType), Cs1Label), Pair(Cs2, IfSet(e.authMethod), Cs2Label),
              Pair(Cs3, IfSet(e.role), Cs3Label), []);
    b.WriteLabelled(Cs1, IfSet(e.actorType), Cs1Label);
    b.WriteLabelled(Cs2, IfSet(e.authMethod), Cs2Label);
    b.WriteLabelled(Cs3, IfSet(e.role), Cs3Label);
  }

  method WriteTarget(b: Builder, e: AuditEvent)
    requires b.Valid()
    modifies b
    ensures b.Valid() && b.slots == old(b.slots) + TargetSlots(e)
  {
    Regrouped(b.slots, Pair(Cs4, IfSet(e.targetType), Cs4Label), Pair(Cs5, IfSet(e.targetID), Cs5Label),
              [], []);
    b.WriteLabelled(Cs4, IfSet(e.targetType), Cs4Label);
    b.WriteLabelled(Cs5, IfSet(e.targetID), Cs5Label);
  }

  method WriteRequest(b: Builder, e: AuditEvent)
    requires b.Valid()
    modifies b
    ensures b.Valid() && b.slots == old(b.slots) + RequestSlots(e)
  {
    Regrouped(b.slots, One(Src, IfSet(e.sourceIP)), One(RequestClientApplication, IfSet(e.userAgent)),
              One(RequestMethod, Text(e.verb)), One(Request, Text(e.path)));
    b.WriteIfSet(Src, IfSet(e.sourceIP));
    b.WriteIfSet(RequestClientApplication, IfSet(e.userAgent));
    b.WriteExtField(RequestMethod, Text(e.verb));
    b.WriteExtField(Request, Text(e.path));
  }

  method WriteNumber(b: Builder, e: AuditEvent)
    requires b.Valid()
    modifies b
    ensures b.Valid() && b.slots == old(b.slots) + NumberSlots(e)
  {
    Regrouped(b.slots, Pair(Cn1, IfNonZero(e.statusCode), Cn1Label), Pair(Cn2, IfNonZero(e.schemaID), Cn2Label),
              Pair(Cn3, Millis(e.duration), Cn3Label), []);
    b.WriteLabelled(Cn1, IfNonZero(e.statusCode), Cn1Label);
    b.WriteLabelled(Cn2, IfNonZero(e.schemaID), Cn2Label);
    b.WriteLabelled(Cn3, Millis(e.duration), Cn3Label);
  }

  method WriteDetail(b: Builder, e: AuditEvent)
    requires b.Valid()
    modifies b
    ensures b.Valid() && b.slots == old(b.slots) + DetailSlots(e)
  {
    Regrouped(b.slots, Pair(Cs6, IfSet(e.context), Cs6Label), One(Reason, IfSet(e.reason)),
              One(Msg, IfSet(e.error)), []);
    b.WriteLabelled(Cs6, IfSet(e.context), Cs6Label);
    b.WriteIfSet(Reason, IfSet(e.reason));
    b.WriteIfSet(Msg, IfSet(e.error));
  }

  method WriteHash(b: Builder, e: AuditEvent)
    requires b.Valid()
    modifies b
    ensures b.Valid() && b.slots == old(b.slots) + HashSlots(e)
  {
    Regrouped(b.slots, One(OldFileHash, IfSet(e.beforeHash)), One(FileHash, IfSet(e.afterHash)),
              One(ExternalId, IfSet(e.requestID)), []);
    b.WriteIfSet(OldFileHash, IfSet(e.beforeHash));
    b.WriteIfSet(FileHash, IfSet(e.afterHash));
    b.WriteIfSet(ExternalId, IfSet(e.requestID));
  }

  method WriteExtension(e: AuditEvent) returns (text: string)
    ensures text == Extension(Present(Slots(e)))
  {
    var ext := new Builder();
    WriteActor(ext, e);
    assert [] + ActorSlots(e) == ActorSlots(e);
    WriteIdentity(ext, e);
    WriteTarget(ext, e);
    WriteRequest(ext, e);
    WriteNumber(ext, e);
    WriteDetail(ext, e);
    WriteHash(ext, e);
    text := ext.text;
  }

  method FormatCEF(w: Wording, e: AuditEvent) returns (line: string)
    ensures ReadLine(line) == (Header(w, e), Present(Slots(e)))
    ensures line == Line(w, e)
  {
    var ext := WriteExtension(e);
    line := Printed(Prefix(), e.eventType, w.describe(e.eventType),
                    w.severity(e.outcome, e.eventType), ext);
    LineReadsBack(w, e);
  }

  // ----- the reader

  /** The seven header fields, and the fields of the extension without the final line end. */
  function ReadLine(line: string): (seq<string>, seq<Field>) {
    var (header, rest) := ReadHeader(7, line);
    (header, ReadFields(Tokens(if rest == [] then [] else rest[..|rest| - 1])))
  }

  lemma {:induction false} PresentIsPlain(slots: seq<Slot>)
    ensures PlainKeys(Present(slots))
  {
    if slots != [] {
      PresentIsPlain(slots[..|slots| - 1]);
      NamesArePlain(slots[|slots| - 1].key);
    }
  }

  lemma {:induction false} HeaderTextConcat(a: seq<string>, b: seq<string>)
    ensures HeaderText(a + b) == HeaderText(a) + HeaderText(b)
  {
    if a == [] {
      assert a + b == b;
    } else {
      assert (a + b)[1..] == a[1..] + b;
      HeaderTextConcat(a[1..], b);
    }
  }

  lemma HeaderTextOfOne(v: string)
    ensures HeaderText([v]) == EscapeHeader(v) + "|"
  {
    assert [v][1..] == [];
  }

  lemma HeaderTextOfFour(a: string, b: string, c: string, d: string)
    ensures HeaderText([a, b, c, d]) ==
            EscapeHeader(a) + "|" + EscapeHeader(b) + "|" + EscapeHeader(c) + "|" + EscapeHeader(d) + "|"
  {
    HeaderTextOfOne(a);
    HeaderTextOfOne(b);
    HeaderTextOfOne(c);
    HeaderTextOfOne(d);
    HeaderTextConcat([a], [b]);
    HeaderTextConcat([a] + [b], [c]);
    HeaderTextConcat([a] + [b] + [c], [d]);
    assert [a, b, c, d] == [a] + [b] + [c] + [d];
  }

  lemma PlainHeaders(a: string, b: string, c: string, d: string)
    requires forall s | s in [a, b, c, d] :: '|' !in s && '\\' !in s
    ensures HeaderText([a, b, c, d]) == a + "|" + b + "|" + c + "|" + d + "|"
  {
    HeaderTextOfFour(a, b, c, d);
    PlainHeader(a);
    PlainHeader(b);
    PlainHeader(c);
    PlainHeader(d);
  }

  lemma HeaderPrefix()
    ensures HeaderText(Product()) == Prefix()
  {
    PlainHeaders("CEF:0", "AxonOps", "SchemaRegistry", "1.0");
  }

  lemma HeaderTail(a: string, b: string, n: int)
    ensures HeaderText([a, b, Dec(n)]) == EscapeHeader(a) + "|" + EscapeHeader(b) + "|" + Dec(n) + "|"
  {
    HeaderTextOfOne(a);
    HeaderTextOfOne(b);
    HeaderTextOfOne(Dec(n));
    PlainHeader(Dec(n));
    HeaderTextConcat([a], [b]);
    HeaderTextConcat([a] + [b], [Dec(n)]);
    assert [a, b, Dec(n)] == [a] + [b] + [Dec(n)];
  }

  lemma Regroup(p: string, a: string, b: string, d: string, ext: string)
    ensures p + a + "|" + b + "|" + d + "|" + ext + "\n" == (p + (a + "|" + b + "|" + d + "|")) + (ext + "\n")
  {
  }

  lemma PrintedReadsBack(fixed: seq<string>, a: string, b: string, n: int, ext: string)
    ensures ReadHeader(|fixed| + 3, Printed(HeaderText(fixed), a, b, n, ext)) == (fixed + [a, b, Dec(n)], ext + "\n")
  {
    var header := fixed + [a, b, Dec(n)];
    assert Printed(HeaderText(fixed), a, b, n, ext) == HeaderText(header) + (ext + "\n") by {
      HeaderTail(a, b, n);
      HeaderTextConcat(fixed, [a, b, Dec(n)]);
      Regroup(HeaderText(fixed), EscapeHeader(a), EscapeHeader(b), Dec(n), ext);
    }
    HeaderReadsBack(header, ext + "\n");
  }

  lemma DropLineEnd(s: string)
    ensures (s + "\n")[..|s + "\n"| - 1] == s
  {
  }

  /** The reader recovers every header field and every extension field of a printed line, in order. */
  lemma LineReadsBack(w: Wording, e: AuditEvent)
    ensures ReadLine(Line(w, e)) == (Header(w, e), Present(Slots(e)))
  {
    var ext := Extension(Present(Slots(e)));
    HeaderPrefix();
    PrintedReadsBack(Product(), e.eventType, w.describe(e.eventType),
                     w.severity(e.outcome, e.eventType), ext);
    DropLineEnd(ext);
    PresentIsPlain(Slots(e));
    ExtensionReadsBack(Present(Slots(e)));
  }

  // ----- what a line determines

  /** Slots in the order of the keys, from `base` on, with captions under label keys only. */
  ghost predicate Ranked(slots: seq<Slot>, base: nat) {
    forall i | 0 <= i < |slots| ::
      && Rank(slots[i].key) == base + i
      && (slots[i].content.Caption? ==> IsLabel(slots[i].key))
      && (slots[i].content.Text? ==> !IsLabel(slots[i].key))
  }

  lemma {:induction false} PresentKeys(slots: seq<Slot>, f: Field)
    requires f in Present(slots)
    ensures exists i | 0 <= i < |slots| :: f.key == Name(slots[i].key)
  {
    var init, last := slots[..|slots| - 1], slots[|slots| - 1];
    if f in Present(init) {
      PresentKeys(init, f);
      var i :| 0 <= i < |init| && f.key == Name(init[i].key);
      assert slots[i] == init[i];
    } else {
      assert f.key == Name(slots[|slots| - 1].key);
    }
  }

  lemma LastInjective<T>(a: seq<T>, x: T, b: seq<T>, y: T)
    requires a + [x] == b + [y]
    ensures a == b && x == y
  {
    assert |a| == |b| && (a + [x])[|a|] == (b + [y])[|b|];
    assert (a + [x])[..|a|] == a && (b + [y])[..|b|] == b;
  }

  /** A key that comes after all keys of `slots` is not among the fields they print. */
  lemma LaterKeyAbsent(slots: seq<Slot>, slot: Slot)
    requires Ranked(slots, 0) && Rank(slot.key) == |slots| && slot.content != Absent
    ensures forall fields :: Present(slots) != fields + FieldOf(slot)
  {
    var f := Field(Name(slot.key), Contents(slot));
    if f in Present(slots) {
      PresentKeys(slots, f);
      var k :| 0 <= k < |slots| && f.key == Name(slots[k].key);
      NamesAreDistinct(slot.key, slots[k].key);
    }
    assert f !in Present(slots);
    forall fields
      ensures Present(slots) != fields + FieldOf(slot)
    {
      assert f in fields + FieldOf(slot);
    }
  }

  lemma RankedInit(a: seq<Slot>)
    requires Ranked(a, 0) && a != []
    ensures Ranked(a[..|a| - 1], 0) && Ranked([a[|a| - 1]], |a| - 1) && Rank(a[|a| - 1].key) == |a| - 1
    ensures a == a[..|a| - 1] + [a[|a| - 1]]
  {
    assert forall i | 0 <= i < |a| - 1 :: a[..|a| - 1][i] == a[i];
  }

  lemma SameLast(a: seq<Slot>, x: Slot, b: seq<Slot>, y: Slot)
    requires Ranked(a, 0) && Ranked(b, 0) && |a| == |b| == Rank(x.key) && x.key == y.key
    requires Ranked([x], |a|) && Ranked([y], |a|)
    requires Present(a) + FieldOf(x) == Present(b) + FieldOf(y)
    ensures x == y && Present(a) == Present(b)
  {
    if x.content != Absent {
      LaterKeyAbsent(b, x);
    }
    if y.content != Absent {
      LaterKeyAbsent(a, y);
    }
    assert [x][0] == x && [y][0] == y;
    if x.content != Absent && y.content != Absent {
      LastInjective(Present(a), Field(Name(x.key), Contents(x)), Present(b), Field(Name(y.key), Contents(y)));
    }
  }

  /** Two tables with the same keys, all different, print the same fields only if they hold the same contents. */
  lemma {:induction false} PresentInjective(a: seq<Slot>, b: seq<Slot>)
    requires Ranked(a, 0) && Ranked(b, 0) && |a| == |b| && Present(a) == Present(b)
    requires forall i | 0 <= i < |a| :: a[i].key == b[i].key
    ensures a == b
  {
    if a != [] {
      var i, j := a[..|a| - 1], b[..|b| - 1];
      var x, y := a[|a| - 1], b[|b| - 1];
      RankedInit(a);
      RankedInit(b);
      assert x.key == y.key;
      SameLast(i, x, j, y);
      PresentInjective(i, j);
    }
  }

  lemma RankedConcat(a: seq<Slot>, b: seq<Slot>, base: nat)
    requires Ranked(a, base) && Ranked(b, base + |a|)
    ensures Ranked(a + b, base)
  {
  }

  lemma ThreeRanked(a: seq<Slot>, b: seq<Slot>, c: seq<Slot>, base: nat)
    requires Ranked(a, base) && Ranked(b, base + |a|) && Ranked(c, base + |a| + |b|)
    ensures Ranked(a + b + c, base)
  {
    RankedConcat(a, b, base);
    RankedConcat(a + b, c, base);
  }

  lemma PairRanked(key: Key, content: Content, labelKey: Key)
    requires !IsLabel(key) && !content.Caption? && IsLabel(labelKey) && Rank(labelKey) == Rank(key) + 1
    ensures Ranked(Pair(key, content, labelKey), Rank(key))
  {
  }

  lemma OneRanked(key: Key, content: Content)
    requires !IsLabel(key) && !content.Caption?
    ensures Ranked(One(key, content), Rank(key))
  {
  }

  lemma OnesRanked(slots: seq<Slot>, base: nat, j: Key, c: Content, k: Key, d: Content, l: Key, f: Content)
    requires slots == One(j, c) + One(k, d) + One(l, f)
    requires !IsLabel(j) && !c.Caption? && !IsLabel(k) && !d.Caption? && !IsLabel(l) && !f.Caption?
    requires Rank(j) == base && Rank(k) == base + 1 && Rank(l) == base + 2
    ensures Ranked(slots, base)
  {
    OneRanked(j, c);
    OneRanked(k, d);
    OneRanked(l, f);
    ThreeRanked(One(j, c), One(k, d), One(l, f), base);
  }

  lemma PairsRanked(slots: seq<Slot>, base: nat, j: Key, c: Content, jLabel: Key, k: Key, d: Content, kLabel: Key,
                    l: Key, f: Content, lLabel: Key)
    requires slots == Pair(j, c, jLabel) + Pair(k, d, kLabel) + Pair(l, f, lLabel)
    requires !IsLabel(j) && !c.Caption? && IsLabel(jLabel) && Rank(j) == base && Rank(jLabel) == base + 1
    requires !IsLabel(k) && !d.Caption? && IsLabel(kLabel) && Rank(k) == base + 2 && Rank(kLabel) == base + 3
    requires !IsLabel(l) && !f.Caption? && IsLabel(lLabel) && Rank(l) == base + 4 && Rank(lLabel) == base + 5
    ensures Ranked(slots, base)
  {
    PairRanked(j, c, jLabel);
    PairRanked(k, d, kLabel);
    PairRanked(l, f, lLabel);
    RankedConcat(Pair(j, c, jLabel), Pair(k, d, kLabel), base);
    RankedConcat(Pair(j, c, jLabel) + Pair(k, d, kLabel), Pair(l, f, lLabel), base);
  }

  lemma ActorRanked(e: AuditEvent)
    ensures Ranked(ActorSlots(e), 0)
  {
    OnesRanked(ActorSlots(e), 0, Rt, Text(e.timestamp), Outcome, Text(e.outcome), Suser, IfSet(e.actorID));
  }

  lemma IdentityRanked(e: AuditEvent)
    ensures Ranked(IdentitySlots(e), 3)
  {
    PairsRanked(IdentitySlots(e), 3, Cs1, IfSet(e.actorType), Cs1Label, Cs2, IfSet(e.authMethod), Cs2Label,
                Cs3, IfSet(e.role), Cs3Label);
  }

  lemma TargetRanked(e: AuditEvent)
    ensures Ranked(TargetSlots(e), 9)
  {
    PairRanked(Cs4, IfSet(e.targetType), Cs4Label);
    PairRanked(Cs5, IfSet(e.targetID), Cs5Label);
    RankedConcat(Pair(Cs4, IfSet(e.targetType), Cs4Label), Pair(Cs5, IfSet(e.targetID), Cs5Label), 9);
  }

  lemma RequestRanked(e: AuditEvent)
    ensures Ranked(RequestSlots(e), 13)
  {
    var three := One(Src, IfSet(e.sourceIP)) + One(RequestClientApplication, IfSet(e.userAgent)) + One(RequestMethod, Text(e.verb));
    OnesRanked(three, 13, Src, IfSet(e.sourceIP), RequestClientApplication, IfSet(e.userAgent), RequestMethod, Text(e.verb));
    OneRanked(Request, Text(e.path));
    RankedConcat(three, One(Request, Text(e.path)), 13);
  }

  lemma NumberRanked(e: AuditEvent)
    ensures Ranked(NumberSlots(e), 17)
  {
    NumbersRanked(NumberSlots(e), IfNonZero(e.statusCode), IfNonZero(e.schemaID), Millis(e.duration));
  }

  lemma NumbersRanked(slots: seq<Slot>, c: Content, d: Content, f: Content)
    requires slots == Pair(Cn1, c, Cn1Label) + Pair(Cn2, d, Cn2Label) + Pair(Cn3, f, Cn3Label)
    requires !c.Caption? && !d.Caption? && !f.Caption?
    ensures Ranked(slots, 17)
  {
    PairsRanked(slots, 17, Cn1, c, Cn1Label, Cn2, d, Cn2Label, Cn3, f, Cn3Label);
  }

  lemma DetailRanked(e: AuditEvent)
    ensures Ranked(DetailSlots(e), 23)
  {
    PairRanked(Cs6, IfSet(e.context), Cs6Label);
    OneRanked(Reason, IfSet(e.reason));
    OneRanked(Msg, IfSet(e.error));
    var two := Pair(Cs6, IfSet(e.context), Cs6Label) + One(Reason, IfSet(e.reason));
    RankedConcat(Pair(Cs6, IfSet(e.context), Cs6Label), One(Reason, IfSet(e.reason)), 23);
    RankedConcat(two, One(Msg, IfSet(e.error)), 23);
  }

  lemma HashRanked(e: AuditEvent)
    ensures Ranked(HashSlots(e), 27)
  {
    HashesRanked(HashSlots(e), IfSet(e.beforeHash), IfSet(e.afterHash), IfSet(e.requestID));
  }

  lemma HashesRanked(slots: seq<Slot>, c: Content, d: Content, f: Content)
    requires slots == One(OldFileHash, c) + One(FileHash, d) + One(ExternalId, f)
    requires !c.Caption? && !d.Caption? && !f.Caption?
    ensures Ranked(slots, 27)
  {
    OnesRanked(slots, 27, OldFileHash, c, FileHash, d, ExternalId, f);
  }

  lemma SlotsRanked(e: AuditEvent)
    ensures Ranked(Slots(e), 0) && |Slots(e)| == 30
  {
    ActorRanked(e);
    IdentityRanked(e);
    TargetRanked(e);
    RequestRanked(e);
    NumberRanked(e);
    DetailRanked(e);
    HashRanked(e);
    var a := ActorSlots(e) + IdentitySlots(e);
    var b := a + TargetSlots(e);
    var c := b + RequestSlots(e);
    var d := c + NumberSlots(e);
    RankedConcat(ActorSlots(e), IdentitySlots(e), 0);
    RankedConcat(a, TargetSlots(e), 0);
    RankedConcat(b, RequestSlots(e), 0);
    RankedConcat(c, NumberSlots(e), 0);
    RankedConcat(d, DetailSlots(e), 0);
    RankedConcat(d + DetailSlots(e), HashSlots(e), 0);
  }

  lemma RanksAreDistinct(k: Key, l: Key)
    requires Rank(k) == Rank(l)
    ensures k == l
  {
  }

  lemma MillisInjective(m: int, n: int)
    requires Millis(m) == Millis(n)
    ensures (m > 0 <==> n > 0) && (m > 0 ==> m / 1000000 == n / 1000000)
  {
    if m > 0 && n > 0 {
      DecInjective(m / 1000000, n / 1000000);
    }
  }

  lemma IfNonZeroInjective(m: int, n: int)
    requires IfNonZero(m) == IfNonZero(n)
    ensures m == n
  {
    if m != 0 && n != 0 {
      DecInjective(m, n);
    }
  }

  lemma SlotsDetermine(e: AuditEvent, f: AuditEvent)
    requires Slots(e) == Slots(f)
    ensures e.(duration := 0, eventType := "") == f.(duration := 0, eventType := "")
    ensures Millis(e.duration) == Millis(f.duration)
  {
    var a, b := ActorSlots(e) + IdentitySlots(e), ActorSlots(f) + IdentitySlots(f);
    var a2, b2 := a + TargetSlots(e), b + TargetSlots(f);
    var a3, b3 := a2 + RequestSlots(e), b2 + RequestSlots(f);
    var a4, b4 := a3 + NumberSlots(e), b3 + NumberSlots(f);
    SameParts(a4 + DetailSlots(e), HashSlots(e), b4 + DetailSlots(f), HashSlots(f));
    SameParts(a4, DetailSlots(e), b4, DetailSlots(f));
    SameParts(a3, NumberSlots(e), b3, NumberSlots(f));
    SameParts(a2, RequestSlots(e), b2, RequestSlots(f));
    SameParts(a, TargetSlots(e), b, TargetSlots(f));
    SameParts(ActorSlots(e), IdentitySlots(e), ActorSlots(f), IdentitySlots(f));
    ActorDetermined(e, f);
    RequestDetermined(e, f);
    NumbersDetermined(e, f);
    DetailDetermined(e, f);
  }

  lemma SameParts<T>(a: seq<T>, b: seq<T>, c: seq<T>, d: seq<T>)
    requires a + b == c + d && |a| == |c|
    ensures a == c && b == d
  {
    assert a == (a + b)[..|a|] && c == (c + d)[..|c|];
    assert b == (a + b)[|a|..] && d == (c + d)[|c|..];
  }

  lemma IfSetInjective(s: string, t: string)
    ensures IfSet(s) == IfSet(t) <==> s == t
  {
    assert |s| == 0 && |t| == 0 ==> s == t;
  }

  lemma ActorDetermined(e: AuditEvent, f: AuditEvent)
    requires ActorSlots(e) == ActorSlots(f) && IdentitySlots(e) == IdentitySlots(f)
    ensures e.timestamp == f.timestamp && e.outcome == f.outcome && e.actorID == f.actorID
    ensures e.actorType == f.actorType && e.authMethod == f.authMethod && e.role == f.role
  {
    var a, b := ActorSlots(e), ActorSlots(f);
    assert a[0] == b[0] && a[1] == b[1] && a[2] == b[2];
    var c, d := IdentitySlots(e), IdentitySlots(f);
    assert c[0] == d[0] && c[2] == d[2] && c[4] == d[4];
    IfSetInjective(e.actorID, f.actorID);
    IfSetInjective(e.actorType, f.actorType);
    IfSetInjective(e.authMethod, f.authMethod);
    IfSetInjective(e.role, f.role);
  }

  lemma RequestDetermined(e: AuditEvent, f: AuditEvent)
    requires TargetSlots(e) == TargetSlots(f) && RequestSlots(e) == RequestSlots(f)
    ensures e.targetType == f.targetType && e.targetID == f.targetID && e.sourceIP == f.sourceIP
    ensures e.userAgent == f.userAgent && e.verb == f.verb && e.path == f.path
  {
    var a, b := TargetSlots(e), TargetSlots(f);
    assert a[0] == b[0] && a[2] == b[2];
    var c, d := RequestSlots(e), RequestSlots(f);
    assert c[0] == d[0] && c[1] == d[1] && c[2] == d[2] && c[3] == d[3];
    IfSetInjective(e.targetType, f.targetType);
    IfSetInjective(e.targetID, f.targetID);
    IfSetInjective(e.sourceIP, f.sourceIP);
    IfSetInjective(e.userAgent, f.userAgent);
  }

  lemma NumbersDetermined(e: AuditEvent, f: AuditEvent)
    requires NumberSlots(e) == NumberSlots(f)
    ensures e.statusCode == f.statusCode && e.schemaID == f.schemaID && Millis(e.duration) == Millis(f.duration)
  {
    var a, b := NumberSlots(e), NumberSlots(f);
    assert a[0] == b[0] && a[2] == b[2] && a[4] == b[4];
    IfNonZeroInjective(e.statusCode, f.statusCode);
    IfNonZeroInjective(e.schemaID, f.schemaID);
  }

  lemma DetailDetermined(e: AuditEvent, f: AuditEvent)
    requires DetailSlots(e) == DetailSlots(f) && HashSlots(e) == HashSlots(f)
    ensures e.context == f.context && e.reason == f.reason && e.error == f.error
    ensures e.beforeHash == f.beforeHash && e.afterHash == f.afterHash && e.requestID == f.requestID
  {
    var a, b := DetailSlots(e), DetailSlots(f);
    assert a[0] == b[0] && a[2] == b[2] && a[3] == b[3];
    var c, d := HashSlots(e), HashSlots(f);
    assert c[0] == d[0] && c[1] == d[1] && c[2] == d[2];
    IfSetInjective(e.context, f.context);
    IfSetInjective(e.reason, f.reason);
    IfSetInjective(e.error, f.error);
    IfSetInjective(e.beforeHash, f.beforeHash);
    IfSetInjective(e.afterHash, f.afterHash);
    IfSetInjective(e.requestID, f.requestID);
  }

  /** Agreement on every printed attribute, with positive durations compared to the millisecond. */
  predicate SamePrinted(e: AuditEvent, f: AuditEvent) {
    && e.(duration := 0) == f.(duration := 0)
    && (e.duration > 0 <==> f.duration > 0)
    && (e.duration > 0 ==> e.duration / 1000000 == f.duration / 1000000)
  }

  /** The fields of the line determine the printed attributes, and so does its header the event type. */
  lemma FieldsDetermineEvent(w: Wording, e: AuditEvent, f: AuditEvent)
    requires Header(w, e) == Header(w, f) && Present(Slots(e)) == Present(Slots(f))
    ensures SamePrinted(e, f)
  {
    assert Header(w, e)[4] == e.eventType && Header(w, f)[4] == f.eventType;
    SlotsRanked(e);
    SlotsRanked(f);
    forall i | 0 <= i < 30
      ensures Slots(e)[i].key == Slots(f)[i].key
    {
      RanksAreDistinct(Slots(e)[i].key, Slots(f)[i].key);
    }
    PresentInjective(Slots(e), Slots(f));
    SlotsDetermine(e, f);
    MillisInjective(e.duration, f.duration);
  }

  lemma SameSlots(e: AuditEvent, f: AuditEvent)
    requires SamePrinted(e, f)
    ensures Slots(e) == Slots(f)
  {
    assert e.duration > 0 ==> Dec(e.duration / 1000000) == Dec(f.duration / 1000000);
    assert Millis(e.duration) == Millis(f.duration);
  }

  /** Two events print alike exactly when they agree on every printed attribute. */
  lemma LineDeterminesEvent(w: Wording, e: AuditEvent, f: AuditEvent)
    ensures Line(w, e) == Line(w, f) <==> SamePrinted(e, f)
  {
    if Line(w, e) == Line(w, f) {
      LineReadsBack(w, e);
      LineReadsBack(w, f);
      FieldsDetermineEvent(w, e, f);
    }
    if SamePrinted(e, f) {
      SameSlots(e, f);
    }
  }

  // ----- one record, one line

  lemma {:induction false} EscapedNewlines(s: string)
    ensures '\n' !in EscapeValue(s)
    ensures '\n' in EscapeHeader(s) <==> '\n' in s
  {
    EscapeValueIsOnePass(s);
    EscapeHeaderIsOnePass(s);
    if s != [] {
      EscapedNewlines(s[1..]);
      EscapeValueIsOnePass(s[1..]);
      EscapeHeaderIsOnePass(s[1..]);
      assert s == [s[0]] + s[1..];
    }
  }

  lemma {:induction false} ExtensionIsOneLine(slots: seq<Slot>)
    ensures '\n' !in Extension(Present(slots))
  {
    if slots != [] {
      var init, last := slots[..|slots| - 1], slots[|slots| - 1];
      ExtensionIsOneLine(init);
      assert slots == init + [last];
      PresentOfLast(init, last);
      if last.content != Absent {
        var f := Field(Name(last.key), Contents(last));
        ExtensionOfLast(Present(init), f);
        FieldIsOneLine(last.key, f.value);
      } else {
        assert Present(slots) == Present(init);
      }
    }
  }

  lemma FieldIsOneLine(k: Key, value: string)
    ensures '\n' !in FieldText(Name(k), value)
  {
    NamesArePlain(k);
    EscapedNewlines(value);
  }

  lemma PrintedLineBreaks(prefix: string, a: string, b: string, n: int, ext: string)
    requires '\n' !in prefix && '\n' !in ext
    ensures var line := Printed(prefix, a, b, n, ext);
            '\n' in line[..|line| - 1] <==> '\n' in a || '\n' in b
  {
    EscapedNewlines(a);
    EscapedNewlines(b);
    var body := prefix + EscapeHeader(a) + "|" + EscapeHeader(b) + "|" + Dec(n) + "|" + ext;
    DropLineEnd(body);
  }

  lemma PrefixIsOneLine()
    ensures '\n' !in Prefix()
  {
  }

  /** Only the event type and its description can break a record over two lines: no field value can. */
  lemma LineBreaks(w: Wording, e: AuditEvent)
    ensures '\n' in Line(w, e)[..|Line(w, e)| - 1] <==> '\n' in e.eventType || '\n' in w.describe(e.eventType)
  {
    ExtensionIsOneLine(Slots(e));
    PrefixIsOneLine();
    PrintedLineBreaks(Prefix(), e.eventType, w.describe(e.eventType),
                      w.severity(e.outcome, e.eventType), Extension(Present(Slots(e))));
  }
}
