/** Which attribute of an event stands under which key of its printed line. */
module CefKeys {
  import opened Cef
  import opened CefEvents
  import opened Text

  /** The values a reader finds under a key, in order. */
  function Under(fields: seq<Field>, key: string): seq<string> {
    if fields == [] then []
    else Under(fields[..|fields| - 1], key) + if fields[|fields| - 1].key == key then [fields[|fields| - 1].value] else []
  }

  lemma {:induction false} UnderConcat(a: seq<Field>, b: seq<Field>, key: string)
    ensures Under(a + b, key) == Under(a, key) + Under(b, key)
  {
    if b == [] {
      assert a + b == a;
    } else {
      var init, last := b[..|b| - 1], b[|b| - 1];
      UnderConcat(a, init, key);
      assert (a + b)[..|a + b| - 1] == a + init;
    }
  }

  /** The value of a content, if it is not left out. */
  function Values(slot: Slot): seq<string> {
    if slot.content == Absent then [] else [Contents(slot)]
  }

  lemma UnderFieldOf(slot: Slot, key: string)
    ensures Under(FieldOf(slot), key) == if Name(slot.key) == key then Values(slot) else []
  {
    var fields := FieldOf(slot);
    if fields != [] {
      assert fields[..0] == [];
    }
  }

  lemma PresentSplits(slots: seq<Slot>, key: string)
    requires slots != []
    ensures var (init, last) := (slots[..|slots| - 1], slots[|slots| - 1]);
            Under(Present(slots), key) == Under(Present(init), key) + if Name(last.key) == key then Values(last) else []
  {
    UnderConcat(Present(slots[..|slots| - 1]), FieldOf(slots[|slots| - 1]), key);
    UnderFieldOf(slots[|slots| - 1], key);
  }

  lemma {:induction false} NothingUnder(slots: seq<Slot>, key: Key)
    requires Ranked(slots, 0) && Rank(key) >= |slots|
    ensures Under(Present(slots), Name(key)) == []
  {
    if slots != [] {
      PresentSplits(slots, Name(key));
      RankedInit(slots);
      NothingUnder(slots[..|slots| - 1], key);
      if Name(slots[|slots| - 1].key) == Name(key) {
        NamesAreDistinct(slots[|slots| - 1].key, key);
      }
    }
  }

  /** Where the keys come in order, exactly its own content stands under each. */
  lemma {:induction false} UnderSlot(slots: seq<Slot>, i: nat)
    requires Ranked(slots, 0) && i < |slots|
    ensures Under(Present(slots), Name(slots[i].key)) == Values(slots[i])
  {
    var init, last, key := slots[..|slots| - 1], slots[|slots| - 1], slots[i].key;
    PresentSplits(slots, Name(key));
    RankedInit(slots);
    if i == |init| {
      NothingUnder(init, key);
    } else {
      UnderSlot(init, i);
      if Name(last.key) == Name(key) {
        NamesAreDistinct(last.key, key);
      }
    }
  }

  /** The fields that a table with every key in its place prints, as a reader finds them. */
  ghost predicate Printed(slots: seq<Slot>, fields: seq<Field>) {
    |slots| == 30 && forall i | 0 <= i < 30 :: Under(fields, Name(slots[i].key)) == Values(slots[i])
  }

  lemma TablePrinted(slots: seq<Slot>)
    requires Ranked(slots, 0) && |slots| == 30
    ensures Printed(slots, Present(slots))
  {
    forall i | 0 <= i < 30 ensures Under(Present(slots), Name(slots[i].key)) == Values(slots[i]) {
      UnderSlot(slots, i);
    }
  }

  function IfAny(s: string): seq<string> {
    if s == "" then [] else [s]
  }

  lemma ValueUnder(slots: seq<Slot>, fields: seq<Field>, i: nat, key: Key, content: Content, literal: string, name: string)
    requires Printed(slots, fields) && i < 30 && slots[i] == Slot(key, content) && Name(key) == literal
    ensures name == literal ==> Under(fields, name) == Values(Slot(key, content))
  {
  }

  lemma SetUnder(slots: seq<Slot>, fields: seq<Field>, i: nat, key: Key, s: string, literal: string, name: string)
    requires Printed(slots, fields) && i < 30 && slots[i] == Slot(key, IfSet(s)) && Name(key) == literal
    ensures name == literal ==> Under(fields, name) == IfAny(s)
  {
    ValueUnder(slots, fields, i, key, IfSet(s), literal, name);
  }

  lemma CaptionUnder(slots: seq<Slot>, fields: seq<Field>, i: nat, key: Key, content: Content, literal: string, name: string,
                     caption: string)
    requires Printed(slots, fields) && i < 30 && slots[i] == Slot(key, LabelFor(content)) && Name(key) == literal
    requires CaptionOf(key) == caption
    ensures name == literal ==> Under(fields, name) == if content == Absent then [] else [caption]
  {
    ValueUnder(slots, fields, i, key, LabelFor(content), literal, name);
  }

  // ----- the thirty keys and nine captions

  predicate ActorShown(e: AuditEvent, name: string, values: seq<string>) {
    && (name == "rt" ==> values == [e.timestamp])
    && (name == "outcome" ==> values == [e.outcome])
    && (name == "suser" ==> values == IfAny(e.actorID))
  }

  predicate IdentityShown(e: AuditEvent, name: string, values: seq<string>) {
    && (name == "cs1" ==> values == IfAny(e.actorType))
    && (name == "cs1Label" ==> values == if e.actorType == "" then [] else ["actorType"])
    && (name == "cs2" ==> values == IfAny(e.authMethod))
    && (name == "cs2Label" ==> values == if e.authMethod == "" then [] else ["authMethod"])
    && (name == "cs3" ==> values == IfAny(e.role))
    && (name == "cs3Label" ==> values == if e.role == "" then [] else ["role"])
  }

  predicate TargetShown(e: AuditEvent, name: string, values: seq<string>) {
    && (name == "cs4" ==> values == IfAny(e.targetType))
    && (name == "cs4Label" ==> values == if e.targetType == "" then [] else ["targetType"])
    && (name == "cs5" ==> values == IfAny(e.targetID))
    && (name == "cs5Label" ==> values == if e.targetID == "" then [] else ["targetID"])
  }

  predicate RequestShown(e: AuditEvent, name: string, values: seq<string>) {
    && (name == "src" ==> values == IfAny(e.sourceIP))
    && (name == "requestClientApplication" ==> values == IfAny(e.userAgent))
    && (name == "requestMethod" ==> values == [e.verb])
    && (name == "request" ==> values == [e.path])
  }

  predicate NumberShown(e: AuditEvent, name: string, values: seq<string>) {
    && (name == "cn1" ==> values == if e.statusCode == 0 then [] else [Dec(e.statusCode)])
    && (name == "cn2" ==> values == if e.schemaID == 0 then [] else [Dec(e.schemaID)])
    && (name == "cn3" ==> values == if e.duration <= 0 then [] else [Dec(e.duration / 1000000)])
  }

  predicate NumberLabelShown(e: AuditEvent, name: string, values: seq<string>) {
    && (name == "cn1Label" ==> values == if e.statusCode == 0 then [] else ["statusCode"])
    && (name == "cn2Label" ==> values == if e.schemaID == 0 then [] else ["schemaID"])
    && (name == "cn3Label" ==> values == if e.duration <= 0 then [] else ["durationMs"])
  }

  predicate DetailShown(e: AuditEvent, name: string, values: seq<string>) {
    && (name == "cs6" ==> values == IfAny(e.context))
    && (name == "cs6Label" ==> values == if e.context == "" then [] else ["context"])
    && (name == "reason" ==> values == IfAny(e.reason))
    && (name == "msg" ==> values == IfAny(e.error))
  }

  predicate HashShown(e: AuditEvent, name: string, values: seq<string>) {
    && (name == "oldFileHash" ==> values == IfAny(e.beforeHash))
    && (name == "fileHash" ==> values == IfAny(e.afterHash))
    && (name == "externalId" ==> values == IfAny(e.requestID))
  }

  // ----- what a table prints under them

  lemma FirstGroups(e: AuditEvent)
    ensures |Slots(e)| == 30 && Slots(e)[0..3] == ActorSlots(e) && Slots(e)[3..9] == IdentitySlots(e)
  {
  }

  lemma MiddleGroups(e: AuditEvent)
    ensures |Slots(e)| == 30 && Slots(e)[9..13] == TargetSlots(e) && Slots(e)[13..17] == RequestSlots(e)
  {
  }

  lemma LastGroups(e: AuditEvent)
    ensures |Slots(e)| == 30 && Slots(e)[17..23] == NumberSlots(e) && Slots(e)[23..27] == DetailSlots(e)
    ensures Slots(e)[27..30] == HashSlots(e)
  {
  }

  lemma ActorTable(slots: seq<Slot>, e: AuditEvent)
    requires |slots| == 30 && slots[0..3] == ActorSlots(e)
    ensures slots[0] == Slot(Rt, Text(e.timestamp))
    ensures slots[1] == Slot(Outcome, Text(e.outcome))
    ensures slots[2] == Slot(Suser, IfSet(e.actorID))
  {
    var part := slots[0..3];
    assert part[0] == slots[0] && part[1] == slots[1] && part[2] == slots[2];
  }

  lemma IdentityTable(slots: seq<Slot>, e: AuditEvent)
    requires |slots| == 30 && slots[3..9] == IdentitySlots(e)
    ensures slots[3] == Slot(Cs1, IfSet(e.actorType))
    ensures slots[4] == Slot(Cs1Label, LabelFor(IfSet(e.actorType)))
    ensures slots[5] == Slot(Cs2, IfSet(e.authMethod))
    ensures slots[6] == Slot(Cs2Label, LabelFor(IfSet(e.authMethod)))
    ensures slots[7] == Slot(Cs3, IfSet(e.role))
    ensures slots[8] == Slot(Cs3Label, LabelFor(IfSet(e.role)))
  {
    var part := slots[3..9];
    assert part[0] == slots[3] && part[1] == slots[4] && part[2] == slots[5] && part[3] == slots[6] && part[4] == slots[7] && part[5] == slots[8];
  }

  lemma TargetTable(slots: seq<Slot>, e: AuditEvent)
    requires |slots| == 30 && slots[9..13] == TargetSlots(e)
    ensures slots[9] == Slot(Cs4, IfSet(e.targetType))
    ensures slots[10] == Slot(Cs4Label, LabelFor(IfSet(e.targetType)))
    ensures slots[11] == Slot(Cs5, IfSet(e.targetID))
    ensures slots[12] == Slot(Cs5Label, LabelFor(IfSet(e.targetID)))
  {
    var part := slots[9..13];
    assert part[0] == slots[9] && part[1] == slots[10] && part[2] == slots[11] && part[3] == slots[12];
  }

  lemma RequestTable(slots: seq<Slot>, e: AuditEvent)
    requires |slots| == 30 && slots[13..17] == RequestSlots(e)
    ensures slots[13] == Slot(Src, IfSet(e.sourceIP))
    ensures slots[14] == Slot(RequestClientApplication, IfSet(e.userAgent))
    ensures slots[15] == Slot(RequestMethod, Text(e.verb))
    ensures slots[16] == Slot(Request, Text(e.path))
  {
    var part := slots[13..17];
    assert part[0] == slots[13] && part[1] == slots[14] && part[2] == slots[15] && part[3] == slots[16];
  }

  lemma NumberTable(slots: seq<Slot>, e: AuditEvent)
    requires |slots| == 30 && slots[17..23] == NumberSlots(e)
    ensures slots[17] == Slot(Cn1, IfNonZero(e.statusCode))
    ensures slots[18] == Slot(Cn1Label, LabelFor(IfNonZero(e.statusCode)))
    ensures slots[19] == Slot(Cn2, IfNonZero(e.schemaID))
    ensures slots[20] == Slot(Cn2Label, LabelFor(IfNonZero(e.schemaID)))
    ensures slots[21] == Slot(Cn3, Millis(e.duration))
    ensures slots[22] == Slot(Cn3Label, LabelFor(Millis(e.duration)))
  {
    var part := slots[17..23];
    assert part[0] == slots[17] && part[1] == slots[18] && part[2] == slots[19] && part[3] == slots[20] && part[4] == slots[21] && part[5] == slots[22];
  }

  lemma DetailTable(slots: seq<Slot>, e: AuditEvent)
    requires |slots| == 30 && slots[23..27] == DetailSlots(e)
    ensures slots[23] == Slot(Cs6, IfSet(e.context))
    ensures slots[24] == Slot(Cs6Label, LabelFor(IfSet(e.context)))
    ensures slots[25] == Slot(Reason, IfSet(e.reason))
    ensures slots[26] == Slot(Msg, IfSet(e.error))
  {
    var part := slots[23..27];
    assert part[0] == slots[23] && part[1] == slots[24] && part[2] == slots[25] && part[3] == slots[26];
  }

  lemma HashTable(slots: seq<Slot>, e: AuditEvent)
    requires |slots| == 30 && slots[27..30] == HashSlots(e)
    ensures slots[27] == Slot(OldFileHash, IfSet(e.beforeHash))
    ensures slots[28] == Slot(FileHash, IfSet(e.afterHash))
    ensures slots[29] == Slot(ExternalId, IfSet(e.requestID))
  {
    var part := slots[27..30];
    assert part[0] == slots[27] && part[1] == slots[28] && part[2] == slots[29];
  }

  lemma ActorUnder(slots: seq<Slot>, fields: seq<Field>, e: AuditEvent, name: string)
    requires Printed(slots, fields) && slots[0..3] == ActorSlots(e)
    ensures ActorShown(e, name, Under(fields, name))
  {
    ActorTable(slots, e);
    ValueUnder(slots, fields, 0, Rt, Text(e.timestamp), "rt", name);
    ValueUnder(slots, fields, 1, Outcome, Text(e.outcome), "outcome", name);
    SetUnder(slots, fields, 2, Suser, e.actorID, "suser", name);
  }

  lemma IdentityUnder(slots: seq<Slot>, fields: seq<Field>, e: AuditEvent, name: string)
    requires Printed(slots, fields) && slots[3..9] == IdentitySlots(e)
    ensures IdentityShown(e, name, Under(fields, name))
  {
    IdentityTable(slots, e);
    SetUnder(slots, fields, 3, Cs1, e.actorType, "cs1", name);
    CaptionUnder(slots, fields, 4, Cs1Label, IfSet(e.actorType), "cs1Label", name, "actorType");
    SetUnder(slots, fields, 5, Cs2, e.authMethod, "cs2", name);
    CaptionUnder(slots, fields, 6, Cs2Label, IfSet(e.authMethod), "cs2Label", name, "authMethod");
    SetUnder(slots, fields, 7, Cs3, e.role, "cs3", name);
    CaptionUnder(slots, fields, 8, Cs3Label, IfSet(e.role), "cs3Label", name, "role");
  }

  lemma TargetUnder(slots: seq<Slot>, fields: seq<Field>, e: AuditEvent, name: string)
    requires Printed(slots, fields) && slots[9..13] == TargetSlots(e)
    ensures TargetShown(e, name, Under(fields, name))
  {
    TargetTable(slots, e);
    SetUnder(slots, fields, 9, Cs4, e.targetType, "cs4", name);
    CaptionUnder(slots, fields, 10, Cs4Label, IfSet(e.targetType), "cs4Label", name, "targetType");
    SetUnder(slots, fields, 11, Cs5, e.targetID, "cs5", name);
    CaptionUnder(slots, fields, 12, Cs5Label, IfSet(e.targetID), "cs5Label", name, "targetID");
  }

  lemma RequestUnder(slots: seq<Slot>, fields: seq<Field>, e: AuditEvent, name: string)
    requires Printed(slots, fields) && slots[13..17] == RequestSlots(e)
    ensures RequestShown(e, name, Under(fields, name))
  {
    RequestTable(slots, e);
    SetUnder(slots, fields, 13, Src, e.sourceIP, "src", name);
    SetUnder(slots, fields, 14, RequestClientApplication, e.userAgent, "requestClientApplication", name);
    ValueUnder(slots, fields, 15, RequestMethod, Text(e.verb), "requestMethod", name);
    ValueUnder(slots, fields, 16, Request, Text(e.path), "request", name);
  }

  lemma NumbersUnder(slots: seq<Slot>, fields: seq<Field>, c: Content, d: Content, f: Content, name: string)
    requires Printed(slots, fields) && slots[17] == Slot(Cn1, c) && slots[19] == Slot(Cn2, d) && slots[21] == Slot(Cn3, f)
    ensures name == "cn1" ==> Under(fields, name) == Values(Slot(Cn1, c))
    ensures name == "cn2" ==> Under(fields, name) == Values(Slot(Cn2, d))
    ensures name == "cn3" ==> Under(fields, name) == Values(Slot(Cn3, f))
  {
    ValueUnder(slots, fields, 17, Cn1, c, "cn1", name);
    ValueUnder(slots, fields, 19, Cn2, d, "cn2", name);
    ValueUnder(slots, fields, 21, Cn3, f, "cn3", name);
  }

  lemma NumberUnder(slots: seq<Slot>, fields: seq<Field>, e: AuditEvent, name: string)
    requires Printed(slots, fields) && slots[17..23] == NumberSlots(e)
    ensures NumberShown(e, name, Under(fields, name))
  {
    NumberTable(slots, e);
    NumbersUnder(slots, fields, IfNonZero(e.statusCode), IfNonZero(e.schemaID), Millis(e.duration), name);
  }

  lemma NumberLabelsUnder(slots: seq<Slot>, fields: seq<Field>, c: Content, d: Content, f: Content, name: string)
    requires Printed(slots, fields) && slots[18] == Slot(Cn1Label, LabelFor(c)) && slots[20] == Slot(Cn2Label, LabelFor(d))
    requires slots[22] == Slot(Cn3Label, LabelFor(f))
    ensures name == "cn1Label" ==> Under(fields, name) == if c == Absent then [] else ["statusCode"]
    ensures name == "cn2Label" ==> Under(fields, name) == if d == Absent then [] else ["schemaID"]
    ensures name == "cn3Label" ==> Under(fields, name) == if f == Absent then [] else ["durationMs"]
  {
    CaptionUnder(slots, fields, 18, Cn1Label, c, "cn1Label", name, "statusCode");
    CaptionUnder(slots, fields, 20, Cn2Label, d, "cn2Label", name, "schemaID");
    CaptionUnder(slots, fields, 22, Cn3Label, f, "cn3Label", name, "durationMs");
  }

  lemma NumberLabelUnder(slots: seq<Slot>, fields: seq<Field>, e: AuditEvent, name: string)
    requires Printed(slots, fields) && slots[17..23] == NumberSlots(e)
    ensures NumberLabelShown(e, name, Under(fields, name))
  {
    NumberTable(slots, e);
    NumberLabelsUnder(slots, fields, IfNonZero(e.statusCode), IfNonZero(e.schemaID), Millis(e.duration), name);
  }

  lemma DetailUnder(slots: seq<Slot>, fields: seq<Field>, e: AuditEvent, name: string)
    requires Printed(slots, fields) && slots[23..27] == DetailSlots(e)
    ensures DetailShown(e, name, Under(fields, name))
  {
    DetailTable(slots, e);
    SetUnder(slots, fields, 23, Cs6, e.context, "cs6", name);
    CaptionUnder(slots, fields, 24, Cs6Label, IfSet(e.context), "cs6Label", name, "context");
    SetUnder(slots, fields, 25, Reason, e.reason, "reason", name);
    SetUnder(slots, fields, 26, Msg, e.error, "msg", name);
  }

  lemma HashUnder(slots: seq<Slot>, fields: seq<Field>, e: AuditEvent, name: string)
    requires Printed(slots, fields) && slots[27..30] == HashSlots(e)
    ensures HashShown(e, name, Under(fields, name))
  {
    HashTable(slots, e);
    SetUnder(slots, fields, 27, OldFileHash, e.beforeHash, "oldFileHash", name);
    SetUnder(slots, fields, 28, FileHash, e.afterHash, "fileHash", name);
    SetUnder(slots, fields, 29, ExternalId, e.requestID, "externalId", name);
  }

  /** No key outside the table is ever printed. */
  lemma {:induction false} NoOtherUnder(slots: seq<Slot>, name: string)
    requires forall k: Key :: Name(k) != name
    ensures Under(Present(slots), name) == []
  {
    if slots != [] {
      PresentSplits(slots, name);
      NoOtherUnder(slots[..|slots| - 1], name);
    }
  }

  /** What a reader of the printed line finds under each key. */
  lemma LineShows(w: Wording, e: AuditEvent, name: string)
    ensures var values := Under(ReadLine(Line(w, e)).1, name);
            && ActorShown(e, name, values)
            && IdentityShown(e, name, values)
            && TargetShown(e, name, values)
            && RequestShown(e, name, values)
            && NumberShown(e, name, values)
            && NumberLabelShown(e, name, values)
            && DetailShown(e, name, values)
            && HashShown(e, name, values)
            && ((forall k: Key :: Name(k) != name) ==> values == [])
  {
    var slots, fields := Slots(e), Present(Slots(e));
    LineReadsBack(w, e);
    SlotsRanked(e);
    TablePrinted(slots);
    FirstGroups(e);
    MiddleGroups(e);
    LastGroups(e);
    ActorUnder(slots, fields, e, name);
    IdentityUnder(slots, fields, e, name);
    TargetUnder(slots, fields, e, name);
    RequestUnder(slots, fields, e, name);
    NumberUnder(slots, fields, e, name);
    NumberLabelUnder(slots, fields, e, name);
    DetailUnder(slots, fields, e, name);
    HashUnder(slots, fields, e, name);
    if forall k: Key :: Name(k) != name {
      NoOtherUnder(slots, name);
    }
  }

  /** The header of the printed line. */
  lemma LineHeader(w: Wording, e: AuditEvent)
    ensures ReadLine(Line(w, e)).0 ==
            ["CEF:0", "AxonOps", "SchemaRegistry", "1.0", e.eventType, w.describe(e.eventType), Dec(w.severity(e.outcome, e.eventType))]
  {
    LineReadsBack(w, e);
  }
}
