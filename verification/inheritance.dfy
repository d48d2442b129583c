/** Registering without metadata: when a version that only inherits stores what its predecessor stores. */
module Inheritance {
  import opened Options
  import opened Metadatas
  import opened Compatibility
  import opened Storage
  import opened Registry
  import opened Integrity
  import opened History
  import opened Versions

  predicate HasControl(m: Option<Metadata>) {
    m.Some? && m.value.properties.Some? && "confluent:version" in m.value.properties.value
  }

  /** What is stored: the layered merge without the control property. */
  function Kept(l: Layers, request: Option<Metadata>, previous: Option<Metadata>): Option<Metadata> {
    StripConfluentVersion(LayeredMetadata(l, request, previous))
  }

  function AllLayers(d: Option<Metadata>, s: Option<Metadata>, o: Option<Metadata>): Option<Metadata> {
    MergedMetadata(MergedMetadata(d, s), o)
  }

  /**
    * Default, request (or what it inherits) and override merge to something that is stored again and again. Beside the
    * sensitive lists it matters where a control property comes from, since stripping it can empty what it leaves behind.
    */
  predicate Stays(d: Option<Metadata>, s: Option<Metadata>, o: Option<Metadata>) {
    var m := AllLayers(d, s, o);
    var kept := StripConfluentVersion(m);
    if !HasControl(m) then SettledMetadata(d, s, o)
    else if HasControl(d) || HasControl(o) then
      SettledMetadata(d, s, o) && (kept.None? ==> MergedMetadata(d, o).Some? && MergedMetadata(d, o).value.sensitive == None)
    else if kept.None? then d.None? && o.None?
    else kept.value.properties.None? ==> PropertiesOf(d).None? && PropertiesOf(o).None?
  }

  function PropertiesOf(m: Option<Metadata>): Option<map<string, string>> {
    if m.Some? then m.value.properties else None
  }

  function TagsOf(m: Option<Metadata>): Option<map<string, seq<string>>> {
    if m.Some? then m.value.tags else None
  }

  function SensitiveOf(m: Option<Metadata>): Option<seq<string>> {
    if m.Some? then m.value.sensitive else None
  }

  lemma FieldsOfMerged(a: Option<Metadata>, b: Option<Metadata>)
    ensures TagsOf(MergedMetadata(a, b)) == MergedMap(TagsOf(a), TagsOf(b))
    ensures PropertiesOf(MergedMetadata(a, b)) == MergedMap(PropertiesOf(a), PropertiesOf(b))
    ensures MergedMetadata(a, b).Some? <==> a.Some? || b.Some?
  {
  }

  lemma FieldsOfLayers(d: Option<Metadata>, s: Option<Metadata>, o: Option<Metadata>)
    ensures TagsOf(AllLayers(d, s, o)) == MergedMap(MergedMap(TagsOf(d), TagsOf(s)), TagsOf(o))
    ensures PropertiesOf(AllLayers(d, s, o)) == MergedMap(MergedMap(PropertiesOf(d), PropertiesOf(s)), PropertiesOf(o))
    ensures AllLayers(d, s, o).Some? <==> d.Some? || s.Some? || o.Some?
  {
    FieldsOfMerged(d, s);
    FieldsOfMerged(MergedMetadata(d, s), o);
  }

  /** Merging the outer maps in once more changes nothing. */
  lemma MapsSettle<T>(d: Option<map<string, T>>, s: Option<map<string, T>>, o: Option<map<string, T>>)
    ensures var m := MergedMap(MergedMap(d, s), o);
            MergedMap(MergedMap(d, m), o) == m
  {
    var m := MergedMap(MergedMap(d, s), o);
    if m.Some? {
      var x, y, z := OrEmpty(d), OrEmpty(s), OrEmpty(o);
      MergedMapUnion(d, s);
      MergedMapUnion(MergedMap(d, s), o);
      MergedMapUnion(d, m);
      MergedMapUnion(MergedMap(d, m), o);
      assert x + (x + y + z) + z == x + y + z;
    }
  }

  /** The sensitive list of the merge settles exactly if the merge does. */
  lemma SensitiveSettles(d: Option<Metadata>, s: Option<Metadata>, o: Option<Metadata>)
    ensures var m := AllLayers(d, s, o);
            SensitiveOf(AllLayers(d, m, o)) == SensitiveOf(m) <==> SettledMetadata(d, s, o)
  {
    var m := AllLayers(d, s, o);
    InheritanceIsStable(Layers(d, o, None, None), s, None);
    FieldsOfLayers(d, s, o);
    FieldsOfLayers(d, m, o);
    MapsSettle(TagsOf(d), TagsOf(s), TagsOf(o));
    MapsSettle(PropertiesOf(d), PropertiesOf(s), PropertiesOf(o));
  }

  /** The control property only changes the properties. */
  lemma StripFields(m: Option<Metadata>)
    requires HasControl(m)
    ensures var kept := StripConfluentVersion(m);
            var rest := m.value.properties.value - {"confluent:version"};
            && TagsOf(kept) == TagsOf(m) && SensitiveOf(kept) == SensitiveOf(m)
            && PropertiesOf(kept) == (if rest == map[] then None else Some(rest))
            && (kept.None? <==> TagsOf(m).None? && SensitiveOf(m).None? && rest == map[])
  {
  }

  lemma WithoutControl(m: Option<Metadata>)
    requires !HasControl(m)
    ensures StripConfluentVersion(m) == m
  {
  }

  lemma ControlOfLayers(d: Option<Metadata>, s: Option<Metadata>, o: Option<Metadata>)
    ensures HasControl(AllLayers(d, s, o)) <==> HasControl(d) || HasControl(s) || HasControl(o)
  {
    FieldsOfLayers(d, s, o);
  }

  /** Equal tags and sensitive lists merge to equal ones. */
  lemma SameButProperties(d: Option<Metadata>, a: Option<Metadata>, b: Option<Metadata>, o: Option<Metadata>)
    requires a.Some? && b.Some? && a.value.tags == b.value.tags && a.value.sensitive == b.value.sensitive
    ensures TagsOf(AllLayers(d, a, o)) == TagsOf(AllLayers(d, b, o))
    ensures SensitiveOf(AllLayers(d, a, o)) == SensitiveOf(AllLayers(d, b, o))
  {
  }

  lemma RestAgain(x: map<string, string>, y: map<string, string>, z: map<string, string>, c: string)
    ensures var rest := x + y + z - {c};
            && x + rest + z - {c} == rest
            && (c in x + rest + z <==> c in x || c in z)
  {
  }

  /** The properties of the merge with what was kept of it, when the control property comes from a layer. */
  lemma PropertiesAgain(d: Option<map<string, string>>, s: Option<map<string, string>>, o: Option<map<string, string>>, c: string)
    requires var m := MergedMap(MergedMap(d, s), o); m.Some? && c in m.value
    ensures var m := MergedMap(MergedMap(d, s), o);
            var rest := m.value - {c};
            var again := MergedMap(MergedMap(d, if rest == map[] then None else Some(rest)), o);
            && (again.Some? ==> again.value - {c} == rest)
            && (again.None? ==> rest == map[])
            && (again.Some? <==> rest != map[] || d.Some? || o.Some?)
            && (again.Some? && c in again.value <==> (d.Some? && c in d.value) || (o.Some? && c in o.value))
  {
    var m := MergedMap(MergedMap(d, s), o);
    var rest := m.value - {c};
    var kept: Option<map<string, string>> := if rest == map[] then None else Some(rest);
    MergedMapUnion(d, s);
    MergedMapUnion(MergedMap(d, s), o);
    MergedMapUnion(d, kept);
    MergedMapUnion(MergedMap(d, kept), o);
    assert OrEmpty(kept) == rest;
    var again := MergedMap(MergedMap(d, kept), o);
    if again.Some? {
      RestAgain(OrEmpty(d), OrEmpty(s), OrEmpty(o), c);
    }
  }

  /** What was kept, merged in again: the control property is there again exactly if a layer has it. */
  lemma KeptAgain(d: Option<Metadata>, s: Option<Metadata>, o: Option<Metadata>)
    requires HasControl(AllLayers(d, s, o)) && StripConfluentVersion(AllLayers(d, s, o)).Some?
    ensures var m := AllLayers(d, s, o);
            var again := AllLayers(d, StripConfluentVersion(m), o);
            && TagsOf(again) == TagsOf(m)
            && (SensitiveOf(again) == SensitiveOf(m) <==> SettledMetadata(d, s, o))
            && (HasControl(again) <==> HasControl(d) || HasControl(o))
  {
    var m := AllLayers(d, s, o);
    var kept := StripConfluentVersion(m);
    StripFields(m);
    SameButProperties(d, kept, m, o);
    SensitiveSettles(d, s, o);
    FieldsOfLayers(d, m, o);
    FieldsOfLayers(d, s, o);
    MapsSettle(TagsOf(d), TagsOf(s), TagsOf(o));
    ControlOfLayers(d, kept, o);
  }

  /** Something was kept, and a layer brings the control property in again. */
  lemma StaysWithControl(d: Option<Metadata>, s: Option<Metadata>, o: Option<Metadata>)
    requires HasControl(AllLayers(d, s, o)) && StripConfluentVersion(AllLayers(d, s, o)).Some? && (HasControl(d) || HasControl(o))
    ensures var kept := StripConfluentVersion(AllLayers(d, s, o));
            StripConfluentVersion(AllLayers(d, kept, o)) == kept <==> SettledMetadata(d, s, o)
  {
    var m := AllLayers(d, s, o);
    var kept := StripConfluentVersion(m);
    var again := AllLayers(d, kept, o);
    KeptAgain(d, s, o);
    StripFields(m);
    StripFields(again);
    FieldsOfLayers(d, s, o);
    FieldsOfLayers(d, kept, o);
    PropertiesAgain(PropertiesOf(d), PropertiesOf(s), PropertiesOf(o), "confluent:version");
  }

  /** Something was kept, and only the request brought the control property. */
  lemma StaysWithoutControl(d: Option<Metadata>, s: Option<Metadata>, o: Option<Metadata>)
    requires HasControl(AllLayers(d, s, o)) && StripConfluentVersion(AllLayers(d, s, o)).Some? && !HasControl(d) && !HasControl(o)
    ensures var kept := StripConfluentVersion(AllLayers(d, s, o));
            StripConfluentVersion(AllLayers(d, kept, o)) == kept <==>
            (kept.value.properties.None? ==> PropertiesOf(d).None? && PropertiesOf(o).None?)
  {
    var m := AllLayers(d, s, o);
    var kept := StripConfluentVersion(m);
    var again := AllLayers(d, kept, o);
    KeptAgain(d, s, o);
    ControlOfLayers(d, s, o);
    StripFields(m);
    WithoutControl(again);
    FieldsOfLayers(d, s, o);
    FieldsOfLayers(d, kept, o);
    PropertiesAgain(PropertiesOf(d), PropertiesOf(s), PropertiesOf(o), "confluent:version");
    assert again.value == Metadata(TagsOf(again), PropertiesOf(again), SensitiveOf(again));
    if PropertiesOf(again).Some? && !(PropertiesOf(kept).None? && PropertiesOf(again).Some?) {
      assert PropertiesOf(again).value - {"confluent:version"} == PropertiesOf(again).value;
    }
  }

  /** Nothing was kept. */
  lemma StaysEmpty(d: Option<Metadata>, s: Option<Metadata>, o: Option<Metadata>)
    requires HasControl(AllLayers(d, s, o)) && StripConfluentVersion(AllLayers(d, s, o)).None?
    ensures StripConfluentVersion(AllLayers(d, None, o)).None? <==> Stays(d, s, o)
  {
    var m := AllLayers(d, s, o);
    var again := AllLayers(d, None, o);
    StripFields(m);
    FieldsOfLayers(d, s, o);
    FieldsOfLayers(d, None, o);
    ControlOfLayers(d, None, o);
    SettledIfEmpty(d, s, o);
    if HasControl(again) {
      StripFields(again);
      PropertiesAgain(PropertiesOf(d), PropertiesOf(s), PropertiesOf(o), "confluent:version");
    } else {
      WithoutControl(again);
    }
  }

  lemma SettledIfEmpty(d: Option<Metadata>, s: Option<Metadata>, o: Option<Metadata>)
    requires AllLayers(d, s, o).Some? && AllLayers(d, s, o).value.sensitive == None
    ensures SettledMetadata(d, s, o)
  {
  }

  /** A version that only inherits, under unchanged config, stores exactly what its predecessor stores in these cases. */
  lemma KeptStays(l: Layers, request: Option<Metadata>, previous: Option<Metadata>)
    ensures var stored := Kept(l, request, previous);
            Kept(l, None, stored) == stored <==> Stays(l.defaultMetadata, Specific(request, previous), l.overrideMetadata)
  {
    var d, s, o := l.defaultMetadata, Specific(request, previous), l.overrideMetadata;
    var m := AllLayers(d, s, o);
    FieldsOfLayers(d, s, o);
    assert LayeredMetadata(l, request, previous) == m;
    if !HasControl(m) {
      WithoutControl(m);
      InheritanceIsStable(l, request, previous);
      ControlOfLayers(d, s, o);
      ControlOfLayers(d, m, o);
      WithoutControl(AllLayers(d, m, o));
      LayersAgain(l, m);
    } else {
      LayersAgain(l, StripConfluentVersion(m));
      if StripConfluentVersion(m).None? {
        StaysEmpty(d, s, o);
      } else if HasControl(d) || HasControl(o) {
        StaysWithControl(d, s, o);
      } else {
        StaysWithoutControl(d, s, o);
      }
    }
  }

  lemma LayersAgain(l: Layers, stored: Option<Metadata>)
    ensures LayeredMetadata(l, None, stored) == AllLayers(l.defaultMetadata, stored, l.overrideMetadata)
  {
  }

  /** For example: a default layer with a control property and an empty sensitive list, and a request with empty metadata. */
  lemma StripUnsettles()
    ensures var d := Some(Metadata(None, Some(map["confluent:version" := "3"]), Some([])));
            var l := Layers(d, None, None, None);
            var request := Some(Metadata(None, None, None));
            && SettledMetadata(d, request, None)
            && Kept(l, request, None) == None && Kept(l, None, None) == Some(Metadata(None, None, Some([])))
  {
    var d := Some(Metadata(None, Some(map["confluent:version" := "3"]), Some([])));
    assert map["confluent:version" := "3"] - {"confluent:version"} == map[];
    assert Distinct([] + []) == [];
  }

  // ----- registrations

  lemma RecordMerges(env: Env, st: State, c: Candidate)
    ensures var l := EffectiveConfig(env, st, c.request.subject).layers;
            var r := RecordFor(env, st, c);
            && r.metadata == StripConfluentVersion(LayeredMetadata(l, c.request.metadata, PreviousMetadata(st, c.request.subject)))
            && r.ruleSet == LayeredRuleSet(l, c.request.ruleSet, PreviousRuleSet(st, c.request.subject))
  {
  }

  lemma SameConfig(env: Env, st: State, after: State, subject: string)
    requires after.settings == st.settings
    ensures EffectiveConfig(env, after, subject) == EffectiveConfig(env, st, subject)
  {
  }

  /**
    * Over registrations: a version registered without metadata right after another one, under unchanged config, stores that
    * version's metadata in exactly these cases; and without a rule set its rule set if the rule sets are settled.
    */
  lemma InheritedRecordStays(env: Env, st: State, c: Candidate, next: Candidate)
    requires Sound(st) && IdsBelow(st) && Admitted(LiveView(st), RecordFor(env, st, c))
    requires AfterCreate(st, RecordFor(env, st, c)).1.Ok? && next.request.subject == c.request.subject
    requires next.request.metadata == None && next.request.ruleSet == None
    ensures var l := EffectiveConfig(env, st, c.request.subject).layers;
            var first := RecordFor(env, st, c);
            var second := RecordFor(env, AfterCreate(st, first).0, next);
            && (second.metadata == first.metadata <==>
                Stays(l.defaultMetadata, Specific(c.request.metadata, PreviousMetadata(st, c.request.subject)), l.overrideMetadata))
            && (second.ruleSet == first.ruleSet <==>
                SettledRuleSets(l.defaultRuleSet, Specific(c.request.ruleSet, PreviousRuleSet(st, c.request.subject)), l.overrideRuleSet))
  {
    var subject := c.request.subject;
    var l := EffectiveConfig(env, st, subject).layers;
    var after := AfterCreate(st, RecordFor(env, st, c)).0;
    CreateKeepsSettings(st, RecordFor(env, st, c));
    SameConfig(env, st, after, subject);
    StoredIsLatest(env, st, c);
    RecordMerges(env, st, c);
    RecordMerges(env, after, next);
    KeptStays(l, c.request.metadata, PreviousMetadata(st, subject));
    RuleInheritanceIsStable(l, c.request.ruleSet, PreviousRuleSet(st, subject));
  }

  /** A repetition merges alike if the request brings its own metadata and rule set, or if what it inherits stays. */
  lemma RepeatMergesAlike(env: Env, st: State, c: Candidate)
    requires Sound(st) && IdsBelow(st) && Admitted(LiveView(st), RecordFor(env, st, c))
    requires AfterCreate(st, RecordFor(env, st, c)).1.Ok?
    requires var l := EffectiveConfig(env, st, c.request.subject).layers;
             && (c.request.metadata.Some? ||
                 Stays(l.defaultMetadata, PreviousMetadata(st, c.request.subject), l.overrideMetadata))
             && (c.request.ruleSet.Some? ||
                 SettledRuleSets(l.defaultRuleSet, PreviousRuleSet(st, c.request.subject), l.overrideRuleSet))
    ensures MergesAlike(env, st, c)
  {
    var subject := c.request.subject;
    var l := EffectiveConfig(env, st, subject).layers;
    var after := AfterCreate(st, RecordFor(env, st, c)).0;
    CreateKeepsSettings(st, RecordFor(env, st, c));
    SameConfig(env, st, after, subject);
    StoredIsLatest(env, st, c);
    RecordMerges(env, st, c);
    RecordMerges(env, after, c);
    KeptStays(l, c.request.metadata, PreviousMetadata(st, subject));
    RuleInheritanceIsStable(l, c.request.ruleSet, PreviousRuleSet(st, subject));
  }
}
