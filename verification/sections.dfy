/** Turning one parsed locale file into the ordered updates that
    `get_settings_locale_from_config` makes: first the modern
    `mod-setting-name` section (labels), then the modern
    `mod-setting-description` section (descriptions), then every legacy
    `<prefix>_(map|pref|user)_settings` section in file order.

    The input is what the INI parser produced: sections in file order, each
    with its (key, value) pairs in order. */
module Sections {
  import opened Text
  import opened Store

  datatype Section = Section(name: string, items: seq<(string, string)>)

  const SettingNameSection := "mod-setting-name"
  const SettingDescriptionSection := "mod-setting-description"

  /** The alternatives after the group of `(.*)_(?:map|pref|user)_settings`. */
  const LegacySectionSuffixes := ["_map_settings", "_pref_settings", "_user_settings"]

  /** The literal after the group of `(.*)-desc`. */
  const DescriptionSuffixes := ["-desc"]

  /** The items of the section called `name`; the first one when the input
      repeats a name (the INI parser merges repeats, so it never does). */
  function FindSection(config: seq<Section>, name: string): (r: Option<seq<(string, string)>>)
    ensures r.None? <==> forall i :: 0 <= i < |config| ==> config[i].name != name
    ensures r.Some? ==> exists i :: 0 <= i < |config| && config[i].name == name && config[i].items == r.value
                                    && forall j :: 0 <= j < i ==> config[j].name != name
  {
    if config == [] then None
    else if config[0].name == name then Some(config[0].items)
    else
      var r := FindSection(config[1..], name);
      assert forall i :: 0 < i < |config| ==> config[i] == config[1..][i - 1];
      r
  }

  /** The prefix of a legacy section name, when the name is one: the longest
      newline-free start of the name that one of the suffixes follows, in any
      letter case and with anything after the suffix. */
  function LegacyPrefix(sectionName: string): (r: Option<string>)
    ensures r.Some? ==>
      && |r.value| <= |sectionName| && r.value == sectionName[..|r.value|]
      && GroupSplit(sectionName, |r.value|, LegacySectionSuffixes)
      && forall j :: |r.value| < j <= |sectionName| ==> !GroupSplit(sectionName, j, LegacySectionSuffixes)
    ensures r.None? <==> forall j :: 0 <= j <= |sectionName| ==> !GroupSplit(sectionName, j, LegacySectionSuffixes)
  {
    GreedyGroup(sectionName, LegacySectionSuffixes)
  }

  /** Each (key, value) of a modern section written verbatim to field `f` of setting `key`. */
  function ModernUpdates(items: seq<(string, string)>, f: Field): (us: seq<Update>)
    ensures |us| == |items|
    ensures forall i :: 0 <= i < |items| ==> us[i] == Update(items[i].0, f, items[i].1)
  {
    if items == [] then [] else [Update(items[0].0, f, items[0].1)] + ModernUpdates(items[1..], f)
  }

  /** The pairs of the section called `name`; none when the file lacks it. */
  function SectionItems(config: seq<Section>, name: string): seq<(string, string)> {
    match FindSection(config, name)
    case None => []
    case Some(items) => items
  }

  function SectionUpdates(config: seq<Section>, name: string, f: Field): seq<Update> {
    ModernUpdates(SectionItems(config, name), f)
  }

  /** The setting a legacy key names: `prefix_stem` for a key `stem-desc`
      (a description) and `prefix_key` for any other key (a label), with every
      hyphen replaced by an underscore. */
  function LegacyKeyUpdate(prefix: string, key: string, value: string): (u: Update)
    ensures u.value == value
    ensures '-' !in u.setting
    ensures u.field == Description <==> exists j :: 0 <= j <= |key| && GroupSplit(key, j, DescriptionSuffixes)
    // a description names the stem before the last `-desc` that a newline-free start reaches
    ensures u.field == Description ==>
      exists j :: 0 <= j <= |key| && GroupSplit(key, j, DescriptionSuffixes)
        && (forall k :: j < k <= |key| ==> !GroupSplit(key, k, DescriptionSuffixes))
        && u.setting == ReplaceHyphens(prefix + "_" + key[..j])
    // a label names the whole key
    ensures u.field == Label ==> u.setting == ReplaceHyphens(prefix + "_" + key)
    ensures |u.setting| > |prefix| && u.setting[..|prefix|] == ReplaceHyphens(prefix) && u.setting[|prefix|] == '_'
  {
    var stem := match GreedyGroup(key, DescriptionSuffixes) case Some(s) => s case None => key;
    var field := if GreedyGroup(key, DescriptionSuffixes).Some? then Description else Label;
    var name := ReplaceHyphens(prefix + "_" + stem);
    assert name[..|prefix|] == ReplaceHyphens(prefix);
    assert field == Description ==> key[..|stem|] == stem && GroupSplit(key, |stem|, DescriptionSuffixes);
    Update(name, field, value)
  }

  function LegacySectionUpdates(prefix: string, items: seq<(string, string)>): (us: seq<Update>)
    ensures |us| == |items|
    ensures forall i :: 0 <= i < |items| ==> us[i] == LegacyKeyUpdate(prefix, items[i].0, items[i].1)
  {
    if items == [] then []
    else [LegacyKeyUpdate(prefix, items[0].0, items[0].1)] + LegacySectionUpdates(prefix, items[1..])
  }

  /** The updates of every legacy section, section after section. */
  function LegacyUpdates(config: seq<Section>): (us: seq<Update>)
    ensures forall i :: 0 <= i < |us| ==> '-' !in us[i].setting
  {
    if config == [] then []
    else
      var here := match LegacyPrefix(config[0].name)
        case None => []
        case Some(prefix) => LegacySectionUpdates(prefix, config[0].items);
      here + LegacyUpdates(config[1..])
  }

  /** `us` is a label for each pair of `labels`, then a description for each
      pair of `descriptions`, then `legacy`, position by position. */
  predicate ModernThenLegacyOrder(
    us: seq<Update>, labels: seq<(string, string)>, descriptions: seq<(string, string)>, legacy: seq<Update>)
  {
    && |us| == |labels| + |descriptions| + |legacy|
    && (forall k :: 0 <= k < |labels| ==> us[k] == Update(labels[k].0, Label, labels[k].1))
    && (forall k :: 0 <= k < |descriptions| ==>
          us[|labels| + k] == Update(descriptions[k].0, Description, descriptions[k].1))
    && (forall k :: 0 <= k < |legacy| ==> us[|labels| + |descriptions| + k] == legacy[k])
  }

  /** All updates of one parsed locale file, in the order the source applies
      them: a label for each pair of `mod-setting-name`, with the name as
      written; then a description for each pair of `mod-setting-description`;
      then the updates of the legacy sections. A missing modern section
      contributes nothing and does not stop the others. */
  function Translate(config: seq<Section>): (us: seq<Update>)
    ensures ModernThenLegacyOrder(
              us, SectionItems(config, SettingNameSection), SectionItems(config, SettingDescriptionSection),
              LegacyUpdates(config))
  {
    var labels := SectionItems(config, SettingNameSection);
    var descriptions := SectionItems(config, SettingDescriptionSection);
    ModernThenLegacy(labels, descriptions, LegacyUpdates(config));
    ModernUpdates(labels, Label) + ModernUpdates(descriptions, Description) + LegacyUpdates(config)
  }

  /** Where each pair lands in labels, then descriptions, then `legacy`. */
  lemma ModernThenLegacy(labels: seq<(string, string)>, descriptions: seq<(string, string)>, legacy: seq<Update>)
    ensures ModernThenLegacyOrder(
              ModernUpdates(labels, Label) + ModernUpdates(descriptions, Description) + legacy,
              labels, descriptions, legacy)
  {
    var a := ModernUpdates(labels, Label);
    var b := ModernUpdates(descriptions, Description);
    var us := a + b + legacy;
    forall k | 0 <= k < |labels|
      ensures us[k] == Update(labels[k].0, Label, labels[k].1)
    {
      assert us[k] == a[k];
    }
    forall k | 0 <= k < |descriptions|
      ensures us[|labels| + k] == Update(descriptions[k].0, Description, descriptions[k].1)
    {
      assert us[|a| + k] == b[k];
    }
    forall k | 0 <= k < |legacy|
      ensures us[|labels| + |descriptions| + k] == legacy[k]
    {
      assert us[|a| + |b| + k] == legacy[k];
    }
  }

  /** The three groups of updates, as sequences. */
  lemma TranslateParts(config: seq<Section>)
    ensures Translate(config)
         == SectionUpdates(config, SettingNameSection, Label)
          + SectionUpdates(config, SettingDescriptionSection, Description)
          + LegacyUpdates(config)
  {
  }

  /** Sections are visited in file order: the legacy updates of two runs of
      sections are those of the first run, then those of the second. */
  lemma {:induction false} LegacyUpdatesConcat(a: seq<Section>, b: seq<Section>)
    ensures LegacyUpdates(a + b) == LegacyUpdates(a) + LegacyUpdates(b)
    decreases |a|
  {
    if a == [] {
      assert a + b == b;
    } else {
      assert (a + b)[1..] == a[1..] + b;
      LegacyUpdatesConcat(a[1..], b);
    }
  }

  lemma {:induction false} FindSectionSkips(a: seq<Section>, sec: Section, b: seq<Section>, name: string)
    requires sec.name != name
    ensures FindSection(a + [sec] + b, name) == FindSection(a + b, name)
    decreases |a|
  {
    if a == [] {
      assert a + [sec] + b == [sec] + b;
      assert ([sec] + b)[1..] == b;
      assert a + b == b;
    } else {
      assert (a + [sec] + b)[0] == a[0] && (a + b)[0] == a[0];
      assert (a + [sec] + b)[1..] == a[1..] + [sec] + b;
      assert (a + b)[1..] == a[1..] + b;
      FindSectionSkips(a[1..], sec, b, name);
    }
  }

  lemma NonLegacySectionHasNoUpdates(sec: Section)
    requires LegacyPrefix(sec.name).None?
    ensures LegacyUpdates([sec]) == []
  {
    assert [sec][1..] == [];
  }

  lemma LegacyUpdatesSkip(a: seq<Section>, sec: Section, b: seq<Section>)
    requires LegacyUpdates([sec]) == []
    ensures LegacyUpdates(a + [sec] + b) == LegacyUpdates(a + b)
  {
    assert a + [sec] + b == a + ([sec] + b);
    LegacyUpdatesConcat(a, [sec] + b);
    LegacyUpdatesConcat([sec], b);
    LegacyUpdatesConcat(a, b);
  }

  /** A section that is neither modern nor legacy contributes nothing, wherever it is. */
  lemma IgnoredSectionContributesNothing(a: seq<Section>, sec: Section, b: seq<Section>)
    requires sec.name != SettingNameSection && sec.name != SettingDescriptionSection
    requires LegacyPrefix(sec.name).None?
    ensures Translate(a + [sec] + b) == Translate(a + b)
  {
    NonLegacySectionHasNoUpdates(sec);
    LegacyUpdatesSkip(a, sec, b);
    FindSectionSkips(a, sec, b, SettingNameSection);
    FindSectionSkips(a, sec, b, SettingDescriptionSection);
  }

  /** The greedy group is the split that works when no longer one does. */
  lemma GreedyGroupAt(s: string, alts: seq<string>, j: nat)
    requires GroupSplit(s, j, alts)
    requires forall k :: j < k <= |s| ==> !GroupSplit(s, k, alts)
    ensures GreedyGroup(s, alts) == Some(s[..j])
  {
  }

  /** A section named `<prefix>_map_settings`, `<prefix>_pref_settings` or
      `<prefix>_user_settings` is legacy with exactly that prefix, whatever the
      prefix holds apart from a newline. */
  lemma LegacySectionName(prefix: string, a: nat)
    requires NoNewline(prefix)
    requires a < |LegacySectionSuffixes|
    ensures LegacyPrefix(prefix + LegacySectionSuffixes[a]) == Some(prefix)
  {
    var name := prefix + LegacySectionSuffixes[a];
    var kw := LegacySectionSuffixes[a];
    assert name[..|prefix|] == prefix;
    assert LiteralAt(name, |prefix|, kw) by {
      forall k | 0 <= k < |kw| ensures name[|prefix| + k] == kw[k] { }
    }
    forall j | |prefix| < j <= |name| ensures !GroupSplit(name, j, LegacySectionSuffixes) {
      forall b | 0 <= b < |LegacySectionSuffixes| ensures !LiteralAt(name, j, LegacySectionSuffixes[b]) {
        var alt := LegacySectionSuffixes[b];
        if j + |alt| <= |name| {
          assert alt[0] == '_' && |alt| >= 13 && |kw| <= 14;
          assert j == |prefix| + 1;
          assert name[j] == kw[1] && kw[1] != '_';
          assert !CharMatchesIgnoreCase(name[j + 0], alt[0]);
        }
      }
    }
    GreedyGroupAt(name, LegacySectionSuffixes, |prefix|);
  }

  /** In a legacy section, a key `<stem><marker><rest>`, where the marker is
      `-desc` in any letter case and no later `-desc` is reachable, describes
      setting `<prefix>_<stem>`, hyphens replaced by underscores: the pattern
      is not anchored at the end, so whatever follows the marker is dropped. */
  lemma DescriptionMarkerKey(prefix: string, stem: string, marker: string, rest: string, value: string)
    requires NoNewline(stem)
    requires |marker| == |DescriptionSuffixes[0]| && LiteralAt(marker, 0, DescriptionSuffixes[0])
    requires forall k :: |stem| < k <= |stem + marker + rest| ==>
               !GroupSplit(stem + marker + rest, k, DescriptionSuffixes)
    ensures LegacyKeyUpdate(prefix, stem + marker + rest, value)
         == Update(ReplaceHyphens(prefix + "_" + stem), Description, value)
  {
    var key := stem + marker + rest;
    assert key[..|stem|] == stem;
    assert LiteralAt(key, |stem|, DescriptionSuffixes[0]) by {
      forall k | 0 <= k < |marker| ensures key[|stem| + k] == marker[k] { }
    }
    GreedyGroupAt(key, DescriptionSuffixes, |stem|);
  }

  /** In a legacy section, the key `<stem>-desc` describes setting
      `<prefix>_<stem>`, hyphens replaced by underscores. */
  lemma LegacyDescriptionKey(prefix: string, stem: string, value: string)
    requires NoNewline(stem)
    ensures LegacyKeyUpdate(prefix, stem + DescriptionSuffixes[0], value)
         == Update(ReplaceHyphens(prefix + "_" + stem), Description, value)
  {
    var key := stem + DescriptionSuffixes[0];
    assert key == stem + DescriptionSuffixes[0] + [];
    forall j | |stem| < j <= |key| ensures !GroupSplit(key, j, DescriptionSuffixes) {
      assert !LiteralAt(key, j, DescriptionSuffixes[0]);
    }
    DescriptionMarkerKey(prefix, stem, DescriptionSuffixes[0], [], value);
  }

  /** In a legacy section, a key in which `-desc` never follows a newline-free
      start labels setting `<prefix>_<key>`, hyphens replaced by underscores. */
  lemma LegacyLabelKey(prefix: string, key: string, value: string)
    requires forall j :: 0 <= j <= |key| ==> !GroupSplit(key, j, DescriptionSuffixes)
    ensures LegacyKeyUpdate(prefix, key, value) == Update(ReplaceHyphens(prefix + "_" + key), Label, value)
  {
  }
}
