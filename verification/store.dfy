/** The two nested maps that the locale parser fills in together, and the
    upsert behind `add_setting_label` / `add_setting_description`.

    - `settings` (the source's `locale_data`): setting name to a record holding
      `by_mod_and_language`, mod name to locale to one localised entry;
    - `mods` (the source's `mod_data`): mod name to its name, title and the
      names of the settings it contributed, in first-seen order. */
module Store {
  import opened Text

  /** The (setting, mod, locale) record, the source's {mod, locale, label, description};
      `mod` and `locale` repeat the keys it is filed under. */
  datatype Entry = Entry(mod: string, locale: string, labelText: string, descriptionText: string)

  datatype Setting = Setting(name: string, byModAndLanguage: map<string, map<string, Entry>>)

  datatype Mod = Mod(name: string, title: string, settingNames: seq<string>)

  datatype Store = Store(mods: map<string, Mod>, settings: map<string, Setting>)

  /** Which of the two texts of an entry an update writes. */
  datatype Field = Label | Description

  /** One call of `add_setting_label` (Label) or `add_setting_description` (Description). */
  datatype Update = Update(setting: string, field: Field, value: string)

  const Empty := Store(map[], map[])

  function Other(f: Field): Field {
    match f
    case Label => Description
    case Description => Label
  }

  function FieldOf(e: Entry, f: Field): string {
    match f
    case Label => e.labelText
    case Description => e.descriptionText
  }

  function WithField(e: Entry, f: Field, v: string): (r: Entry)
    ensures FieldOf(r, f) == v
    ensures FieldOf(r, Other(f)) == FieldOf(e, Other(f))
    ensures r.mod == e.mod && r.locale == e.locale
  {
    match f
    case Label => e.(labelText := v)
    case Description => e.(descriptionText := v)
  }

  /** The entry filed under (setting, mod, locale), if any. */
  function Lookup(st: Store, s: string, m: string, l: string): Option<Entry> {
    if s in st.settings && m in st.settings[s].byModAndLanguage && l in st.settings[s].byModAndLanguage[m]
    then Some(st.settings[s].byModAndLanguage[m][l])
    else None
  }

  /** Every locale key under every mod of every setting. */
  function AllLocales(settings: map<string, Setting>): set<string> {
    set s, m, l | s in settings && m in settings[s].byModAndLanguage && l in settings[s].byModAndLanguage[m] :: l
  }

  /** Settings and entries repeat the keys they are filed under, and no mod map
      is empty (the source always files an entry when it creates one). */
  ghost predicate EntriesWellFormed(settings: map<string, Setting>) {
    && (forall s :: s in settings ==> settings[s].name == s)
    && (forall s, m, l :: s in settings && m in settings[s].byModAndLanguage && l in settings[s].byModAndLanguage[m] ==>
          settings[s].byModAndLanguage[m][l].mod == m && settings[s].byModAndLanguage[m][l].locale == l)
    && (forall s, m :: s in settings && m in settings[s].byModAndLanguage ==> settings[s].byModAndLanguage[m] != map[])
  }

  /** A mod record repeats its key, lists no setting twice, and every setting it
      lists has an entry under that mod. */
  ghost predicate ModsWellFormed(st: Store) {
    && (forall m :: m in st.mods ==> st.mods[m].name == m && NoDuplicates(st.mods[m].settingNames))
    && (forall m, s :: m in st.mods && s in st.mods[m].settingNames ==>
          s in st.settings && m in st.settings[s].byModAndLanguage)
  }

  /** The shape that the upserts and mod registration keep. */
  ghost predicate WellFormed(st: Store) {
    EntriesWellFormed(st.settings) && ModsWellFormed(st)
  }

  /** The converse of the last clause of WellFormed: every mod that has an entry
      for a setting is registered and lists that setting. */
  ghost predicate Complete(st: Store) {
    forall s, m :: s in st.settings && m in st.settings[s].byModAndLanguage ==>
      m in st.mods && s in st.mods[m].settingNames
  }

  /** The entry under (name, mod, locale), or the one `setdefault` would create. */
  function EntryOrDefault(st: Store, name: string, mod: string, locale: string): Entry {
    match Lookup(st, name, mod, locale)
    case Some(e) => e
    case None => Entry(mod, locale, "", "")
  }

  /** The settings with entry `e` filed under (name, mod, locale), creating the
      setting and its mod map on the way when they are missing. */
  function PutEntry(settings: map<string, Setting>, name: string, mod: string, locale: string, e: Entry)
    : map<string, Setting>
  {
    var setting := if name in settings then settings[name] else Setting(name, map[]);
    var byLocale := if mod in setting.byModAndLanguage then setting.byModAndLanguage[mod] else map[];
    settings[name := setting.(byModAndLanguage := setting.byModAndLanguage[mod := byLocale[locale := e]])]
  }

  /** `names` with `name` appended unless already there. */
  function AddName(names: seq<string>, name: string): seq<string> {
    if name in names then names else names + [name]
  }

  /** `add_setting_label` (f == Label) or `add_setting_description` (f == Description)
      for mod `mod` and locale `locale`: create the setting and its (mod, locale)
      entry when missing, with the other text defaulted to "", overwrite field `f`,
      and append the setting to the mod's `setting_names` unless already listed.
      The mod must be registered: the source indexes `mod_data[mod_name]`. */
  function Upsert(st: Store, mod: string, locale: string, name: string, f: Field, v: string): (r: Store)
    requires mod in st.mods
    // the addressed entry exists afterwards and carries the new text
    ensures Lookup(r, name, mod, locale).Some?
    ensures FieldOf(Lookup(r, name, mod, locale).value, f) == v
    // an existing entry keeps its other text and its key fields
    ensures Lookup(st, name, mod, locale).Some? ==>
      var (e0, e) := (Lookup(st, name, mod, locale).value, Lookup(r, name, mod, locale).value);
      FieldOf(e, Other(f)) == FieldOf(e0, Other(f)) && e.mod == e0.mod && e.locale == e0.locale
    // a created entry has the other text empty and repeats its keys
    ensures Lookup(st, name, mod, locale).None? ==>
      var e := Lookup(r, name, mod, locale).value;
      FieldOf(e, Other(f)) == "" && e.mod == mod && e.locale == locale
    // a created setting is named by its key; an existing one keeps its name
    ensures r.settings[name].name == (if name in st.settings then st.settings[name].name else name)
    ensures r.settings.Keys == st.settings.Keys + {name}
    ensures r.settings[name].byModAndLanguage.Keys
         == (if name in st.settings then st.settings[name].byModAndLanguage.Keys else {}) + {mod}
    // the mod's setting list gains the setting once, at the end
    ensures r.mods.Keys == st.mods.Keys
    ensures r.mods[mod].name == st.mods[mod].name && r.mods[mod].title == st.mods[mod].title
    ensures AddedOnce(st.mods[mod].settingNames, name, r.mods[mod].settingNames)
  {
    var entry := WithField(EntryOrDefault(st, name, mod, locale), f, v);
    var names := AddName(st.mods[mod].settingNames, name);
    Store(st.mods[mod := st.mods[mod].(settingNames := names)], PutEntry(st.settings, name, mod, locale, entry))
  }

  /** Nothing outside the addressed entry and the mod's setting list changes. */
  lemma UpsertFrame(st: Store, mod: string, locale: string, name: string, f: Field, v: string)
    requires mod in st.mods
    ensures var r := Upsert(st, mod, locale, name, f, v);
      && (forall s :: s in st.settings && s != name ==> r.settings[s] == st.settings[s])
      && (forall m :: name in st.settings && m in st.settings[name].byModAndLanguage && m != mod ==>
            r.settings[name].byModAndLanguage[m] == st.settings[name].byModAndLanguage[m])
      && (forall s, m, l :: (s, m, l) != (name, mod, locale) ==> Lookup(r, s, m, l) == Lookup(st, s, m, l))
      && (forall m :: m in st.mods && m != mod ==> r.mods[m] == st.mods[m])
  {
    var r := Upsert(st, mod, locale, name, f, v);
    var e := WithField(EntryOrDefault(st, name, mod, locale), f, v);
    PutEntryFrame(st.settings, name, mod, locale, e);
    forall s, m, l | (s, m, l) != (name, mod, locale)
      ensures Lookup(r, s, m, l) == Lookup(st, s, m, l)
    {
      if s == name && m == mod {
        assert l != locale;
      }
    }
  }

  /** Filing an entry changes no other setting, no other mod map of the setting
      and no other locale of the mod map. */
  lemma PutEntryFrame(settings: map<string, Setting>, name: string, mod: string, locale: string, e: Entry)
    ensures var r := PutEntry(settings, name, mod, locale, e);
      && name in r && mod in r[name].byModAndLanguage
      && (forall s :: s in settings && s != name ==> s in r && r[s] == settings[s])
      && (forall s :: s in r && s != name ==> s in settings)
      && (forall m :: m != mod ==>
            (m in r[name].byModAndLanguage <==> name in settings && m in settings[name].byModAndLanguage))
      && (forall m :: name in settings && m in settings[name].byModAndLanguage && m != mod ==>
            r[name].byModAndLanguage[m] == settings[name].byModAndLanguage[m])
      && (forall l :: l != locale ==>
            (l in r[name].byModAndLanguage[mod] <==>
               name in settings && mod in settings[name].byModAndLanguage && l in settings[name].byModAndLanguage[mod]))
      && (forall l :: name in settings && mod in settings[name].byModAndLanguage
                      && l in settings[name].byModAndLanguage[mod] && l != locale ==>
            r[name].byModAndLanguage[mod][l] == settings[name].byModAndLanguage[mod][l])
  {
  }

  /** The mod registration in `get_mods_settings_locale_data`: a mod record with
      an empty setting list, replacing any earlier record of the same name.
      The settings are left as they are. */
  function RegisterMod(st: Store, name: string, title: string): (r: Store)
    ensures r.mods.Keys == st.mods.Keys + {name}
    ensures r.mods[name].name == name && r.mods[name].title == title && r.mods[name].settingNames == []
    ensures forall m :: m in st.mods && m != name ==> r.mods[m] == st.mods[m]
    ensures r.settings == st.settings
  {
    st.(mods := st.mods[name := Mod(name, title, [])])
  }

  lemma EmptyIsWellFormedAndComplete()
    ensures WellFormed(Empty) && Complete(Empty)
  {
  }

  lemma PutEntryKeepsEntriesWellFormed(
    settings: map<string, Setting>, name: string, mod: string, locale: string, e: Entry)
    requires EntriesWellFormed(settings)
    requires e.mod == mod && e.locale == locale
    ensures EntriesWellFormed(PutEntry(settings, name, mod, locale, e))
  {
    var r := PutEntry(settings, name, mod, locale, e);
    PutEntryFrame(settings, name, mod, locale, e);
    forall s | s in r
      ensures r[s].name == s
    {
    }
    forall s, m, l | s in r && m in r[s].byModAndLanguage && l in r[s].byModAndLanguage[m]
      ensures r[s].byModAndLanguage[m][l].mod == m && r[s].byModAndLanguage[m][l].locale == l
    {
      if s == name && m == mod && l != locale {
        assert r[s].byModAndLanguage[m][l] == settings[s].byModAndLanguage[m][l];
      }
    }
    forall s, m | s in r && m in r[s].byModAndLanguage
      ensures r[s].byModAndLanguage[m] != map[]
    {
      if s == name && m == mod {
        assert locale in r[s].byModAndLanguage[m];
      }
    }
  }

  lemma UpsertKeepsModsWellFormed(st: Store, mod: string, locale: string, name: string, f: Field, v: string)
    requires ModsWellFormed(st)
    requires mod in st.mods
    ensures ModsWellFormed(Upsert(st, mod, locale, name, f, v))
  {
    var r := Upsert(st, mod, locale, name, f, v);
    AddedOnceKeepsNoDuplicates(st.mods[mod].settingNames, name, r.mods[mod].settingNames);
    forall m, s | m in r.mods && s in r.mods[m].settingNames
      ensures s in r.settings && m in r.settings[s].byModAndLanguage
    {
      if s != name {
        assert s in st.settings && m in st.settings[s].byModAndLanguage;
      }
    }
  }

  lemma {:induction false} UpsertKeepsWellFormed(
    st: Store, mod: string, locale: string, name: string, f: Field, v: string)
    requires WellFormed(st)
    requires mod in st.mods
    ensures WellFormed(Upsert(st, mod, locale, name, f, v))
  {
    var e := EntryOrDefault(st, name, mod, locale);
    PutEntryKeepsEntriesWellFormed(st.settings, name, mod, locale, WithField(e, f, v));
    UpsertKeepsModsWellFormed(st, mod, locale, name, f, v);
  }

  lemma {:induction false} UpsertKeepsComplete(
    st: Store, mod: string, locale: string, name: string, f: Field, v: string)
    requires Complete(st)
    requires mod in st.mods
    ensures Complete(Upsert(st, mod, locale, name, f, v))
  {
    var r := Upsert(st, mod, locale, name, f, v);
    forall s, m | s in r.settings && m in r.settings[s].byModAndLanguage
      ensures m in r.mods && s in r.mods[m].settingNames
    {
      if m == mod {
        if s != name {
          assert r.settings[s] == st.settings[s];
          assert s in st.mods[mod].settingNames;
          assert r.mods[mod].settingNames[..|st.mods[mod].settingNames|] == st.mods[mod].settingNames;
        }
      } else if s == name {
        assert m in st.settings[s].byModAndLanguage;
      } else {
        assert r.settings[s] == st.settings[s];
      }
    }
  }

  lemma PutEntryTwice(settings: map<string, Setting>, name: string, mod: string, locale: string, e1: Entry, e2: Entry)
    ensures PutEntry(PutEntry(settings, name, mod, locale, e1), name, mod, locale, e2)
         == PutEntry(settings, name, mod, locale, e2)
  {
    var once := PutEntry(settings, name, mod, locale, e1);
    var twice := PutEntry(once, name, mod, locale, e2);
    var direct := PutEntry(settings, name, mod, locale, e2);
    assert twice[name].byModAndLanguage[mod] == direct[name].byModAndLanguage[mod];
    assert twice[name] == direct[name];
  }

  lemma AddNameTwice(names: seq<string>, name: string)
    ensures AddName(AddName(names, name), name) == AddName(names, name)
  {
  }

  /** Two upserts of the same (setting, mod, locale) leave the entry that the
      second computes from the first. */
  lemma UpsertTwice(st: Store, mod: string, locale: string, name: string, f1: Field, v1: string, f2: Field, v2: string)
    requires mod in st.mods
    ensures Upsert(Upsert(st, mod, locale, name, f1, v1), mod, locale, name, f2, v2)
         == Store(st.mods[mod := st.mods[mod].(settingNames := AddName(st.mods[mod].settingNames, name))],
                  PutEntry(st.settings, name, mod, locale,
                           WithField(WithField(EntryOrDefault(st, name, mod, locale), f1, v1), f2, v2)))
  {
    var once := Upsert(st, mod, locale, name, f1, v1);
    var e1 := WithField(EntryOrDefault(st, name, mod, locale), f1, v1);
    assert EntryOrDefault(once, name, mod, locale) == e1;
    PutEntryTwice(st.settings, name, mod, locale, e1, WithField(e1, f2, v2));
    AddNameTwice(st.mods[mod].settingNames, name);
  }

  /** Applying the same upsert twice leaves the store as applying it once. */
  lemma UpsertIdempotent(st: Store, mod: string, locale: string, name: string, f: Field, v: string)
    requires mod in st.mods
    ensures var once := Upsert(st, mod, locale, name, f, v);
      Upsert(once, mod, locale, name, f, v) == once
  {
    UpsertTwice(st, mod, locale, name, f, v, f, v);
    var e := EntryOrDefault(st, name, mod, locale);
    assert WithField(WithField(e, f, v), f, v) == WithField(e, f, v);
  }

  /** A label and a description for the same (setting, mod, locale) merge into
      one entry whichever arrives first. */
  lemma LabelAndDescriptionCommute(
    st: Store, mod: string, locale: string, name: string, labelText: string, descriptionText: string)
    requires mod in st.mods
    ensures
      var ld := Upsert(Upsert(st, mod, locale, name, Label, labelText),
                       mod, locale, name, Description, descriptionText);
      var dl := Upsert(Upsert(st, mod, locale, name, Description, descriptionText),
                       mod, locale, name, Label, labelText);
      ld == dl && FieldOf(Lookup(ld, name, mod, locale).value, Label) == labelText
      && FieldOf(Lookup(ld, name, mod, locale).value, Description) == descriptionText
  {
    UpsertTwice(st, mod, locale, name, Label, labelText, Description, descriptionText);
    UpsertTwice(st, mod, locale, name, Description, descriptionText, Label, labelText);
    var e := EntryOrDefault(st, name, mod, locale);
    assert WithField(WithField(e, Label, labelText), Description, descriptionText)
        == WithField(WithField(e, Description, descriptionText), Label, labelText);
  }

  lemma PutEntryLocalesGrow(settings: map<string, Setting>, name: string, mod: string, locale: string, e: Entry)
    ensures AllLocales(settings) + {locale} <= AllLocales(PutEntry(settings, name, mod, locale, e))
  {
    var r := PutEntry(settings, name, mod, locale, e);
    assert locale in r[name].byModAndLanguage[mod];
    forall l | l in AllLocales(settings)
      ensures l in AllLocales(r)
    {
      var s, m :| s in settings && m in settings[s].byModAndLanguage && l in settings[s].byModAndLanguage[m];
      if s != name {
        assert r[s] == settings[s];
      } else if m != mod {
        assert r[s].byModAndLanguage[m] == settings[s].byModAndLanguage[m];
      } else {
        assert l in r[s].byModAndLanguage[m];
      }
    }
  }

  lemma PutEntryLocalesBounded(settings: map<string, Setting>, name: string, mod: string, locale: string, e: Entry)
    ensures AllLocales(PutEntry(settings, name, mod, locale, e)) <= AllLocales(settings) + {locale}
  {
    var r := PutEntry(settings, name, mod, locale, e);
    forall l | l in AllLocales(r)
      ensures l in AllLocales(settings) + {locale}
    {
      var s, m :| s in r && m in r[s].byModAndLanguage && l in r[s].byModAndLanguage[m];
      if l != locale {
        if s != name {
          assert r[s] == settings[s];
        } else if m != mod {
          assert r[s].byModAndLanguage[m] == settings[s].byModAndLanguage[m];
        }
      }
    }
  }

  /** An upsert adds its locale to the set of locales and no other. */
  lemma UpsertLocales(st: Store, mod: string, locale: string, name: string, f: Field, v: string)
    requires mod in st.mods
    ensures AllLocales(Upsert(st, mod, locale, name, f, v).settings) == AllLocales(st.settings) + {locale}
  {
    var e := WithField(EntryOrDefault(st, name, mod, locale), f, v);
    PutEntryLocalesGrow(st.settings, name, mod, locale, e);
    PutEntryLocalesBounded(st.settings, name, mod, locale, e);
  }

  /** Registering a mod keeps the store well-formed, and keeps it complete when
      the name is new. */
  lemma RegisterModKeepsInvariants(st: Store, name: string, title: string)
    ensures WellFormed(st) ==> WellFormed(RegisterMod(st, name, title))
    ensures Complete(st) && name !in st.mods ==> Complete(RegisterMod(st, name, title))
  {
  }

  /** Registering a mod a second time empties its setting list but leaves its
      entries in the settings map, so a store can be well-formed yet lose
      Complete: the mod then has entries for settings it no longer lists. */
  lemma ReRegistrationForgetsSettings()
    ensures
      var st := Upsert(RegisterMod(Empty, "m", "M"), "m", "en", "s", Label, "S");
      var r := RegisterMod(st, "m", "M");
      WellFormed(st) && Complete(st) && WellFormed(r) && !Complete(r)
      && Lookup(r, "s", "m", "en").Some? && "s" !in r.mods["m"].settingNames
  {
    var st0 := RegisterMod(Empty, "m", "M");
    RegisterModKeepsInvariants(Empty, "m", "M");
    UpsertKeepsWellFormed(st0, "m", "en", "s", Label, "S");
    UpsertKeepsComplete(st0, "m", "en", "s", Label, "S");
    var st := Upsert(st0, "m", "en", "s", Label, "S");
    RegisterModKeepsInvariants(st, "m", "M");
    assert "m" in RegisterMod(st, "m", "M").settings["s"].byModAndLanguage;
  }
}
