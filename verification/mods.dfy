/** The run over all mod archives: `get_mod_info` decides whether an archive
    is a mod at all, `get_mods_settings_locale_data` registers it with an
    empty setting list, and `get_mod_settings_locale_data` merges each of its
    locale files in listing order.

    Archives are given already opened: the parsed `info.json` documents whose
    paths match, in listing order, and the locale files whose paths match,
    each with its locale name and its parsed sections (or nothing, when its
    bytes are not UTF-8 and the file is skipped). */
module Mods {
  import opened Text
  import opened Store
  import opened Sections
  import opened Merge

  /** A parsed `info.json` document, as far as `get_mod_info` looks at it. */
  datatype Json = Object(members: map<string, string>) | NotObject

  datatype ModId = ModId(name: string, title: string)

  /** One `<dir>/locale/<locale>/<file>.cfg` of an archive; `config` is None
      when the file does not decode. */
  datatype LocaleFile = LocaleFile(locale: string, config: Option<seq<Section>>)

  datatype Archive = Archive(infoDocs: seq<Json>, localeFiles: seq<LocaleFile>)

  /** The mod's name and title, from the first `info.json` of the archive only. */
  function ModInfo(a: Archive): (r: Option<ModId>)
    ensures r.Some? <==> |a.infoDocs| > 0 && a.infoDocs[0].Object?
                         && "name" in a.infoDocs[0].members && "title" in a.infoDocs[0].members
    ensures r.Some? ==> r.value == ModId(a.infoDocs[0].members["name"], a.infoDocs[0].members["title"])
  {
    if a.infoDocs == [] then None
    else match a.infoDocs[0]
      case NotObject => None
      case Object(members) =>
        if "name" in members && "title" in members then Some(ModId(members["name"], members["title"]))
        else None
  }

  /** Later `info.json` files are never read. */
  lemma OnlyFirstInfoCounts(doc: Json, rest: seq<Json>, files: seq<LocaleFile>)
    ensures ModInfo(Archive([doc] + rest, files)) == ModInfo(Archive([doc], []))
  {
  }

  /** The updates one locale file makes; none when it does not decode. */
  function FileUpdates(f: LocaleFile): seq<Update> {
    match f.config
    case None => []
    case Some(config) => Translate(config)
  }

  /** The locale files of one mod merged in listing order. */
  function Extract(st: Store, mod: string, files: seq<LocaleFile>): (r: Store)
    requires mod in st.mods
    ensures r.mods.Keys == st.mods.Keys
    decreases |files|
  {
    if files == [] then st
    else
      var last := files[|files| - 1];
      Apply(Extract(st, mod, files[..|files| - 1]), mod, last.locale, FileUpdates(last))
  }

  /** One archive: skipped when it has no usable `info.json`; otherwise its mod
      is (re)registered with an empty setting list and its locale files merged. */
  function ProcessArchive(st: Store, a: Archive): (r: Store)
    ensures ModInfo(a).None? ==> r == st
    ensures ModInfo(a).Some? ==> var id := ModInfo(a).value;
      && r.mods.Keys == st.mods.Keys + {id.name}
      && r.mods[id.name].name == id.name && r.mods[id.name].title == id.title
  {
    match ModInfo(a)
    case None => st
    case Some(id) =>
      var registered := RegisterMod(st, id.name, id.title);
      ExtractFrame(registered, id.name, a.localeFiles);
      Extract(registered, id.name, a.localeFiles)
  }

  /** The names of the mods the archives register. */
  function RegisteredNames(archives: seq<Archive>): set<string> {
    set i | 0 <= i < |archives| && ModInfo(archives[i]).Some? :: ModInfo(archives[i]).value.name
  }

  /** The archives processed in order; the mods table ends up holding the
      earlier mods and exactly the names the archives register. */
  function ProcessAll(st: Store, archives: seq<Archive>): (r: Store)
    ensures r.mods.Keys == st.mods.Keys + RegisteredNames(archives)
    decreases |archives|
  {
    if archives == [] then st
    else
      var init, a := archives[..|archives| - 1], archives[|archives| - 1];
      assert archives == init + [a];
      RegisteredNamesOfSnoc(init, a);
      ProcessArchive(ProcessAll(st, init), a)
  }

  /** Everything `get_mods_settings_locale_data` returns, from empty tables:
      well formed, one mod per registered name, the locales of the files that
      made a write, and every entry listed under its mod when no mod name is
      registered twice. */
  function ModsSettingsLocaleData(archives: seq<Archive>): (r: Store)
    ensures WellFormed(r)
    ensures r.mods.Keys == RegisteredNames(archives)
    ensures AllLocales(r.settings) == ArchivesLocales(archives)
    ensures FreshNames(Empty, archives) ==> Complete(r)
  {
    EmptyIsWellFormedAndComplete();
    ProcessAllKeepsInvariants(Empty, archives);
    ProcessAllLocales(Empty, archives);
    ProcessAll(Empty, archives)
  }

  /** The setting names the decodable locale files of an archive write to. */
  function FileTargets(files: seq<LocaleFile>): set<string>
    decreases |files|
  {
    if files == [] then {}
    else FileTargets(files[..|files| - 1]) + Targets(FileUpdates(files[|files| - 1]))
  }

  /** The locales of the files that make at least one update. */
  function ContributingLocales(files: seq<LocaleFile>): set<string> {
    set i | 0 <= i < |files| && FileUpdates(files[i]) != [] :: files[i].locale
  }

  lemma ContributingLocalesOfSnoc(files: seq<LocaleFile>, f: LocaleFile)
    ensures ContributingLocales(files + [f])
         == ContributingLocales(files) + (if FileUpdates(f) == [] then {} else {f.locale})
  {
    var w := files + [f];
    forall l | l in ContributingLocales(w)
      ensures l in ContributingLocales(files) + (if FileUpdates(f) == [] then {} else {f.locale})
    {
      var i :| 0 <= i < |w| && FileUpdates(w[i]) != [] && w[i].locale == l;
      if i < |files| {
        assert files[i] == w[i];
      }
    }
    forall l | l in ContributingLocales(files) ensures l in ContributingLocales(w) {
      var i :| 0 <= i < |files| && FileUpdates(files[i]) != [] && files[i].locale == l;
      assert w[i] == files[i];
    }
    assert w[|files|] == f;
  }

  /** Merging a mod's files touches no other mod, no entry of another mod, and
      not the mod's own name and title. */
  lemma {:induction false} ExtractFrame(st: Store, mod: string, files: seq<LocaleFile>)
    requires mod in st.mods
    ensures var r := Extract(st, mod, files);
      && (forall s, m, l :: m != mod ==> Lookup(r, s, m, l) == Lookup(st, s, m, l))
      && (forall m :: m in st.mods && m != mod ==> r.mods[m] == st.mods[m])
      && r.mods[mod].name == st.mods[mod].name && r.mods[mod].title == st.mods[mod].title
    decreases |files|
  {
    if files != [] {
      var init, last := files[..|files| - 1], files[|files| - 1];
      ExtractFrame(st, mod, init);
      ApplyFrame(Extract(st, mod, init), mod, last.locale, FileUpdates(last));
    }
  }

  /** The mod's setting list keeps its earlier names in order, stays free of
      duplicates and gains exactly the settings its decodable files name. */
  lemma {:induction false} ExtractNames(st: Store, mod: string, files: seq<LocaleFile>)
    requires mod in st.mods
    requires NoDuplicates(st.mods[mod].settingNames)
    ensures var (before, after) := (st.mods[mod].settingNames, Extract(st, mod, files).mods[mod].settingNames);
      && |before| <= |after| && after[..|before|] == before
      && NoDuplicates(after)
      && (forall x :: x in after <==> x in before || x in FileTargets(files))
    decreases |files|
  {
    if files != [] {
      var init, last := files[..|files| - 1], files[|files| - 1];
      ExtractNames(st, mod, init);
      ApplyNames(Extract(st, mod, init), mod, last.locale, FileUpdates(last));
      PrefixOfPrefix(st.mods[mod].settingNames, Extract(st, mod, init).mods[mod].settingNames,
                     Extract(st, mod, files).mods[mod].settingNames);
    }
  }

  lemma {:induction false} ExtractKeepsInvariants(st: Store, mod: string, files: seq<LocaleFile>)
    requires mod in st.mods
    ensures WellFormed(st) ==> WellFormed(Extract(st, mod, files))
    ensures Complete(st) ==> Complete(Extract(st, mod, files))
    decreases |files|
  {
    if files != [] {
      var init, last := files[..|files| - 1], files[|files| - 1];
      ExtractKeepsInvariants(st, mod, init);
      ApplyKeepsInvariants(Extract(st, mod, init), mod, last.locale, FileUpdates(last));
    }
  }

  /** The store's locales grow by exactly the locales of the files that make an update. */
  lemma {:induction false} ExtractLocales(st: Store, mod: string, files: seq<LocaleFile>)
    requires mod in st.mods
    ensures AllLocales(Extract(st, mod, files).settings) == AllLocales(st.settings) + ContributingLocales(files)
    decreases |files|
  {
    if files != [] {
      var init, last := files[..|files| - 1], files[|files| - 1];
      assert files == init + [last];
      ExtractLocales(st, mod, init);
      ApplyLocales(Extract(st, mod, init), mod, last.locale, FileUpdates(last));
      ContributingLocalesOfSnoc(init, last);
    }
  }

  /** A registered mod's setting list is, without duplicates, exactly the
      settings its own archive's decodable locale files name: whatever the
      store held for that name before is forgotten. */
  lemma ArchiveSettingNames(st: Store, a: Archive)
    requires ModInfo(a).Some?
    ensures var names := ProcessArchive(st, a).mods[ModInfo(a).value.name].settingNames;
      NoDuplicates(names) && forall x :: x in names <==> x in FileTargets(a.localeFiles)
  {
    var id := ModInfo(a).value;
    ExtractNames(RegisterMod(st, id.name, id.title), id.name, a.localeFiles);
  }

  /** An archive touches no other mod's record and no other mod's entries. */
  lemma ArchiveFrame(st: Store, a: Archive, s: string, m: string, l: string)
    requires ModInfo(a).Some? ==> m != ModInfo(a).value.name
    ensures m in st.mods ==> m in ProcessArchive(st, a).mods && ProcessArchive(st, a).mods[m] == st.mods[m]
    ensures Lookup(ProcessArchive(st, a), s, m, l) == Lookup(st, s, m, l)
  {
    if ModInfo(a).Some? {
      var id := ModInfo(a).value;
      ExtractFrame(RegisterMod(st, id.name, id.title), id.name, a.localeFiles);
    }
  }

  /** An archive adds to the locales exactly those of its contributing files. */
  lemma ArchiveLocales(st: Store, a: Archive)
    ensures AllLocales(ProcessArchive(st, a).settings)
         == AllLocales(st.settings) + (if ModInfo(a).Some? then ContributingLocales(a.localeFiles) else {})
  {
    if ModInfo(a).Some? {
      var id := ModInfo(a).value;
      ExtractLocales(RegisterMod(st, id.name, id.title), id.name, a.localeFiles);
    }
  }

  lemma ArchiveKeepsInvariants(st: Store, a: Archive)
    ensures WellFormed(st) ==> WellFormed(ProcessArchive(st, a))
    ensures Complete(st) && (ModInfo(a).Some? ==> ModInfo(a).value.name !in st.mods)
            ==> Complete(ProcessArchive(st, a))
  {
    if ModInfo(a).Some? {
      var id := ModInfo(a).value;
      RegisterModKeepsInvariants(st, id.name, id.title);
      ExtractKeepsInvariants(RegisterMod(st, id.name, id.title), id.name, a.localeFiles);
    }
  }

  lemma RegisteredNamesOfSnoc(archives: seq<Archive>, a: Archive)
    ensures RegisteredNames(archives + [a])
         == RegisteredNames(archives) + (if ModInfo(a).Some? then {ModInfo(a).value.name} else {})
  {
    var w := archives + [a];
    forall n | n in RegisteredNames(w)
      ensures n in RegisteredNames(archives) + (if ModInfo(a).Some? then {ModInfo(a).value.name} else {})
    {
      var i :| 0 <= i < |w| && ModInfo(w[i]).Some? && ModInfo(w[i]).value.name == n;
      if i < |archives| {
        assert archives[i] == w[i];
      }
    }
    forall n | n in RegisteredNames(archives) ensures n in RegisteredNames(w) {
      var i :| 0 <= i < |archives| && ModInfo(archives[i]).Some? && ModInfo(archives[i]).value.name == n;
      assert w[i] == archives[i];
    }
    assert w[|archives|] == a;
  }

  /** The locales of the contributing files of every archive that is a mod. */
  function ArchivesLocales(archives: seq<Archive>): set<string>
    decreases |archives|
  {
    if archives == [] then {}
    else
      var a := archives[|archives| - 1];
      ArchivesLocales(archives[..|archives| - 1])
        + (if ModInfo(a).Some? then ContributingLocales(a.localeFiles) else {})
  }

  /** Registering a mod again never drops entries, so the locales only accumulate. */
  lemma {:induction false} ProcessAllLocales(st: Store, archives: seq<Archive>)
    ensures AllLocales(ProcessAll(st, archives).settings) == AllLocales(st.settings) + ArchivesLocales(archives)
    decreases |archives|
  {
    if archives != [] {
      var init, a := archives[..|archives| - 1], archives[|archives| - 1];
      ProcessAllLocales(st, init);
      ArchiveLocales(ProcessAll(st, init), a);
    }
  }

  /** No archive registers a mod name that is already in the store or that an
      earlier archive registered. */
  ghost predicate FreshNames(st: Store, archives: seq<Archive>) {
    forall i :: 0 <= i < |archives| && ModInfo(archives[i]).Some? ==>
      ModInfo(archives[i]).value.name !in st.mods.Keys + RegisteredNames(archives[..i])
  }

  /** The run keeps the store well formed; it keeps every mod's setting list
      complete as long as no mod name is registered twice. */
  lemma {:induction false} ProcessAllKeepsInvariants(st: Store, archives: seq<Archive>)
    ensures WellFormed(st) ==> WellFormed(ProcessAll(st, archives))
    ensures Complete(st) && FreshNames(st, archives) ==> Complete(ProcessAll(st, archives))
    decreases |archives|
  {
    if archives != [] {
      var init, a := archives[..|archives| - 1], archives[|archives| - 1];
      assert archives == init + [a];
      ProcessAllKeepsInvariants(st, init);
      ArchiveKeepsInvariants(ProcessAll(st, init), a);
      if Complete(st) && FreshNames(st, archives) {
        FreshNamesOfSnoc(st, init, a);
      }
    }
  }

  lemma FreshNamesOfSnoc(st: Store, init: seq<Archive>, a: Archive)
    requires FreshNames(st, init + [a])
    ensures FreshNames(st, init)
    ensures ModInfo(a).Some? ==> ModInfo(a).value.name !in st.mods.Keys + RegisteredNames(init)
  {
    var w := init + [a];
    forall i | 0 <= i < |init| && ModInfo(init[i]).Some?
      ensures ModInfo(init[i]).value.name !in st.mods.Keys + RegisteredNames(init[..i])
    {
      assert w[i] == init[i];
      assert w[..i] == init[..i];
    }
    assert w[|init|] == a && w[..|init|] == init;
  }

  /** The three loops of one locale file, as last writes: a legacy write
      beats a modern one, and within each group the last write wins. */
  lemma TranslateLastWrite(config: seq<Section>, s: string, f: Field)
    ensures LastWrite(Translate(config), s, f)
         == Latest(LastWrite(LegacyUpdates(config), s, f),
                   Latest(LastWrite(SectionUpdates(config, SettingDescriptionSection, Description), s, f),
                          LastWrite(SectionUpdates(config, SettingNameSection, Label), s, f)))
  {
    var labels := SectionUpdates(config, SettingNameSection, Label);
    var descriptions := SectionUpdates(config, SettingDescriptionSection, Description);
    TranslateParts(config);
    LastWriteConcat(labels + descriptions, LegacyUpdates(config), s, f);
    LastWriteConcat(labels, descriptions, s, f);
  }

  /** After one locale file is merged, a field that any of its three loops
      writes holds the value of the winning write: the last legacy one if
      any, else the last modern one. */
  lemma LocaleFileLastWriteWins(st: Store, mod: string, locale: string, config: seq<Section>, s: string, f: Field)
    requires mod in st.mods
    ensures
      var w := Latest(LastWrite(LegacyUpdates(config), s, f),
                      Latest(LastWrite(SectionUpdates(config, SettingDescriptionSection, Description), s, f),
                             LastWrite(SectionUpdates(config, SettingNameSection, Label), s, f)));
      var e := Lookup(Apply(st, mod, locale, Translate(config)), s, mod, locale);
      w.Some? ==> e.Some? && FieldOf(e.value, f) == w.value
  {
    TranslateLastWrite(config, s, f);
    LastWriteIsTargeted(Translate(config), s, f);
    LastWriteWins(st, mod, locale, Translate(config), s, f);
  }
}
