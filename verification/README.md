# Factorio mod settings locale merge, in Dafny

This project models the core of `main.py` of factorio-mod-locale-parser. That is the part that turns Factorio mod archives into two tables:

- `mod_data`: per mod, its name, its title and the names of the settings it localises, in first-seen order.
- `locale_data`: per setting, its name and one entry per (mod, locale) with a label and a description.

It also models the sorted `locales` list written next to those tables.

The model works on already-parsed inputs:

- An archive is the list of parsed `info.json` documents whose paths match, in listing order.
- Each locale file of an archive carries its locale name and the INI sections the parser produced. A file that is not UTF-8 carries nothing and is skipped.

From there everything the source decides is modelled:

- whether an archive is a mod at all;
- registration, which resets the setting list;
- how the modern `mod-setting-name` and `mod-setting-description` sections are read;
- how legacy `<prefix>_(map|pref|user)_settings` sections are read, with the `-desc` suffix and hyphen replacement;
- the order of writes, which the two upsert helpers apply;
- the sorted locale list.

Modules:

- `Text`: Python regular-expression behaviour for the two legacy patterns. This covers the start-anchored match, the greedy `(.*)` group that cannot cross a newline, and the IGNORECASE letters. It also holds `str.replace("-", "_")` and duplicate-free lists.
- `Store`: the two tables, the shared upsert behind `add_setting_label` / `add_setting_description`, and mod registration.
- `Merge`: a sequence of updates applied in order, as one call of `get_settings_locale_from_config` does.
- `Sections`: how a parsed locale file becomes that ordered sequence of updates.
- `Mods`: archives, `get_mod_info`, and the loops over archives and locale files.
- `Locales`: Python's string order and the `sorted({...})` of `main`.

Two behaviours of the code that a reader might not expect:

- **Malformed `info.json`.** `json.load` on a malformed `info.json` raises (main.py:75). Nothing catches it, so the run ends. The model takes parsed documents, so that case is outside the model (see Left out).
- **Re-registration.** Registering a mod name a second time empties its `setting_names` but keeps its entries (main.py:54-58). `Store.ReRegistrationForgetsSettings` shows such a store. `Mods.ProcessAllKeepsInvariants` proves `Complete` (every entry's mod is registered and lists the entry's setting) only when names are distinct.

## Model

| member | source | states |
|---|---|---|
| Store.Upsert | main.py:126-158 | One label or description write. The addressed entry exists afterwards and its field holds the value. An existing entry keeps its other field; a new entry has the other field "" and the mod and locale of its keys. The setting keeps its name, or is created with its own name. Only the mod's setting list changes among the mods: the name is appended once, at the end, if it was absent. |
| Store.UpsertFrame | main.py:126-158 | An upsert changes nothing outside its (setting, mod, locale) entry and the mod's setting list: every other setting, every other mod map of the setting, every other entry and every other mod are unchanged. |
| Store.RegisterMod | main.py:53-58 | Registering writes a fresh record with the given name and title and an empty setting list, replacing any earlier one. Other mods and all settings are unchanged. |
| Store.UpsertKeepsWellFormed | main.py:126-158 | Upserts keep the tables consistent. Every setting's name is its key, and every entry's mod and locale are its keys. No mod map is empty. Every mod record is named by its key, its list has no duplicates, and each listed setting has an entry under that mod. |
| Store.UpsertKeepsComplete | main.py:140-141 | After an upsert, every mod that has an entry for a setting is registered and lists that setting, if that held before. |
| Store.UpsertIdempotent | main.py:126-158 | Repeating the same label or description write leaves the tables as one write does. |
| Store.LabelAndDescriptionCommute | main.py:126-158 | A label and a description for the same (setting, mod, locale) give the same tables in either order, and the entry holds both. |
| Store.UpsertLocales | main.py:19-24 | After an upsert, the set of locales under all settings gains the upsert's locale and nothing else. |
| Store.RegisterModKeepsInvariants | main.py:53-58 | Registration keeps the tables consistent. It keeps every listed setting accounted for when the mod name is new. |
| Store.ReRegistrationForgetsSettings | main.py:53-59 | Registering an already-registered mod again yields consistent tables in which the mod has an entry for a setting its list no longer names. |
| Merge.Apply | main.py:126-183 | Applying a locale file's writes keeps the set of registered mods unchanged. |
| Merge.LastWriteConcat | main.py:160-183 | Over two runs of writes, the last write to a field is the second run's last write to it, if it has one, and otherwise the first run's. |
| Merge.LastWriteWins | main.py:160-183 | After a locale file's writes, an entry exists exactly when it existed before or some write names its setting. Each field holds the last value written to it, or else its earlier text, or else "". |
| Merge.ApplyConcat | main.py:160-183 | Applying two runs of writes one after the other equals applying their concatenation, so the order of the three loops is the order of the writes. |
| Merge.ApplyFrame | main.py:126-158 | A locale file's writes change no entry of another (mod, locale) and no other mod, and do not change the mod's name or title. |
| Merge.ApplyNames | main.py:140-141 | The mod's setting list keeps its earlier names in order and stays duplicate-free. It then holds exactly the earlier names plus the names written to. |
| Merge.ApplyKeepsInvariants | main.py:126-158 | Consistency and completeness of the tables survive any sequence of writes. |
| Merge.ApplyLocales | main.py:19-24 | The locales under all settings gain the file's locale exactly when the file makes at least one write. |
| Sections.FindSection | main.py:160-165 | A section of the requested name is found if and only if one exists. The first such section's pairs are returned. |
| Sections.ModernUpdates | main.py:160-166 | The k-th (name, text) pair of a modern section becomes the k-th write: to that setting name, verbatim, and to the section's field. |
| Sections.LegacyPrefix | main.py:111-112 | A section name is legacy exactly when some newline-free start of it is followed by `_map_settings`, `_pref_settings` or `_user_settings`, in any letter case. The prefix is then the longest such start. |
| Sections.Translate | main.py:160-183 | For every parsed file, the k-th pair of `mod-setting-name` is the k-th write, a label to that name verbatim. The description pairs follow in order. The legacy writes come last, in section order. A missing modern section contributes no writes. |
| Sections.LegacyKeyUpdate | main.py:172-183 | A legacy key writes its value. The write is a description exactly when the key matches `(.*)-desc`, and a label otherwise. A description names `<prefix>_<stem>`, where the stem is the longest newline-free start of the key followed by `-desc` in any case. A label names `<prefix>_<key>`. Hyphens are replaced in both, so the name has none. |
| Sections.LegacySectionUpdates | main.py:172-183 | The i-th key of a legacy section makes the i-th write of that section, as a legacy key would. |
| Sections.LegacyUpdates | main.py:167-183 | No write made by a legacy section names a setting with a hyphen. |
| Sections.LegacyUpdatesConcat | main.py:167-171 | Legacy sections are read in file order: the writes of two runs of sections are those of the first run, then the second. |
| Sections.IgnoredSectionContributesNothing | main.py:160-171 | Adding a section that is neither modern nor legacy, anywhere in a file, leaves the file's writes unchanged. |
| Sections.LegacySectionName | main.py:111-112 | A section named `<prefix>_map_settings`, `<prefix>_pref_settings` or `<prefix>_user_settings` is legacy with exactly that prefix, for any newline-free prefix. |
| Sections.LegacyDescriptionKey | main.py:173-178 | In a legacy section, key `<stem>-desc` writes the description of `<prefix>_<stem>` with hyphens replaced. For example, `output-desc` under `boiler_map_settings` describes `boiler_output`. |
| Sections.DescriptionMarkerKey | main.py:172-178 | A key `<stem>` + a case-insensitive `-desc` + a rest, with no later `-desc` split, describes `<prefix>_<stem>` with hyphens replaced. The match is not end-anchored, so the rest may be anything. |
| Sections.LegacyLabelKey | main.py:179-183 | In a legacy section, a key that does not match `(.*)-desc` writes the label of `<prefix>_<key>` with hyphens replaced. |
| Text.GreedyGroup | main.py:111-113 | The group of a start-anchored `(.*)(alternatives)` match under IGNORECASE is the longest newline-free prefix followed by an alternative. There is no match exactly when no split works. |
| Text.ReplaceHyphens | main.py:176 | Every '-' becomes '_' and nothing else changes. The result has no '-', and a hyphen-free string is unchanged. |
| Text.AddedOnceKeepsNoDuplicates | main.py:140-141 | Appending a name only when it is missing keeps a duplicate-free list duplicate-free. Membership becomes the old list plus the name. |
| Mods.ModInfo | main.py:64-82 | An archive is a mod exactly when its first `info.json` is a JSON object holding both "name" and "title". Its identity is then those two members. |
| Mods.OnlyFirstInfoCounts | main.py:73-75 | Later `info.json` files, and the locale files, never affect the identity. |
| Mods.ProcessArchive | main.py:45-59 | An archive without an identity leaves the tables as they were. A mod archive registers its name with its title. |
| Mods.ArchiveSettingNames | main.py:53-59 | After a mod archive, that mod's setting list is duplicate-free and holds exactly the settings its decodable locale files write. Whatever was listed before is forgotten. |
| Mods.Extract | main.py:89-108 | Merging a mod's locale files, each by the writes of its parsed sections or none when it does not decode, keeps the set of registered mods unchanged. |
| Mods.ExtractNames | main.py:89-108 | Merging a mod's locale files keeps its earlier list as a prefix and stays duplicate-free. It adds exactly the settings the decodable files write. |
| Mods.ExtractFrame | main.py:89-108 | Merging a mod's locale files changes no other mod and no entry of another mod. |
| Mods.ExtractLocales | main.py:94-108 | Merging a mod's locale files adds exactly the locales of the files that make at least one write. Undecodable files add nothing. |
| Mods.ArchiveFrame | main.py:45-59 | An archive changes neither the record nor the entries of any mod other than the one it registers. |
| Mods.ArchiveLocales | main.py:45-59 | An archive adds exactly the locales of its contributing files if it is a mod, and none otherwise. |
| Mods.ArchiveKeepsInvariants | main.py:45-59 | An archive keeps the tables consistent. It keeps them complete when its mod name is new. |
| Mods.ProcessAll | main.py:43-61 | After the loop over archives, the mods table holds the earlier mods plus exactly the names the archives register. |
| Mods.ProcessAllLocales | main.py:43-61 | The locales under all settings accumulate over archives. Re-registration never removes any. |
| Mods.ProcessAllKeepsInvariants | main.py:43-61 | The whole run keeps the tables consistent. It keeps them complete while no mod name is registered twice. |
| Mods.ModsSettingsLocaleData | main.py:36-61 | The two returned tables are consistent and their mods are exactly the registered names. Their locales are exactly those of the contributing files of mod archives. They are complete when mod names are distinct. |
| Mods.TranslateLastWrite | main.py:160-183 | In one locale file, the last write to a field is the last legacy write to it, else the last description write, else the last label write. |
| Mods.LocaleFileLastWriteWins | main.py:126-183 | After one locale file is merged, a field that any of the three loops writes holds the winning value: the last legacy write, else the last modern write. |
| Locales.BelowTotal | main.py:19 | Python's string order is total on distinct strings. |
| Locales.BelowTransitive | main.py:19 | Python's string order is transitive. |
| Locales.BelowIrreflexive | main.py:19 | No string precedes itself. |
| Locales.SortedIsUnique | main.py:19-24 | Two strictly sorted lists with the same elements are equal, so `sorted` of a set has exactly one possible result. |
| Locales.Least | main.py:19-24 | Picks the element of a non-empty set that precedes every other element. |
| Locales.SortedLocales | main.py:19-24 | The `locales` list is strictly increasing in Python's string order and duplicate-free. It contains exactly the locales under all settings and mods. |

## Left out

- Reading the mods directory, opening archives and matching the archive paths against `RE_INFO` and `RE_LOCALE_PATH`: the model starts from the matched files in listing order, with the locale name already extracted.
- `json.load` on a malformed `info.json` raises and ends the whole run; the model takes parsed documents, so this crash is not represented. JSON values other than strings for "name" and "title" are not modelled.
- The INI parser itself (lenient duplicate handling, key lower-casing, the `[DEFAULT]` retry on a missing header and DEFAULT value inheritance, other parse errors): the model takes its output as the list of sections with their pairs in order.
- A `ParsingError` from `read_string` (main.py:122, 124) is caught nowhere and ends the run; the model takes parsed sections, so this crash is not represented.
- UTF-8 decoding and the byte-order-mark re-decode: a file that does not decode is an absent configuration; a decoded file is its parsed sections.
- Mods.FileUpdates carries no contract of its own: it picks the parsed file's writes or none, and its meaning is stated by the Mods.Extract, Mods.ExtractNames and Mods.ExtractLocales rows.
- Printing of counts and messages, and writing `mod_settings_data.json`.
- Sections.LegacySectionName: states the example `boiler_map_settings` for every newline-free prefix rather than as a literal instance.
- Sections.LegacyDescriptionKey: states the `output-desc` example for every newline-free stem rather than as a literal instance.
- Sections.FindSection: returns the first section of a name when several share it; the INI parser never produces such a list, so this adds no behaviour.
