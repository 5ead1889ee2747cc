/** Applying the updates read from one locale file of one mod, in order, to the
    store: the loops of `get_settings_locale_from_config` that call
    `add_setting_label` and `add_setting_description` one pair at a time. */
module Merge {
  import opened Text
  import opened Store

  /** The setting names the updates write to. */
  function Targets(us: seq<Update>): set<string> {
    set i | 0 <= i < |us| :: us[i].setting
  }

  /** The updates applied first to last. Written as "all but the last, then the
      last", which is the same order as the source's loop. */
  function Apply(st: Store, mod: string, locale: string, us: seq<Update>): (r: Store)
    requires mod in st.mods
    ensures r.mods.Keys == st.mods.Keys
    decreases |us|
  {
    if us == [] then st
    else
      var u := us[|us| - 1];
      Upsert(Apply(st, mod, locale, us[..|us| - 1]), mod, locale, u.setting, u.field, u.value)
  }

  /** The value of the last update in `us` that writes field `f` of setting `s`. */
  function LastWrite(us: seq<Update>, s: string, f: Field): Option<string>
    decreases |us|
  {
    if us == [] then None
    else if us[|us| - 1].setting == s && us[|us| - 1].field == f then Some(us[|us| - 1].value)
    else LastWrite(us[..|us| - 1], s, f)
  }

  /** The later of two last writes: `later` when there is one, else `earlier`. */
  function Latest(later: Option<string>, earlier: Option<string>): Option<string> {
    if later.Some? then later else earlier
  }

  /** The last write of two runs of updates is the second run's, if it has one. */
  lemma {:induction false} LastWriteConcat(a: seq<Update>, b: seq<Update>, s: string, f: Field)
    ensures LastWrite(a + b, s, f) == Latest(LastWrite(b, s, f), LastWrite(a, s, f))
    decreases |b|
  {
    if b == [] {
      assert a + b == a;
    } else {
      var init := b[..|b| - 1];
      assert (a + b)[..|a + b| - 1] == a + init;
      assert (a + b)[|a + b| - 1] == b[|b| - 1];
      LastWriteConcat(a, init, s, f);
    }
  }

  /** What field `f` of the (s, mod, locale) entry holds after the updates: the
      last write to it, else what the entry held, else the default "". */
  function FieldAfter(before: Option<Entry>, us: seq<Update>, s: string, f: Field): string {
    match LastWrite(us, s, f)
    case Some(v) => v
    case None => if before.Some? then FieldOf(before.value, f) else ""
  }

  lemma TargetsOfSnoc(us: seq<Update>, u: Update)
    ensures Targets(us + [u]) == Targets(us) + {u.setting}
  {
    var w := us + [u];
    forall x | x in Targets(w) ensures x in Targets(us) + {u.setting} {
      var i :| 0 <= i < |w| && w[i].setting == x;
      if i < |us| {
        assert us[i] == w[i];
      }
    }
    forall x | x in Targets(us) ensures x in Targets(w) {
      var i :| 0 <= i < |us| && us[i].setting == x;
      assert w[i] == us[i];
    }
    assert w[|us|] == u;
  }

  lemma {:induction false} LastWriteIsTargeted(us: seq<Update>, s: string, f: Field)
    ensures LastWrite(us, s, f).Some? ==> s in Targets(us)
    decreases |us|
  {
    if us != [] {
      var init, u := us[..|us| - 1], us[|us| - 1];
      assert us == init + [u];
      TargetsOfSnoc(init, u);
      LastWriteIsTargeted(init, s, f);
    }
  }

  /** The last write to a field wins; an entry exists afterwards exactly when it
      existed before or some update targets its setting; a field nobody writes
      keeps its earlier text or the default "". */
  lemma {:induction false} LastWriteWins(st: Store, mod: string, locale: string, us: seq<Update>, s: string, f: Field)
    requires mod in st.mods
    ensures var r := Apply(st, mod, locale, us);
      && (Lookup(r, s, mod, locale).Some? <==> Lookup(st, s, mod, locale).Some? || s in Targets(us))
      && (Lookup(r, s, mod, locale).Some? ==>
            FieldOf(Lookup(r, s, mod, locale).value, f) == FieldAfter(Lookup(st, s, mod, locale), us, s, f))
    decreases |us|
  {
    if us != [] {
      var init, u := us[..|us| - 1], us[|us| - 1];
      assert us == init + [u];
      TargetsOfSnoc(init, u);
      LastWriteWins(st, mod, locale, init, s, f);
      LastWriteIsTargeted(init, s, f);
      ApplySnoc(st, mod, locale, init, u);
      UpsertStep(Apply(st, mod, locale, init), mod, locale, u, s, f);
      FieldAfterSnoc(Lookup(st, s, mod, locale), init, u, s, f);
    }
  }

  lemma FieldAfterSnoc(before: Option<Entry>, us: seq<Update>, u: Update, s: string, f: Field)
    ensures FieldAfter(before, us + [u], s, f)
         == if u.setting == s && u.field == f then u.value else FieldAfter(before, us, s, f)
  {
    assert (us + [u])[..|us|] == us;
  }

  /** One update, seen from the (s, mod, locale) entry and its field f. */
  lemma UpsertStep(mid: Store, mod: string, locale: string, u: Update, s: string, f: Field)
    requires mod in mid.mods
    ensures var r := Upsert(mid, mod, locale, u.setting, u.field, u.value);
      && (Lookup(r, s, mod, locale).Some? <==> Lookup(mid, s, mod, locale).Some? || u.setting == s)
      && (Lookup(r, s, mod, locale).Some? ==>
            FieldOf(Lookup(r, s, mod, locale).value, f)
            == if u.setting == s && u.field == f then u.value
               else if Lookup(mid, s, mod, locale).Some? then FieldOf(Lookup(mid, s, mod, locale).value, f)
               else "")
  {
    if u.setting == s {
      if u.field != f {
        assert f == Other(u.field) by {
          match f
          case Label =>
          case Description =>
        }
      }
    } else {
      UpsertFrame(mid, mod, locale, u.setting, u.field, u.value);
    }
  }

  lemma ApplySnoc(st: Store, mod: string, locale: string, us: seq<Update>, u: Update)
    requires mod in st.mods
    ensures Apply(st, mod, locale, us + [u])
         == Upsert(Apply(st, mod, locale, us), mod, locale, u.setting, u.field, u.value)
  {
    var w := us + [u];
    assert w[..|w| - 1] == us;
  }

  /** Applying two runs of updates one after the other is applying their concatenation. */
  lemma {:induction false} ApplyConcat(st: Store, mod: string, locale: string, a: seq<Update>, b: seq<Update>)
    requires mod in st.mods
    ensures Apply(st, mod, locale, a + b) == Apply(Apply(st, mod, locale, a), mod, locale, b)
    decreases |b|
  {
    if b == [] {
      assert a + b == a;
    } else {
      var init, u := b[..|b| - 1], b[|b| - 1];
      assert a + b == (a + init) + [u];
      assert b == init + [u];
      ApplyConcat(st, mod, locale, a, init);
      ApplySnoc(st, mod, locale, a + init, u);
      ApplySnoc(Apply(st, mod, locale, a), mod, locale, init, u);
    }
  }

  /** Only entries under (mod, locale) and mod's setting list change. */
  lemma {:induction false} ApplyFrame(st: Store, mod: string, locale: string, us: seq<Update>)
    requires mod in st.mods
    ensures var r := Apply(st, mod, locale, us);
      && (forall s, m, l :: (m, l) != (mod, locale) ==> Lookup(r, s, m, l) == Lookup(st, s, m, l))
      && (forall m :: m in st.mods && m != mod ==> r.mods[m] == st.mods[m])
      && r.mods[mod].name == st.mods[mod].name && r.mods[mod].title == st.mods[mod].title
    decreases |us|
  {
    if us != [] {
      var init, u := us[..|us| - 1], us[|us| - 1];
      ApplyFrame(st, mod, locale, init);
      UpsertFrame(Apply(st, mod, locale, init), mod, locale, u.setting, u.field, u.value);
    }
  }

  /** The mod's setting list keeps its earlier names in order, gains exactly the
      updated settings it lacked, and stays free of duplicates. */
  lemma {:induction false} ApplyNames(st: Store, mod: string, locale: string, us: seq<Update>)
    requires mod in st.mods
    requires NoDuplicates(st.mods[mod].settingNames)
    ensures var (before, after) := (st.mods[mod].settingNames, Apply(st, mod, locale, us).mods[mod].settingNames);
      && |before| <= |after| && after[..|before|] == before
      && NoDuplicates(after)
      && (forall x :: x in after <==> x in before || x in Targets(us))
    decreases |us|
  {
    if us != [] {
      var init, u := us[..|us| - 1], us[|us| - 1];
      assert us == init + [u];
      TargetsOfSnoc(init, u);
      ApplyNames(st, mod, locale, init);
      var before := st.mods[mod].settingNames;
      var mid := Apply(st, mod, locale, init).mods[mod].settingNames;
      var after := Apply(st, mod, locale, us).mods[mod].settingNames;
      assert AddedOnce(mid, u.setting, after);
      AddedOnceKeepsNoDuplicates(mid, u.setting, after);
      PrefixOfPrefix(before, mid, after);
    }
  }

  lemma PrefixOfPrefix(a: seq<string>, b: seq<string>, c: seq<string>)
    requires |a| <= |b| <= |c| && b[..|a|] == a && c[..|b|] == b
    ensures c[..|a|] == a
  {
    assert c[..|a|] == c[..|b|][..|a|];
  }

  lemma {:induction false} ApplyKeepsInvariants(st: Store, mod: string, locale: string, us: seq<Update>)
    requires mod in st.mods
    ensures WellFormed(st) ==> WellFormed(Apply(st, mod, locale, us))
    ensures Complete(st) ==> Complete(Apply(st, mod, locale, us))
    decreases |us|
  {
    if us != [] {
      var init := us[..|us| - 1];
      var u := us[|us| - 1];
      ApplyKeepsInvariants(st, mod, locale, init);
      var mid := Apply(st, mod, locale, init);
      if WellFormed(st) {
        UpsertKeepsWellFormed(mid, mod, locale, u.setting, u.field, u.value);
      }
      if Complete(st) {
        UpsertKeepsComplete(mid, mod, locale, u.setting, u.field, u.value);
      }
    }
  }

  /** A locale file adds its locale to the store's locales when it yields at
      least one update, and adds nothing otherwise. */
  lemma {:induction false} ApplyLocales(st: Store, mod: string, locale: string, us: seq<Update>)
    requires mod in st.mods
    ensures AllLocales(Apply(st, mod, locale, us).settings)
         == AllLocales(st.settings) + (if us == [] then {} else {locale})
    decreases |us|
  {
    if us != [] {
      var init := us[..|us| - 1];
      var u := us[|us| - 1];
      ApplyLocales(st, mod, locale, init);
      UpsertLocales(Apply(st, mod, locale, init), mod, locale, u.setting, u.field, u.value);
    }
  }
}
