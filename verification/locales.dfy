/** The `locales` list that `main` writes next to the mods and settings: every
    locale that occurs under some setting and mod, once each, in the order of
    Python's `sorted` on strings (code point by code point, a proper prefix
    first). */
module Locales {
  import opened Text
  import opened Store

  /** Python's `a < b` on strings. */
  predicate Below(a: string, b: string)
    decreases |a|
  {
    if a == [] then b != []
    else if b == [] then false
    else if a[0] != b[0] then a[0] < b[0]
    else Below(a[1..], b[1..])
  }

  lemma {:induction false} BelowIrreflexive(a: string)
    ensures !Below(a, a)
    decreases |a|
  {
    if a != [] {
      BelowIrreflexive(a[1..]);
    }
  }

  lemma {:induction false} BelowTransitive(a: string, b: string, c: string)
    requires Below(a, b) && Below(b, c)
    ensures Below(a, c)
    decreases |a|
  {
    if a != [] && b != [] && c != [] && a[0] == b[0] && b[0] == c[0] {
      BelowTransitive(a[1..], b[1..], c[1..]);
    }
  }

  lemma {:induction false} BelowTotal(a: string, b: string)
    requires a != b
    ensures Below(a, b) || Below(b, a)
    decreases |a|
  {
    if a != [] && b != [] && a[0] == b[0] {
      assert a == [a[0]] + a[1..] && b == [b[0]] + b[1..];
      BelowTotal(a[1..], b[1..]);
    }
  }

  lemma BelowAsymmetric(a: string, b: string)
    requires Below(a, b)
    ensures !Below(b, a)
  {
    if Below(b, a) {
      BelowTransitive(a, b, a);
      BelowIrreflexive(a);
    }
  }

  predicate StrictlySorted(xs: seq<string>) {
    forall i, j :: 0 <= i < j < |xs| ==> Below(xs[i], xs[j])
  }

  lemma StrictlySortedHasNoDuplicates(xs: seq<string>)
    requires StrictlySorted(xs)
    ensures NoDuplicates(xs)
  {
    forall i, j | 0 <= i < j < |xs| ensures xs[i] != xs[j] {
      BelowIrreflexive(xs[i]);
    }
  }

  /** Two strictly sorted lists with the same elements are the same list, so
      the order `sorted` gives is the only one the result can have. */
  lemma {:induction false} SortedIsUnique(xs: seq<string>, ys: seq<string>)
    requires StrictlySorted(xs) && StrictlySorted(ys)
    requires forall x :: x in xs <==> x in ys
    ensures xs == ys
    decreases |xs|
  {
    if xs != [] {
      assert xs[0] in ys;
    }
    if ys != [] {
      assert ys[0] in xs;
    }
    if xs != [] && ys != [] {
      if xs[0] != ys[0] {
        assert xs[0] in xs && ys[0] in ys;
        var i :| 0 <= i < |ys| && ys[i] == xs[0];
        var j :| 0 <= j < |xs| && xs[j] == ys[0];
        assert i > 0 && j > 0;
        BelowAsymmetric(xs[0], xs[j]);
      } else {
        forall x ensures x in xs[1..] <==> x in ys[1..] {
          if x in xs[1..] {
            var i :| 1 <= i < |xs| && xs[i] == x;
            BelowIrreflexive(xs[0]);
            assert x in ys && x != ys[0];
          }
          if x in ys[1..] {
            var i :| 1 <= i < |ys| && ys[i] == x;
            BelowIrreflexive(ys[0]);
            assert x in xs && x != xs[0];
          }
        }
        SortedIsUnique(xs[1..], ys[1..]);
        assert xs == [xs[0]] + xs[1..] && ys == [ys[0]] + ys[1..];
      }
    }
  }

  /** The least element of a non-empty set of strings. */
  method Least(s: set<string>) returns (m: string)
    requires s != {}
    ensures m in s
    ensures forall x :: x in s && x != m ==> Below(m, x)
  {
    m :| m in s;
    var todo := s - {m};
    while todo != {}
      invariant todo <= s && m in s && m !in todo
      invariant forall x :: x in s && x !in todo && x != m ==> Below(m, x)
      decreases |todo|
    {
      var x :| x in todo;
      BelowTotal(x, m);
      if Below(x, m) {
        forall y | y in s && y !in todo && y != x
          ensures Below(x, y)
        {
          if y != m {
            BelowTransitive(x, m, y);
          }
        }
        m := x;
      }
      todo := todo - {x};
    }
  }

  /** The locales of all entries, sorted, as `main` computes them. */
  method SortedLocales(st: Store) returns (locales: seq<string>)
    ensures StrictlySorted(locales)
    ensures NoDuplicates(locales)
    ensures forall l :: l in locales <==> l in AllLocales(st.settings)
  {
    var all := AllLocales(st.settings);
    var rest := all;
    locales := [];
    while rest != {}
      invariant rest <= all
      invariant forall l :: l in all <==> l in rest || l in locales
      invariant forall l :: l in rest ==> l !in locales
      invariant StrictlySorted(locales)
      invariant forall i, l :: 0 <= i < |locales| && l in rest ==> Below(locales[i], l)
      decreases |rest|
    {
      var m := Least(rest);
      locales := locales + [m];
      rest := rest - {m};
    }
    StrictlySortedHasNoDuplicates(locales);
  }
}
