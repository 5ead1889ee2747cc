/** Small string vocabulary shared by the model: the optional value, the
    parts of Python's regular-expression semantics that the locale parser
    relies on (start-anchored matching, a greedy `(.*)` group, `.` refusing
    a newline, IGNORECASE letters), hyphen replacement, and duplicate-free
    sequences. */
module Text {

  datatype Option<T> = None | Some(value: T)

  /** True iff no character of `s` is a newline, i.e. `.*` can match all of `s`. */
  predicate NoNewline(s: string) {
    forall k :: 0 <= k < |s| ==> s[k] != '\n'
  }

  /** Whether character `c` matches the lower-case pattern character `p` under
      Python's IGNORECASE flag. ASCII letters match both cases; the regular
      expression module also lets U+0130 and U+0131 match `i`, U+017F match `s`
      and U+212A match `k`. Any other pattern character matches only itself. */
  predicate CharMatchesIgnoreCase(c: char, p: char) {
    || c == p
    || ('a' <= p <= 'z' && c as int == p as int - 32)
    || (p == 'i' && (c == '\U{130}' || c == '\U{131}'))
    || (p == 's' && c == '\U{17F}')
    || (p == 'k' && c == '\U{212A}')
  }

  /** The literal `pat` (written in lower case) occurs in `s` starting at index `i`,
      ignoring case as above. */
  predicate LiteralAt(s: string, i: nat, pat: string) {
    i + |pat| <= |s| && forall k :: 0 <= k < |pat| ==> CharMatchesIgnoreCase(s[i + k], pat[k])
  }

  /** One of the alternatives `alts` occurs in `s` at index `i`. */
  predicate AnyLiteralAt(s: string, i: nat, alts: seq<string>) {
    exists a :: 0 <= a < |alts| && LiteralAt(s, i, alts[a])
  }

  /** Splitting `s` at `j` lets the start-anchored pattern `(.*)(alt1|alt2|...)`
      match: the group `s[..j]` is newline-free and an alternative follows it. */
  predicate GroupSplit(s: string, j: nat, alts: seq<string>) {
    j <= |s| && NoNewline(s[..j]) && AnyLiteralAt(s, j, alts)
  }

  /** Index of the first newline of `s`, or `|s|` when there is none. */
  function LineEnd(s: string): (n: nat)
    ensures n <= |s|
    ensures NoNewline(s[..n])
    ensures n < |s| ==> s[n] == '\n'
  {
    if s == [] then 0
    else if s[0] == '\n' then 0
    else
      var n := 1 + LineEnd(s[1..]);
      assert s[..n] == [s[0]] + s[1..][..n - 1];
      n
  }

  /** No split beyond the first newline can make `.*` match. */
  lemma BeyondLineEnd(s: string, j: nat, alts: seq<string>)
    requires LineEnd(s) < j
    ensures !GroupSplit(s, j, alts)
  {
    if j <= |s| {
      var n := LineEnd(s);
      assert s[..j][n] == '\n';
    }
  }

  /** The largest split at or below `i` that makes the pattern match. */
  function LastSplitAtOrBelow(s: string, i: nat, alts: seq<string>): (r: Option<nat>)
    requires i <= |s|
    ensures r.Some? ==> r.value <= i && GroupSplit(s, r.value, alts)
    ensures r.Some? ==> forall j :: r.value < j <= i ==> !GroupSplit(s, j, alts)
    ensures r.None? ==> forall j :: 0 <= j <= i ==> !GroupSplit(s, j, alts)
  {
    if NoNewline(s[..i]) && AnyLiteralAt(s, i, alts) then Some(i)
    else if i == 0 then None
    else LastSplitAtOrBelow(s, i - 1, alts)
  }

  /** The group captured by Python's `re.match("(.*)(alt1|alt2|...)", s)`: the
      match is anchored at the start only, `(.*)` is greedy and cannot cross a
      newline, so the group is the longest newline-free prefix of `s` that is
      followed by one of `alts`; text after the alternative is allowed. */
  function GreedyGroup(s: string, alts: seq<string>): (r: Option<string>)
    ensures r.Some? ==> |r.value| <= |s| && r.value == s[..|r.value|] && GroupSplit(s, |r.value|, alts)
    ensures r.Some? ==> forall j :: |r.value| < j <= |s| ==> !GroupSplit(s, j, alts)
    ensures r.None? <==> forall j :: 0 <= j <= |s| ==> !GroupSplit(s, j, alts)
  {
    var n := LineEnd(s);
    forall j | n < j <= |s|
      ensures !GroupSplit(s, j, alts)
    {
      BeyondLineEnd(s, j, alts);
    }
    match LastSplitAtOrBelow(s, n, alts)
    case None => None
    case Some(j) => Some(s[..j])
  }

  /** Python's `s.replace("-", "_")`. */
  function ReplaceHyphens(s: string): (r: string)
    ensures |r| == |s|
    ensures forall k :: 0 <= k < |s| ==> r[k] == (if s[k] == '-' then '_' else s[k])
    ensures '-' !in r
    ensures '-' !in s ==> r == s
  {
    seq(|s|, k requires 0 <= k < |s| => if s[k] == '-' then '_' else s[k])
  }

  predicate NoDuplicates<T(==)>(xs: seq<T>) {
    forall i, j :: 0 <= i < j < |xs| ==> xs[i] != xs[j]
  }

  /** `ys` is `xs` with `x` appended at the end when, and only when, `xs` lacked it. */
  predicate AddedOnce<T(==)>(xs: seq<T>, x: T, ys: seq<T>) {
    && |xs| <= |ys|
    && ys[..|xs|] == xs
    && x in ys
    && |ys| == |xs| + (if x in xs then 0 else 1)
  }

  lemma AddedOnceKeepsNoDuplicates<T>(xs: seq<T>, x: T, ys: seq<T>)
    requires NoDuplicates(xs)
    requires AddedOnce(xs, x, ys)
    ensures NoDuplicates(ys)
    ensures forall y :: y in ys <==> y in xs || y == x
  {
    if x in xs {
      assert ys == xs;
    } else {
      assert ys == xs + [x] by {
        assert ys[|xs|] == x by {
          var k :| 0 <= k < |ys| && ys[k] == x;
          assert k == |xs|;
        }
      }
    }
  }
}
