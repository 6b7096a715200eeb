/** The string operations the schemas apply: the `trim` and `lowercase`
    setters and the email `match` pattern `^[\w-]+@([\w-]+\.)+[\w-]{2,4}$`. */
module Text {
  import opened Common

  /** The characters JavaScript's `String.prototype.trim` removes: the
      WhiteSpace and LineTerminator code points of ECMAScript. */
  predicate IsSpace(c: char) {
    || c == ' ' || c == '\t' || c == '\n' || c == '\r'
    || c == '\U{000B}' || c == '\U{000C}' || c == '\U{00A0}' || c == '\U{1680}'
    || ('\U{2000}' <= c <= '\U{200A}')
    || c == '\U{2028}' || c == '\U{2029}' || c == '\U{202F}' || c == '\U{205F}'
    || c == '\U{3000}' || c == '\U{FEFF}'
  }

  /** Drops the leading white space: the result is the suffix of `s` that
      starts at its first non-space character. */
  function TrimStart(s: string): (r: string)
    ensures |r| <= |s| && r == s[|s| - |r|..]
    ensures forall i :: 0 <= i < |s| - |r| ==> IsSpace(s[i])
    ensures r == [] || !IsSpace(r[0])
  {
    if s != [] && IsSpace(s[0]) then TrimStart(s[1..]) else s
  }

  /** Drops the trailing white space: the result is the prefix of `s` that
      ends at its last non-space character. */
  function TrimEnd(s: string): (r: string)
    ensures |r| <= |s| && r == s[..|r|]
    ensures forall i :: |r| <= i < |s| ==> IsSpace(s[i])
    ensures r == [] || !IsSpace(r[|r| - 1])
  {
    if s != [] && IsSpace(s[|s| - 1]) then TrimEnd(s[..|s| - 1]) else s
  }

  /** No white space at either end. */
  predicate Trimmed(s: string) {
    s == [] || (!IsSpace(s[0]) && !IsSpace(s[|s| - 1]))
  }

  /** The `trim: true` setter. */
  function Trim(s: string): (r: string)
    ensures |r| <= |s|
    ensures Trimmed(r)
    ensures r == [] <==> forall i :: 0 <= i < |s| ==> IsSpace(s[i])
    ensures exists i :: InnerPart(s, i, r)
  {
    var t := TrimStart(s);
    var r := TrimEnd(t);
    assert r != [] ==> r[0] == t[0];
    TrimParts(s);
    r
  }

  /** Trimming both ends keeps the part of `s` after the leading and before
      the trailing white space. */
  lemma TrimParts(s: string)
    ensures InnerPart(s, |s| - |TrimStart(s)|, TrimEnd(TrimStart(s)))
  {
    InnerOf(s, TrimStart(s), TrimEnd(TrimStart(s)));
  }

  /** A suffix `t` of `s` after white space only, and a prefix `r` of `t`
      before white space only: `r` is an inner part of `s`. */
  lemma InnerOf(s: string, t: string, r: string)
    requires |t| <= |s| && t == s[|s| - |t|..] && forall k :: 0 <= k < |s| - |t| ==> IsSpace(s[k])
    requires |r| <= |t| && r == t[..|r|] && forall k :: |r| <= k < |t| ==> IsSpace(t[k])
    ensures InnerPart(s, |s| - |t|, r)
  {
    var i := |s| - |t|;
    assert r == s[i..i + |r|];
    SpaceSlice(s, 0, i);
    assert s[..i] == s[0..i];
    SpaceSlice(t, |r|, |t|);
    assert s[i + |r|..] == t[|r|..|t|];
  }

  /** A run of white space, as a slice. */
  lemma SpaceSlice(u: string, a: int, b: int)
    requires 0 <= a <= b <= |u| && forall k :: a <= k < b ==> IsSpace(u[k])
    ensures AllSpace(u[a..b])
  {
    forall k | 0 <= k < b - a
      ensures IsSpace(u[a..b][k])
    {
      assert u[a..b][k] == u[a + k];
    }
  }

  /** `u` is white space only. */
  predicate AllSpace(u: string) {
    forall k :: 0 <= k < |u| ==> IsSpace(u[k])
  }

  /** `r` is the part of `s` that starts at `i`, and only white space lies
      before and after it. */
  predicate InnerPart(s: string, i: int, r: string) {
    && 0 <= i <= |s| - |r| && r == s[i..i + |r|]
    && AllSpace(s[..i]) && AllSpace(s[i + |r|..])
  }

  /** The `trim: true` setter on a path that may hold no value. */
  function TrimValue(v: Option<string>): (r: Option<string>)
    ensures r.Some? <==> v.Some?
    ensures r.Some? ==> r.value == Trim(v.value)
  {
    match v
    case None => None
    case Some(s) => Some(Trim(s))
  }

  /** A string without white space at either end is its own trimming. */
  lemma TrimmedIsFixed(s: string)
    requires Trimmed(s)
    ensures Trim(s) == s
  {
    assert TrimStart(s) == s;
    assert TrimEnd(s) == s;
  }

  /** Applying the setter twice stores the same value as applying it once. */
  lemma TrimIdempotent(s: string)
    ensures Trim(Trim(s)) == Trim(s)
  {
    var t := Trim(s);
    TrimmedIsFixed(t);
  }

  /** Lower-cases one character (ASCII letters; see README). */
  function LowerChar(c: char): char {
    if 'A' <= c <= 'Z' then (c as int + 32) as char else c
  }

  /** The `lowercase: true` setter. */
  function Lower(s: string): (r: string)
    ensures |r| == |s|
    ensures forall i :: 0 <= i < |r| ==> !('A' <= r[i] <= 'Z')
    ensures forall i :: 0 <= i < |s| && !('A' <= s[i] <= 'Z') ==> r[i] == s[i]
    ensures forall i :: 0 <= i < |s| && 'A' <= s[i] <= 'Z' ==> r[i] as int == s[i] as int + 32
  {
    seq(|s|, i requires 0 <= i < |s| => LowerChar(s[i]))
  }

  /** Lower-casing an already lower-cased address changes nothing. */
  lemma LowerIdempotent(s: string)
    ensures Lower(Lower(s)) == Lower(s)
  {
    var t := Lower(s);
    assert forall i :: 0 <= i < |t| ==> Lower(t)[i] == t[i];
  }

  /** A string without upper-case letters is its own lower-casing. */
  lemma LowerFixed(s: string)
    requires forall i :: 0 <= i < |s| ==> !('A' <= s[i] <= 'Z')
    ensures Lower(s) == s
  {
  }

  /** The class `[\w-]`: ASCII letters, digits, `_` and `-`. */
  predicate IsWordChar(c: char) {
    ('a' <= c <= 'z') || ('A' <= c <= 'Z') || ('0' <= c <= '9') || c == '_' || c == '-'
  }

  predicate AllWord(s: string) {
    forall i :: 0 <= i < |s| ==> IsWordChar(s[i])
  }

  /** The index of the first `c` in `s`, or `|s|` when there is none. */
  function Find(s: string, c: char): (k: nat)
    ensures k <= |s|
    ensures k < |s| ==> s[k] == c
    ensures forall i :: 0 <= i < k ==> s[i] != c
  {
    if s == [] then 0
    else if s[0] == c then 0
    else 1 + Find(s[1..], c)
  }

  /** `d` matches `([\w-]+\.)+[\w-]{2,4}`. A label holds no dot, so the first
      label always ends at the first dot. */
  function Domain(d: string): (r: bool)
    ensures r ==> 4 <= |d|
    ensures r ==> forall i :: 0 <= i < |d| ==> IsWordChar(d[i]) || d[i] == '.'
    decreases |d|
  {
    var k := Find(d, '.');
    && 0 < k < |d|
    && AllWord(d[..k])
    && var rest := d[k + 1..];
       (2 <= |rest| <= 4 && AllWord(rest)) || Domain(rest)
  }

  /** The full-string match of `^[\w-]+@([\w-]+\.)+[\w-]{2,4}$`. The local
      part holds no `@`, so it always ends at the first `@`. */
  function MatchesEmail(s: string): (b: bool)
    ensures b ==> 6 <= |s|
    ensures b ==> forall i :: 0 <= i < |s| ==> IsWordChar(s[i]) || s[i] == '.' || s[i] == '@'
    ensures b ==> Find(s, '@') < |s| && s[Find(s, '@')] == '@'
    ensures b ==> forall i :: 0 <= i < |s| && s[i] == '@' ==> i == Find(s, '@')
  {
    var k := Find(s, '@');
    0 < k < |s| && AllWord(s[..k]) && Domain(s[k + 1..])
  }

  /** The labels of a domain, each followed by its dot. */
  function Dotted(labels: seq<string>): string {
    if labels == [] then "" else labels[0] + "." + Dotted(labels[1..])
  }

  predicate IsLabel(l: string) {
    l != [] && AllWord(l)
  }

  predicate IsTld(t: string) {
    2 <= |t| <= 4 && AllWord(t)
  }

  lemma FindAfterWord(w: string, c: char, rest: string)
    requires AllWord(w) && !IsWordChar(c)
    ensures Find(w + [c] + rest, c) == |w|
  {
    var s := w + [c] + rest;
    var k := Find(s, c);
    assert s[|w|] == c;
  }

  /** Every domain of the regular expression's shape matches. */
  lemma {:induction false} DomainFromParts(labels: seq<string>, tld: string)
    requires |labels| >= 1
    requires forall i :: 0 <= i < |labels| ==> IsLabel(labels[i])
    requires IsTld(tld)
    ensures Domain(Dotted(labels) + tld)
  {
    var l := labels[0];
    var rest := Dotted(labels[1..]) + tld;
    var d := Dotted(labels) + tld;
    assert d == l + ['.'] + rest;
    FindAfterWord(l, '.', rest);
    assert d[..|l|] == l;
    assert d[|l| + 1..] == rest;
    if |labels| == 1 {
      assert rest == tld;
    } else {
      DomainFromParts(labels[1..], tld);
    }
  }

  /** The labels of a matching domain, in order. */
  function DomainLabels(d: string): (labels: seq<string>)
    requires Domain(d)
    decreases |d|
  {
    var k := Find(d, '.');
    var rest := d[k + 1..];
    if 2 <= |rest| <= 4 && AllWord(rest) then [d[..k]] else [d[..k]] + DomainLabels(rest)
  }

  /** The last label of a matching domain, the one without a dot after it. */
  function DomainTld(d: string): (tld: string)
    requires Domain(d)
    decreases |d|
  {
    var k := Find(d, '.');
    var rest := d[k + 1..];
    if 2 <= |rest| <= 4 && AllWord(rest) then rest else DomainTld(rest)
  }

  /** Every matching domain has the regular expression's shape: at least
      one `[\w-]` label and a 2 to 4 character last label. */
  lemma {:induction false} DomainParts(d: string)
    requires Domain(d)
    ensures |DomainLabels(d)| >= 1
    ensures forall i :: 0 <= i < |DomainLabels(d)| ==> IsLabel(DomainLabels(d)[i])
    ensures IsTld(DomainTld(d))
  {
    var k := Find(d, '.');
    var rest := d[k + 1..];
    if !(2 <= |rest| <= 4 && AllWord(rest)) {
      DomainParts(rest);
    }
  }

  /** A matching domain is its labels, each with its dot, then the last
      label. */
  lemma {:induction false} DomainRebuilt(d: string)
    requires Domain(d)
    ensures d == Dotted(DomainLabels(d)) + DomainTld(d)
  {
    var k := Find(d, '.');
    var rest := d[k + 1..];
    assert d == d[..k] + "." + rest;
    if 2 <= |rest| <= 4 && AllWord(rest) {
      assert Dotted([d[..k]]) == d[..k] + "." + Dotted([]);
    } else {
      DomainRebuilt(rest);
      var labels := [d[..k]] + DomainLabels(rest);
      assert labels[1..] == DomainLabels(rest);
      assert Dotted(labels) == d[..k] + "." + Dotted(DomainLabels(rest));
    }
  }

  /** An address matches exactly when it is `local@label.….tld` with a
      non-empty `[\w-]` local part, at least one label and a 2 to 4
      character top-level label. */
  lemma EmailFromParts(local: string, labels: seq<string>, tld: string)
    requires IsLabel(local)
    requires |labels| >= 1 && forall i :: 0 <= i < |labels| ==> IsLabel(labels[i])
    requires IsTld(tld)
    ensures MatchesEmail(local + "@" + Dotted(labels) + tld)
  {
    DomainFromParts(labels, tld);
    MatchesAt(local, Dotted(labels), tld);
  }

  /** A word, an `@` and a matching domain make a matching address. */
  lemma MatchesAt(local: string, dots: string, tld: string)
    requires IsLabel(local) && Domain(dots + tld)
    ensures MatchesEmail(local + "@" + dots + tld)
  {
    var d := dots + tld;
    var s := local + "@" + dots + tld;
    assert s == local + ['@'] + d;
    FindAfterWord(local, '@', d);
    assert s[..|local|] == local;
    assert s[|local| + 1..] == d;
  }

  /** The part of a matching address before its `@`. */
  function LocalPart(s: string): (local: string)
    requires MatchesEmail(s)
    ensures IsLabel(local) && |local| < |s| && s[..|local|] == local && s[|local|] == '@'
  {
    s[..Find(s, '@')]
  }

  /** The part of a matching address after its first `@`. */
  function DomainPart(s: string): (d: string)
    requires MatchesEmail(s)
    ensures Domain(d) && s == LocalPart(s) + "@" + d
  {
    var k := Find(s, '@');
    assert s == s[..k] + "@" + s[k + 1..];
    s[k + 1..]
  }

  /** The converse: a matching address splits into those parts. */
  lemma EmailParts(s: string)
    requires MatchesEmail(s)
    ensures var d := DomainPart(s);
            && |DomainLabels(d)| >= 1
            && (forall i :: 0 <= i < |DomainLabels(d)| ==> IsLabel(DomainLabels(d)[i]))
            && IsTld(DomainTld(d))
            && s == LocalPart(s) + "@" + Dotted(DomainLabels(d)) + DomainTld(d)
  {
    var d := DomainPart(s);
    DomainParts(d);
    DomainRebuilt(d);
  }
}
