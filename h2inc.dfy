/**
 * The header-to-NASM converter: every `#define NAME VALUE` line of a C
 * header becomes a `%define NAME VALUE` line of an assembler include file,
 * a value wrapped in one pair of parentheses loses them, and every other
 * line is dropped.
 *
 * Strings are Python `str` values, i.e. sequences of code points; whitespace
 * is the set Python's `str.isspace`, `str.strip` and the regular-expression
 * class `\s` agree on.
 */
module H2Inc {
  import opened Wrappers
  import Packed

  // ---------------------------------------------------------------------
  // Characters

  /** `str.isspace()` of one code point. */
  predicate IsSpace(c: char)
  {
    var n := c as int;
    (9 <= n <= 13) || (28 <= n <= 32) || n == 0x85 || n == 0xA0 || n == 0x1680 ||
    (0x2000 <= n <= 0x200A) || n == 0x2028 || n == 0x2029 || n == 0x202F ||
    n == 0x205F || n == 0x3000
  }

  /** `[A-Za-z_]` */
  predicate IsIdentStart(c: char) { 'A' <= c <= 'Z' || 'a' <= c <= 'z' || c == '_' }

  /** `[A-Za-z0-9_]` */
  predicate IsIdentChar(c: char) { IsIdentStart(c) || '0' <= c <= '9' }

  predicate IsIdentifier(s: string)
  {
    |s| > 0 && IsIdentStart(s[0]) && forall i | 1 <= i < |s| :: IsIdentChar(s[i])
  }

  predicate AllSpace(s: string) { forall i | 0 <= i < |s| :: IsSpace(s[i]) }

  /** No whitespace at either end. */
  predicate Trimmed(s: string) { s == [] || (!IsSpace(s[0]) && !IsSpace(s[|s| - 1])) }

  predicate StartsWith(s: string, p: string) { |p| <= |s| && s[..|p|] == p }

  predicate EndsWith(s: string, p: string) { |p| <= |s| && s[|s| - |p|..] == p }

  // ---------------------------------------------------------------------
  // Runs of characters, each found by walking an index

  /** Index of the first non-whitespace character at or after `i`, or `|s|`. */
  function SpaceEnd(s: string, i: nat): (j: nat)
    requires i <= |s|
    ensures i <= j <= |s|
    ensures j < |s| ==> !IsSpace(s[j])
    decreases |s| - i
  {
    if i < |s| && IsSpace(s[i]) then SpaceEnd(s, i + 1) else i
  }

  /** Index just after the last non-whitespace character before `j`, or 0. */
  function SpaceStart(s: string, j: nat): (i: nat)
    requires j <= |s|
    ensures i <= j
    ensures 0 < i ==> !IsSpace(s[i - 1])
  {
    if 0 < j && IsSpace(s[j - 1]) then SpaceStart(s, j - 1) else j
  }

  /** Index of the first character at or after `i` outside `[A-Za-z0-9_]`, or `|s|`. */
  function IdentEnd(s: string, i: nat): (j: nat)
    requires i <= |s|
    ensures i <= j <= |s|
    ensures j < |s| ==> !IsIdentChar(s[j])
    decreases |s| - i
  {
    if i < |s| && IsIdentChar(s[i]) then IdentEnd(s, i + 1) else i
  }

  /** Index of the first line feed at or after `i`, or `|s|` when there is none. */
  function LineEnd(s: string, i: nat): (j: nat)
    requires i <= |s|
    ensures i <= j <= |s|
    ensures j < |s| ==> s[j] == '\n'
    decreases |s| - i
  {
    if i < |s| && s[i] != '\n' then LineEnd(s, i + 1) else i
  }

  /** Length of the whitespace run that starts `s`. */
  function LeadingSpaces(s: string): (n: nat)
    ensures n <= |s|
    ensures n < |s| ==> !IsSpace(s[n])
  {
    SpaceEnd(s, 0)
  }

  /** Length of the whitespace run that ends `s`. */
  function TrailingSpaces(s: string): (n: nat)
    ensures n <= |s|
    ensures n < |s| ==> !IsSpace(s[|s| - n - 1])
  {
    |s| - SpaceStart(s, |s|)
  }

  /** Length of the run of identifier characters that starts `s`. */
  function IdentCharRun(s: string): (n: nat)
    ensures n <= |s|
    ensures n < |s| ==> !IsIdentChar(s[n])
  {
    IdentEnd(s, 0)
  }

  /** Length of `s` up to its first line feed, the reach of the pattern `.*`. */
  function LineLength(s: string): (n: nat)
    ensures n <= |s|
    ensures n < |s| ==> s[n] == '\n'
  {
    LineEnd(s, 0)
  }

  // What each walk passes over.

  lemma {:induction false} SpaceEndSpaces(s: string, i: nat)
    requires i <= |s|
    ensures forall k | i <= k < SpaceEnd(s, i) :: IsSpace(s[k])
    decreases |s| - i
  {
    if i < |s| && IsSpace(s[i]) {
      SpaceEndSpaces(s, i + 1);
    }
  }

  lemma {:induction false} SpaceStartSpaces(s: string, j: nat)
    requires j <= |s|
    ensures forall k | SpaceStart(s, j) <= k < j :: IsSpace(s[k])
  {
    if 0 < j && IsSpace(s[j - 1]) {
      SpaceStartSpaces(s, j - 1);
    }
  }

  lemma {:induction false} IdentEndChars(s: string, i: nat)
    requires i <= |s|
    ensures forall k | i <= k < IdentEnd(s, i) :: IsIdentChar(s[k])
    decreases |s| - i
  {
    if i < |s| && IsIdentChar(s[i]) {
      IdentEndChars(s, i + 1);
    }
  }

  lemma {:induction false} LineEndNoNewline(s: string, i: nat)
    requires i <= |s|
    ensures forall k | i <= k < LineEnd(s, i) :: s[k] != '\n'
    decreases |s| - i
  {
    if i < |s| && s[i] != '\n' {
      LineEndNoNewline(s, i + 1);
    }
  }

  /** The leading run is all whitespace. */
  lemma LeadingSpacesAllSpace(s: string)
    ensures AllSpace(s[..LeadingSpaces(s)])
  {
    SpaceEndSpaces(s, 0);
    var n := LeadingSpaces(s);
    assert forall k | 0 <= k < n :: s[..n][k] == s[k];
  }

  /** The trailing run is all whitespace. */
  lemma TrailingSpacesAllSpace(s: string)
    ensures AllSpace(s[|s| - TrailingSpaces(s)..])
  {
    SpaceStartSpaces(s, |s|);
    var i := |s| - TrailingSpaces(s);
    assert forall k | 0 <= k < |s| - i :: s[i..][k] == s[i + k];
  }

  /** The identifier run is all identifier characters. */
  lemma IdentCharRunChars(s: string)
    ensures forall k | 0 <= k < IdentCharRun(s) :: IsIdentChar(s[k])
  {
    IdentEndChars(s, 0);
  }

  /** No line feed comes before the end of the first line. */
  lemma LineLengthNoNewline(s: string)
    ensures '\n' !in s[..LineLength(s)]
  {
    LineEndNoNewline(s, 0);
    var n := LineLength(s);
    assert forall k | 0 <= k < n :: s[..n][k] == s[k];
  }

  // Each walk stops at the first place it must.

  lemma {:induction false} SpaceEndOf(s: string, i: nat, j: nat)
    requires i <= j <= |s| && forall k | i <= k < j :: IsSpace(s[k])
    requires j == |s| || !IsSpace(s[j])
    ensures SpaceEnd(s, i) == j
    decreases j - i
  {
    if i < j {
      SpaceEndOf(s, i + 1, j);
    }
  }

  lemma {:induction false} SpaceEndCover(s: string, i: nat, j: nat)
    requires i <= j <= |s| && forall k | i <= k < j :: IsSpace(s[k])
    ensures SpaceEnd(s, i) >= j
    decreases j - i
  {
    if i < j {
      SpaceEndCover(s, i + 1, j);
    }
  }

  lemma {:induction false} SpaceStartOf(s: string, i: nat, j: nat)
    requires i <= j <= |s| && forall k | i <= k < j :: IsSpace(s[k])
    requires i == 0 || !IsSpace(s[i - 1])
    ensures SpaceStart(s, j) == i
    decreases j - i
  {
    if i < j {
      SpaceStartOf(s, i, j - 1);
    }
  }

  lemma {:induction false} IdentEndOf(s: string, i: nat, j: nat)
    requires i <= j <= |s| && forall k | i <= k < j :: IsIdentChar(s[k])
    requires j == |s| || !IsIdentChar(s[j])
    ensures IdentEnd(s, i) == j
    decreases j - i
  {
    if i < j {
      IdentEndOf(s, i + 1, j);
    }
  }

  lemma {:induction false} LineEndOf(s: string, i: nat, j: nat)
    requires i <= j <= |s| && forall k | i <= k < j :: s[k] != '\n'
    requires j == |s| || s[j] == '\n'
    ensures LineEnd(s, i) == j
    decreases j - i
  {
    if i < j {
      LineEndOf(s, i + 1, j);
    }
  }

  lemma LeadingSpacesOf(p: string, u: string)
    requires AllSpace(p) && (u == [] || !IsSpace(u[0]))
    ensures LeadingSpaces(p + u) == |p|
  {
    var s := p + u;
    assert forall k | 0 <= k < |p| :: s[k] == p[k];
    SpaceEndOf(s, 0, |p|);
  }

  /** Leading whitespace reaches at least as far as any all-space prefix. */
  lemma LeadingSpacesCover(p: string, u: string)
    requires AllSpace(p)
    ensures LeadingSpaces(p + u) >= |p|
  {
    var s := p + u;
    assert forall k | 0 <= k < |p| :: s[k] == p[k];
    SpaceEndCover(s, 0, |p|);
  }

  lemma TrailingSpacesOf(u: string, q: string)
    requires AllSpace(q) && (u == [] || !IsSpace(u[|u| - 1]))
    ensures TrailingSpaces(u + q) == |q|
  {
    var s := u + q;
    assert forall k | |u| <= k < |s| :: s[k] == q[k - |u|];
    SpaceStartOf(s, |u|, |s|);
  }

  lemma IdentCharRunOf(p: string, u: string)
    requires forall i | 0 <= i < |p| :: IsIdentChar(p[i])
    requires u == [] || !IsIdentChar(u[0])
    ensures IdentCharRun(p + u) == |p|
  {
    var s := p + u;
    assert forall k | 0 <= k < |p| :: s[k] == p[k];
    IdentEndOf(s, 0, |p|);
  }

  lemma LineLengthOf(v: string, rest: string)
    requires '\n' !in v && (rest == [] || rest[0] == '\n')
    ensures LineLength(v + rest) == |v|
  {
    var s := v + rest;
    assert forall k | 0 <= k < |v| :: s[k] == v[k];
    LineEndOf(s, 0, |v|);
  }

  // ---------------------------------------------------------------------
  // str.strip()

  /**
   * `s.strip()`: the part of `s` left once the whitespace around it is
   * removed; untouched inside.
   */
  function Strip(s: string): (r: string)
    ensures Trimmed(r)
  {
    var t := s[LeadingSpaces(s)..];
    t[..|t| - TrailingSpaces(t)]
  }

  /** Stripping removes only whitespace, and only at the ends. */
  lemma StripInfix(s: string)
    ensures var i := LeadingSpaces(s); var r := Strip(s);
      i + |r| <= |s| && r == s[i..i + |r|] && AllSpace(s[..i]) && AllSpace(s[i + |r|..])
  {
    var i := LeadingSpaces(s);
    var t := s[i..];
    var m := |t| - TrailingSpaces(t);
    LeadingSpacesAllSpace(s);
    TrailingSpacesAllSpace(t);
    assert Strip(s) == t[..m] == s[i..i + m];
    assert s[i + m..] == t[m..];
  }

  /** Whatever whitespace surrounds a trimmed string, stripping gives it back. */
  lemma {:induction false} StripUnique(p: string, t: string, q: string)
    requires AllSpace(p) && AllSpace(q) && Trimmed(t)
    ensures Strip(p + t + q) == t
  {
    var s := p + t + q;
    if t == [] {
      assert s == p + q;
      assert AllSpace(s) by {
        forall i | 0 <= i < |s| ensures IsSpace(s[i]) {
          if i < |p| { assert s[i] == p[i]; } else { assert s[i] == q[i - |p|]; }
        }
      }
    } else {
      assert s == p + (t + q);
      LeadingSpacesOf(p, t + q);
      var u := s[|p|..];
      assert u == t + q;
      TrailingSpacesOf(t, q);
    }
  }

  lemma StripIdempotent(s: string)
    ensures Strip(Strip(s)) == Strip(s)
  {
    var r := Strip(s);
    assert [] + r + [] == r;
    StripUnique([], r, []);
  }

  // ---------------------------------------------------------------------
  // The pattern #define\s+([A-Za-z_][A-Za-z0-9_]*)\s+(.*)

  const DEFINE: string := "#define"

  /** `\s*` taken greedily off the front: the whitespace, then the rest. */
  function SplitSpaces(s: string): (r: (string, string))
    ensures r.0 + r.1 == s && AllSpace(r.0)
    ensures r.1 == [] || !IsSpace(r.1[0])
  {
    var n := LeadingSpaces(s);
    LeadingSpacesAllSpace(s);
    assert s[..n] + s[n..] == s;
    (s[..n], s[n..])
  }

  /** `[A-Za-z0-9_]*` taken greedily off the front. */
  function SplitIdentChars(s: string): (r: (string, string))
    ensures r.0 + r.1 == s && forall i | 0 <= i < |r.0| :: IsIdentChar(r.0[i])
    ensures r.1 == [] || !IsIdentChar(r.1[0])
  {
    var n := IdentCharRun(s);
    IdentCharRunChars(s);
    assert s[..n] + s[n..] == s;
    (s[..n], s[n..])
  }

  /** `.*` taken greedily off the front: everything up to the first line feed. */
  function SplitLine(s: string): (r: (string, string))
    ensures r.0 + r.1 == s && '\n' !in r.0
    ensures r.1 == [] || r.1[0] == '\n'
  {
    var n := LineLength(s);
    LineLengthNoNewline(s);
    assert s[..n] + s[n..] == s;
    (s[..n], s[n..])
  }

  /** The greedy split is the only one with those properties. */
  lemma SplitSpacesOf(p: string, u: string)
    requires AllSpace(p) && (u == [] || !IsSpace(u[0]))
    ensures SplitSpaces(p + u) == (p, u)
  {
    LeadingSpacesOf(p, u);
    assert (p + u)[..|p|] == p && (p + u)[|p|..] == u;
  }

  lemma SplitIdentCharsOf(p: string, u: string)
    requires forall i | 0 <= i < |p| :: IsIdentChar(p[i])
    requires u == [] || !IsIdentChar(u[0])
    ensures SplitIdentChars(p + u) == (p, u)
  {
    IdentCharRunOf(p, u);
    assert (p + u)[..|p|] == p && (p + u)[|p|..] == u;
  }

  lemma SplitLineOf(v: string, rest: string)
    requires '\n' !in v && (rest == [] || rest[0] == '\n')
    ensures SplitLine(v + rest) == (v, rest)
  {
    LineLengthOf(v, rest);
    assert (v + rest)[..|v|] == v && (v + rest)[|v|..] == rest;
  }

  /** A text the pattern reads as whitespace `w1`, group 1, whitespace `w2`, group 2, then the rest. */
  function Parts(w1: string, name: string, w2: string, value: string, rest: string): string
  {
    DEFINE + w1 + name + w2 + value + rest
  }

  /** The pieces are what the pattern's parts accept. */
  predicate Grammar(w1: string, name: string, w2: string, value: string)
  {
    |w1| > 0 && AllSpace(w1) && IsIdentifier(name) && |w2| > 0 && AllSpace(w2) && '\n' !in value
  }

  /** The pieces are the ones greedy matching picks: `w2` and `value` are as long as can be. */
  predicate Greedy(value: string, rest: string)
  {
    (value + rest == [] || !IsSpace((value + rest)[0])) && (rest == [] || rest[0] == '\n')
  }

  lemma IdentNotSpace(c: char)
    ensures IsIdentChar(c) ==> !IsSpace(c)
  {
  }

  lemma Assoc<T>(a: seq<T>, b: seq<T>, c: seq<T>)
    ensures a + (b + c) == a + b + c
  {
  }

  /** Regrouping the pieces of a text. */
  lemma Regroup<T>(a: seq<T>, b: seq<T>, c: seq<T>, d: seq<T>, e: seq<T>, f: seq<T>)
    ensures a + b + c + d + e + f == a + (b + (c + (d + (e + f))))
  {
    assert e + f + [] == e + f;
    assert d + (e + f) == d + e + f;
    assert c + (d + (e + f)) == c + d + e + f;
    assert b + (c + (d + (e + f))) == b + c + d + e + f;
  }

  /** `([A-Za-z_][A-Za-z0-9_]*)`: the identifier that starts `b`, then the rest. */
  function ScanName(b: string): Option<(string, string)>
  {
    if b == [] || !IsIdentStart(b[0]) then None
    else
      var (tail, c) := SplitIdentChars(b[1..]);
      Some(([b[0]] + tail, c))
  }

  /** `\s+(.*)`: whitespace, group 2, and the rest. */
  function ScanValue(c: string): Option<(string, string, string)>
  {
    var (w2, d) := SplitSpaces(c);
    if w2 == [] then None
    else
      var (value, rest) := SplitLine(d);
      Some((w2, value, rest))
  }

  /**
   * `define_pattern.match(s)`, as the pieces it reads: whitespace, group 1,
   * whitespace, group 2, and the part of `s` after the match.
   */
  function Scan(s: string): Option<(string, string, string, string, string)>
  {
    if !StartsWith(s, DEFINE) then None
    else
      var (w1, b) := SplitSpaces(s[|DEFINE|..]);
      if w1 == [] then None
      else
        match ScanName(b)
        case None => None
        case Some((name, c)) =>
          match ScanValue(c)
          case None => None
          case Some((w2, value, rest)) => Some((w1, name, w2, value, rest))
  }

  /** `define_pattern.match(s)`: groups 1 and 2, or nothing. */
  function MatchDefine(s: string): (m: Option<(string, string)>)
    ensures m.Some? ==> StartsWith(s, DEFINE) && IsIdentifier(m.value.0) && '\n' !in m.value.1
  {
    match Scan(s)
    case None => None
    case Some((w1, name, w2, value, rest)) =>
      ScanPieces(s, w1, name, w2, value, rest);
      KeywordSplit(w1, name, w2, value, rest);
      Some((name, value))
  }

  lemma ScanNameSound(b: string)
    ensures var r := ScanName(b);
      r.Some? ==>
        r.value.0 + r.value.1 == b && IsIdentifier(r.value.0) &&
        (r.value.1 == [] || !IsIdentChar(r.value.1[0]))
  {
    if ScanName(b).Some? {
      var (tail, c) := SplitIdentChars(b[1..]);
      var name := [b[0]] + tail;
      assert forall i | 1 <= i < |name| :: name[i] == tail[i - 1];
      Assoc([b[0]], tail, c);
      assert b == [b[0]] + b[1..];
    }
  }

  lemma ScanValueSound(c: string)
    ensures var r := ScanValue(c);
      r.Some? ==>
        r.value.0 + (r.value.1 + r.value.2) == c &&
        |r.value.0| > 0 && AllSpace(r.value.0) && '\n' !in r.value.1 && Greedy(r.value.1, r.value.2)
  {
  }

  /** Every match is a reading of the text by the pattern, with greedy pieces. */
  lemma ScanSound(s: string)
    ensures Scan(s).Some? ==>
      var (w1, name, w2, value, rest) := Scan(s).value;
      Parts(w1, name, w2, value, rest) == s && Grammar(w1, name, w2, value) && Greedy(value, rest)
  {
    if Scan(s).Some? {
      var (w1, name, w2, value, rest) := Scan(s).value;
      ScanPieces(s, w1, name, w2, value, rest);
    }
  }

  lemma ScanPieces(s: string, w1: string, name: string, w2: string, value: string, rest: string)
    requires Scan(s) == Some((w1, name, w2, value, rest))
    ensures Parts(w1, name, w2, value, rest) == s && Grammar(w1, name, w2, value) && Greedy(value, rest)
  {
    var b := SplitSpaces(s[|DEFINE|..]).1;
    var c := ScanName(b).value.1;
    ScanNameSound(b);
    ScanValueSound(c);
    assert s[|DEFINE|..] == w1 + b;
    assert b == name + c;
    assert s == DEFINE + (w1 + (name + (w2 + (value + rest))));
    Regroup(DEFINE, w1, name, w2, value, rest);
  }

  /** Groups 1 and 2 come from a greedy reading of the text by the pattern. */
  lemma MatchDefineSound(s: string)
    ensures var m := MatchDefine(s);
      m.Some? ==>
        exists w1, w2, rest ::
          Parts(w1, m.value.0, w2, m.value.1, rest) == s &&
          Grammar(w1, m.value.0, w2, m.value.1) && Greedy(m.value.1, rest)
  {
    ScanSound(s);
  }

  lemma ScanNameOf(name: string, c: string)
    requires IsIdentifier(name) && (c == [] || !IsIdentChar(c[0]))
    ensures ScanName(name + c) == Some((name, c))
  {
    var b := name + c;
    assert b[0] == name[0];
    assert b[1..] == name[1..] + c;
    assert forall i | 0 <= i < |name| - 1 :: name[1..][i] == name[i + 1];
    SplitIdentCharsOf(name[1..], c);
    assert [b[0]] + name[1..] == name;
  }

  lemma ScanValueOf(w2: string, value: string, rest: string)
    requires |w2| > 0 && AllSpace(w2) && '\n' !in value
    ensures ScanValue(w2 + (value + rest)).Some?
    ensures Greedy(value, rest) ==> ScanValue(w2 + (value + rest)) == Some((w2, value, rest))
  {
    LeadingSpacesCover(w2, value + rest);
    if Greedy(value, rest) {
      SplitSpacesOf(w2, value + rest);
      SplitLineOf(value, rest);
    }
  }

  /**
   * Every reading of a text by the pattern makes it match, with that name;
   * with greedy pieces, also with that value.
   */
  lemma MatchDefineComplete(w1: string, name: string, w2: string, value: string, rest: string)
    requires Grammar(w1, name, w2, value)
    ensures var m := MatchDefine(Parts(w1, name, w2, value, rest));
      m.Some? && m.value.0 == name && (Greedy(value, rest) ==> m.value.1 == value)
  {
    KeywordSplit(w1, name, w2, value, rest);
    MatchDefineAt(Parts(w1, name, w2, value, rest), w1, name, w2, value, rest);
  }

  lemma MatchDefineAt(s: string, w1: string, name: string, w2: string, value: string, rest: string)
    requires StartsWith(s, DEFINE) && s[|DEFINE|..] == w1 + (name + (w2 + (value + rest)))
    requires Grammar(w1, name, w2, value)
    ensures var m := MatchDefine(s);
      m.Some? && m.value.0 == name && (Greedy(value, rest) ==> m.value.1 == value)
  {
    AfterKeywordOf(w1, name, w2 + (value + rest));
    ScanValueOf(w2, value, rest);
  }

  /** After the keyword: the first whitespace run, then the name. */
  lemma AfterKeywordOf(w1: string, name: string, x: string)
    requires |w1| > 0 && AllSpace(w1) && IsIdentifier(name) && x != [] && IsSpace(x[0])
    ensures SplitSpaces(w1 + (name + x)) == (w1, name + x)
    ensures ScanName(name + x) == Some((name, x))
  {
    assert name[0] == (name + x)[0];
    SplitSpacesOf(w1, name + x);
    IdentNotSpace(x[0]);
    ScanNameOf(name, x);
  }

  /** The keyword, then everything after it. */
  lemma KeywordSplit(w1: string, name: string, w2: string, value: string, rest: string)
    ensures var s := Parts(w1, name, w2, value, rest);
      s[..|DEFINE|] == DEFINE && s[|DEFINE|..] == w1 + (name + (w2 + (value + rest)))
  {
    Regroup(DEFINE, w1, name, w2, value, rest);
  }

  lemma IdentifierNoNewline(name: string)
    requires IsIdentifier(name)
    ensures '\n' !in name
  {
    assert forall k | 0 <= k < |name| :: IsIdentChar(name[k]);
  }

  lemma NotInAppend<T>(a: seq<T>, b: seq<T>, x: T)
    requires x !in a && x !in b
    ensures x !in a + b
  {
  }

  lemma HeadNoNewline(name: string)
    requires '\n' !in name
    ensures '\n' !in "%define " + name + " "
  {
    NotInAppend("%define ", name, '\n');
    NotInAppend("%define " + name, " ", '\n');
  }

  lemma NotInSlice<T>(s: seq<T>, x: T, i: nat, j: nat)
    requires x !in s && i <= j <= |s|
    ensures x !in s[i..j]
  {
    assert forall k | 0 <= k < j - i :: s[i..j][k] == s[i + k];
  }

  // ---------------------------------------------------------------------
  // One line

  /** `value[1:-1].strip()` once, when the value is wrapped in parentheses. */
  function StripParens(value: string): (r: string)
    ensures |r| <= |value|
    ensures !(StartsWith(value, "(") && EndsWith(value, ")")) ==> r == value
    ensures StartsWith(value, "(") && EndsWith(value, ")") ==> |r| <= |value| - 2 && Trimmed(r)
  {
    if StartsWith(value, "(") && EndsWith(value, ")") then
      assert value[0] == '(' && value[|value| - 1] == ')';
      Strip(value[1..|value| - 1])
    else value
  }

  /** Exactly one pair of parentheses comes off a trimmed wrapped value. */
  lemma StripParensPeel(u: string)
    requires Trimmed(u)
    ensures StripParens("(" + u + ")") == u
  {
    var v := "(" + u + ")";
    assert v[..1] == "(" && v[|v| - 1..] == ")";
    assert v[1..|v| - 1] == [] + u + [];
    StripUnique([], u, []);
  }

  /**
   * The inside of a wrapped value is stripped again: whatever whitespace
   * surrounds it within the parentheses is dropped.
   */
  lemma StripParensTrims(p: string, u: string, q: string)
    requires AllSpace(p) && AllSpace(q) && Trimmed(u)
    ensures StripParens("(" + p + u + q + ")") == u
  {
    var v := "(" + p + u + q + ")";
    assert v[..1] == "(" && v[|v| - 1..] == ")";
    assert v[1..|v| - 1] == p + u + q;
    StripUnique(p, u, q);
  }

  /** `( 1 )` becomes `1`. */
  lemma SpacedParensExample()
    ensures StripParens("( 1 )") == "1"
  {
    assert "( 1 )" == "(" + " " + "1" + " " + ")";
    StripParensTrims(" ", "1", " ");
  }

  /** A value not both opened and closed by a parenthesis passes unchanged. */
  lemma StripParensKeeps(value: string)
    requires !(StartsWith(value, "(") && EndsWith(value, ")"))
    ensures StripParens(value) == value
  {
  }

  /** Stripping and unwrapping only ever remove characters from the ends. */
  lemma StripParensNoNewline(raw: string)
    requires '\n' !in raw
    ensures '\n' !in StripParens(Strip(raw))
  {
    var r := Strip(raw);
    StripNoNewline(raw);
    if StartsWith(r, "(") && EndsWith(r, ")") {
      NotInSlice(r, '\n', 1, |r| - 1);
      StripNoNewline(r[1..|r| - 1]);
    }
  }

  lemma StripNoNewline(s: string)
    requires '\n' !in s
    ensures '\n' !in Strip(s)
  {
    StripInfix(s);
    var i := LeadingSpaces(s);
    NotInSlice(s, '\n', i, i + |Strip(s)|);
  }

  /** Blank lines, and lines opening a line comment or a block comment. */
  predicate IsSkipped(stripped: string)
  {
    stripped == [] || StartsWith(stripped, "//") || StartsWith(stripped, "/*")
  }

  /** The output line for a line already stripped, if it produces one. */
  function TransformStripped(stripped: string): Option<string>
  {
    if IsSkipped(stripped) then None
    else
      match MatchDefine(stripped)
      case None => None
      case Some((name, raw)) => Some("%define " + name + " " + StripParens(Strip(raw)))
  }

  /** The output line for one input line, if it produces one. */
  function TransformLine(line: string): Option<string>
  {
    TransformStripped(Strip(line))
  }

  /** Blank and comment lines give nothing. */
  lemma SkippedGiveNothing(line: string)
    requires IsSkipped(Strip(line))
    ensures TransformLine(line) == None
  {
  }

  /** A directive is never mistaken for a comment. */
  lemma DirectiveNotSkipped(t: string)
    requires StartsWith(t, DEFINE)
    ensures !IsSkipped(t)
  {
    assert t[0] == t[..|DEFINE|][0] == '#';
    assert t[..2][0] == t[0];
  }

  /**
   * A line that reads as `#define NAME VALUE` once stripped gives
   * `%define NAME VALUE'`, VALUE' being VALUE stripped and unwrapped.
   */
  lemma DefineLine(line: string, w1: string, name: string, w2: string, value: string, rest: string)
    requires Strip(line) == Parts(w1, name, w2, value, rest)
    requires Grammar(w1, name, w2, value) && Greedy(value, rest)
    ensures TransformLine(line) == Some("%define " + name + " " + StripParens(Strip(value)))
  {
    var t := Parts(w1, name, w2, value, rest);
    assert TransformStripped(t) == Some("%define " + name + " " + StripParens(Strip(value))) by {
      MatchDefineComplete(w1, name, w2, value, rest);
      DirectiveNotSkipped(t);
    }
  }

  lemma TransformStrippedCharacterized(t: string)
    ensures TransformStripped(t).Some? <==> MatchDefine(t).Some?
    ensures TransformStripped(t).Some? ==>
      var o := TransformStripped(t).value;
      StartsWith(o, "%define " + MatchDefine(t).value.0 + " ") && '\n' !in o
  {
    if MatchDefine(t).Some? {
      assert StartsWith(t, DEFINE);
      DirectiveNotSkipped(t);
      ScanSound(t);
      var (name, value) := MatchDefine(t).value;
      OutputLineShape(name, value);
    }
  }

  /** An output line starts with `%define ` and the name, and has no line feed. */
  lemma OutputLineShape(name: string, raw: string)
    requires IsIdentifier(name) && '\n' !in raw
    ensures var head := "%define " + name + " "; var o := head + StripParens(Strip(raw));
      StartsWith(o, head) && '\n' !in o
  {
    var head := "%define " + name + " ";
    var tail := StripParens(Strip(raw));
    assert (head + tail)[..|head|] == head;
    IdentifierNoNewline(name);
    HeadNoNewline(name);
    StripParensNoNewline(raw);
    NotInAppend(head, tail, '\n');
  }

  /**
   * A line gives an output line exactly when, once stripped, the pattern
   * matches it; the output starts with `%define ` and the name, and holds no
   * line feed.
   */
  lemma TransformLineCharacterized(line: string)
    ensures TransformLine(line).Some? <==> MatchDefine(Strip(line)).Some?
    ensures TransformLine(line).Some? ==>
      var o := TransformLine(line).value;
      StartsWith(o, "%define " + MatchDefine(Strip(line)).value.0 + " ") && '\n' !in o
  {
    TransformStrippedCharacterized(Strip(line));
  }

  // ---------------------------------------------------------------------
  // The whole header

  function Emitted(line: string): seq<string>
  {
    match TransformLine(line)
    case None => []
    case Some(o) => [o]
  }

  /** The output lines for `lines`, in input order. */
  function Converted(lines: seq<string>): (out: seq<string>)
    ensures |out| <= |lines|
  {
    if lines == [] then []
    else Converted(lines[..|lines| - 1]) + Emitted(lines[|lines| - 1])
  }

  /** The conversion works line by line: output follows input order. */
  lemma {:induction false} ConvertedAppend(a: seq<string>, b: seq<string>)
    ensures Converted(a + b) == Converted(a) + Converted(b)
    decreases |b|
  {
    if b == [] {
      assert a + b == a;
    } else {
      var b' := b[..|b| - 1];
      var last := Emitted(b[|b| - 1]);
      assert (a + b)[..|a + b| - 1] == a + b' && (a + b)[|a + b| - 1] == b[|b| - 1];
      assert Converted(a + b) == Converted(a + b') + last;
      assert Converted(b) == Converted(b') + last;
      ConvertedAppend(a, b');
      Assoc(Converted(a), Converted(b'), last);
    }
  }

  lemma ConvertedSingle(line: string)
    ensures Converted([line]) == Emitted(line)
  {
    assert [line][..0] == [];
  }

  /** The loop over the lines of the header. */
  method ConvertLines(lines: seq<string>) returns (out: seq<string>)
    ensures out == Converted(lines)
  {
    out := [];
    var i := 0;
    while i < |lines|
      invariant 0 <= i <= |lines|
      invariant out == Converted(lines[..i])
    {
      var o := TransformLine(lines[i]);
      assert Converted(lines[..i + 1]) == Converted(lines[..i]) + Emitted(lines[i]) by {
        assert lines[..i + 1][..i] == lines[..i];
      }
      assert Emitted(lines[i]) == if o.Some? then [o.value] else [];
      if o.Some? {
        out := out + [o.value];
      }
      i := i + 1;
    }
    assert lines[..|lines|] == lines;
  }

  // ---------------------------------------------------------------------
  // Reading and writing text

  /**
   * Universal-newline reading: `\r\n` and a lone `\r` each become `\n`.
   */
  function TranslateNewlines(s: string): (r: string)
    ensures '\r' !in r
  {
    if s == [] then []
    else if s[0] == '\r' then
      if |s| > 1 && s[1] == '\n' then "\n" + TranslateNewlines(s[2..])
      else "\n" + TranslateNewlines(s[1..])
    else [s[0]] + TranslateNewlines(s[1..])
  }

  /** Text without carriage returns reads as it is, whatever follows it. */
  lemma {:induction false} TranslateNewlinesPrefix(p: string, q: string)
    requires '\r' !in p
    ensures TranslateNewlines(p + q) == p + TranslateNewlines(q)
  {
    if p != [] {
      assert (p + q)[1..] == p[1..] + q;
      assert '\r' !in p[1..] by { assert forall k | 0 <= k < |p| - 1 :: p[1..][k] == p[k + 1]; }
      TranslateNewlinesPrefix(p[1..], q);
      assert (p + q)[0] == p[0] && p[0] in p;
      assert TranslateNewlines(p + q) == [p[0]] + TranslateNewlines(p[1..] + q);
      assert p == [p[0]] + p[1..];
      Assoc([p[0]], p[1..], TranslateNewlines(q));
    } else {
      assert p + q == q;
    }
  }

  /** A `\r\n` pair becomes one line feed. */
  lemma TranslateCrLf(p: string, q: string)
    requires '\r' !in p
    ensures TranslateNewlines(p + "\r\n" + q) == p + "\n" + TranslateNewlines(q)
  {
    var t := "\r\n" + q;
    assert p + "\r\n" + q == p + t;
    TranslateNewlinesPrefix(p, t);
    assert t[2..] == q;
  }

  /** A carriage return not followed by a line feed becomes one line feed. */
  lemma TranslateLoneCr(p: string, q: string)
    requires '\r' !in p && (q == [] || q[0] != '\n')
    ensures TranslateNewlines(p + "\r" + q) == p + "\n" + TranslateNewlines(q)
  {
    var t := "\r" + q;
    assert p + "\r" + q == p + t;
    TranslateNewlinesPrefix(p, t);
    assert t[1..] == q;
  }

  /** Text without carriage returns reads as it is. */
  lemma {:induction false} TranslateNewlinesPlain(s: string)
    requires '\r' !in s
    ensures TranslateNewlines(s) == s
  {
    if s != [] {
      assert '\r' !in s[1..] by { assert forall k | 0 <= k < |s| - 1 :: s[1..][k] == s[k + 1]; }
      TranslateNewlinesPlain(s[1..]);
    }
  }

  /** `readlines()`: each line keeps its `\n`; only the last may lack one. */
  function SplitLines(s: string): (lines: seq<string>)
    decreases |s|
  {
    if s == [] then []
    else
      var n := LineLength(s);
      if n == |s| then [s] else [s[..n + 1]] + SplitLines(s[n + 1..])
  }

  /** A line as `readlines()` gives it: not empty, a line feed at most at its end. */
  predicate IsLine(l: string)
  {
    l != [] && '\n' !in l[..|l| - 1]
  }

  /** Splitting loses nothing. */
  lemma {:induction false} SplitLinesConcat(s: string)
    ensures Packed.Concat(SplitLines(s)) == s
    decreases |s|
  {
    if s != [] {
      var n := LineLength(s);
      if n == |s| {
        ConcatCons(s, []);
      } else {
        SplitLinesStep(s, n);
        SplitLinesConcat(s[n + 1..]);
        ConcatCons(s[..n + 1], SplitLines(s[n + 1..]));
        Packed.SliceJoin(s, n + 1, |s|);
      }
    }
  }

  /** One step of the split, when a line feed ends the first line. */
  lemma SplitLinesStep(s: string, n: nat)
    requires s != [] && n == LineLength(s) && n < |s|
    ensures SplitLines(s) == [s[..n + 1]] + SplitLines(s[n + 1..])
  {
  }

  lemma ConcatCons(l: string, tail: seq<string>)
    ensures Packed.Concat([l] + tail) == l + Packed.Concat(tail)
  {
    Packed.ConcatAppend([l], tail);
    assert [l][..0] == [];
  }

  /** Every piece is a line, and every piece but the last ends with `\n`. */
  predicate LinesShaped(lines: seq<string>)
  {
    (forall k | 0 <= k < |lines| :: IsLine(lines[k])) &&
    (forall k | 0 <= k < |lines| - 1 :: EndsWith(lines[k], "\n"))
  }

  /** What `readlines()` gives has that shape. */
  lemma {:induction false} SplitLinesShape(s: string)
    ensures LinesShaped(SplitLines(s))
    decreases |s|
  {
    if s != [] {
      var n := LineLength(s);
      FirstLineShape(s);
      if n < |s| {
        SplitLinesStep(s, n);
        SplitLinesShape(s[n + 1..]);
        ShapedCons(s[..n + 1], SplitLines(s[n + 1..]));
      } else {
        assert SplitLines(s) == [s];
      }
    }
  }

  /** The first piece is a line; one cut before the end ends with `\n`. */
  lemma FirstLineShape(s: string)
    requires s != []
    ensures var n := LineLength(s);
      if n < |s| then IsLine(s[..n + 1]) && EndsWith(s[..n + 1], "\n") else IsLine(s)
  {
    var n := LineLength(s);
    LineLengthNoNewline(s);
    if n < |s| {
      var l := s[..n + 1];
      assert l[..|l| - 1] == s[..n];
      assert l[|l| - 1..] == [s[n]];
    } else {
      assert s[..|s| - 1] == s[..n][..|s| - 1];
    }
  }

  lemma ShapedCons(l: string, tail: seq<string>)
    requires IsLine(l) && EndsWith(l, "\n") && LinesShaped(tail)
    ensures LinesShaped([l] + tail)
  {
    var lines := [l] + tail;
    forall k | 1 <= k < |lines|
      ensures IsLine(lines[k]) && (k < |lines| - 1 ==> EndsWith(lines[k], "\n"))
    {
      assert lines[k] == tail[k - 1];
    }
  }

  /** A line ended by `\n` is read back on its own. */
  lemma SplitLinesCons(l: string, rest: string)
    requires l != [] && '\n' !in l[..|l| - 1] && l[|l| - 1] == '\n'
    ensures SplitLines(l + rest) == [l] + SplitLines(rest)
  {
    var s := l + rest;
    assert s[..|l| - 1] == l[..|l| - 1];
    LineLengthOf(l[..|l| - 1], s[|l| - 1..]);
    assert s == s[..|l| - 1] + s[|l| - 1..];
    assert s[..|l|] == l;
    assert s[|l|..] == rest;
  }

  const HEADER: string := "; Auto-generated from C header\n"

  /** Each output line followed by `\n`. */
  function Joined(outLines: seq<string>): string
  {
    if outLines == [] then [] else outLines[0] + "\n" + Joined(outLines[1..])
  }

  lemma {:induction false} JoinedSnoc(outLines: seq<string>, l: string)
    ensures Joined(outLines + [l]) == Joined(outLines) + l + "\n"
  {
    if outLines == [] {
      assert ([] + [l])[1..] == [];
    } else {
      assert (outLines + [l])[1..] == outLines[1..] + [l];
      JoinedSnoc(outLines[1..], l);
    }
  }

  /** The text written to the output file. */
  function Content(outLines: seq<string>): string
  {
    HEADER + Joined(outLines)
  }

  /** The writing loop. */
  method Render(outLines: seq<string>) returns (text: string)
    ensures text == Content(outLines)
  {
    text := HEADER;
    var i := 0;
    while i < |outLines|
      invariant 0 <= i <= |outLines|
      invariant text == HEADER + Joined(outLines[..i])
    {
      JoinedSnoc(outLines[..i], outLines[i]);
      assert outLines[..i + 1] == outLines[..i] + [outLines[i]];
      text := text + outLines[i] + "\n";
      i := i + 1;
    }
    assert outLines[..|outLines|] == outLines;
  }

  /** Output lines free of line feeds, each with its `\n`. */
  function Terminated(outLines: seq<string>): seq<string>
  {
    seq(|outLines|, i requires 0 <= i < |outLines| => outLines[i] + "\n")
  }

  /** The written file reads back as the header line and then each output line. */
  lemma {:induction false} JoinedReadBack(outLines: seq<string>)
    requires forall k | 0 <= k < |outLines| :: '\n' !in outLines[k]
    ensures SplitLines(Joined(outLines)) == Terminated(outLines)
  {
    if outLines != [] {
      var l := outLines[0] + "\n";
      assert l[..|l| - 1] == outLines[0];
      SplitLinesCons(l, Joined(outLines[1..]));
      assert Joined(outLines) == l + Joined(outLines[1..]);
      JoinedReadBack(outLines[1..]);
      assert Terminated(outLines) == [l] + Terminated(outLines[1..]);
    } else {
      assert SplitLines([]) == [];
    }
  }

  lemma ContentReadBack(outLines: seq<string>)
    requires forall k | 0 <= k < |outLines| :: '\n' !in outLines[k]
    ensures SplitLines(Content(outLines)) == [HEADER] + Terminated(outLines)
  {
    assert HEADER[..|HEADER| - 1] == "; Auto-generated from C header";
    SplitLinesCons(HEADER, Joined(outLines));
    JoinedReadBack(outLines);
  }

  // ---------------------------------------------------------------------
  // File names and the command line

  /** Index of the last `c` in `s` before `j`, or -1. */
  function LastBefore(s: string, c: char, j: nat): (i: int)
    requires j <= |s|
    ensures -1 <= i < j && (i >= 0 ==> s[i] == c)
  {
    if j == 0 then -1
    else if s[j - 1] == c then j - 1
    else LastBefore(s, c, j - 1)
  }

  /** `s.rfind(c)`: index of the last `c` in `s`, or -1. */
  function RFind(s: string, c: char): (i: int)
    ensures -1 <= i < |s| && (i >= 0 ==> s[i] == c)
  {
    LastBefore(s, c, |s|)
  }

  lemma {:induction false} LastBeforeLast(s: string, c: char, j: nat)
    requires j <= |s|
    ensures forall k | LastBefore(s, c, j) < k < j :: s[k] != c
  {
    if j > 0 && s[j - 1] != c {
      LastBeforeLast(s, c, j - 1);
    }
  }

  lemma {:induction false} LastBeforeOf(s: string, c: char, j: nat, i: int)
    requires -1 <= i < j <= |s| && (i >= 0 ==> s[i] == c)
    requires forall k | i < k < j :: s[k] != c
    ensures LastBefore(s, c, j) == i
  {
    if i < j - 1 {
      LastBeforeOf(s, c, j - 1, i);
    }
  }

  /** No `c` comes after the one found. */
  lemma RFindLast(s: string, c: char)
    ensures forall k | RFind(s, c) < k < |s| :: s[k] != c
  {
    LastBeforeLast(s, c, |s|);
  }

  /** The last `c` is the only index with no `c` after it. */
  lemma RFindOf(s: string, c: char, i: int)
    requires -1 <= i < |s| && (i >= 0 ==> s[i] == c)
    requires forall k | i < k < |s| :: s[k] != c
    ensures RFind(s, c) == i
  {
    LastBeforeOf(s, c, |s|, i);
  }

  /**
   * `posixpath.splitext`: the extension is from the last `.` of the last
   * path component, provided something other than dots comes before it in
   * that component.
   */
  function SplitExt(p: string): (r: (string, string))
    ensures r.0 + r.1 == p
    ensures r.1 == [] || (r.1[0] == '.' && '/' !in r.1 && '.' !in r.1[1..])
    ensures r.1 != [] <==>
      RFind(p, '.') > RFind(p, '/') && exists k | RFind(p, '/') < k < RFind(p, '.') :: p[k] != '.'
    ensures r.1 != [] ==> |r.0| == RFind(p, '.')
  {
    var sepIndex := RFind(p, '/');
    var dotIndex := RFind(p, '.');
    RFindLast(p, '/');
    RFindLast(p, '.');
    if dotIndex > sepIndex && exists k | sepIndex + 1 <= k < dotIndex :: p[k] != '.' then
      var ext := p[dotIndex..];
      assert forall k | 0 <= k < |ext| :: ext[k] == p[dotIndex + k];
      (p[..dotIndex], ext)
    else (p, [])
  }

  /** `str.lower()` on ASCII letters. */
  function AsciiLower(s: string): (r: string)
    ensures |r| == |s|
    ensures forall i | 0 <= i < |s| :: 'A' <= s[i] <= 'Z' ==> 'a' <= r[i] <= 'z' && r[i] as int - s[i] as int == 32
    ensures forall i | 0 <= i < |s| :: !('A' <= s[i] <= 'Z') ==> r[i] == s[i]
    ensures forall i | 0 <= i < |r| :: !('A' <= r[i] <= 'Z')
  {
    seq(|s|, i requires 0 <= i < |s| => if 'A' <= s[i] <= 'Z' then (s[i] as int + 32) as char else s[i])
  }

  predicate IsHeaderExtension(ext: string)
  {
    AsciiLower(ext) == ".h" || AsciiLower(ext) == ".hpp"
  }

  /** The output name when none is given: `.h`/`.hpp` replaced, else `.inc` appended. */
  function DefaultOutputName(input: string): (r: string)
    ensures EndsWith(r, ".inc")
  {
    var (base, ext) := SplitExt(input);
    var r := if IsHeaderExtension(ext) then base + ".inc" else input + ".inc";
    assert r[|r| - 4..] == ".inc";
    r
  }

  /** The last path component of `stem` has a character that is not a dot. */
  predicate HasStemChar(stem: string)
  {
    exists k | RFind(stem, '/') < k < |stem| :: stem[k] != '.'
  }

  lemma RFindAppend(p: string, q: string, c: char)
    ensures RFind(p + q, c) == if RFind(q, c) >= 0 then |p| + RFind(q, c) else RFind(p, c)
  {
    var s := p + q;
    RFindLast(p, c);
    RFindLast(q, c);
    assert forall k | |p| <= k < |s| :: s[k] == q[k - |p|];
    assert forall k | 0 <= k < |p| :: s[k] == p[k];
    RFindOf(s, c, if RFind(q, c) >= 0 then |p| + RFind(q, c) else RFind(p, c));
  }

  /**
   * A header name `stem + ext`, with `ext` a `.h`/`.hpp` in any case and a
   * stem whose last component is not all dots, becomes `stem + ".inc"`.
   */
  lemma HeaderNameReplaced(stem: string, ext: string)
    requires IsHeaderExtension(ext) && HasStemChar(stem)
    ensures DefaultOutputName(stem + ext) == stem + ".inc"
  {
    var p := stem + ext;
    HeaderExtShape(ext);
    RFindAppend(stem, ext, '.');
    RFindAppend(stem, ext, '/');
    var k :| RFind(stem, '/') < k < |stem| && stem[k] != '.';
    assert p[k] == stem[k];
    var r := SplitExt(p);
    assert |r.0| == |stem|;
    assert r.0 == p[..|stem|] == stem;
  }

  /** A `.h`/`.hpp` extension, in any case, is one `.` followed by letters. */
  lemma HeaderExtShape(ext: string)
    requires IsHeaderExtension(ext)
    ensures RFind(ext, '.') == 0 && RFind(ext, '/') == -1
  {
    var lower := AsciiLower(ext);
    assert ext[0] == '.' by { assert lower[0] == '.'; }
    forall k | 0 <= k < |ext| ensures ext[k] != '/' && (k > 0 ==> ext[k] != '.') {
      assert k > 0 ==> lower[k] == 'h' || lower[k] == 'p';
    }
    RFindOf(ext, '.', 0);
    RFindOf(ext, '/', -1);
  }

  /** Any other name gets `.inc` appended. */
  lemma OtherNameExtended(input: string)
    requires !IsHeaderExtension(SplitExt(input).1)
    ensures DefaultOutputName(input) == input + ".inc"
  {
  }

  /** What running the script produces. */
  datatype Outcome =
    | Usage(message: string)
    | Wrote(outputFile: string, text: string)

  /** The output path: the second argument if given, else derived from the input path. */
  function OutputName(argv: seq<string>): (r: string)
    requires |argv| >= 2
    ensures |argv| >= 3 ==> r == argv[2]
    ensures |argv| == 2 ==> r == DefaultOutputName(argv[1])
  {
    if |argv| >= 3 then argv[2] else DefaultOutputName(argv[1])
  }

  /** The whole conversion of a header's text. */
  function Convert(headerText: string): string
  {
    Content(Converted(SplitLines(TranslateNewlines(headerText))))
  }

  /**
   * The converted file reads back as the header comment followed by one
   * line per `#define` of the input, in order.
   */
  lemma ConvertReadBack(headerText: string)
    ensures var lines := SplitLines(TranslateNewlines(headerText));
      SplitLines(Convert(headerText)) == [HEADER] + Terminated(Converted(lines))
  {
    var lines := SplitLines(TranslateNewlines(headerText));
    var out := Converted(lines);
    ConvertedNoNewline(lines);
    ContentReadBack(out);
  }

  lemma {:induction false} ConvertedNoNewline(lines: seq<string>)
    ensures forall k | 0 <= k < |Converted(lines)| :: '\n' !in Converted(lines)[k]
  {
    if lines != [] {
      ConvertedNoNewline(lines[..|lines| - 1]);
      TransformLineCharacterized(lines[|lines| - 1]);
    }
  }

  /**
   * The script, given its argument vector and the text of the file named by
   * its first argument.
   */
  method Run(argv: seq<string>, headerText: string) returns (outcome: Outcome)
    requires |argv| >= 1
    ensures |argv| < 2 ==> outcome == Usage("Usage: " + argv[0] + " <input.h> [output.inc]")
    ensures |argv| >= 2 ==> outcome == Wrote(OutputName(argv), Convert(headerText))
  {
    if |argv| < 2 {
      return Usage("Usage: " + argv[0] + " <input.h> [output.inc]");
    }
    var outputFile := OutputName(argv);
    var lines := SplitLines(TranslateNewlines(headerText));
    var outLines := ConvertLines(lines);
    var text := Render(outLines);
    outcome := Wrote(outputFile, text);
  }

  // ---------------------------------------------------------------------
  // Examples

  /** The line `#define NAME VALUE` as a header spells it, with its line feed. */
  function DefineSource(name: string, value: string): string
  {
    "#define " + name + " " + value + "\n"
  }

  lemma DefineSourceParts(name: string, value: string)
    ensures DefineSource(name, value) == [] + Parts(" ", name, " ", value, "") + "\n"
  {
    assert DEFINE + " " == "#define ";
    assert value + "" == value;
  }

  lemma EndsOf(a: string, b: string)
    requires b != []
    ensures (a + b)[|a + b| - 1] == b[|b| - 1]
    ensures a != [] ==> (a + b)[0] == a[0]
  {
  }

  /**
   * `#define NAME VALUE` with a single space on each side, VALUE not wrapped
   * in parentheses, becomes `%define NAME VALUE`.
   */
  lemma PlainDefine(name: string, value: string)
    requires IsIdentifier(name) && value != [] && Trimmed(value) && '\n' !in value
    requires !(StartsWith(value, "(") && EndsWith(value, ")"))
    ensures TransformLine(DefineSource(name, value)) == Some("%define " + name + " " + value)
  {
    SpacedDefine(name, value);
    PlainValue(value);
  }

  lemma PlainValue(value: string)
    requires Trimmed(value) && !(StartsWith(value, "(") && EndsWith(value, ")"))
    ensures StripParens(Strip(value)) == value
  {
    assert [] + value + [] == value;
    StripUnique([], value, []);
  }

  /** A trimmed value after a single space: the line reads with exactly that value. */
  lemma SpacedDefine(name: string, value: string)
    requires IsIdentifier(name) && value != [] && Trimmed(value) && '\n' !in value
    ensures TransformLine(DefineSource(name, value)) == Some("%define " + name + " " + StripParens(Strip(value)))
  {
    DefineSourceStrip(name, value);
    assert Greedy(value, "") by { assert value + "" == value; }
    DefineLine(DefineSource(name, value), " ", name, " ", value, "");
  }

  lemma DefineSourceStrip(name: string, value: string)
    requires IsIdentifier(name) && value != [] && Trimmed(value)
    ensures Strip(DefineSource(name, value)) == Parts(" ", name, " ", value, "")
  {
    var t := Parts(" ", name, " ", value, "");
    DefineSourceParts(name, value);
    assert Trimmed(t) by {
      assert t == DEFINE + " " + name + " " + value + "";
      assert value + "" == value;
      EndsOf(DEFINE + " " + name + " ", value);
    }
    StripUnique([], t, "\n");
  }

  /** `#define NAME (VALUE)` loses the one pair of parentheses: `%define NAME VALUE`. */
  lemma WrappedDefine(name: string, inner: string)
    requires IsIdentifier(name) && Trimmed(inner) && '\n' !in inner
    ensures TransformLine(DefineSource(name, "(" + inner + ")")) == Some("%define " + name + " " + inner)
  {
    WrappedValue(inner);
    SpacedDefine(name, "(" + inner + ")");
  }

  lemma WrappedValue(inner: string)
    requires Trimmed(inner) && '\n' !in inner
    ensures var value := "(" + inner + ")";
      value != [] && Trimmed(value) && '\n' !in value && StripParens(Strip(value)) == inner
  {
    var value := "(" + inner + ")";
    NotInAppend("(", inner, '\n');
    NotInAppend("(" + inner, ")", '\n');
    EndsOf("(" + inner, ")");
    assert [] + value + [] == value;
    StripUnique([], value, []);
    StripParensPeel(inner);
  }

  /**
   * The header's `X_OFFSET (X_INDEX * 8) | 0` lines keep their whole value:
   * the parentheses do not wrap all of it.
   */
  lemma OffsetMacroKeptWhole(name: string, index: string)
    requires IsIdentifier(name) && IsIdentifier(index)
    ensures var value := "(" + index + " * 8) | 0";
      TransformLine(DefineSource(name, value)) == Some("%define " + name + " " + value)
  {
    var value := "(" + index + " * 8) | 0";
    IdentifierNoNewline(index);
    NotInAppend("(", index, '\n');
    NotInAppend("(" + index, " * 8) | 0", '\n');
    EndsOf("(" + index, " * 8) | 0");
    assert !EndsWith(value, ")");
    PlainDefine(name, value);
  }

  /** `((x))` loses one pair only. */
  lemma OnePairOnly(inner: string)
    requires Trimmed(inner)
    ensures StripParens("((" + inner + "))") == "(" + inner + ")"
  {
    var u := "(" + inner + ")";
    assert "((" + inner + "))" == "(" + u + ")";
    EndsOf("(" + inner, ")");
    StripParensPeel(u);
  }

  /** `#define NAME` with no value does not match: nothing follows the name. */
  lemma NoValueDropped(w: string, name: string)
    requires |w| > 0 && AllSpace(w) && IsIdentifier(name)
    ensures TransformStripped(DEFINE + w + name) == None
  {
    var s := DEFINE + w + name;
    assert s[..|DEFINE|] == DEFINE && s[|DEFINE|..] == w + name;
    assert SplitSpaces(w + name) == (w, name) by {
      IdentNotSpace(name[0]);
      SplitSpacesOf(w, name);
    }
    assert ScanName(name) == Some((name, [])) by {
      assert name + [] == name;
      ScanNameOf(name, []);
    }
    assert ScanValue([]) == None by {
      SplitSpacesOf([], []);
    }
    TransformStrippedCharacterized(s);
  }

  /** A line that does not start with `#define` once stripped gives nothing. */
  lemma NonDirectiveDropped(line: string)
    requires !StartsWith(Strip(line), DEFINE)
    ensures TransformLine(line) == None
  {
    TransformStrippedCharacterized(Strip(line));
  }

  /** An `#include` line is one of them. */
  lemma IncludeDropped(line: string, rest: string)
    requires Strip(line) == "#include" + rest
    ensures TransformLine(line) == None
  {
    assert Strip(line)[1] == 'i';
    NonDirectiveDropped(line);
  }

  /** A function-like macro does not match: `(` follows the name where whitespace must. */
  lemma FunctionLikeMacroDropped(w: string, name: string, rest: string)
    requires |w| > 0 && AllSpace(w) && IsIdentifier(name)
    ensures MatchDefine(DEFINE + w + name + "(" + rest) == None
  {
    assert DEFINE + w + name + "(" + rest == DEFINE + (w + (name + ("(" + rest)));
    FunctionLikeScan(w, name, rest);
  }

  lemma FunctionLikeScan(w: string, name: string, rest: string)
    requires |w| > 0 && AllSpace(w) && IsIdentifier(name)
    ensures Scan(DEFINE + (w + (name + ("(" + rest)))) == None
  {
    var after := name + ("(" + rest);
    var s := DEFINE + (w + after);
    assert s[..|DEFINE|] == DEFINE && s[|DEFINE|..] == w + after;
    assert SplitSpaces(w + after) == (w, after) by {
      assert after[0] == name[0];
      IdentNotSpace(name[0]);
      SplitSpacesOf(w, after);
    }
    ScanNameOf(name, "(" + rest);
    assert ScanValue("(" + rest) == None by {
      assert ([] + ("(" + rest))[0] == '(';
      SplitSpacesOf([], "(" + rest);
    }
  }

  lemma RFindNone(s: string, c: char)
    requires c !in s
    ensures RFind(s, c) == -1
  {
    RFindOf(s, c, -1);
  }

  lemma RFindAt(p: string, c: char, q: string)
    requires c !in q
    ensures RFind(p + [c] + q, c) == |p|
  {
    var s := p + [c] + q;
    assert forall k | |p| < k < |s| :: s[k] == q[k - |p| - 1];
    RFindOf(s, c, |p|);
  }

  /** A header name: the extension is replaced. */
  lemma HeaderNameExample()
    ensures DefaultOutputName("gdt.h") == "gdt.inc"
  {
    RFindNone("gdt", '/');
    assert "gdt"[0] != '.';
    assert "gdt.h" == "gdt" + ".h";
    HeaderNameReplaced("gdt", ".h");
  }

  /** The extension is recognised whatever its case. */
  lemma UpperCaseHeaders(stem: string)
    requires HasStemChar(stem)
    ensures DefaultOutputName(stem + ".H") == stem + ".inc"
    ensures DefaultOutputName(stem + ".HPP") == stem + ".inc"
    ensures DefaultOutputName(stem + ".Hpp") == stem + ".inc"
  {
    assert AsciiLower(".H") == ".h";
    assert AsciiLower(".HPP") == ".hpp";
    assert AsciiLower(".Hpp") == ".hpp";
    HeaderNameReplaced(stem, ".H");
    HeaderNameReplaced(stem, ".HPP");
    HeaderNameReplaced(stem, ".Hpp");
  }

  /** A name that is only an extension has none: `.inc` is appended. */
  lemma DotNameExample()
    ensures DefaultOutputName(".h") == ".h.inc"
  {
    assert ".h" == [] + ['.'] + "h";
    RFindAt([], '.', "h");
    RFindNone(".h", '/');
  }

  /** Another extension leaves the name whole. */
  lemma OtherExtensionExample()
    ensures DefaultOutputName("notes.txt") == "notes.txt.inc"
  {
    NotesSplit();
    assert AsciiLower(".txt") == ".txt";
  }

  lemma NotesSplit()
    ensures SplitExt("notes.txt").1 == ".txt"
  {
    assert "notes.txt" == "notes" + ['.'] + "txt";
    RFindAt("notes", '.', "txt");
    RFindNone("notes.txt", '/');
    assert "notes.txt"[0] != '.';
  }

  /** A dot in a directory name is no extension. */
  lemma DirectoryDotExample()
    ensures DefaultOutputName("a.d/config") == "a.d/config.inc"
  {
    assert "a.d/config" == "a.d" + ['/'] + "config";
    RFindAt("a.d", '/', "config");
    assert "a.d/config" == "a" + ['.'] + "d/config";
    RFindAt("a", '.', "d/config");
  }
}
