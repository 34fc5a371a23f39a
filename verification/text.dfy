/** The string primitives the fixture parser relies on: ECMAScript `trim`,
    ASCII lower-casing, and leftmost matching of the fixed-length regular
    expressions `\d{2}\.\d{2}\.\d{2}` and `\d{2}:\d{2}`. */
module Text {
  import opened Wrappers

  /** The code points `String.prototype.trim` removes: the ECMAScript
      WhiteSpace set (TAB, VT, FF, ZWNBSP and every Zs space) and the
      LineTerminator set (LF, CR, LS, PS). */
  predicate IsTrimmable(c: char) {
    || c == '\t' || c == '\n' || c == '\U{000B}' || c == '\U{000C}' || c == '\r'
    || c == ' ' || c == '\U{00A0}' || c == '\U{1680}'
    || ('\U{2000}' <= c <= '\U{200A}')
    || c == '\U{2028}' || c == '\U{2029}' || c == '\U{202F}' || c == '\U{205F}'
    || c == '\U{3000}' || c == '\U{FEFF}'
  }

  /** The first position at or after `from` that does not hold a trimmable
      character (or `|s|`). */
  function TrimStartIndex(s: string, from: nat): (a: nat)
    requires from <= |s|
    ensures from <= a <= |s|
    ensures forall k :: from <= k < a ==> IsTrimmable(s[k])
    ensures a == |s| || !IsTrimmable(s[a])
    decreases |s| - from
  {
    if from < |s| && IsTrimmable(s[from]) then TrimStartIndex(s, from + 1) else from
  }

  /** The end of `s[lo..hi]` once its trailing trimmable characters are
      dropped. */
  function TrimEndIndex(s: string, lo: nat, hi: nat): (b: nat)
    requires lo <= hi <= |s|
    ensures lo <= b <= hi
    ensures forall k :: b <= k < hi ==> IsTrimmable(s[k])
    ensures b == lo || !IsTrimmable(s[b - 1])
    decreases hi
  {
    if lo < hi && IsTrimmable(s[hi - 1]) then TrimEndIndex(s, lo, hi - 1) else hi
  }

  /** `r` is `s` with exactly `a` trimmable characters cut from the front and
      only trimmable characters cut from the back, and `r` has no trimmable
      character at either end. */
  ghost predicate IsTrimOf(s: string, r: string, a: int) {
    && 0 <= a && a + |r| <= |s|
    && r == s[a..a + |r|]
    && (forall k :: 0 <= k < a ==> IsTrimmable(s[k]))
    && (forall k :: a + |r| <= k < |s| ==> IsTrimmable(s[k]))
    && (r == [] || (!IsTrimmable(r[0]) && !IsTrimmable(r[|r| - 1])))
  }

  /** ECMAScript `String.prototype.trim`; `TrimSpec` states what it computes. */
  function Trim(s: string): string {
    var a := TrimStartIndex(s, 0);
    s[a..TrimEndIndex(s, a, |s|)]
  }

  /** Trimming cuts only trimmable characters, from both ends, and leaves
      none at either end of the result. */
  lemma TrimSpec(s: string)
    ensures exists a :: IsTrimOf(s, Trim(s), a)
  {
    var a := TrimStartIndex(s, 0);
    var b := TrimEndIndex(s, a, |s|);
    assert IsTrimOf(s, Trim(s), a);
  }

  /** Trimming a trimmed string changes nothing. */
  lemma TrimIdempotent(s: string)
    ensures Trim(Trim(s)) == Trim(s)
  {
    var r := Trim(s);
    TrimSpec(s);
    var a :| IsTrimOf(s, r, a);
    var r2 := Trim(r);
    TrimSpec(r);
    var b :| IsTrimOf(r, r2, b);
    if r != [] {
      assert !IsTrimmable(r[0]) && !IsTrimmable(r[|r| - 1]);
      assert b == 0;
      assert |r2| == |r|;
    }
  }

  /** ASCII lower-casing of one character; every other character is kept. */
  function LowerAscii(c: char): char {
    if 'A' <= c <= 'Z' then (c as int + 32) as char else c
  }

  /** `toLowerCase`, restricted to ASCII case folding. */
  function ToLowerAscii(s: string): (r: string)
    ensures |r| == |s|
    ensures forall k :: 0 <= k < |s| ==> r[k] == LowerAscii(s[k])
  {
    seq(|s|, k requires 0 <= k < |s| => LowerAscii(s[k]))
  }

  /** One position of a fixed-length pattern: `\d` (an ASCII digit) or a
      literal character. */
  datatype Atom = Digit | Char(c: char)

  type Pattern = seq<Atom>

  predicate AtomAccepts(a: Atom, c: char) {
    match a
    case Digit => '0' <= c <= '9'
    case Char(x) => c == x
  }

  /** The pattern matches the substring of `s` that starts at `i`. */
  predicate MatchesAt(s: string, p: Pattern, i: int) {
    && 0 <= i && i + |p| <= |s|
    && forall k :: 0 <= k < |p| ==> AtomAccepts(p[k], s[i + k])
  }

  /** `i` is the leftmost position where the pattern matches. */
  ghost predicate IsLeftmostMatch(s: string, p: Pattern, i: int) {
    MatchesAt(s, p, i) && forall j :: 0 <= j < i ==> !MatchesAt(s, p, j)
  }

  /** The regular-expression engine's scan: try each start position from
      `from` upwards and stop at the first that matches. */
  function SearchFrom(s: string, p: Pattern, from: nat): (r: Option<nat>)
    requires from <= |s|
    ensures r.Some? ==> from <= r.value && MatchesAt(s, p, r.value)
    ensures r.Some? ==> forall j :: from <= j < r.value ==> !MatchesAt(s, p, j)
    ensures r.None? ==> forall j :: from <= j ==> !MatchesAt(s, p, j)
    decreases |s| - from
  {
    if MatchesAt(s, p, from) then Some(from)
    else if from == |s| then None
    else SearchFrom(s, p, from + 1)
  }

  /** `String.prototype.match` with a capturing group around the whole
      pattern: the leftmost matching substring, or `null`. */
  function FirstMatch(s: string, p: Pattern): Option<string> {
    match SearchFrom(s, p, 0)
    case None => None
    case Some(i) => Some(s[i..i + |p|])
  }

  /** The match is absent exactly when no position matches, and otherwise
      is the substring at the leftmost matching position. */
  lemma FirstMatchSpec(s: string, p: Pattern)
    ensures FirstMatch(s, p).None? <==> forall i :: !MatchesAt(s, p, i)
    ensures FirstMatch(s, p).Some? ==>
      exists i :: IsLeftmostMatch(s, p, i) && FirstMatch(s, p).value == s[i..i + |p|]
  {
    if FirstMatch(s, p).Some? {
      var i := SearchFrom(s, p, 0).value;
      assert IsLeftmostMatch(s, p, i);
    }
  }
}
