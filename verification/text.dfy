/**
 * String helpers with the meaning Python gives them: `strip`, `rstrip`,
 * `startswith`, `endswith`, `os.path.basename`, `os.path.splitext`,
 * `str.join`, decimal formatting of counters, and ASCII case mapping.
 */
module Text {

  predicate StartsWith(s: string, prefix: string) {
    |prefix| <= |s| && s[..|prefix|] == prefix
  }

  /** A string that differs from `p` at some index of both does not start with `p`. */
  lemma Differs(u: string, p: string, i: nat)
    requires i < |p| && i < |u| && u[i] != p[i]
    ensures !StartsWith(u, p)
  {
    assert |u| < |p| || u[..|p|][i] == u[i];
  }

  predicate EndsWith(s: string, suffix: string) {
    |suffix| <= |s| && s[|s| - |suffix|..] == suffix
  }

  /** `t` occurs in `s` starting at index `i`. */
  predicate OccursAt(s: string, t: string, i: nat) {
    i + |t| <= |s| && s[i..i + |t|] == t
  }

  /** Python's `str.isspace` on a single character. */
  predicate IsSpace(c: char) {
    c == ' ' || ('\t' <= c <= '\r') || ('\U{1C}' <= c <= '\U{1F}')
    || c == '\U{85}' || c == '\U{A0}' || c == '\U{1680}'
    || ('\U{2000}' <= c <= '\U{200A}')
    || c == '\U{2028}' || c == '\U{2029}' || c == '\U{202F}' || c == '\U{205F}' || c == '\U{3000}'
  }

  predicate AllSpace(s: string) {
    forall k :: 0 <= k < |s| ==> IsSpace(s[k])
  }

  /** `s.rstrip()` */
  function RStrip(s: string): (r: string)
    ensures |r| <= |s| && s[..|r|] == r
    ensures AllSpace(s[|r|..])
    ensures r == [] || !IsSpace(r[|r| - 1])
  {
    if |s| > 0 && IsSpace(s[|s| - 1]) then
      var r := RStrip(s[..|s| - 1]);
      assert s[|r|..] == s[..|s| - 1][|r|..] + [s[|s| - 1]];
      assert s[..|r|] == s[..|s| - 1][..|r|];
      r
    else s
  }

  /** `s.lstrip()` */
  function LStrip(s: string): (r: string)
    ensures |r| <= |s| && s[|s| - |r|..] == r
    ensures AllSpace(s[..|s| - |r|])
    ensures r == [] || !IsSpace(r[0])
  {
    if |s| > 0 && IsSpace(s[0]) then
      var r := LStrip(s[1..]);
      assert s[..|s| - |r|] == [s[0]] + s[1..][..|s| - 1 - |r|];
      assert s[|s| - |r|..] == s[1..][|s| - 1 - |r|..];
      r
    else s
  }

  /** `s.strip()` */
  /** No whitespace at either end. */
  predicate Stripped(s: string) {
    s == [] || (!IsSpace(s[0]) && !IsSpace(s[|s| - 1]))
  }

  function Strip(s: string): (r: string)
    ensures Stripped(r)
    ensures exists i, j :: 0 <= i <= j <= |s| && r == s[i..j] && AllSpace(s[..i]) && AllSpace(s[j..])
  {
    var t := RStrip(s);
    var r := LStrip(t);
    assert r == s[|t| - |r|..|t|];
    assert s[..|t| - |r|] == t[..|t| - |r|];
    r
  }

  /** Stripping a string with no whitespace at either end gives it back. */
  lemma StripKeeps(s: string)
    requires s == [] || (!IsSpace(s[0]) && !IsSpace(s[|s| - 1]))
    ensures Strip(s) == s
  {
    assert RStrip(s) == s;
    assert LStrip(s) == s;
  }

  /** `s.rstrip(c)` for a single character `c`. */
  function RStripChar(s: string, c: char): (r: string)
    ensures |r| <= |s| && s[..|r|] == r
    ensures forall k :: |r| <= k < |s| ==> s[k] == c
    ensures r == [] || r[|r| - 1] != c
  {
    if |s| > 0 && s[|s| - 1] == c then RStripChar(s[..|s| - 1], c) else s
  }

  /** `s.rfind(c)`: the last index of `c`, or -1. */
  function RFind(s: string, c: char): (r: int)
    ensures -1 <= r < |s|
    ensures r >= 0 ==> s[r] == c
    ensures forall k :: r < k < |s| ==> s[k] != c
  {
    if |s| == 0 then -1
    else if s[|s| - 1] == c then |s| - 1
    else RFind(s[..|s| - 1], c)
  }

  /** The index `RFind` returns is determined by its contract: the last `c`, or -1 when none. */
  lemma RFindIs(s: string, c: char, i: int)
    requires -1 <= i < |s| && (i >= 0 ==> s[i] == c)
    requires forall k :: i < k < |s| ==> s[k] != c
    ensures RFind(s, c) == i
  {
  }

  /** `s.split(c)[0]`: everything before the first `c`. */
  function BeforeFirst(s: string, c: char): (r: string)
    ensures |r| <= |s| && s[..|r|] == r
    ensures c !in r
    ensures |r| < |s| ==> s[|r|] == c
  {
    if |s| == 0 then s
    else if s[0] == c then []
    else [s[0]] + BeforeFirst(s[1..], c)
  }

  /** `os.path.basename(p)`: the part after the last '/'. */
  function BaseName(p: string): (r: string)
    ensures EndsWith(p, r) && '/' !in r
    ensures |r| < |p| ==> p[|p| - |r| - 1] == '/'
  {
    p[RFind(p, '/') + 1..]
  }

  /** A base name is either the whole path or what follows its last '/'. */
  lemma BaseNameCases(p: string)
    ensures BaseName(p) == p || EndsWith(p, "/" + BaseName(p))
  {
    var r := BaseName(p);
    if r != p {
      assert p[|p| - |r| - 1..] == "/" + r;
    }
  }

  /** A path that is `name`, or ends with '/' + `name`, where `name` has no '/', has base name `name`. */
  lemma BaseNameOfLast(p: string, name: string)
    requires '/' !in name
    requires p == name || EndsWith(p, "/" + name)
    ensures BaseName(p) == name
  {
    if p == name {
      RFindIs(p, '/', -1);
    } else {
      var i := |p| - |name| - 1;
      var tail := "/" + name;
      assert p[i..] == tail;
      assert p[i] == tail[0] == '/';
      assert p[i + 1..] == tail[1..] == name;
      forall k | i < k < |p| ensures p[k] != '/' {
        assert p[k] == p[i + 1..][k - i - 1];
      }
      RFindIs(p, '/', i);
    }
  }

  /** The path of `stem + ext` in directory `dir` ends with '/' and that name. */
  lemma UnderDir(dir: string, stem: string, ext: string) returns (path: string)
    ensures path == dir + "/" + stem + ext
    ensures EndsWith(path, "/" + (stem + ext))
  {
    path := dir + "/" + stem + ext;
    assert path[|dir|..] == "/" + (stem + ext);
  }

  /** A base name is its own base name. */
  lemma BaseNameOfName(p: string)
    ensures BaseName(BaseName(p)) == BaseName(p)
  {
  }

  predicate AllDots(s: string) {
    forall k :: 0 <= k < |s| ==> s[k] == '.'
  }

  /**
   * The extension half of `os.path.splitext` applied to a file name with no
   * '/': from the last '.', provided some non-dot character precedes that
   * dot; otherwise empty (so ".env" and "..x" have no extension).
   */
  function NameExt(name: string): (r: string)
    ensures |r| <= |name| && name[|name| - |r|..] == r
    ensures r != [] ==> r[0] == '.'
    ensures forall k :: 1 <= k < |r| ==> r[k] != '.'
  {
    var dot := RFind(name, '.');
    if dot > 0 && !AllDots(name[..dot]) then name[dot..] else []
  }

  /**
   * `os.path.splitext(p)[1]` (POSIX): the extension of the last path
   * component, because the dot has to follow the last '/' and leading dots
   * are counted from just after that '/'.
   */
  function Ext(p: string): (r: string)
    ensures r != [] ==> r[0] == '.'
    ensures forall k :: 1 <= k < |r| ==> r[k] != '.' && r[k] != '/'
  {
    var name := BaseName(p);
    var r := NameExt(name);
    SuffixLacks(name, r, '/');
    r
  }

  /** A suffix of a string without `c` has no `c` either. */
  lemma SuffixLacks(s: string, r: string, c: char)
    requires |r| <= |s| && s[|s| - |r|..] == r && c !in s
    ensures c !in r
  {
    forall k | 0 <= k < |r|
      ensures r[k] != c
    {
      assert r[k] == s[|s| - |r| + k];
    }
  }

  /** `os.path.splitext(p)[1].lstrip(".")`: the extension without its dot. */
  function ExtNoDot(p: string): (r: string)
    ensures '.' !in r
  {
    var e := Ext(p);
    if e == [] then [] else e[1..]
  }

  function LowerChar(c: char): char {
    if 'A' <= c <= 'Z' then (c as int + 32) as char else c
  }

  function UpperChar(c: char): char {
    if 'a' <= c <= 'z' then (c as int - 32) as char else c
  }

  /** `s.lower()` on ASCII letters. */
  function Lower(s: string): (r: string)
    ensures |r| == |s| && forall k :: 0 <= k < |s| ==> r[k] == LowerChar(s[k])
  {
    seq(|s|, k requires 0 <= k < |s| => LowerChar(s[k]))
  }

  /** `s.upper()` on ASCII letters. */
  function Upper(s: string): (r: string)
    ensures |r| == |s| && forall k :: 0 <= k < |s| ==> r[k] == UpperChar(s[k])
  {
    seq(|s|, k requires 0 <= k < |s| => UpperChar(s[k]))
  }

  function DigitChar(d: nat): char
    requires d < 10
  {
    "0123456789"[d]
  }

  /** `str(n)` for a natural number. */
  function NatToString(n: nat): (r: string)
    ensures |r| > 0
    ensures forall k :: 0 <= k < |r| ==> '0' <= r[k] <= '9'
  {
    if n < 10 then [DigitChar(n)] else NatToString(n / 10) + [DigitChar(n % 10)]
  }

  /** `sep.join(parts)` */
  function Join(sep: string, parts: seq<string>): (r: string)
    ensures |parts| == 1 ==> r == parts[0]
  {
    if |parts| == 0 then []
    else if |parts| == 1 then parts[0]
    else parts[0] + sep + Join(sep, parts[1..])
  }

  /** A join of several parts starts with the first part and the separator. */
  lemma JoinStarts(sep: string, parts: seq<string>)
    requires |parts| >= 2
    ensures StartsWith(Join(sep, parts), parts[0] + sep)
  {
    var rest := Join(sep, parts[1..]);
    assert Join(sep, parts) == (parts[0] + sep) + rest;
  }

  /** A join of at least one part ends with the last part. */
  lemma {:induction false} JoinEnds(sep: string, parts: seq<string>)
    requires |parts| >= 1
    ensures EndsWith(Join(sep, parts), parts[|parts| - 1])
    decreases |parts|
  {
    if |parts| >= 2 {
      var rest := Join(sep, parts[1..]);
      JoinEnds(sep, parts[1..]);
      var last := parts[|parts| - 1];
      assert parts[1..][|parts| - 2] == last;
      var whole := parts[0] + sep + rest;
      assert whole[|whole| - |last|..] == rest[|rest| - |last|..];
    }
  }

  /** `s.split(c)`: the pieces between occurrences of `c`; joining them back gives `s`. */
  function Split(s: string, c: char): (r: seq<string>)
    ensures |r| >= 1
    ensures forall k :: 0 <= k < |r| ==> c !in r[k]
    ensures Join([c], r) == s
    decreases |s|
  {
    var head := BeforeFirst(s, c);
    if |head| == |s| then [s]
    else
      var rest := Split(s[|head| + 1..], c);
      assert s == head + [c] + s[|head| + 1..];
      [head] + rest
  }
}
