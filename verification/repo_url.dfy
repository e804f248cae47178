/**
 * GitHub URL admission and normalisation of `add_repo` (src/routes/repo.py).
 * The regular expressions are written out with Python's `re` semantics:
 * without MULTILINE, `$` matches at the end of the string or just before a
 * newline that ends it, and `.` matches anything but a newline.
 */
module RepoUrl {
  import opened Wrappers
  import opened Text

  /** The path segments after which `add_repo` drops the rest of the URL. */
  const Keywords: seq<string> := ["tree", "blob", "pull", "issues", "compare", "commit", "releases", "actions", "wiki"]

  /** The four prefixes `^https?://(www\.)?github\.com/` can match. */
  const Hosts: seq<string> := ["https://www.github.com/", "https://github.com/", "http://www.github.com/", "http://github.com/"]

  /** `[A-Za-z0-9_.-]` */
  predicate NameChar(c: char) {
    ('A' <= c <= 'Z') || ('a' <= c <= 'z') || ('0' <= c <= '9') || c == '_' || c == '.' || c == '-'
  }

  predicate AllNameChars(s: string) {
    forall k :: 0 <= k < |s| ==> NameChar(s[k])
  }

  /** Python's `$` holds at index `i`. */
  predicate EndAt(s: string, i: nat) {
    i == |s| || (i + 1 == |s| && s[i] == '\n')
  }

  /** Every character of `s[i..j]` is a name character. */
  predicate NamesBetween(s: string, i: nat, j: nat) {
    forall k :: i <= k < j && k < |s| ==> NameChar(s[k])
  }

  /** The length of the longest run of name characters starting at `i`. */
  function NameRun(s: string, i: nat): (n: nat)
    requires i <= |s|
    ensures i + n <= |s| && NamesBetween(s, i, i + n)
    ensures i + n == |s| || !NameChar(s[i + n])
    decreases |s| - i
  {
    if i < |s| && NameChar(s[i]) then 1 + NameRun(s, i + 1) else 0
  }

  /** A run of name characters ended by a non-name character or the end is the longest run. */
  lemma {:induction false} NameRunIs(s: string, i: nat, j: nat)
    requires i <= j <= |s| && NamesBetween(s, i, j)
    requires j == |s| || !NameChar(s[j])
    ensures NameRun(s, i) == j - i
    decreases j - i
  {
    if i < j {
      NameRunIs(s, i + 1, j);
    }
  }

  /** A piece of `s` at offset `i` consists of name characters exactly when that stretch of `s` does. */
  lemma NamesPiece(s: string, t: string, i: nat)
    requires i + |t| <= |s| && s[i..i + |t|] == t
    ensures AllNameChars(t) <==> NamesBetween(s, i, i + |t|)
  {
    assert forall k :: 0 <= k < |t| ==> t[k] == s[i + k];
  }

  // ---------------------------------------------------------------------
  // The owner/repo shorthand
  // ---------------------------------------------------------------------

  /** `re.match(r'^[A-Za-z0-9_.-]+/[A-Za-z0-9_.-]+$', s)` */
  predicate IsShorthand(s: string) {
    var a := NameRun(s, 0);
    && 0 < a < |s| && s[a] == '/'
    && var b := NameRun(s, a + 1);
       b > 0 && EndAt(s, a + 1 + b)
  }

  /** The shapes the shorthand pattern describes: owner, '/', repo, and at most a final newline. */
  predicate ShorthandShape(s: string, owner: string, repo: string) {
    && |owner| > 0 && |repo| > 0 && AllNameChars(owner) && AllNameChars(repo)
    && (s == owner + "/" + repo || s == owner + "/" + repo + "\n")
  }

  /** A shorthand match splits into the owner run, the '/', the repo run and at most a final newline. */
  lemma ShorthandSound(s: string)
    requires IsShorthand(s)
    ensures exists o, r :: ShorthandShape(s, o, r)
  {
    var a := NameRun(s, 0);
    var b := NameRun(s, a + 1);
    var o, r, t := s[0..a], s[a + 1..a + 1 + b], s[a + 1 + b..];
    assert s == o + s[a..a + 1] + r + t;
    assert s[a..a + 1] == "/";
    assert t == [] || t == "\n";
    assert ShorthandShape(s, o, r);
  }

  /** Every string of the shorthand's shape matches it. */
  lemma ShorthandComplete(s: string, o: string, r: string)
    requires ShorthandShape(s, o, r)
    ensures IsShorthand(s)
  {
    if s == o + "/" + r {
      RunsAroundSlash(s, o, r, []);
    } else {
      RunsAroundSlash(s, o, r, "\n");
    }
  }

  /** In `o + "/" + r + t` the two name runs are `o` and `r` when `t` does not continue `r`. */
  lemma RunsAroundSlash(s: string, o: string, r: string, t: string)
    requires s == o + "/" + r + t && AllNameChars(o) && AllNameChars(r)
    requires t == [] || !NameChar(t[0])
    ensures |o| < |s| && s[|o|] == '/' && NameRun(s, 0) == |o| && NameRun(s, |o| + 1) == |r|
  {
    SplitAtSlash(s, o, r, t);
    NamesPiece(s, o, 0);
    NamesPiece(s, r, |o| + 1);
    NameRunIs(s, 0, |o|);
    if t != [] {
      assert s[|o| + 1 + |r|] == t[0];
    }
    NameRunIs(s, |o| + 1, |o| + 1 + |r|);
  }

  /** Where the pieces of `o + "/" + r + t` sit. */
  lemma SplitAtSlash(s: string, o: string, r: string, t: string)
    requires s == o + "/" + r + t
    ensures |s| == |o| + 1 + |r| + |t| && s[|o|] == '/'
    ensures s[0..|o|] == o && s[|o| + 1..|o| + 1 + |r|] == r && s[|o| + 1 + |r|..] == t
  {
  }

  // ---------------------------------------------------------------------
  // The strict GitHub pattern
  // ---------------------------------------------------------------------

  /** The host prefix the URL starts with, if any; at most one of the four can. */
  function HostPrefix(s: string): (r: Option<string>)
    ensures r.Some? ==> r.value in Hosts && StartsWith(s, r.value)
    ensures r.None? ==> forall h :: h in Hosts ==> !StartsWith(s, h)
  {
    if StartsWith(s, Hosts[0]) then Some(Hosts[0])
    else if StartsWith(s, Hosts[1]) then Some(Hosts[1])
    else if StartsWith(s, Hosts[2]) then Some(Hosts[2])
    else if StartsWith(s, Hosts[3]) then Some(Hosts[3])
    else None
  }

  lemma HostPrefixIs(s: string, h: string)
    requires h in Hosts && StartsWith(s, h)
    ensures HostPrefix(s) == Some(h)
  {
    assert s[..|h|] == h;
    if h == Hosts[1] {
      assert s[8] == h[8];
      Differs(s, Hosts[0], 8);
    } else if h == Hosts[2] {
      assert s[4] == h[4];
      Differs(s, Hosts[0], 4);
      Differs(s, Hosts[1], 4);
    } else if h == Hosts[3] {
      assert s[4] == h[4] && s[7] == h[7];
      Differs(s, Hosts[0], 4);
      Differs(s, Hosts[1], 4);
      Differs(s, Hosts[2], 7);
    }
  }

  /** `(/.*)?$` at the start of `t`. */
  predicate TailOk(t: string) {
    EndAt(t, 0) || (|t| > 0 && t[0] == '/' && forall k :: 1 <= k < |t| - 1 ==> t[k] != '\n')
  }

  /** The parts of a URL the strict pattern accepts. */
  datatype GhUrl = GhUrl(host: string, owner: string, repo: string, tail: string)

  /** `s` is the host, the owner, '/', the repository and the tail, each of the allowed form. */
  predicate Assembled(s: string, g: GhUrl) {
    && |g.owner| > 0 && |g.repo| > 0
    && AllNameChars(g.owner) && AllNameChars(g.repo) && TailOk(g.tail)
    && s == g.host + g.owner + "/" + g.repo + g.tail
  }

  /** The shape the strict pattern describes. */
  predicate GhShape(s: string, g: GhUrl) {
    g.host in Hosts && Assembled(s, g)
  }

  /** Cutting a string at `i`, around the '/' at `j`, and at `k`. */
  lemma Pieces(s: string, i: nat, j: nat, k: nat)
    requires i <= j < k <= |s| && s[j] == '/'
    ensures s == s[..i] + s[i..j] + "/" + s[j + 1..k] + s[k..]
  {
    assert s[..j + 1] == s[..i] + s[i..j] + "/";
    assert s[..k] == s[..j + 1] + s[j + 1..k];
    assert s == s[..k] + s[k..];
  }

  /** The pieces of `g` sit in `s` one after the other, read off by index. */
  predicate PiecesAt(s: string, g: GhUrl) {
    var p := |g.host|;
    var q := p + |g.owner| + 1;
    var e := q + |g.repo|;
    && |g.owner| > 0 && |g.repo| > 0 && e <= |s|
    && s[..p] == g.host && s[p..q - 1] == g.owner && s[q - 1] == '/' && s[q..e] == g.repo && s[e..] == g.tail
    && NamesBetween(s, p, q - 1) && NamesBetween(s, q, e) && TailOk(g.tail)
  }

  /**
   * Where the owner and repository runs after a host ending at `p` end: the
   * repository starts at `q`, just after the '/', and the tail at `e`.
   */
  function Cuts(s: string, p: nat): (r: Option<(nat, nat)>)
    requires p <= |s|
    ensures r.Some? ==> var (q, e) := r.value;
      && p + 1 < q < e <= |s| && s[q - 1] == '/'
      && NamesBetween(s, p, q - 1) && NamesBetween(s, q, e) && TailOk(s[e..])
  {
    var a := NameRun(s, p);
    if a == 0 || p + a >= |s| || s[p + a] != '/' then None
    else
      var b := NameRun(s, p + a + 1);
      if b == 0 || !TailOk(s[p + a + 1 + b..]) then None
      else Some((p + a + 1, p + a + 1 + b))
  }

  /** The part of the strict pattern after a host `h` that `s` starts with. */
  function ParseAfter(s: string, h: string): (r: Option<GhUrl>)
    requires StartsWith(s, h)
    ensures r.Some? ==> r.value.host == h && PiecesAt(s, r.value)
  {
    match Cuts(s, |h|)
    case None => None
    case Some((q, e)) => Some(GhUrl(h, s[|h|..q - 1], s[q..e], s[e..]))
  }

  /** `re.match(r'^https?://(www\.)?github\.com/[A-Za-z0-9_.-]+/[A-Za-z0-9_.-]+(/.*)?$', s)` */
  function ParseGh(s: string): (r: Option<GhUrl>)
    ensures r.Some? ==> r.value.host in Hosts && PiecesAt(s, r.value)
  {
    match HostPrefix(s)
    case None => None
    case Some(h) => ParseAfter(s, h)
  }

  /** The index-wise reading of an accepted URL and its reading as a concatenation agree. */
  lemma PiecesAssemble(s: string, g: GhUrl)
    requires PiecesAt(s, g)
    ensures Assembled(s, g)
  {
    var p := |g.host|;
    var q := p + |g.owner| + 1;
    var e := q + |g.repo|;
    NamesPiece(s, g.owner, p);
    NamesPiece(s, g.repo, q);
    Pieces(s, p, q - 1, e);
  }

  /** What the pattern accepts has the accepted shape. */
  lemma ParseGhSound(s: string)
    requires ParseGh(s).Some?
    ensures GhShape(s, ParseGh(s).value)
  {
    PiecesAssemble(s, ParseGh(s).value);
  }

  /** The converse of `PiecesAssemble`: an assembled URL has its pieces where the indices say. */
  lemma AssembledPieces(s: string, g: GhUrl)
    requires Assembled(s, g)
    ensures PiecesAt(s, g)
  {
    var p := |g.host|;
    var q := p + |g.owner| + 1;
    var e := q + |g.repo|;
    GhSlices(s, g);
    NamesPiece(s, g.owner, p);
    NamesPiece(s, g.repo, q);
  }

  /** After the host, the pieces found by index are the ones the pattern splits off. */
  lemma ParseAfterPieces(s: string, g: GhUrl)
    requires PiecesAt(s, g)
    ensures StartsWith(s, g.host) && ParseAfter(s, g.host) == Some(g)
  {
    var p := |g.host|;
    var q := p + |g.owner| + 1;
    var e := q + |g.repo|;
    NameRunIs(s, p, q - 1);
    if e < |s| {
      assert s[e] == g.tail[0];
    }
    NameRunIs(s, q, e);
    CutsAt(s, p, q, e);
  }

  /** Runs of the given lengths around a '/', followed by a valid tail, are where the pattern cuts. */
  lemma CutsAt(s: string, p: nat, q: nat, e: nat)
    requires p + 1 < q < e <= |s| && s[q - 1] == '/' && TailOk(s[e..])
    requires NameRun(s, p) == q - 1 - p && NameRun(s, q) == e - q
    ensures Cuts(s, p) == Some((q, e))
  {
  }

  /** After the host, every assembled URL is accepted and split the same way. */
  lemma ParseAfterComplete(s: string, g: GhUrl)
    requires Assembled(s, g)
    ensures StartsWith(s, g.host) && ParseAfter(s, g.host) == Some(g)
  {
    AssembledPieces(s, g);
    ParseAfterPieces(s, g);
  }

  /** Every URL of the accepted shape is accepted, and split the same way. */
  lemma ParseGhComplete(s: string, g: GhUrl)
    requires GhShape(s, g)
    ensures ParseGh(s) == Some(g)
  {
    ParseAfterComplete(s, g);
    HostPrefixIs(s, g.host);
  }

  /** Where the pieces of an accepted URL sit in it. */
  lemma GhSlices(s: string, g: GhUrl)
    requires s == g.host + g.owner + "/" + g.repo + g.tail
    ensures var p := |g.host|; var q := p + |g.owner| + 1;
      && StartsWith(s, g.host) && s[p..q - 1] == g.owner && s[q - 1] == '/'
      && s[q..q + |g.repo|] == g.repo && s[q + |g.repo|..] == g.tail
  {
    var p := |g.host|;
    var q := p + |g.owner| + 1;
    assert s[..p] == g.host;
    assert s[p..] == g.owner + "/" + g.repo + g.tail;
    assert s[p..][..|g.owner|] == g.owner;
    assert s[q..] == g.repo + g.tail;
    assert s[q..][..|g.repo|] == g.repo;
  }

  // ---------------------------------------------------------------------
  // Normalisation
  // ---------------------------------------------------------------------

  /** `re.sub(r'\.git$', '', s)`: one ".git" at the end or before a final newline. */
  function StripGit(s: string): string {
    if EndsWith(s, ".git") then s[..|s| - 4]
    else if EndsWith(s, ".git\n") then s[..|s| - 5] + "\n"
    else s
  }

  /** "/kw/.*$" matches at `i` for some keyword. */
  predicate KwAt(s: string, i: nat) {
    exists k :: 0 <= k < |Keywords| && OccursAt(s, "/" + Keywords[k] + "/", i) && NoInnerNewline(s, i + |Keywords[k]| + 2)
  }

  /** `.*$` from `j`: no newline before the last character. */
  predicate NoInnerNewline(s: string, j: nat) {
    forall m :: j <= m < |s| - 1 ==> s[m] != '\n'
  }

  /** The leftmost keyword match at or after `from`. */
  function FirstKw(s: string, from: nat): (r: Option<nat>)
    ensures r.Some? ==> from <= r.value < |s| && KwAt(s, r.value)
    ensures r.Some? ==> forall i :: from <= i < r.value ==> !KwAt(s, i)
    ensures r.None? ==> forall i :: from <= i ==> !KwAt(s, i)
    decreases |s| - from
  {
    if from >= |s| then None
    else if KwAt(s, from) then Some(from)
    else FirstKw(s, from + 1)
  }

  /** A final newline survives `re.sub`, since `$` matches just before it. */
  function FinalNewline(s: string): string {
    if |s| > 0 && s[|s| - 1] == '\n' then "\n" else ""
  }

  /** The keyword substitution restricted to matches at or after `from`. */
  function StripKeyword(s: string, from: nat): (r: string)
    ensures FirstKw(s, from).None? ==> r == s
    ensures FirstKw(s, from).Some? ==> r == s[..FirstKw(s, from).value] + FinalNewline(s)
  {
    match FirstKw(s, from)
    case None => s
    case Some(i) => s[..i] + FinalNewline(s)
  }

  /** `url.split("?")[0].split("#")[0]` followed by the ".git" substitution. */
  function Clean(url: string): (r: string)
    ensures |r| <= |url| && NoQuery(r)
  {
    var s := BeforeFirst(BeforeFirst(url, '?'), '#');
    assert '?' !in s by {
      SuffixFree(BeforeFirst(url, '?'), |s|, '?');
    }
    StripGitFree(s);
    StripGit(s)
  }

  /** Neither a query nor a fragment is left. */
  predicate NoQuery(s: string) {
    '?' !in s && '#' !in s
  }

  /** A prefix of a string without `c` has no `c` either. */
  lemma SuffixFree(s: string, n: nat, c: char)
    requires n <= |s| && c !in s
    ensures c !in s[..n]
  {
    assert forall k :: 0 <= k < n ==> s[..n][k] == s[k];
  }

  /** The ".git" substitution adds no character other than a newline and never lengthens. */
  lemma StripGitFree(s: string)
    ensures |StripGit(s)| <= |s|
    ensures forall c :: c != '\n' && c !in s ==> c !in StripGit(s)
  {
  }

  /** The keyword substitution only cuts, keeping a final newline. */
  lemma StripKeywordFree(s: string, from: nat)
    ensures |StripKeyword(s, from)| <= |s|
    ensures forall c :: c != '\n' && c !in s ==> c !in StripKeyword(s, from)
  {
  }

  /**
   * The normalisation as written: the keyword pattern is searched over the
   * whole URL. Query and fragment are gone and nothing is added.
   */
  function NormalizeAsWritten(url: string): (r: string)
    ensures |r| <= |url| && NoQuery(r)
  {
    StripKeywordFree(Clean(url), 0);
    StripKeyword(Clean(url), 0)
  }

  /** Where the repository segment ends in the accepted URL. */
  function RepoEnd(g: GhUrl): nat {
    |g.host| + |g.owner| + 1 + |g.repo|
  }

  /** The normalisation as intended: the keyword pattern is searched only after owner/repo. */
  function Normalize(url: string, g: GhUrl): (r: string)
    ensures |r| <= |url| && NoQuery(r)
  {
    StripKeywordFree(Clean(url), RepoEnd(g));
    StripKeyword(Clean(url), RepoEnd(g))
  }

  /** Characters at which `url.split("?")[0].split("#")[0]` does not cut. */
  predicate NoCut(c: char) {
    c != '?' && c != '#'
  }

  /** Cutting at the first `c` keeps a prefix that has no `c`. */
  lemma BeforeFirstKeeps(s: string, c: char, n: nat)
    requires n <= |s| && forall k :: 0 <= k < n ==> s[k] != c
    ensures n <= |BeforeFirst(s, c)| && BeforeFirst(s, c)[..n] == s[..n]
  {
  }

  /** The ".git" substitution never reaches back past a '/'. */
  lemma StripGitKeeps(s: string, n: nat)
    requires 1 <= n <= |s| && s[n - 1] == '/'
    ensures n <= |StripGit(s)| && StripGit(s)[..n] == s[..n]
  {
    if EndsWith(s, ".git") {
      forall k | |s| - 4 <= k < |s| ensures s[k] != '/' {
        assert s[k] == s[|s| - 4..][k - (|s| - 4)];
      }
    } else if EndsWith(s, ".git\n") {
      forall k | |s| - 5 <= k < |s| - 1 ensures s[k] != '/' {
        assert s[k] == s[|s| - 5..][k - (|s| - 5)];
      }
    }
  }

  /** A prefix ending in '/' with no '?' or '#' survives the cleaning. */
  lemma CleanKeeps(url: string, n: nat)
    requires 1 <= n <= |url| && url[n - 1] == '/'
    requires forall k :: 0 <= k < n ==> NoCut(url[k])
    ensures n <= |Clean(url)| && Clean(url)[..n] == url[..n]
  {
    BeforeFirstKeeps(url, '?', n);
    var c1 := BeforeFirst(url, '?');
    assert forall k :: 0 <= k < n ==> c1[k] == url[k];
    BeforeFirstKeeps(c1, '#', n);
    StripGitKeeps(BeforeFirst(c1, '#'), n);
  }

  lemma HostsPlain(h: string)
    requires h in Hosts
    ensures forall k :: 0 <= k < |h| ==> NoCut(h[k])
  {
  }

  /** Host, owner, '/' and repository hold no '?' or '#'. */
  lemma HeadPlain(url: string, g: GhUrl)
    requires g.host in Hosts && PiecesAt(url, g)
    ensures forall k :: 0 <= k < RepoEnd(g) ==> NoCut(url[k])
  {
    HostsPlain(g.host);
    var p := |g.host|;
    forall k | 0 <= k < p ensures NoCut(url[k]) {
      assert url[k] == url[..p][k];
    }
  }

  /** The keyword substitution from `from` on keeps everything before `from`. */
  lemma StripKeywordKeeps(s: string, from: nat, n: nat)
    requires n <= from && n <= |s|
    ensures n <= |StripKeyword(s, from)| && StripKeyword(s, from)[..n] == s[..n]
  {
  }

  /** The intended normalisation keeps the host, the owner and the '/' after it. */
  lemma NormalizeKeepsOwner(url: string, g: GhUrl)
    requires g.host in Hosts && PiecesAt(url, g)
    ensures var q := |g.host| + |g.owner| + 1;
      q <= |Normalize(url, g)| && Normalize(url, g)[..q] == url[..q] == g.host + g.owner + "/"
  {
    var q := |g.host| + |g.owner| + 1;
    HeadPlain(url, g);
    CleanKeeps(url, q);
    var c := Clean(url);
    StripKeywordKeeps(c, RepoEnd(g), q);
    assert c[..q] == url[..q];
    OwnerSlice(url, g);
  }

  /** In an accepted URL the host, owner and '/' come first. */
  lemma OwnerSlice(url: string, g: GhUrl)
    requires PiecesAt(url, g)
    ensures url[..|g.host| + |g.owner| + 1] == g.host + g.owner + "/"
  {
    var p := |g.host|;
    var q := p + |g.owner| + 1;
    assert url[..q] == url[..p] + url[p..q - 1] + [url[q - 1]];
  }

  /** After '.git' is cut at `e`, the cut text also ends the piece after the '/' at `q - 1`. */
  lemma GitInPiece(s: string, q: nat, e: nat)
    requires 1 <= q <= e <= |s| && s[q - 1] == '/'
    ensures EndsWith(s[..e], ".git") ==> EndsWith(s[q..e], ".git")
  {
    if EndsWith(s[..e], ".git") {
      forall k | e - 4 <= k < e ensures s[k] != '/' {
        assert s[k] == s[..e][e - 4..][k - (e - 4)];
      }
      assert s[q..e][e - q - 4..] == s[..e][e - 4..];
    }
  }

  /** A URL with no '?' or '#' is only cleaned of its ".git". */
  lemma CleanUncut(url: string)
    requires forall k :: 0 <= k < |url| ==> NoCut(url[k])
    ensures Clean(url) == StripGit(url)
  {
    var c1 := BeforeFirst(url, '?');
    BeforeFirstKeeps(url, '?', |url|);
    assert c1 == url;
    BeforeFirstKeeps(c1, '#', |c1|);
    assert BeforeFirst(c1, '#') == c1;
  }

  /** A string ending in a name run after '/', at most followed by a newline, keeps it unless the run ends in ".git". */
  lemma StripGitBare(s: string, q: nat, e: nat)
    requires 1 <= q < e <= |s| && s[q - 1] == '/' && NamesBetween(s, q, e)
    requires EndAt(s, e) && !EndsWith(s[q..e], ".git")
    ensures StripGit(s) == s
  {
    GitInPiece(s, q, e);
    if |s| == e {
      assert s[..e] == s;
      assert |s| >= 5 ==> s[|s| - 5..][4] == s[e - 1];
    } else {
      assert |s| >= 4 ==> s[|s| - 4..][3] == '\n';
      assert |s| >= 5 ==> s[|s| - 5..][..4] == s[..e][e - 4..];
    }
  }

  /** With nothing after the repository segment but a newline, cleaning cuts only a ".git" ending it. */
  lemma CleanBare(s: string, q: nat, e: nat)
    requires 1 <= q < e <= |s| && s[q - 1] == '/' && NamesBetween(s, q, e)
    requires EndAt(s, e) && !EndsWith(s[q..e], ".git")
    requires forall k :: 0 <= k < |s| ==> NoCut(s[k])
    ensures Clean(s) == s
  {
    CleanUncut(s);
    StripGitBare(s, q, e);
  }

  /** Cleaning keeps the host, owner and repository of an accepted URL whose tail starts with '/'. */
  lemma CleanKeepsRepoBeforeTail(url: string, g: GhUrl)
    requires g.host in Hosts && PiecesAt(url, g) && |g.tail| > 0 && g.tail[0] == '/'
    ensures RepoEnd(g) <= |Clean(url)| && Clean(url)[..RepoEnd(g)] == url[..RepoEnd(g)]
  {
    HeadPlain(url, g);
    TailStart(url, g);
    CleanKeepsBefore(url, RepoEnd(g));
  }

  /** The tail of an accepted URL starts right after the repository segment. */
  lemma TailStart(url: string, g: GhUrl)
    requires PiecesAt(url, g)
    ensures RepoEnd(g) + |g.tail| == |url|
    ensures |g.tail| > 0 ==> url[RepoEnd(g)] == g.tail[0]
  {
  }

  /** Cleaning keeps everything before a '/' that no '?' or '#' precedes. */
  lemma CleanKeepsBefore(url: string, e: nat)
    requires e < |url| && url[e] == '/' && forall k :: 0 <= k < e ==> NoCut(url[k])
    ensures e <= |Clean(url)| && Clean(url)[..e] == url[..e]
  {
    CleanKeeps(url, e + 1);
    assert Clean(url)[..e] == Clean(url)[..e + 1][..e];
  }

  /** Cleaning keeps an accepted URL with no tail whole, unless its repository ends in ".git". */
  lemma CleanKeepsBareRepo(url: string, g: GhUrl)
    requires g.host in Hosts && PiecesAt(url, g) && EndAt(g.tail, 0) && !EndsWith(g.repo, ".git")
    ensures Clean(url) == url
  {
    HeadPlain(url, g);
    TailStart(url, g);
    RepoSlice(url, g);
    AllPlain(url, RepoEnd(g));
    CleanBare(url, |g.host| + |g.owner| + 1, RepoEnd(g));
  }

  /** Where the repository segment of an accepted URL sits. */
  lemma RepoSlice(url: string, g: GhUrl)
    requires PiecesAt(url, g)
    ensures var q := |g.host| + |g.owner| + 1;
      && 1 <= q < RepoEnd(g) <= |url| && url[q - 1] == '/'
      && url[q..RepoEnd(g)] == g.repo && NamesBetween(url, q, RepoEnd(g))
  {
  }

  /** A string with no '?' or '#' before `e` and nothing after it but a final newline has none at all. */
  lemma AllPlain(s: string, e: nat)
    requires EndAt(s, e) && forall k :: 0 <= k < e ==> NoCut(s[k])
    ensures forall k :: 0 <= k < |s| ==> NoCut(s[k])
  {
  }

  /**
   * The intended normalisation keeps the whole owner/repo head, unless the
   * repository segment ends the URL and ends in ".git", which is cut off.
   */
  lemma NormalizeKeepsRepo(url: string, g: GhUrl)
    requires g.host in Hosts && PiecesAt(url, g)
    requires (|g.tail| > 0 && g.tail[0] == '/') || !EndsWith(g.repo, ".git")
    ensures RepoEnd(g) <= |Normalize(url, g)| && Normalize(url, g)[..RepoEnd(g)] == url[..RepoEnd(g)]
  {
    if |g.tail| > 0 && g.tail[0] == '/' {
      CleanKeepsRepoBeforeTail(url, g);
    } else {
      CleanKeepsBareRepo(url, g);
    }
    StripKeywordKeeps(Clean(url), RepoEnd(g), RepoEnd(g));
  }

  /** Both normalisations agree whenever no keyword segment starts inside owner/repo. */
  lemma AgreeUnlessKeywordInPath(url: string, g: GhUrl)
    requires forall i :: 0 <= i < RepoEnd(g) ==> !KwAt(Clean(url), i)
    ensures NormalizeAsWritten(url) == Normalize(url, g)
  {
    FirstKwSkips(Clean(url), 0, RepoEnd(g));
  }

  /** The leftmost match from `m` is the leftmost match from `n` when none starts in between. */
  lemma {:induction false} FirstKwSkips(s: string, m: nat, n: nat)
    requires m <= n && forall i :: m <= i < n ==> !KwAt(s, i)
    ensures FirstKw(s, m) == FirstKw(s, n)
    decreases n - m
  {
    if m < n && m < |s| {
      FirstKwSkips(s, m + 1, n);
    }
  }

  // ---------------------------------------------------------------------
  // The whole URL step of add_repo
  // ---------------------------------------------------------------------

  /** `body.get("url", "").strip().rstrip("/")` */
  function Trim(raw: string): string {
    RStripChar(Strip(raw), '/')
  }

  /** The github.com URL of the host of a shorthand. */
  const ShorthandHost: string := "https://github.com/"

  /** An owner/repo shorthand becomes the github.com URL of that repository; anything else is kept. */
  function Expand(url: string): string {
    if IsShorthand(url) then ShorthandHost + url else url
  }

  /** The URL step of `add_repo` as written: the normalised URL, or the 400 it answers with. */
  function Admit(raw: string): (r: Result<string, int>)
    ensures r.Failure? ==> r.error == 400
  {
    var url := Trim(raw);
    if url == [] then Failure(400) else Accept(Expand(url))
  }

  /**
   * The checks on the expanded URL: it must start with "http" and match the
   * strict pattern; it is then normalised as written.
   */
  function Accept(url: string): (r: Result<string, int>)
    ensures r.Failure? ==> r.error == 400
  {
    if !StartsWith(url, "http") then Failure(400)
    else match ParseGh(url)
      case None => Failure(400)
      case Some(g) => Success(NormalizeAsWritten(url))
  }

  /** The URL step with the intended normalisation, which cuts only after owner/repo. */
  function AdmitIntended(raw: string): (r: Result<string, int>)
    ensures r.Failure? ==> r.error == 400
  {
    var url := Trim(raw);
    if url == [] then Failure(400) else AcceptIntended(Expand(url))
  }

  /** The checks on the expanded URL, followed by the intended normalisation. */
  function AcceptIntended(url: string): (r: Result<string, int>)
    ensures r.Failure? ==> r.error == 400
  {
    if !StartsWith(url, "http") then Failure(400)
    else match ParseGh(url)
      case None => Failure(400)
      case Some(g) => Success(Normalize(url, g))
  }

  /** Every accepted host starts with "http", so that check rejects nothing the pattern accepts. */
  lemma HostsAreHttp(s: string)
    requires ParseGh(s).Some?
    ensures StartsWith(s, "http")
  {
    HostHttp(s, ParseGh(s).value.host);
  }

  lemma HostHttp(s: string, h: string)
    requires h in Hosts && StartsWith(s, h)
    ensures StartsWith(s, "http")
  {
    assert s[..4] == s[..|h|][..4];
  }

  /**
   * A URL is admitted exactly when, after trimming and expansion, the strict
   * pattern accepts it; the answer is that URL normalised as written.
   */
  lemma AdmitIff(raw: string)
    ensures Admit(raw).Success? <==> Trim(raw) != [] && ParseGh(Expand(Trim(raw))).Some?
    ensures Admit(raw).Success? ==> Admit(raw).value == NormalizeAsWritten(Expand(Trim(raw)))
  {
    if Trim(raw) != [] {
      AcceptIff(Expand(Trim(raw)));
    }
  }

  /** An expanded URL is accepted exactly when the strict pattern matches it, and is then normalised as written. */
  lemma AcceptIff(url: string)
    ensures Accept(url).Success? <==> ParseGh(url).Some?
    ensures Accept(url).Success? ==> Accept(url).value == NormalizeAsWritten(url)
  {
    if ParseGh(url).Some? {
      HostsAreHttp(url);
    }
  }

  /**
   * With the intended normalisation the same URLs are admitted, and the
   * answer is the URL with only what follows owner/repo cut.
   */
  lemma AdmitIntendedIff(raw: string)
    ensures AdmitIntended(raw).Success? <==> Trim(raw) != [] && ParseGh(Expand(Trim(raw))).Some?
    ensures AdmitIntended(raw).Success? ==> AdmitIntended(raw).value == Normalize(Expand(Trim(raw)), ParseGh(Expand(Trim(raw))).value)
  {
    if Trim(raw) != [] {
      AcceptIntendedIff(Expand(Trim(raw)));
    }
  }

  lemma AcceptIntendedIff(url: string)
    ensures AcceptIntended(url).Success? <==> ParseGh(url).Some?
    ensures AcceptIntended(url).Success? ==> AcceptIntended(url).value == Normalize(url, ParseGh(url).value)
  {
    if ParseGh(url).Some? {
      HostsAreHttp(url);
    }
  }

  /**
   * The two URL steps admit the same URLs, and give the same answer unless
   * a keyword segment starts inside the accepted owner/repo.
   */
  lemma AdmitAgrees(raw: string)
    ensures Admit(raw).Success? <==> AdmitIntended(raw).Success?
    ensures Admit(raw).Success? && (forall i :: 0 <= i < RepoEnd(ParseGh(Expand(Trim(raw))).value) ==> !KwAt(Clean(Expand(Trim(raw))), i))
      ==> Admit(raw) == AdmitIntended(raw)
  {
    AdmitIff(raw);
    AdmitIntendedIff(raw);
    if Admit(raw).Success? {
      var url := Expand(Trim(raw));
      var g := ParseGh(url).value;
      if forall i :: 0 <= i < RepoEnd(g) ==> !KwAt(Clean(url), i) {
        AgreeUnlessKeywordInPath(url, g);
      }
    }
  }

  /** The expansion of a shorthand is accepted, with the shorthand's owner and repository. */
  lemma ExpandShorthand(s: string, o: string, r: string)
    requires ShorthandShape(s, o, r)
    ensures ParseGh(Expand(s)) == Some(GhUrl(ShorthandHost, o, r, s[|o| + 1 + |r|..]))
  {
    ShorthandComplete(s, o, r);
    var t := ShorthandTail(s, o, r);
    var g := GhUrl(ShorthandHost, o, r, t);
    assert Expand(s) == g.host + g.owner + "/" + g.repo + g.tail;
    assert g.host == Hosts[1];
    ParseGhComplete(Expand(s), g);
  }

  /** What follows owner/repo in a shorthand: nothing, or its final newline. */
  lemma ShorthandTail(s: string, o: string, r: string) returns (t: string)
    requires ShorthandShape(s, o, r)
    ensures t == s[|o| + 1 + |r|..] && s == o + "/" + r + t && TailOk(t)
  {
    t := s[|o| + 1 + |r|..];
    if s == o + "/" + r {
      SplitAtSlash(s, o, r, []);
    } else {
      SplitAtSlash(s, o, r, "\n");
    }
  }

  /** A shorthand is always admitted, by both URL steps. */
  lemma ShorthandAdmitted(raw: string)
    requires IsShorthand(Trim(raw))
    ensures Admit(raw).Success? && AdmitIntended(raw).Success?
  {
    var s := Trim(raw);
    ShorthandSound(s);
    var o, r :| ShorthandShape(s, o, r);
    ExpandShorthand(s, o, r);
    AdmitIff(raw);
    AdmitIntendedIff(raw);
  }

  /** With the intended normalisation, an admitted URL keeps the host, owner and '/' of the URL the pattern accepted. */
  lemma AdmittedKeepsOwner(raw: string) returns (g: GhUrl)
    requires AdmitIntended(raw).Success?
    ensures ParseGh(Expand(Trim(raw))) == Some(g)
    ensures var q := |g.host| + |g.owner| + 1;
      q <= |AdmitIntended(raw).value| && AdmitIntended(raw).value[..q] == g.host + g.owner + "/"
  {
    AdmitIntendedIff(raw);
    var url := Expand(Trim(raw));
    g := ParseGh(url).value;
    NormalizeKeepsOwner(url, g);
  }

  // ---------------------------------------------------------------------
  // Finding: the keyword pattern also matches the owner segment
  // ---------------------------------------------------------------------

  /** Only a '/' followed by a keyword's first letter can start a keyword match. */
  lemma KwAtStart(s: string, i: nat)
    ensures KwAt(s, i) ==> s[i] == '/' && s[i + 1] in "tbpicraw"
  {
    if KwAt(s, i) {
      var k :| 0 <= k < |Keywords| && OccursAt(s, "/" + Keywords[k] + "/", i) && NoInnerNewline(s, i + |Keywords[k]| + 2);
      assert s[i..i + |Keywords[k]| + 2][0] == s[i];
      assert s[i..i + |Keywords[k]| + 2][1] == s[i + 1];
    }
  }

  /** The example URL of the finding below. */
  const Checkout: string := "https://github.com/actions/checkout"

  /** How the strict pattern splits the example URL. */
  const CheckoutParts: GhUrl := GhUrl("https://github.com/", "actions", "checkout", "")

  lemma CheckoutTrimmed()
    ensures Trim(Checkout) == Checkout
  {
    var u := Checkout;
    assert u[0] == 'h' && u[|u| - 1] == 't';
    assert RStrip(u) == u;
    assert LStrip(u) == u;
  }

  lemma CheckoutExpanded()
    ensures Expand(Checkout) == Checkout
  {
    var u := Checkout;
    assert u[5] == ':';
    NameRunIs(u, 0, 5);
  }

  lemma CheckoutParsed()
    ensures ParseGh(Checkout) == Some(CheckoutParts)
  {
    var g := CheckoutParts;
    assert g.host == Hosts[1];
    assert Checkout == g.host + g.owner + "/" + g.repo + g.tail;
    ParseGhComplete(Checkout, g);
  }

  lemma CheckoutPlain()
    ensures forall k :: 0 <= k < |Checkout| ==> NoCut(Checkout[k])
  {
  }

  lemma CheckoutNoGit()
    ensures StripGit(Checkout) == Checkout
  {
    var u := Checkout;
    assert u[|u| - 4..][0] == 'k' && u[|u| - 1] == 't';
  }

  lemma CheckoutCleaned()
    ensures Clean(Checkout) == Checkout
  {
    CheckoutPlain();
    CleanUncut(Checkout);
    CheckoutNoGit();
  }

  lemma CheckoutKeywordAt18()
    ensures KwAt(Checkout, 18)
  {
    var u := Checkout;
    assert u[18..27] == "/" + Keywords[7] + "/";
    assert NoInnerNewline(u, 18 + |Keywords[7]| + 2);
  }

  lemma CheckoutNoKeywordBefore18(i: nat)
    requires i < 18
    ensures !KwAt(Checkout, i)
  {
    KwAtStart(Checkout, i);
    assert Checkout[..19] == "https://github.com/";
    assert Checkout[i] == Checkout[..19][i] && Checkout[i + 1] == Checkout[..19][i + 1];
  }

  /** The leftmost keyword match in the example URL is the "/actions/" of its owner. */
  lemma CheckoutFirstKeyword()
    ensures FirstKw(Checkout, 0) == Some(18)
  {
    CheckoutKeywordAt18();
    forall i | 0 <= i < 18 ensures !KwAt(Checkout, i) {
      CheckoutNoKeywordBefore18(i);
    }
  }

  /** The intended normalisation admits the example URL unchanged. */
  lemma CheckoutAdmitted()
    ensures AdmitIntended(Checkout) == Success(Checkout)
  {
    CheckoutTrimmed();
    CheckoutExpanded();
    CheckoutParsed();
    AdmitIntendedIff(Checkout);
    CheckoutCleaned();
    assert RepoEnd(CheckoutParts) == |Checkout|;
  }

  lemma CheckoutHost()
    ensures Checkout[..18] == "https://github.com"
  {
  }

  /** The normalisation as written cuts the example URL at its owner. */
  lemma CheckoutAsWritten()
    ensures NormalizeAsWritten(Checkout) == "https://github.com"
  {
    CheckoutCleaned();
    CheckoutCut();
  }

  lemma CheckoutCut()
    ensures StripKeyword(Checkout, 0) == "https://github.com"
  {
    CheckoutFirstKeyword();
    assert Checkout[|Checkout| - 1] == 't';
    assert StripKeyword(Checkout, 0) == Checkout[..18];
    CheckoutHost();
  }

  /** The URL step as written admits the example URL as the bare host. */
  lemma CheckoutAdmittedAsWritten()
    ensures Admit(Checkout) == Success("https://github.com")
  {
    CheckoutTrimmed();
    CheckoutExpanded();
    CheckoutParsed();
    AdmitIff(Checkout);
    CheckoutAsWritten();
  }

  /**
   * The repository github.com/actions/checkout: its owner is named like a
   * keyword, so the normalisation as written cuts the URL down to the host,
   * while the intended one keeps it whole.
   */
  lemma OwnerNamedLikeKeyword()
    ensures Admit(Checkout) == Success("https://github.com")
    ensures AdmitIntended(Checkout) == Success(Checkout)
    ensures NormalizeAsWritten(Checkout) != Normalize(Checkout, CheckoutParts)
  {
    CheckoutAdmitted();
    CheckoutAdmittedAsWritten();
    CheckoutAsWritten();
    CheckoutCleaned();
    assert RepoEnd(CheckoutParts) == |Checkout|;
  }
}
