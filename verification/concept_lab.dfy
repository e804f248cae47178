/**
 * `parse_generated_repo` (src/concept_lab.py): the text a model produced for
 * a teaching repository, turned into a repository entry. The code fence
 * around the text is stripped, the text is decoded as JSON (with a second
 * try on the span from the first '{' to the last '}'), and every entry of
 * "files" that is an object with "path" and "content" becomes a file, in
 * order. JSON decoding itself is a parameter.
 */
module ConceptLab {
  import opened Wrappers
  import opened Seqs
  import opened Text
  import Ingest

  /** A value as `json.loads` returns it. */
  datatype Json =
    | JNull
    | JBool(b: bool)
    | JNum(n: int)
    | JStr(s: string)
    | JArr(items: seq<Json>)
    | JObj(fields: map<string, Json>)

  /** The entry a parsed repository becomes: its data and its text. */
  datatype ConceptRepo = ConceptRepo(data: Ingest.RepoData, text: string)

  /** The three ways the call ends: `None`, the repository, or an exception that escapes. */
  datatype Outcome = NoRepo | Repo(repo: ConceptRepo) | Raises

  const DefaultName: string := "concept-demo"

  /** Paths that mark a file as a priority file; compared against the whole path. */
  const PriorityPaths: seq<string> := ["README.md", "main.py", "index.js", "main.go", "Main.java"]

  /** The extension table of the language count. */
  const ConceptLanguages: map<string, string> := map[
    "py" := "Python", "js" := "JavaScript", "ts" := "TypeScript", "go" := "Go",
    "rs" := "Rust", "java" := "Java", "rb" := "Ruby", "md" := "Markdown"]

  // ---------------------------------------------------------------------
  // Code fences
  // ---------------------------------------------------------------------

  /** A character `\w` matches: ASCII letters, digits and the underscore. */
  predicate WordChar(c: char) {
    ('a' <= c <= 'z') || ('A' <= c <= 'Z') || ('0' <= c <= '9') || c == '_'
  }

  /** The length of the longest prefix of word characters. */
  function WordRun(s: string): (n: nat)
    ensures n <= |s|
    ensures forall k :: 0 <= k < n ==> WordChar(s[k])
    ensures n < |s| ==> !WordChar(s[n])
  {
    if |s| > 0 && WordChar(s[0]) then 1 + WordRun(s[1..]) else 0
  }

  /**
   * Removing the opening fence: three backticks, a word-character tag, and one optional newline.
   * The cut is the longest such prefix: it stops at the end of the text, after the newline, or
   * before a character that is neither a word character nor a newline.
   */
  function StripOpening(t: string): (r: string)
    requires StartsWith(t, "```")
    ensures EndsWith(t, r)
    ensures var cut := |t| - |r|;
      && 3 <= cut
      && (forall k :: 3 <= k < cut ==> WordChar(t[k]) || (k == cut - 1 && t[k] == '\n'))
      && (cut == |t| || t[cut - 1] == '\n' || (!WordChar(t[cut]) && t[cut] != '\n'))
  {
    var rest := t[3..];
    var w := WordRun(rest);
    var tail := rest[w..];
    assert forall k :: 3 <= k < 3 + w ==> t[k] == rest[k - 3];
    if |tail| > 0 && tail[0] == '\n' then
      assert t[3 + w] == '\n';
      tail[1..]
    else tail
  }

  /**
   * Removing the closing fence: three backticks, with the newline before
   * them if there is one, at the end of the text or just before a final
   * newline (where a `$` also matches).
   */
  function StripClosing(t: string): (r: string)
    ensures |r| <= |t|
  {
    if EndsWith(t, "\n```") then t[..|t| - 4]
    else if EndsWith(t, "```") then t[..|t| - 3]
    else if EndsWith(t, "\n```\n") then t[..|t| - 5] + "\n"
    else if EndsWith(t, "```\n") then t[..|t| - 4] + "\n"
    else t
  }

  /** The text after `strip()` and, when it opens with a fence, without the fences and stripped again. */
  function StripFences(text: string): (r: string)
    ensures Stripped(r)
  {
    var t := Strip(text);
    if StartsWith(t, "```") then Strip(StripClosing(StripOpening(t))) else t
  }

  // ---------------------------------------------------------------------
  // Decoding
  // ---------------------------------------------------------------------

  /** The span from the first '{' to the last '}' when that '}' comes later, as the greedy search finds it. */
  function BraceSpan(t: string): (r: Option<string>)
    ensures r.Some? ==> |r.value| >= 2 && r.value[0] == '{' && r.value[|r.value| - 1] == '}'
  {
    var i := |BeforeFirst(t, '{')|;
    var j := RFind(t, '}');
    if i < |t| && j > i then Some(t[i..j + 1]) else None
  }

  /** `json.loads` on the text, then on its brace span; `decode` answers None where `json.loads` raises. */
  function Decode(text: string, decode: string -> Option<Json>): (r: Option<Json>)
    ensures decode(text).Some? ==> r == decode(text)
    ensures r.Some? && decode(text).None? ==> BraceSpan(text).Some? && r == decode(BraceSpan(text).value)
    ensures decode(text).None? && BraceSpan(text).None? ==> r.None?
    ensures decode(text).None? && BraceSpan(text).Some? ==> r == decode(BraceSpan(text).value)
    ensures r.Some? <==> decode(text).Some? || (BraceSpan(text).Some? && decode(BraceSpan(text).value).Some?)
  {
    match decode(text)
    case Some(v) => Some(v)
    case None =>
      match BraceSpan(text)
      case Some(span) => decode(span)
      case None => None
  }

  // ---------------------------------------------------------------------
  // Files
  // ---------------------------------------------------------------------

  /** An entry of "files" that is kept: an object with both "path" and "content". */
  predicate IsEntry(v: Json) {
    v.JObj? && "path" in v.fields && "content" in v.fields
  }

  /** A value `len` accepts: a string, a list or an object. */
  predicate Sized(c: Json) {
    c.JStr? || c.JArr? || c.JObj?
  }

  /** `len(c)`: characters of a string, items of a list, keys of an object. */
  function Len(c: Json): nat
    requires Sized(c)
  {
    match c
    case JStr(t) => |t|
    case JArr(items) => |items|
    case JObj(fields) => |fields|
  }

  /**
   * A kept entry the rest of the call can handle: `len` accepts its content,
   * and its path is a string, as `os.path.splitext` requires.
   */
  predicate Usable(v: Json) {
    IsEntry(v) && v.fields["path"].JStr? && Sized(v.fields["content"])
  }

  /** The kept entries of a list, in order. */
  function Entries(items: seq<Json>): (r: seq<Json>)
    ensures |r| <= |items|
  {
    Filter(items, IsEntry)
  }

  /** The entries to iterate: a list's items; a string or an object yields only strings; other values cannot be iterated. */
  function Iterated(v: Json): Option<seq<Json>> {
    match v
    case JArr(items) => Some(items)
    case JStr(_) => Some([])
    case JObj(_) => Some([])
    case _ => None
  }

  /** A value as an f-string renders it: a string as itself, anything else through `show`. */
  function Shown(c: Json, show: Json -> string): string {
    if c.JStr? then c.s else show(c)
  }

  /**
   * The file a usable entry becomes: its size is `len` of the content, so a
   * string's length, a list's items or an object's keys; its text is the
   * content as rendered; it is a priority file exactly when its path is listed.
   */
  function FileOf(v: Json, show: Json -> string): (f: Ingest.RepoFile)
    requires Usable(v)
    ensures f.path == v.fields["path"].s && f.size == Len(v.fields["content"])
    ensures v.fields["content"].JStr? ==> f.content == v.fields["content"].s && f.size == |f.content|
    ensures f.isPriority <==> f.path in PriorityPaths
  {
    var path := v.fields["path"].s;
    var content := v.fields["content"];
    Ingest.RepoFile(path, Shown(content, show), Len(content), path in PriorityPaths)
  }

  predicate AllUsable(kept: seq<Json>) {
    forall k :: 0 <= k < |kept| ==> Usable(kept[k])
  }

  /** The files the kept entries become, one each, in order. */
  function FilesOf(kept: seq<Json>, show: Json -> string): (r: seq<Ingest.RepoFile>)
    requires AllUsable(kept)
    ensures |r| == |kept| && forall k :: 0 <= k < |kept| ==> r[k] == FileOf(kept[k], show)
  {
    seq(|kept|, k requires 0 <= k < |kept| => FileOf(kept[k], show))
  }

  /** The language a file counts under: the table's entry, else the upper-cased extension, else "Text". */
  function ConceptLanguage(path: string): (r: string)
    ensures ExtNoDot(path) in ConceptLanguages ==> r == ConceptLanguages[ExtNoDot(path)]
    ensures ExtNoDot(path) !in ConceptLanguages ==> r == if ExtNoDot(path) != [] then Upper(ExtNoDot(path)) else "Text"
  {
    var ext := ExtNoDot(path);
    if ext in ConceptLanguages then ConceptLanguages[ext]
    else if ext != [] then Upper(ext)
    else "Text"
  }

  /** The language counts, in order of first appearance. */
  function ConceptStats(files: seq<Ingest.RepoFile>): (r: Ingest.LangStats)
    ensures Ingest.Total(r) == |files|
  {
    if |files| == 0 then []
    else Ingest.Bump(ConceptStats(files[..|files| - 1]), ConceptLanguage(files[|files| - 1].path))
  }

  /**
   * The concept's language counts list each language once, in order of
   * first appearance among the files, with its number of files.
   */
  lemma {:induction false} ConceptStatsCounts(files: seq<Ingest.RepoFile>)
    ensures ConceptStats(files) == Ingest.Counted(Ingest.Detected(files, ConceptLanguage))
    ensures var langs := Ingest.Detected(files, ConceptLanguage);
      && Ingest.Languages(ConceptStats(files)) == Ingest.FirstAppearances(langs)
      && forall l :: Ingest.CountOf(ConceptStats(files), l) == multiset(langs)[l]
    decreases |files|
  {
    var langs := Ingest.Detected(files, ConceptLanguage);
    if |files| > 0 {
      var init := files[..|files| - 1];
      ConceptStatsCounts(init);
      assert langs[..|langs| - 1] == Ingest.Detected(init, ConceptLanguage);
    }
    Ingest.CountedSpec(langs);
  }

  function Paths(files: seq<Ingest.RepoFile>): (r: seq<string>)
    ensures |r| == |files| && forall k :: 0 <= k < |files| ==> r[k] == files[k].path
  {
    seq(|files|, k requires 0 <= k < |files| => files[k].path)
  }

  function ConceptHeader(name: string, fileCount: nat): (r: seq<string>)
    ensures |r| == 2 && r[0] == "# Project: " + name
  {
    ["# Project: " + name, "Files: " + NatToString(fileCount)]
  }

  /** The text: a title, the file count, and one section per file in order. */
  function ConceptSections(name: string, files: seq<Ingest.RepoFile>): (r: seq<string>)
    ensures |r| == 2 + |files| && r[..2] == ConceptHeader(name, |files|)
    ensures forall k :: 0 <= k < |files| ==> r[2 + k] == Ingest.FileSection(files[k])
  {
    ConceptHeader(name, |files|) + seq(|files|, k requires 0 <= k < |files| => Ingest.FileSection(files[k]))
  }

  /** The repository built from the kept files. */
  function Build(name: string, files: seq<Ingest.RepoFile>): (r: ConceptRepo)
    ensures r.data.name == name && r.data.files == files && r.data.skippedCount == 0
  {
    var data := Ingest.RepoData(name, "concept://" + name, Join("\n", Paths(files)), files,
                                Ingest.SumSizes(files), 0, ConceptStats(files));
    ConceptRepo(data, Join("\n", ConceptSections(name, files)))
  }

  /** `str(name)`: the string itself, or `show` for any other value. */
  function NameOf(obj: map<string, Json>, show: Json -> string): string {
    if "name" !in obj then DefaultName
    else if obj["name"].JStr? then obj["name"].s
    else show(obj["name"])
  }

  /**
   * `parse_generated_repo`. `decode` is `json.loads` (None where it raises)
   * and `show` is `str` on a name or a content that is not a string.
   */
  function ParseGenerated(text: string, decode: string -> Option<Json>, show: Json -> string): (r: Outcome)
    ensures r.Repo? ==> r.repo.data.skippedCount == 0 && |r.repo.data.files| > 0
  {
    Decoded(Decode(StripFences(text), decode), show)
  }

  /** What `parse_generated_repo` does once the reply has decoded, or failed to. */
  function Decoded(decoded: Option<Json>, show: Json -> string): (r: Outcome)
    ensures r.Repo? ==> r.repo.data.skippedCount == 0 && |r.repo.data.files| > 0
  {
    match decoded
    case None => NoRepo
    case Some(v) =>
      if !v.JObj? || "files" !in v.fields then NoRepo
      else
        match Iterated(v.fields["files"])
        case None => Raises
        case Some(items) =>
          var kept := Entries(items);
          if |kept| == 0 then NoRepo
          else if !AllUsable(kept) then Raises
          else Repo(Build(NameOf(v.fields, show), FilesOf(kept, show)))
  }

  // ---------------------------------------------------------------------
  // Properties
  // ---------------------------------------------------------------------

  /** With a word-character tag, the opening fence run stops at the newline after the tag. */
  lemma WordRunStopsAtTag(tag: string, rest: string)
    requires forall k :: 0 <= k < |tag| ==> WordChar(tag[k])
    ensures WordRun(tag + "\n" + rest) == |tag|
  {
    var s := tag + "\n" + rest;
    assert s[|tag|] == '\n';
    assert forall k :: 0 <= k < |tag| ==> s[k] == tag[k];
  }

  lemma OpeningOfFence(fence: string, tag: string, rest: string)
    requires fence == "```"
    requires forall k :: 0 <= k < |tag| ==> WordChar(tag[k])
    ensures StartsWith(fence + tag + "\n" + rest, fence)
    ensures StripOpening(fence + tag + "\n" + rest) == rest
  {
    var t := fence + tag + "\n" + rest;
    assert t[..3] == fence;
    assert t[3..] == tag + "\n" + rest;
    WordRunStopsAtTag(tag, rest);
    assert t[3..][|tag|..] == "\n" + rest;
  }

  lemma ClosingOfFence(fence: string, body: string)
    requires fence == "```"
    ensures StripClosing(body + "\n" + fence) == body
  {
    var t := body + "\n" + fence;
    assert t[|t| - 4..] == "\n" + fence;
    assert t[..|t| - 4] == body;
  }

  /**
   * A fenced reply, "```tag", a newline, the body, a newline and "```",
   * gives back the body, provided the tag is a word and the body has no
   * whitespace at either end.
   */
  lemma FenceRoundTrip(tag: string, body: string)
    requires forall k :: 0 <= k < |tag| ==> WordChar(tag[k])
    requires body == [] || (!IsSpace(body[0]) && !IsSpace(body[|body| - 1]))
    ensures StripFences("```" + tag + "\n" + body + "\n```") == body
  {
    var fence := "```";
    var rest := body + "\n" + fence;
    var t := fence + tag + "\n" + rest;
    assert t == "```" + tag + "\n" + body + "\n```";
    assert t[0] == '`' && t[|t| - 1] == '`';
    StripKeeps(t);
    OpeningOfFence(fence, tag, rest);
    ClosingOfFence(fence, body);
    StripKeeps(body);
  }

  /** Some '{' comes before some '}'. */
  predicate HasBracePair(t: string) {
    exists i, j :: 0 <= i < j < |t| && t[i] == '{' && t[j] == '}'
  }

  /** `t[i]` is the first '{' and `t[j]` the last '}', with the '{' first. */
  predicate OuterBraces(t: string, i: int, j: int) {
    && 0 <= i < j < |t| && t[i] == '{' && t[j] == '}'
    && '{' !in t[..i]
    && forall k :: j < k < |t| ==> t[k] != '}'
  }

  /**
   * The brace search succeeds exactly when some '{' precedes some '}', and
   * then yields the slice from the first '{' to the last '}'.
   */
  lemma BraceSpanSpec(t: string)
    ensures BraceSpan(t).Some? <==> HasBracePair(t)
    ensures BraceSpan(t).Some? ==> exists i, j :: OuterBraces(t, i, j) && BraceSpan(t).value == t[i..j + 1]
  {
    var i := |BeforeFirst(t, '{')|;
    var j := RFind(t, '}');
    assert t[..i] == BeforeFirst(t, '{');
    if HasBracePair(t) {
      var a, b :| 0 <= a < b < |t| && t[a] == '{' && t[b] == '}';
      assert i <= a;
      assert j >= b;
    }
    if BraceSpan(t).Some? {
      assert OuterBraces(t, i, j);
    }
  }

  /** The call gives `None` when nothing decodes, when the value is no object with "files", or when no entry has both keys. */
  lemma NoRepoCases(text: string, decode: string -> Option<Json>, show: Json -> string)
    ensures var v := Decode(StripFences(text), decode);
      ParseGenerated(text, decode, show) == NoRepo <==>
        || v.None?
        || !v.value.JObj? || "files" !in v.value.fields
        || (Iterated(v.value.fields["files"]).Some?
            && forall k :: 0 <= k < |Iterated(v.value.fields["files"]).value| ==> !IsEntry(Iterated(v.value.fields["files"]).value[k]))
  {
    DecodedNoRepo(Decode(StripFences(text), decode), show);
  }

  lemma DecodedNoRepo(v: Option<Json>, show: Json -> string)
    ensures Decoded(v, show) == NoRepo <==>
        || v.None?
        || !v.value.JObj? || "files" !in v.value.fields
        || (Iterated(v.value.fields["files"]).Some?
            && forall k :: 0 <= k < |Iterated(v.value.fields["files"]).value| ==> !IsEntry(Iterated(v.value.fields["files"]).value[k]))
  {
    if v.Some? && v.value.JObj? && "files" in v.value.fields && Iterated(v.value.fields["files"]).Some? {
      var items := Iterated(v.value.fields["files"]).value;
      if forall k :: 0 <= k < |items| ==> !IsEntry(items[k]) {
        FilterNone(items, IsEntry);
      } else {
        var k :| 0 <= k < |items| && IsEntry(items[k]);
        assert items[k] in Entries(items);
      }
    }
  }

  /** Entry by entry: every entry with both keys becomes a file, and every file comes from such an entry. */
  lemma FilesOfEntries(items: seq<Json>, show: Json -> string)
    requires AllUsable(Entries(items))
    ensures var files := FilesOf(Entries(items), show);
      && (forall e :: e in items && IsEntry(e) ==> Usable(e) && FileOf(e, show) in files)
      && (forall f :: f in files ==> exists e :: e in items && Usable(e) && f == FileOf(e, show))
      && (forall f :: f in files ==> (f.isPriority <==> f.path in PriorityPaths))
  {
    var kept := Entries(items);
    var files := FilesOf(kept, show);
    forall e | e in items && IsEntry(e) ensures Usable(e) && FileOf(e, show) in files {
      assert e in kept;
      var k :| 0 <= k < |kept| && kept[k] == e;
      assert files[k] == FileOf(e, show);
    }
    forall f | f in files
      ensures (exists e :: e in items && Usable(e) && f == FileOf(e, show)) && (f.isPriority <==> f.path in PriorityPaths)
    {
      var k :| 0 <= k < |files| && files[k] == f;
      assert kept[k] in kept;
      assert f == FileOf(kept[k], show);
    }
  }

  /**
   * The kept files are the entries with both keys, one file per entry:
   * each file carries its entry's path and rendered content, its size is
   * `len` of the content, and it is a priority file exactly when its path is
   * one of the listed names.
   */
  lemma KeptFiles(text: string, decode: string -> Option<Json>, show: Json -> string)
    ensures var r := ParseGenerated(text, decode, show);
      r.Repo? ==>
        var v := Decode(StripFences(text), decode).value;
        var items := Iterated(v.fields["files"]).value;
        var files := r.repo.data.files;
        && |files| == |Entries(items)|
        && (forall e :: e in items && IsEntry(e) ==> Usable(e) && FileOf(e, show) in files)
        && (forall f :: f in files ==> exists e :: e in items && Usable(e) && f == FileOf(e, show))
        && (forall f :: f in files ==> (f.isPriority <==> f.path in PriorityPaths))
  {
    var r := ParseGenerated(text, decode, show);
    if r.Repo? {
      var v := Decode(StripFences(text), decode).value;
      var items := Iterated(v.fields["files"]).value;
      assert r.repo.data.files == FilesOf(Entries(items), show);
      FilesOfEntries(items, show);
    }
  }

  /**
   * The repository's counts: the characters are the sum of the file sizes,
   * nothing is skipped, the language counts add up to the number of files,
   * the URL is "concept://" and the name, and the name defaults to
   * "concept-demo".
   */
  lemma ConceptTotals(text: string, decode: string -> Option<Json>, show: Json -> string)
    ensures var r := ParseGenerated(text, decode, show);
      r.Repo? ==>
        var d := r.repo.data;
        && d.totalChars == Ingest.SumSizes(d.files)
        && d.skippedCount == 0
        && Ingest.Total(d.languageStats) == |d.files|
        && d.url == "concept://" + d.name
        && ("name" !in Decode(StripFences(text), decode).value.fields ==> d.name == DefaultName)
  {
    DecodedTotals(Decode(StripFences(text), decode), show);
  }

  lemma DecodedTotals(v: Option<Json>, show: Json -> string)
    ensures var r := Decoded(v, show);
      r.Repo? ==>
        var d := r.repo.data;
        && d.totalChars == Ingest.SumSizes(d.files)
        && d.skippedCount == 0
        && Ingest.Total(d.languageStats) == |d.files|
        && d.url == "concept://" + d.name
        && ("name" !in v.value.fields ==> d.name == DefaultName)
  {
  }

  /**
   * The text opens with the project's name and the file count and then has
   * one section per file, in the order the files were given.
   */
  lemma ConceptTextInOrder(name: string, files: seq<Ingest.RepoFile>)
    ensures var secs := ConceptSections(name, files);
      && secs[0] == "# Project: " + name
      && forall k :: 0 <= k < |files| ==> secs[2 + k] == Ingest.FileSection(files[k])
  {
    assert ConceptSections(name, files)[..2][0] == ConceptHeader(name, |files|)[0];
  }

  /**
   * The call raises exactly when "files" cannot be iterated, or when an entry
   * with both keys has a path that is no string or a content without a
   * length (a number, a boolean or null).
   */
  lemma RaisesCases(text: string, decode: string -> Option<Json>, show: Json -> string)
    ensures var v := Decode(StripFences(text), decode);
      ParseGenerated(text, decode, show) == Raises <==>
        && v.Some? && v.value.JObj? && "files" in v.value.fields
        && (|| Iterated(v.value.fields["files"]).None?
            || (exists e :: e in Iterated(v.value.fields["files"]).value && IsEntry(e) && !Usable(e)))
  {
    DecodedRaises(Decode(StripFences(text), decode), show);
  }

  lemma DecodedRaises(v: Option<Json>, show: Json -> string)
    ensures Decoded(v, show) == Raises <==>
        && v.Some? && v.value.JObj? && "files" in v.value.fields
        && (|| Iterated(v.value.fields["files"]).None?
            || (exists e :: e in Iterated(v.value.fields["files"]).value && IsEntry(e) && !Usable(e)))
  {
    if v.Some? && v.value.JObj? && "files" in v.value.fields && Iterated(v.value.fields["files"]).Some? {
      var items := Iterated(v.value.fields["files"]).value;
      var kept := Entries(items);
      if exists e :: e in items && IsEntry(e) && !Usable(e) {
        var e :| e in items && IsEntry(e) && !Usable(e);
        assert e in kept;
      } else if |kept| > 0 {
        forall k | 0 <= k < |kept| ensures Usable(kept[k]) {
          assert kept[k] in kept;
        }
      }
    }
  }

  /** The entry {"path": "a.py", "content": [1, 2]}: its content is a list of two items. */
  const ListEntry: Json := JObj(map["path" := JStr("a.py"), "content" := JArr([JNum(1), JNum(2)])])

  lemma ListEntryFile(show: Json -> string)
    ensures Usable(ListEntry)
    ensures FileOf(ListEntry, show) == Ingest.RepoFile("a.py", show(JArr([JNum(1), JNum(2)])), 2, false)
  {
    assert "a.py" !in PriorityPaths;
  }

  lemma ListEntryKept()
    ensures Entries([ListEntry]) == [ListEntry] && AllUsable([ListEntry])
  {
    ListEntryFile(x => "");
    FilterKeepsAll([ListEntry], IsEntry);
  }

  /** A decoded object whose "files" lists usable entries, at least one, becomes the repository of those entries. */
  lemma ParseOfEntries(text: string, decode: string -> Option<Json>, show: Json -> string, v: Json, items: seq<Json>)
    requires Decode(StripFences(text), decode) == Some(v)
    requires v.JObj? && "files" in v.fields && v.fields["files"] == JArr(items)
    requires |Entries(items)| > 0 && AllUsable(Entries(items))
    ensures ParseGenerated(text, decode, show) == Repo(Build(NameOf(v.fields, show), FilesOf(Entries(items), show)))
  {
    DecodedEntries(v, items, show);
  }

  lemma DecodedEntries(v: Json, items: seq<Json>, show: Json -> string)
    requires v.JObj? && "files" in v.fields && v.fields["files"] == JArr(items)
    requires |Entries(items)| > 0 && AllUsable(Entries(items))
    ensures Decoded(Some(v), show) == Repo(Build(NameOf(v.fields, show), FilesOf(Entries(items), show)))
  {
    assert Iterated(v.fields["files"]) == Some(items);
  }

  /** A list content has a length, so the entry becomes a file of size 2 instead of raising. */
  lemma ListContentIsKept(text: string, decode: string -> Option<Json>, show: Json -> string)
    requires decode(StripFences(text)) == Some(JObj(map["files" := JArr([ListEntry])]))
    ensures ParseGenerated(text, decode, show).Repo?
    ensures ParseGenerated(text, decode, show).repo.data.files == [Ingest.RepoFile("a.py", show(JArr([JNum(1), JNum(2)])), 2, false)]
  {
    var v := ListDecoded(text, decode);
    ListEntryFiles(show);
    ParseOfEntries(text, decode, show, v, [ListEntry]);
  }

  lemma ListDecoded(text: string, decode: string -> Option<Json>) returns (v: Json)
    requires decode(StripFences(text)) == Some(JObj(map["files" := JArr([ListEntry])]))
    ensures v == JObj(map["files" := JArr([ListEntry])])
    ensures Decode(StripFences(text), decode) == Some(v)
    ensures v.JObj? && "files" in v.fields && v.fields["files"] == JArr([ListEntry])
  {
    v := JObj(map["files" := JArr([ListEntry])]);
  }

  lemma ListEntryFiles(show: Json -> string)
    ensures |Entries([ListEntry])| > 0 && AllUsable(Entries([ListEntry]))
    ensures FilesOf(Entries([ListEntry]), show) == [Ingest.RepoFile("a.py", show(JArr([JNum(1), JNum(2)])), 2, false)]
  {
    ListEntryKept();
    ListEntryFile(show);
    assert FilesOf([ListEntry], show) == [FileOf(ListEntry, show)];
  }

  lemma ReadmeIsMarkdown()
    ensures ConceptLanguage("demo/README.md") == "Markdown"
  {
    RFindIs("demo/README.md", '/', 4);
    RFindIs("README.md", '.', 6);
    assert BaseName("demo/README.md") == "README.md";
    assert "README.md"[..6][0] != '.';
    assert NameExt("README.md") == ".md";
    assert ExtNoDot("demo/README.md") == "md";
  }

  lemma AppKtExtension()
    ensures ExtNoDot("src/App.kt") == "kt"
  {
    RFindIs("src/App.kt", '/', 3);
    RFindIs("App.kt", '.', 3);
    assert BaseName("src/App.kt") == "App.kt";
    assert "App.kt"[..3][0] != '.';
    assert NameExt("App.kt") == ".kt";
  }

  lemma KtNotInTable()
    ensures "kt" !in ConceptLanguages
  {
  }

  lemma LanguageFallback(path: string, ext: string)
    requires ExtNoDot(path) == ext && ext != [] && ext !in ConceptLanguages
    ensures ConceptLanguage(path) == Upper(ext)
  {
  }

  /** An extension missing from the table counts under its upper-cased self. */
  lemma UnknownExtensionUpperCased()
    ensures ConceptLanguage("src/App.kt") == "KT"
  {
    AppKtExtension();
    KtNotInTable();
    LanguageFallback("src/App.kt", "kt");
    UpperKt();
  }

  lemma UpperKt()
    ensures Upper("kt") == "KT"
  {
    assert Upper("kt")[0] == 'K' && Upper("kt")[1] == 'T';
  }

  lemma NoExtensionIsText()
    ensures ConceptLanguage("Makefile") == "Text"
  {
    RFindIs("Makefile", '/', -1);
    RFindIs("Makefile", '.', -1);
  }
}
