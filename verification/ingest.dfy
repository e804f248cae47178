/**
 * Repository ingestion (src/ingest.py) over an abstract checkout: the walk
 * of the clone is a sequence of files in the order the directory walk
 * yields them, each with the result of asking for its size and of reading
 * it. Cloning, the directory tree drawing and the file system are not part
 * of this model.
 */
module Ingest {
  import opened Wrappers
  import opened Text
  import opened Seqs
  import StableSort

  /** MAX_FILE_SIZE, in bytes. */
  const MaxFileSize: nat := 100000
  /** MAX_TOTAL_CHARS, the character budget for one repository. */
  const MaxTotalChars: nat := 500000

  /** PRIORITY_FILES: high-signal file names read first. */
  const PriorityFiles: seq<string> := [
    "README.md", "README.rst", "README.txt", "README",
    "ARCHITECTURE.md", "CONTRIBUTING.md", "DESIGN.md",
    "package.json", "Cargo.toml", "pyproject.toml", "setup.py", "setup.cfg",
    "go.mod", "Gemfile", "pom.xml", "build.gradle",
    "Makefile", "Dockerfile", "docker-compose.yml", "docker-compose.yaml",
    ".env.example", "requirements.txt"]

  /** SKIP_DIRS. "*.egg-info" is an ordinary member, not a pattern. */
  const SkipDirs: set<string> := {
    ".git", "node_modules", "__pycache__", ".venv", "venv", "env",
    "dist", "build", ".next", ".nuxt", "target", "vendor",
    ".tox", ".mypy_cache", ".pytest_cache", "coverage",
    ".idea", ".vscode", ".DS_Store", "eggs", "*.egg-info"}

  /** SKIP_EXTENSIONS. The two entries with two dots can never equal an extension. */
  const SkipExtensions: set<string> := {
    ".png", ".jpg", ".jpeg", ".gif", ".ico", ".svg", ".webp",
    ".mp3", ".mp4", ".wav", ".avi", ".mov",
    ".zip", ".tar", ".gz", ".bz2", ".rar", ".7z",
    ".woff", ".woff2", ".ttf", ".eot",
    ".pyc", ".pyo", ".so", ".dll", ".dylib",
    ".exe", ".bin", ".dat", ".db", ".sqlite",
    ".lock", ".sum",
    ".min.js", ".min.css"}

  /** The extension table of `detect_language`. */
  const LanguageOf: map<string, string> := map[
    ".py" := "Python", ".js" := "JavaScript", ".ts" := "TypeScript",
    ".tsx" := "TypeScript", ".jsx" := "JavaScript", ".rb" := "Ruby",
    ".go" := "Go", ".rs" := "Rust", ".java" := "Java", ".kt" := "Kotlin",
    ".c" := "C", ".cpp" := "C++", ".h" := "C/C++", ".cs" := "C#",
    ".swift" := "Swift", ".php" := "PHP", ".lua" := "Lua",
    ".sh" := "Shell", ".bash" := "Shell", ".zsh" := "Shell",
    ".html" := "HTML", ".css" := "CSS", ".scss" := "SCSS",
    ".sql" := "SQL", ".md" := "Markdown", ".yml" := "YAML", ".yaml" := "YAML",
    ".json" := "JSON", ".toml" := "TOML", ".xml" := "XML"]

  /** `should_skip_dir`: a listed name, or any hidden directory. */
  predicate ShouldSkipDir(name: string): (r: bool)
    ensures r <==> name in SkipDirs || (|name| > 0 && name[0] == '.')
  {
    name in SkipDirs || StartsWith(name, ".")
  }

  /**
   * `should_skip_file`: a listed extension (case-insensitively) or a
   * minified bundle.
   */
  predicate ShouldSkipFile(path: string): (r: bool)
    ensures Lower(NameExt(BaseName(path))) in SkipExtensions ==> r
    ensures EndsWith(BaseName(path), ".min.js") || EndsWith(BaseName(path), ".min.css") ==> r
    ensures r ==> (Lower(NameExt(BaseName(path))) in SkipExtensions
                   || EndsWith(BaseName(path), ".min.js") || EndsWith(BaseName(path), ".min.css"))
  {
    var name := BaseName(path);
    Lower(NameExt(name)) in SkipExtensions || EndsWith(name, ".min.js") || EndsWith(name, ".min.css")
  }

  /** `detect_language`: the language of the lower-cased extension, or "Other". */
  function DetectLanguage(path: string): (r: string)
    ensures Lower(Ext(path)) in LanguageOf ==> r == LanguageOf[Lower(Ext(path))]
    ensures Lower(Ext(path)) !in LanguageOf ==> r == "Other"
  {
    var e := Lower(Ext(path));
    if e in LanguageOf then LanguageOf[e] else "Other"
  }

  /** Every listed extension starts with its dot. */
  lemma SkipExtensionsDotted(e: string)
    requires e in SkipExtensions
    ensures |e| > 1 && e[0] == '.'
  {
  }

  /**
   * A file named by a stem that is not hidden, followed by one of the
   * one-dot listed extensions in any mix of letter case, is skipped, at
   * the top of the checkout and in any directory.
   */
  lemma SkipsListedExtension(dir: string, stem: string, ext: string)
    requires stem != [] && stem[0] != '.' && '/' !in stem
    requires Lower(ext) in SkipExtensions && '.' !in ext[1..] && '/' !in ext
    ensures ShouldSkipFile(stem + ext)
    ensures ShouldSkipFile(dir + "/" + stem + ext)
  {
    SkipsAtTop(stem, ext);
    SkipsUnder(dir, stem, ext);
  }

  lemma SkipsAtTop(stem: string, ext: string)
    requires stem != [] && stem[0] != '.' && '/' !in stem
    requires Lower(ext) in SkipExtensions && '.' !in ext[1..] && '/' !in ext
    ensures ShouldSkipFile(stem + ext)
  {
    var name := NameWithListedExt(stem, ext);
    BaseNameOfLast(name, name);
    SkipsByName(name, name, ext);
  }

  lemma SkipsUnder(dir: string, stem: string, ext: string)
    requires stem != [] && stem[0] != '.' && '/' !in stem
    requires Lower(ext) in SkipExtensions && '.' !in ext[1..] && '/' !in ext
    ensures ShouldSkipFile(dir + "/" + stem + ext)
  {
    var name := NameWithListedExt(stem, ext);
    var path := UnderDir(dir, stem, ext);
    BaseNameOfLast(path, name);
    SkipsByName(path, name, ext);
  }

  /** A path whose base name has a listed splitext extension is skipped. */
  lemma SkipsByName(path: string, name: string, ext: string)
    requires BaseName(path) == name && NameExt(name) == ext && Lower(ext) in SkipExtensions
    ensures ShouldSkipFile(path)
  {
  }

  lemma NameWithListedExt(stem: string, ext: string) returns (name: string)
    requires stem != [] && stem[0] != '.' && '/' !in stem
    requires Lower(ext) in SkipExtensions && '.' !in ext[1..] && '/' !in ext
    ensures name == stem + ext && '/' !in name && NameExt(name) == ext
  {
    SkipExtensionsDotted(Lower(ext));
    assert Lower(ext)[0] == LowerChar(ext[0]);
    name := NameWithExt(stem, ext);
  }

  /** A stem that is not hidden followed by a one-dot extension: a name whose splitext extension is `ext`. */
  lemma NameWithExt(stem: string, ext: string) returns (name: string)
    requires stem != [] && stem[0] != '.' && '/' !in stem
    requires ext != [] && ext[0] == '.' && '.' !in ext[1..] && '/' !in ext
    ensures name == stem + ext && '/' !in name && NameExt(name) == ext
  {
    name := stem + ext;
    forall k | 0 <= k < |name| ensures name[k] != '/' {
      if k < |stem| { assert name[k] == stem[k]; } else { assert name[k] == ext[k - |stem|]; }
    }
    forall k | |stem| < k < |name| ensures name[k] != '.' {
      assert name[k] == ext[1..][k - |stem| - 1];
    }
    RFindIs(name, '.', |stem|);
    assert name[..|stem|] == stem && name[|stem|..] == ext;
    assert !AllDots(stem);
  }

  /** Priority is decided by the file's own name, wherever it sits. */
  predicate IsPriority(path: string): (r: bool)
    ensures r <==> exists k :: 0 <= k < |PriorityFiles| && (path == PriorityFiles[k] || EndsWith(path, "/" + PriorityFiles[k]))
  {
    var b := BaseName(path);
    PriorityNamesFlat();
    if b in PriorityFiles then
      var k :| 0 <= k < |PriorityFiles| && PriorityFiles[k] == b;
      BaseNameCases(path);
      true
    else
      assert forall k :: 0 <= k < |PriorityFiles| ==> !(path == PriorityFiles[k] || EndsWith(path, "/" + PriorityFiles[k])) by {
        forall k | 0 <= k < |PriorityFiles| ensures !(path == PriorityFiles[k] || EndsWith(path, "/" + PriorityFiles[k])) {
          if path == PriorityFiles[k] || EndsWith(path, "/" + PriorityFiles[k]) {
            BaseNameOfLast(path, PriorityFiles[k]);
          }
        }
      }
      false
  }

  /** No priority name contains a '/'. */
  lemma PriorityNamesFlat()
    ensures forall k :: 0 <= k < |PriorityFiles| ==> '/' !in PriorityFiles[k]
  {
  }

  /** Only the last component of a path decides whether the file is skipped or a priority file. */
  lemma FiltersUseBaseName(path: string)
    ensures ShouldSkipFile(path) == ShouldSkipFile(BaseName(path))
    ensures IsPriority(path) == IsPriority(BaseName(path))
  {
    BaseNameOfName(path);
    assert ShouldSkipFile(path) == ShouldSkipFile(BaseName(path));
    assert IsPriority(path) == IsPriority(BaseName(path));
  }

  /** The language, too, depends only on the last path component. */
  lemma LanguageUsesBaseName(path: string)
    ensures DetectLanguage(path) == DetectLanguage(BaseName(path))
  {
    BaseNameOfName(path);
    assert Ext(path) == Ext(BaseName(path));
  }

  /** The directory components of a relative path: everything but the last piece. */
  function DirParts(path: string): (r: seq<string>)
    ensures forall k :: 0 <= k < |r| ==> '/' !in r[k]
  {
    var parts := Split(path, '/');
    parts[..|parts| - 1]
  }

  /** Some directory on the way to the file is skipped. */
  predicate InSkippedDir(path: string) {
    exists k :: 0 <= k < |DirParts(path)| && ShouldSkipDir(DirParts(path)[k])
  }

  // ---------------------------------------------------------------------
  // Language statistics: a dict, languages in order of first appearance
  // ---------------------------------------------------------------------

  type LangStats = seq<(string, nat)>

  function Languages(stats: LangStats): seq<string> {
    seq(|stats|, k requires 0 <= k < |stats| => stats[k].0)
  }

  /** The sum of the counts. */
  function Total(stats: LangStats): nat {
    if |stats| == 0 then 0 else Total(stats[..|stats| - 1]) + stats[|stats| - 1].1
  }

  function CountOf(stats: LangStats, lang: string): nat {
    if |stats| == 0 then 0
    else if stats[|stats| - 1].0 == lang then stats[|stats| - 1].1
    else CountOf(stats[..|stats| - 1], lang)
  }

  /**
   * `stats[lang] = stats.get(lang, 0) + 1`: a known language's count goes
   * up in place; a new language is appended with count 1, as a dict
   * appends a new key.
   */
  function Bump(stats: LangStats, lang: string): (r: LangStats)
    ensures Total(r) == Total(stats) + 1
    decreases |stats|
  {
    if lang !in Languages(stats) then
      var r := stats + [(lang, 1)];
      assert r[..|r| - 1] == stats;
      r
    else
      var init, last := stats[..|stats| - 1], stats[|stats| - 1];
      if last.0 == lang then
        var r := init + [(lang, last.1 + 1)];
        assert r[..|r| - 1] == init;
        r
      else
        var b := Bump(init, lang);
        var r := b + [last];
        assert r[..|r| - 1] == b;
        r
  }

  lemma DistinctPrefix(q: seq<string>, n: nat)
    requires Distinct(q) && n <= |q|
    ensures Distinct(q[..n])
  {
    forall i, j | 0 <= i < j < n ensures q[..n][i] != q[..n][j] {
      assert q[..n][i] == q[i] && q[..n][j] == q[j];
    }
  }

  /** A language the table does not list has count 0. */
  lemma {:induction false} CountOfAbsent(stats: LangStats, lang: string)
    requires lang !in Languages(stats)
    ensures CountOf(stats, lang) == 0
    decreases |stats|
  {
    if |stats| > 0 {
      var init := stats[..|stats| - 1];
      assert Languages(stats) == Languages(init) + [stats[|stats| - 1].0];
      CountOfAbsent(init, lang);
    }
  }

  /**
   * Counting one more file of `lang`: a new language is appended at the end
   * with count 1 and a known one keeps its place, so the table's languages
   * stay in order of first appearance and free of duplicates; only the count
   * of `lang` changes, by one.
   */
  lemma {:induction false} BumpSpec(stats: LangStats, lang: string)
    ensures lang !in Languages(stats) ==> Bump(stats, lang) == stats + [(lang, 1)]
    ensures lang in Languages(stats) ==> Languages(Bump(stats, lang)) == Languages(stats)
    ensures forall l :: l in Languages(Bump(stats, lang)) <==> l in Languages(stats) || l == lang
    ensures Distinct(Languages(stats)) ==> Distinct(Languages(Bump(stats, lang)))
    ensures Distinct(Languages(stats)) ==> CountOf(Bump(stats, lang), lang) == CountOf(stats, lang) + 1
    ensures Distinct(Languages(stats)) ==> forall l :: l != lang ==> CountOf(Bump(stats, lang), l) == CountOf(stats, l)
    decreases |stats|
  {
    var r := Bump(stats, lang);
    if lang !in Languages(stats) {
      assert r == stats + [(lang, 1)];
      assert r[..|r| - 1] == stats;
      assert Languages(r) == Languages(stats) + [lang];
      CountOfAbsent(stats, lang);
      if Distinct(Languages(stats)) {
        AppendFresh(Languages(stats), lang);
      }
    } else {
      var init, last := stats[..|stats| - 1], stats[|stats| - 1];
      assert Languages(stats) == Languages(init) + [last.0];
      if last.0 == lang {
        assert r == init + [(lang, last.1 + 1)];
        assert r[..|r| - 1] == init;
        assert Languages(r) == Languages(init) + [lang];
      } else {
        var b := Bump(init, lang);
        assert lang in Languages(init);
        if Distinct(Languages(stats)) {
          DistinctPrefix(Languages(stats), |init|);
          assert Languages(stats)[..|init|] == Languages(init);
        }
        BumpSpec(init, lang);
        assert r == b + [last];
        assert r[..|r| - 1] == b;
        assert Languages(r) == Languages(b) + [last.0];
      }
    }
  }

  /** The table built by counting `langs` one after another, as the ingestion loops do. */
  function Counted(langs: seq<string>): (r: LangStats)
    ensures Total(r) == |langs|
  {
    if |langs| == 0 then [] else Bump(Counted(langs[..|langs| - 1]), langs[|langs| - 1])
  }

  /** Each language once, at the place where it first occurs. */
  function FirstAppearances(langs: seq<string>): seq<string> {
    if |langs| == 0 then []
    else
      var init, last := langs[..|langs| - 1], langs[|langs| - 1];
      if last in init then FirstAppearances(init) else FirstAppearances(init) + [last]
  }

  /**
   * Counting a sequence of detections lists each detected language once, in
   * order of first appearance, with the number of times it was detected.
   */
  lemma {:induction false} CountedSpec(langs: seq<string>)
    ensures Languages(Counted(langs)) == FirstAppearances(langs)
    ensures forall l :: l in FirstAppearances(langs) <==> l in langs
    ensures Distinct(FirstAppearances(langs))
    ensures forall l :: CountOf(Counted(langs), l) == multiset(langs)[l]
    decreases |langs|
  {
    if |langs| > 0 {
      var init, last := langs[..|langs| - 1], langs[|langs| - 1];
      assert langs == init + [last];
      var stats := Counted(init);
      CountedSpec(init);
      BumpSpec(stats, last);
      var r := Bump(stats, last);
      assert r == Counted(langs);
      if last !in init {
        assert r[..|r| - 1] == stats;
        assert Languages(r) == Languages(stats) + [last];
      }
    }
  }

  // ---------------------------------------------------------------------
  // Files
  // ---------------------------------------------------------------------

  /**
   * One file the walk of the checkout yields: its path relative to the
   * root, its size in bytes (None when the size query fails) and its text
   * as read with undecodable bytes dropped (None when reading raises).
   */
  datatype WalkFile = WalkFile(relPath: string, size: Option<nat>, text: Option<string>)

  /** A file that passed the filters, waiting to be read. */
  datatype Candidate = Candidate(relPath: string, size: nat, isPriority: bool, text: Option<string>)

  /** `RepoFile` */
  datatype RepoFile = RepoFile(path: string, content: string, size: nat, isPriority: bool)

  /** `RepoData`, without the checkout's local path. */
  datatype RepoData = RepoData(name: string, url: string, tree: string, files: seq<RepoFile>,
                               totalChars: nat, skippedCount: nat, languageStats: LangStats)

  predicate Reached(f: WalkFile) {
    !InSkippedDir(f.relPath)
  }

  /** Files the directory walk reaches: skipped directories are pruned before descending. */
  function Walked(walk: seq<WalkFile>): (r: seq<WalkFile>)
    ensures forall f :: f in r <==> f in walk && !InSkippedDir(f.relPath)
  {
    Filter(walk, Reached)
  }

  /** A reached file that becomes a candidate: not filtered, its size known and within MAX_FILE_SIZE. */
  function Passing(skip: string -> bool): WalkFile -> bool {
    (f: WalkFile) => !skip(f.relPath) && f.size.Some? && f.size.value <= MaxFileSize
  }

  /** A reached file that is neither kept nor counted: not filtered, but its size query fails. */
  function Unsized(skip: string -> bool): WalkFile -> bool {
    (f: WalkFile) => !skip(f.relPath) && f.size.None?
  }

  /** The candidate a passing file becomes. */
  function ToCandidate(f: WalkFile, prio: string -> bool): Candidate {
    Candidate(f.relPath, if f.size.Some? then f.size.value else 0, prio(f.relPath), f.text)
  }

  function Candidates(fs: seq<WalkFile>, prio: string -> bool): (r: seq<Candidate>)
    ensures |r| == |fs|
  {
    seq(|fs|, k requires 0 <= k < |fs| => ToCandidate(fs[k], prio))
  }

  /**
   * The collection loop, with the two name filters as parameters: counts
   * filtered and oversized files as skipped, drops files whose size cannot
   * be read without counting them, and keeps the rest in walk order.
   */
  function CollectWith(walked: seq<WalkFile>, skip: string -> bool, prio: string -> bool): (r: (seq<Candidate>, nat))
    ensures r.0 == Candidates(Filter(walked, Passing(skip)), prio)
    ensures |r.0| + r.1 + |Filter(walked, Unsized(skip))| == |walked|
    ensures forall c :: c in r.0 ==> c.size <= MaxFileSize && !skip(c.relPath) && c.isPriority == prio(c.relPath)
  {
    if |walked| == 0 then ([], 0)
    else
      var f := walked[0];
      var rest := CollectWith(walked[1..], skip, prio);
      var tail := Filter(walked[1..], Passing(skip));
      assert Candidates([f] + tail, prio) == [ToCandidate(f, prio)] + Candidates(tail, prio);
      if skip(f.relPath) then (rest.0, rest.1 + 1)
      else if f.size.None? then rest
      else if f.size.value > MaxFileSize then (rest.0, rest.1 + 1)
      else ([Candidate(f.relPath, f.size.value, prio(f.relPath), f.text)] + rest.0, rest.1)
  }

  /**
   * The collection loop of `ingest_repo`: the candidates are exactly the
   * reached files that pass, in walk order; every other reached file is
   * counted as skipped unless its size query failed.
   */
  function Collect(walked: seq<WalkFile>): (r: (seq<Candidate>, nat))
    ensures r.0 == Candidates(Filter(walked, Passing(ShouldSkipFile)), IsPriority)
    ensures |r.0| + r.1 + |Filter(walked, Unsized(ShouldSkipFile))| == |walked|
    ensures forall c :: c in r.0 ==> c.size <= MaxFileSize && !ShouldSkipFile(c.relPath)
    ensures forall c :: c in r.0 ==> c.isPriority == IsPriority(c.relPath)
  {
    CollectWith(walked, ShouldSkipFile, IsPriority)
  }

  /** The sort key `(not is_priority, size)`. */
  function CandidateRank(c: Candidate): StableSort.Rank {
    (if c.isPriority then 0 else 1, c.size)
  }

  /** Candidates in reading order: priority files first, then smallest first. */
  function Order(cands: seq<Candidate>): seq<Candidate> {
    StableSort.Sort(cands, CandidateRank)
  }

  /** Work done by the reading loop so far. */
  datatype Acc = Acc(files: seq<RepoFile>, total: nat, skipped: nat, stats: LangStats)

  /** Taking a readable candidate: its text is kept whole and counted under `lang`, its language. */
  function Take(acc: Acc, c: Candidate, content: string, lang: string): (r: Acc)
    ensures r.files == acc.files + [RepoFile(c.relPath, content, |content|, c.isPriority)]
    ensures r.total == acc.total + |content| && r.skipped == acc.skipped
  {
    Acc(acc.files + [RepoFile(c.relPath, content, |content|, c.isPriority)],
        acc.total + |content|,
        acc.skipped,
        Bump(acc.stats, lang))
  }

  /**
   * The reading loop: once the budget is reached every further file is
   * skipped; an unreadable file is skipped; any other file is taken whole,
   * so the last one taken may carry the total past the budget. `lang` is
   * the language detection.
   */
  function Read(cands: seq<Candidate>, acc: Acc, lang: string -> string): (r: Acc)
    ensures |r.files| + r.skipped == |acc.files| + acc.skipped + |cands|
    ensures |acc.files| <= |r.files| && r.files[..|acc.files|] == acc.files
    decreases |cands|
  {
    if |cands| == 0 then acc
    else
      var c := cands[0];
      if acc.total >= MaxTotalChars then Read(cands[1..], acc.(skipped := acc.skipped + 1), lang)
      else if c.text.None? then Read(cands[1..], acc.(skipped := acc.skipped + 1), lang)
      else Read(cands[1..], Take(acc, c, c.text.value, lang(c.relPath)), lang)
  }

  /** `ingest_repo` after the clone: `name` is the clone directory's name and `tree` its drawing. */
  function IngestRepo(name: string, url: string, tree: string, walk: seq<WalkFile>): (r: RepoData)
    ensures r.name == name && r.url == url && r.tree == tree
  {
    IngestWith(name, url, tree, walk, ShouldSkipFile, IsPriority, DetectLanguage)
  }

  /** `ingest_repo` with the name filters and the language detection as parameters. */
  function IngestWith(name: string, url: string, tree: string, walk: seq<WalkFile>,
                      skip: string -> bool, prio: string -> bool, lang: string -> string): RepoData
  {
    var collected := CollectWith(Walked(walk), skip, prio);
    var acc := Read(Order(collected.0), Acc([], 0, collected.1, []), lang);
    RepoData(name, url, tree, acc.files, acc.total, acc.skipped, acc.stats)
  }

  function SumSizes(files: seq<RepoFile>): nat {
    if |files| == 0 then 0 else SumSizes(files[..|files| - 1]) + files[|files| - 1].size
  }

  /** What the reading loop keeps true of its accumulator. */
  predicate AccInv(acc: Acc) {
    && acc.total == SumSizes(acc.files)
    && Total(acc.stats) == |acc.files|
    && Distinct(Languages(acc.stats))
    && (forall k :: 0 <= k < |acc.files| ==> acc.files[k].size == |acc.files[k].content|)
    && (|acc.files| > 0 ==> acc.total - acc.files[|acc.files| - 1].size < MaxTotalChars)
  }

  /** A file is taken only while the budget is not yet reached. */
  lemma TakeKeepsInv(acc: Acc, c: Candidate, content: string, lang: string)
    requires AccInv(acc) && acc.total < MaxTotalChars
    ensures AccInv(Take(acc, c, content, lang))
  {
    var r := Take(acc, c, content, lang);
    assert r.files[..|r.files| - 1] == acc.files;
    BumpSpec(acc.stats, lang);
    forall k | 0 <= k < |r.files| ensures r.files[k].size == |r.files[k].content| {
      if k < |acc.files| {
        assert r.files[k] == acc.files[k];
      }
    }
  }

  lemma {:induction false} ReadKeepsInv(cands: seq<Candidate>, acc: Acc, lang: string -> string)
    requires AccInv(acc)
    ensures AccInv(Read(cands, acc, lang))
    decreases |cands|
  {
    if |cands| > 0 {
      var c := cands[0];
      if acc.total >= MaxTotalChars || c.text.None? {
        ReadKeepsInv(cands[1..], acc.(skipped := acc.skipped + 1), lang);
      } else {
        TakeKeepsInv(acc, c, c.text.value, lang(c.relPath));
        ReadKeepsInv(cands[1..], Take(acc, c, c.text.value, lang(c.relPath)), lang);
      }
    }
  }

  /** The language detected for each kept file, in the order the files were kept. */
  function Detected(files: seq<RepoFile>, lang: string -> string): (r: seq<string>)
    ensures |r| == |files| && forall k :: 0 <= k < |files| ==> r[k] == lang(files[k].path)
  {
    seq(|files|, k requires 0 <= k < |files| => lang(files[k].path))
  }

  /** The table counts the detections of the kept files. */
  predicate Tallied(acc: Acc, lang: string -> string) {
    acc.stats == Counted(Detected(acc.files, lang))
  }

  /** Taking a file counts its language. */
  lemma TakeCounts(acc: Acc, c: Candidate, content: string, lang: string -> string)
    requires Tallied(acc, lang)
    ensures Tallied(Take(acc, c, content, lang(c.relPath)), lang)
  {
    var r := Take(acc, c, content, lang(c.relPath));
    var d := Detected(r.files, lang);
    assert d[..|d| - 1] == Detected(acc.files, lang);
  }

  lemma {:induction false} ReadCounts(cands: seq<Candidate>, acc: Acc, lang: string -> string)
    requires Tallied(acc, lang)
    ensures Tallied(Read(cands, acc, lang), lang)
    decreases |cands|
  {
    if |cands| > 0 {
      var next := ReadFirst(cands, acc, lang);
      ReadCounts(cands[1..], next, lang);
    }
  }

  /** One pass of the reading loop keeps the table counting the kept files. */
  lemma ReadFirst(cands: seq<Candidate>, acc: Acc, lang: string -> string) returns (next: Acc)
    requires |cands| > 0 && Tallied(acc, lang)
    ensures Read(cands, acc, lang) == Read(cands[1..], next, lang)
    ensures Tallied(next, lang)
  {
    var c := cands[0];
    if acc.total >= MaxTotalChars || c.text.None? {
      next := acc.(skipped := acc.skipped + 1);
      assert next.files == acc.files && next.stats == acc.stats;
    } else {
      next := Take(acc, c, c.text.value, lang(c.relPath));
      TakeCounts(acc, c, c.text.value, lang);
    }
  }

  /**
   * The language table of an ingested repository lists the languages of the
   * kept files in order of first appearance, each with its number of files.
   */
  lemma IngestLanguages(name: string, url: string, tree: string, walk: seq<WalkFile>)
    ensures var d := IngestRepo(name, url, tree, walk);
      var langs := Detected(d.files, DetectLanguage);
      && Languages(d.languageStats) == FirstAppearances(langs)
      && forall l :: CountOf(d.languageStats, l) == multiset(langs)[l]
  {
    var collected := CollectWith(Walked(walk), ShouldSkipFile, IsPriority);
    ReadCounts(Order(collected.0), Acc([], 0, collected.1, []), DetectLanguage);
    var d := IngestRepo(name, url, tree, walk);
    CountedSpec(Detected(d.files, DetectLanguage));
  }

  /**
   * Consistent totals for data ingested from a walk of `n` files: the
   * character count is the sum of the kept files' sizes and overshoots the
   * budget by less than the last file taken; the language counts add up to
   * the number of files, one entry per language; and no file is counted
   * twice.
   */
  predicate ConsistentTotals(d: RepoData, n: nat) {
    && d.totalChars == SumSizes(d.files)
    && Total(d.languageStats) == |d.files|
    && Distinct(Languages(d.languageStats))
    && (|d.files| > 0 ==> d.totalChars - d.files[|d.files| - 1].size < MaxTotalChars)
    && |d.files| + d.skippedCount <= n
  }

  /** The totals of an ingested repository are consistent. */
  lemma IngestTotals(name: string, url: string, tree: string, walk: seq<WalkFile>)
    ensures ConsistentTotals(IngestRepo(name, url, tree, walk), |walk|)
    ensures var d := IngestRepo(name, url, tree, walk);
      |d.files| + d.skippedCount + |Filter(Walked(walk), Unsized(ShouldSkipFile))| == |Walked(walk)|
  {
    IngestWithTotals(name, url, tree, walk, ShouldSkipFile, IsPriority, DetectLanguage);
  }

  lemma IngestWithTotals(name: string, url: string, tree: string, walk: seq<WalkFile>,
                         skip: string -> bool, prio: string -> bool, lang: string -> string)
    ensures ConsistentTotals(IngestWith(name, url, tree, walk, skip, prio, lang), |walk|)
  {
    var collected := CollectWith(Walked(walk), skip, prio);
    ReadKeepsInv(Order(collected.0), Acc([], 0, collected.1, []), lang);
  }

  /** A candidate the reading loop can open. */
  predicate Readable(c: Candidate) {
    c.text.Some?
  }

  /** The characters a candidate adds to the total when it is read. */
  function TextLen(c: Candidate): nat {
    if c.text.Some? then |c.text.value| else 0
  }

  /** The characters the readable candidates of `cs` hold together. */
  function ReadSum(cs: seq<Candidate>): nat
    decreases |cs|
  {
    if |cs| == 0 then 0 else TextLen(cs[0]) + ReadSum(cs[1..])
  }

  /** The files the readable candidates of `cs` become, in order. */
  function Stored(cs: seq<Candidate>): (r: seq<RepoFile>)
    ensures |r| <= |cs|
    decreases |cs|
  {
    if |cs| == 0 then []
    else if Readable(cs[0]) then [RepoFile(cs[0].relPath, cs[0].text.value, |cs[0].text.value|, cs[0].isPriority)] + Stored(cs[1..])
    else Stored(cs[1..])
  }

  /**
   * How many candidates the loop meets while its total, starting at
   * `total`, is still below the budget: the first index at which the
   * readable text before it fills the budget (see CutIsFirstFull).
   */
  function Cut(cands: seq<Candidate>, total: nat): (m: nat)
    ensures m <= |cands|
    decreases |cands|
  {
    if |cands| == 0 || total >= MaxTotalChars then 0
    else 1 + Cut(cands[1..], total + TextLen(cands[0]))
  }

  /** Below the cut the budget is never reached; at a cut inside the list it is. */
  lemma {:induction false} CutIsFirstFull(cands: seq<Candidate>, total: nat)
    ensures forall k :: 0 <= k < Cut(cands, total) ==> total + ReadSum(cands[..k]) < MaxTotalChars
    ensures Cut(cands, total) < |cands| ==> total + ReadSum(cands[..Cut(cands, total)]) >= MaxTotalChars
    decreases |cands|
  {
    var m := Cut(cands, total);
    if |cands| > 0 && total < MaxTotalChars {
      var c, rest := cands[0], cands[1..];
      CutIsFirstFull(rest, total + TextLen(c));
      forall k | 0 <= k < m ensures total + ReadSum(cands[..k]) < MaxTotalChars {
        if k > 0 {
          assert cands[..k][1..] == rest[..k - 1];
        }
      }
      if m < |cands| {
        assert cands[..m][1..] == rest[..m - 1];
      }
    }
  }

  /** Taking the first `m` candidates' readable text, one at a time. */
  lemma StoredCons(cands: seq<Candidate>, m: nat)
    requires 0 < m <= |cands|
    ensures Stored(cands[..m]) == (if Readable(cands[0]) then [RepoFile(cands[0].relPath, cands[0].text.value, |cands[0].text.value|, cands[0].isPriority)] else []) + Stored(cands[1..][..m - 1])
    ensures ReadSum(cands[..m]) == TextLen(cands[0]) + ReadSum(cands[1..][..m - 1])
  {
    assert cands[..m][1..] == cands[1..][..m - 1];
  }

  /**
   * One pass of the reading loop: a readable candidate met below the budget
   * is taken, any other candidate only bumps the skip count.
   */
  lemma ReadStep(cands: seq<Candidate>, acc: Acc, lang: string -> string)
    requires |cands| > 0
    ensures Read(cands, acc, lang) == Read(cands[1..],
      if acc.total < MaxTotalChars && Readable(cands[0])
      then Take(acc, cands[0], cands[0].text.value, lang(cands[0].relPath))
      else acc.(skipped := acc.skipped + 1), lang)
  {
  }

  /** What the reading loop keeps, as ReadKeepsBudgeted states it. */
  predicate KeepsBudgeted(cands: seq<Candidate>, acc: Acc, r: Acc) {
    var m := Cut(cands, acc.total);
    && r.files == acc.files + Stored(cands[..m])
    && r.total == acc.total + ReadSum(cands[..m])
    && r.skipped == acc.skipped + |cands| - |Stored(cands[..m])|
  }

  /**
   * What the reading loop keeps: every readable candidate it meets before
   * the total reaches the budget, whole and in order, with its path and
   * priority; every other candidate is skipped.
   */
  lemma {:induction false} ReadKeepsBudgeted(cands: seq<Candidate>, acc: Acc, lang: string -> string)
    ensures KeepsBudgeted(cands, acc, Read(cands, acc, lang))
    decreases |cands|
  {
    if |cands| == 0 {
      assert cands[..0] == [];
    } else if acc.total >= MaxTotalChars {
      var next := acc.(skipped := acc.skipped + 1);
      ReadStep(cands, acc, lang);
      ReadKeepsBudgeted(cands[1..], next, lang);
      BudgetFullStep(cands, acc, next, Read(cands, acc, lang));
    } else {
      var c := cands[0];
      var next := if Readable(c) then Take(acc, c, c.text.value, lang(c.relPath)) else acc.(skipped := acc.skipped + 1);
      ReadStep(cands, acc, lang);
      ReadKeepsBudgeted(cands[1..], next, lang);
      BudgetOpenStep(cands, acc, next, Read(cands, acc, lang));
    }
  }

  /** With the budget full the rest is skipped. */
  lemma BudgetFullStep(cands: seq<Candidate>, acc: Acc, next: Acc, r: Acc)
    requires |cands| > 0 && acc.total >= MaxTotalChars
    requires next == acc.(skipped := acc.skipped + 1)
    requires KeepsBudgeted(cands[1..], next, r)
    ensures KeepsBudgeted(cands, acc, r)
  {
    assert Cut(cands, acc.total) == 0 && Cut(cands[1..], next.total) == 0;
    assert cands[..0] == [] && cands[1..][..0] == [];
  }

  /** Below the budget the first candidate is taken if readable, and the cut moves one on. */
  lemma BudgetOpenStep(cands: seq<Candidate>, acc: Acc, next: Acc, r: Acc)
    requires |cands| > 0 && acc.total < MaxTotalChars
    requires Readable(cands[0]) ==> (
      && next.files == acc.files + [RepoFile(cands[0].relPath, cands[0].text.value, |cands[0].text.value|, cands[0].isPriority)]
      && next.skipped == acc.skipped)
    requires !Readable(cands[0]) ==> next.files == acc.files && next.skipped == acc.skipped + 1
    requires next.total == acc.total + TextLen(cands[0])
    requires KeepsBudgeted(cands[1..], next, r)
    ensures KeepsBudgeted(cands, acc, r)
  {
    var m := Cut(cands, acc.total);
    assert m == 1 + Cut(cands[1..], next.total);
    StoredCons(cands, m);
    var rest := Stored(cands[1..][..m - 1]);
    if Readable(cands[0]) {
      var head := [RepoFile(cands[0].relPath, cands[0].text.value, |cands[0].text.value|, cands[0].isPriority)];
      assert r.files == acc.files + head + rest;
      assert acc.files + head + rest == acc.files + (head + rest);
    }
  }

  /**
   * The files of an ingested repository are exactly the readable sorted
   * candidates met before the character budget is reached, whole, with
   * their paths and priorities; the candidates from the first one met with
   * the budget full on are all skipped.
   */
  lemma IngestKeepsBudgeted(name: string, url: string, tree: string, walk: seq<WalkFile>)
    ensures var cands := Order(Collect(Walked(walk)).0);
      var m := Cut(cands, 0);
      var d := IngestRepo(name, url, tree, walk);
      && d.files == Stored(cands[..m])
      && d.totalChars == ReadSum(cands[..m])
      && (forall k :: 0 <= k < m ==> ReadSum(cands[..k]) < MaxTotalChars)
      && (m < |cands| ==> ReadSum(cands[..m]) >= MaxTotalChars)
  {
    var collected := CollectWith(Walked(walk), ShouldSkipFile, IsPriority);
    var cands := Order(collected.0);
    ReadKeepsBudgeted(cands, Acc([], 0, collected.1, []), DetectLanguage);
    CutIsFirstFull(cands, 0);
  }

  /** No regular file comes before a priority file. */
  predicate PriorityFirst(fs: seq<RepoFile>) {
    forall i, j :: 0 <= i < j < |fs| && fs[j].isPriority ==> fs[i].isPriority
  }

  predicate AllRegular(cs: seq<Candidate>) {
    forall k :: 0 <= k < |cs| ==> !cs[k].isPriority
  }

  lemma SortedTail(cands: seq<Candidate>)
    requires |cands| > 0 && StableSort.Sorted(cands, CandidateRank)
    ensures StableSort.Sorted(cands[1..], CandidateRank)
    ensures !cands[0].isPriority ==> AllRegular(cands[1..])
  {
    var rest := cands[1..];
    forall i, j | 0 <= i < j < |rest| ensures StableSort.RankLe(CandidateRank(rest[i]), CandidateRank(rest[j])) {
      assert rest[i] == cands[i + 1] && rest[j] == cands[j + 1];
    }
    forall k | 0 <= k < |rest| ensures !cands[0].isPriority ==> !rest[k].isPriority {
      assert StableSort.RankLe(CandidateRank(cands[0]), CandidateRank(cands[k + 1]));
    }
  }

  /** Reading sorted candidates appends priority files before regular ones. */
  lemma {:induction false} ReadKeepsOrder(cands: seq<Candidate>, acc: Acc, lang: string -> string)
    requires StableSort.Sorted(cands, CandidateRank)
    requires PriorityFirst(acc.files)
    requires |acc.files| > 0 && !acc.files[|acc.files| - 1].isPriority ==> AllRegular(cands)
    ensures PriorityFirst(Read(cands, acc, lang).files)
    decreases |cands|
  {
    if |cands| > 0 {
      var c := cands[0];
      SortedTail(cands);
      if acc.total >= MaxTotalChars || c.text.None? {
        ReadKeepsOrder(cands[1..], acc.(skipped := acc.skipped + 1), lang);
      } else {
        var r := Take(acc, c, c.text.value, lang(c.relPath));
        var n := |acc.files|;
        forall i, j | 0 <= i < j < |r.files| && r.files[j].isPriority ensures r.files[i].isPriority {
          if j == n {
            assert c.isPriority;
            if i < n - 1 {
              assert acc.files[n - 1].isPriority;
            }
            assert r.files[i] == acc.files[i];
          } else {
            assert r.files[i] == acc.files[i] && r.files[j] == acc.files[j];
          }
        }
        ReadKeepsOrder(cands[1..], r, lang);
      }
    }
  }

  /** The kept files come priority first: no regular file precedes a priority one. */
  lemma PriorityFilesFirst(name: string, url: string, tree: string, walk: seq<WalkFile>)
    ensures PriorityFirst(IngestRepo(name, url, tree, walk).files)
  {
    var collected := CollectWith(Walked(walk), ShouldSkipFile, IsPriority);
    StableSort.SortSorted(collected.0, CandidateRank);
    ReadKeepsOrder(Order(collected.0), Acc([], 0, collected.1, []), DetectLanguage);
  }

  /**
   * Sorting the candidates keeps every one of them and orders them priority
   * first, then by size; candidates of equal rank keep their walk order.
   */
  lemma OrderIsSortedPermutation(cands: seq<Candidate>)
    ensures multiset(Order(cands)) == multiset(cands)
    ensures forall i, j :: 0 <= i < j < |Order(cands)| ==>
      var a, b := Order(cands)[i], Order(cands)[j];
      (a.isPriority && !b.isPriority) || (a.isPriority == b.isPriority && a.size <= b.size)
    ensures forall k :: Filter(Order(cands), StableSort.HasRank(CandidateRank, k)) == Filter(cands, StableSort.HasRank(CandidateRank, k))
  {
    forall k ensures Filter(Order(cands), StableSort.HasRank(CandidateRank, k)) == Filter(cands, StableSort.HasRank(CandidateRank, k)) {
      StableSort.SortStable(cands, CandidateRank, k);
    }
    StableSort.SortPermutes(cands, CandidateRank);
    StableSort.SortSorted(cands, CandidateRank);
    forall i, j | 0 <= i < j < |Order(cands)|
      ensures var a, b := Order(cands)[i], Order(cands)[j];
        (a.isPriority && !b.isPriority) || (a.isPriority == b.isPriority && a.size <= b.size)
    {
      assert StableSort.RankLe(CandidateRank(Order(cands)[i]), CandidateRank(Order(cands)[j]));
    }
  }

  // ---------------------------------------------------------------------
  // Text assembly
  // ---------------------------------------------------------------------

  /** Language counts sorted by descending count, ties in insertion order. */
  function StatRank(e: (string, nat)): StableSort.Rank {
    (0 - e.1 as int, 0)
  }

  /** `sorted(stats.items(), key=lambda x: -x[1])[:n]` */
  function TopLanguages(stats: LangStats, n: nat): (r: LangStats)
    ensures |r| == if |stats| <= n then |stats| else n
    ensures forall e :: e in r ==> e in stats
  {
    var sorted := StableSort.Sort(stats, StatRank);
    if |sorted| <= n then sorted else sorted[..n]
  }

  /** Filtering a prefix gives a prefix of the filtered sequence. */
  lemma FilterPrefix<T(!new)>(s: seq<T>, m: nat, keep: T -> bool)
    requires m <= |s|
    ensures Filter(s[..m], keep) <= Filter(s, keep)
  {
    assert s == s[..m] + s[m..];
    FilterConcat(s[..m], s[m..], keep);
  }

  /**
   * The languages shown are the `n` most frequent entries of the table, by
   * descending count; `sorted` is stable, so languages with equal counts
   * keep their order in the table, and no entry left out has a larger count
   * than one shown.
   */
  lemma TopLanguagesSpec(stats: LangStats, n: nat)
    ensures var top := TopLanguages(stats, n);
      && |top| == (if |stats| <= n then |stats| else n)
      && (forall e :: e in top ==> e in stats)
      && (forall i, j :: 0 <= i < j < |top| ==> top[i].1 >= top[j].1)
      && (forall e, k :: e in stats && e !in top && 0 <= k < |top| ==> top[k].1 >= e.1)
      && (forall c: int :: Filter(top, StableSort.HasRank(StatRank, (c, 0))) <= Filter(stats, StableSort.HasRank(StatRank, (c, 0))))
  {
    var sorted := StableSort.Sort(stats, StatRank);
    var top := TopLanguages(stats, n);
    var m := |top|;
    assert top == sorted[..m];
    StableSort.SortSorted(stats, StatRank);
    forall i, j | 0 <= i < j < |top| ensures top[i].1 >= top[j].1 {
      assert StableSort.RankLe(StatRank(sorted[i]), StatRank(sorted[j]));
    }
    forall e, k | e in stats && e !in top && 0 <= k < |top| ensures top[k].1 >= e.1 {
      var j :| 0 <= j < |sorted| && sorted[j] == e;
      assert StableSort.RankLe(StatRank(sorted[k]), StatRank(sorted[j]));
    }
    forall c: int ensures Filter(top, StableSort.HasRank(StatRank, (c, 0))) <= Filter(stats, StableSort.HasRank(StatRank, (c, 0))) {
      StableSort.SortStable(stats, StatRank, (c, 0));
      FilterPrefix(sorted, m, StableSort.HasRank(StatRank, (c, 0)));
    }
  }

  /** "Languages: Python: 3, Shell: 1" */
  function LanguagesLine(stats: LangStats): (r: string)
    ensures StartsWith(r, "Languages: ")
    ensures |stats| == 1 ==> r == "Languages: " + stats[0].0 + ": " + NatToString(stats[0].1)
  {
    var top := TopLanguages(stats, 8);
    assert |stats| == 1 ==> top[0] in stats;
    "Languages: " + Join(", ", seq(|top|, k requires 0 <= k < |top| => top[k].0 + ": " + NatToString(top[k].1)))
  }

  predicate PriorityFile(f: RepoFile) {
    f.isPriority
  }

  predicate RegularFile(f: RepoFile) {
    !f.isPriority
  }

  /** The emission order: priority files, then the rest, each group in stored order. */
  function EmitOrder(files: seq<RepoFile>): seq<RepoFile> {
    Filter(files, PriorityFile) + Filter(files, RegularFile)
  }

  /** One file's section: a heading with its path and a fenced block tagged with its extension. */
  function FileSection(f: RepoFile): string {
    "\n## " + f.path + "\n```" + ExtNoDot(f.path) + "\n" + f.content + "\n```"
  }

  /** One section per file, in the given order. */
  function FileSections(fs: seq<RepoFile>): (r: seq<string>)
    ensures |r| == |fs| && forall k :: 0 <= k < |fs| ==> r[k] == FileSection(fs[k])
  {
    seq(|fs|, k requires 0 <= k < |fs| => FileSection(fs[k]))
  }

  /** The sections before the files: title, URL, counts, languages when any, and the tree. */
  function Header(d: RepoData): (r: seq<string>)
    ensures |r| == if |d.languageStats| > 0 then 5 else 4
    ensures r[0] == "# Repository: " + d.name && r[1] == "URL: " + d.url
    ensures r[2] == "Files included: " + NatToString(|d.files|) + " (" + NatToString(d.skippedCount) + " skipped)"
    ensures |d.languageStats| > 0 ==> r[3] == LanguagesLine(d.languageStats)
    ensures r[|r| - 1] == "\n## Directory Structure\n```\n" + d.tree + "\n```"
  {
    var head := ["# Repository: " + d.name, "URL: " + d.url,
                 "Files included: " + NatToString(|d.files|) + " (" + NatToString(d.skippedCount) + " skipped)"];
    var langs := if |d.languageStats| > 0 then [LanguagesLine(d.languageStats)] else [];
    head + langs + ["\n## Directory Structure\n```\n" + d.tree + "\n```"]
  }

  /** The sections `repo_to_text` joins with newlines. */
  function Sections(d: RepoData): (r: seq<string>)
    ensures |r| == |Header(d)| + |d.files|
    ensures r[..|Header(d)|] == Header(d)
    ensures var order := EmitOrder(d.files);
      |order| == |d.files| && forall k :: 0 <= k < |order| ==> r[|Header(d)| + k] == FileSection(order[k])
  {
    var order := EmitOrder(d.files);
    EmitOrderPermutes(d.files);
    Header(d) + seq(|order|, k requires 0 <= k < |order| => FileSection(order[k]))
  }

  /**
   * `repo_to_text`: the sections joined by newlines, so the text opens with
   * the title line and, for a repository without files, closes with the
   * directory tree.
   */
  function RepoToText(d: RepoData): (r: string)
    ensures StartsWith(r, "# Repository: " + d.name + "\n")
    ensures d.files == [] ==> EndsWith(r, "\n## Directory Structure\n```\n" + d.tree + "\n```")
  {
    var parts := Sections(d);
    JoinStarts("\n", parts);
    JoinEnds("\n", parts);
    Join("\n", parts)
  }

  lemma {:induction false} EmitOrderPermutes(files: seq<RepoFile>)
    ensures multiset(EmitOrder(files)) == multiset(files)
    ensures |EmitOrder(files)| == |files|
  {
    if |files| > 0 {
      var p, q := PriorityFile, RegularFile;
      var init, last := files[..|files| - 1], files[|files| - 1];
      EmitOrderPermutes(init);
      assert files == init + [last];
      FilterConcat(init, [last], p);
      FilterConcat(init, [last], q);
      assert [last][1..] == [];
    }
  }

  /**
   * Each file is emitted exactly once, priority files before the others;
   * when the files already come priority first, as ingestion leaves them,
   * the emission order is the stored order.
   */
  lemma EmitOrderSpec(files: seq<RepoFile>)
    ensures multiset(EmitOrder(files)) == multiset(files)
    ensures PriorityFirst(EmitOrder(files))
    ensures PriorityFirst(files) ==> EmitOrder(files) == files
  {
    EmitOrderPermutes(files);
    var a: seq<RepoFile>, b: seq<RepoFile> := Filter(files, PriorityFile), Filter(files, RegularFile);
    forall k | 0 <= k < |a + b| ensures (a + b)[k].isPriority <==> k < |a| {
      if k < |a| {
        assert (a + b)[k] == a[k] && a[k] in a;
      } else {
        assert (a + b)[k] == b[k - |a|] && b[k - |a|] in b;
      }
    }
    if PriorityFirst(files) {
      PartitionedSplit(files);
    }
  }

  lemma {:induction false} PartitionedSplit(files: seq<RepoFile>)
    requires PriorityFirst(files)
    ensures EmitOrder(files) == files
  {
    if |files| > 0 {
      if files[0].isPriority {
        var rest := files[1..];
        PriorityFirstTail(files);
        PartitionedSplit(rest);
        EmitOrderCons(files[0], rest);
        assert files == [files[0]] + rest;
      } else {
        EmitOrderAllRegular(files);
      }
    }
  }

  lemma PriorityFirstTail(files: seq<RepoFile>)
    requires |files| > 0 && PriorityFirst(files)
    ensures PriorityFirst(files[1..])
  {
    var rest := files[1..];
    forall i, j | 0 <= i < j < |rest| && rest[j].isPriority ensures rest[i].isPriority {
      assert rest[i] == files[i + 1] && rest[j] == files[j + 1];
    }
  }

  lemma EmitOrderCons(f: RepoFile, rest: seq<RepoFile>)
    requires f.isPriority
    ensures EmitOrder([f] + rest) == [f] + EmitOrder(rest)
  {
    FilterConcat([f], rest, PriorityFile);
    FilterConcat([f], rest, RegularFile);
    assert Filter([f], PriorityFile) == [f];
    assert Filter([f], RegularFile) == [];
  }

  lemma EmitOrderAllRegular(files: seq<RepoFile>)
    requires |files| > 0 && !files[0].isPriority && PriorityFirst(files)
    ensures EmitOrder(files) == files
  {
    forall k | 0 <= k < |files| ensures !PriorityFile(files[k]) {
      if k > 0 {
        assert !files[0].isPriority;
      }
    }
    FilterNone(files, PriorityFile);
    FilterKeepsAll(files, RegularFile);
  }

  // ---------------------------------------------------------------------
  // Filter facts
  // ---------------------------------------------------------------------

  /** The directory filter takes "*.egg-info" literally and every hidden name. */
  lemma SkipDirExamples()
    ensures ShouldSkipDir("*.egg-info") && !ShouldSkipDir("mypkg.egg-info")
    ensures ShouldSkipDir(".github") && ShouldSkipDir("node_modules") && !ShouldSkipDir("src")
  {
    assert ".github"[..1] == ".";
    assert "mypkg.egg-info"[0] == 'm';
    assert "src"[0] == 's';
  }

  /** An extension holds a single dot, so the two-dot entries never match it. */
  lemma TwoDotEntriesNeverMatch(path: string)
    ensures Lower(NameExt(BaseName(path))) != ".min.js"
    ensures Lower(NameExt(BaseName(path))) != ".min.css"
  {
    OneDotLowered(NameExt(BaseName(path)));
  }

  lemma OneDotLowered(e: string)
    requires forall k :: 1 <= k < |e| ==> e[k] != '.'
    ensures Lower(e) != ".min.js" && Lower(e) != ".min.css"
  {
    if |e| == 7 || |e| == 8 {
      var l := Lower(e);
      assert l[4] == LowerChar(e[4]) != '.';
      assert ".min.js"[4] == '.' && ".min.css"[4] == '.';
    }
  }

  lemma MinifiedNames()
    ensures EndsWith(BaseName("static/app.min.js"), ".min.js")
    ensures EndsWith(BaseName("css/site.min.css"), ".min.css")
  {
    RFindIs("static/app.min.js", '/', 6);
    RFindIs("css/site.min.css", '/', 3);
  }

  /** Minified bundles are skipped by their name's ending. */
  lemma SkipMinifiedExamples()
    ensures ShouldSkipFile("static/app.min.js") && ShouldSkipFile("css/site.min.css")
  {
    MinifiedNames();
  }

  lemma LogoPngExt()
    ensures Lower(NameExt(BaseName("docs/Logo.PNG"))) == ".png"
  {
    RFindIs("docs/Logo.PNG", '/', 4);
    RFindIs("Logo.PNG", '.', 4);
    assert "Logo.PNG"[..4][0] != '.';
    assert Lower(".PNG") == ".png";
  }

  /** Extensions are compared in lower case. */
  lemma SkipImageExample()
    ensures ShouldSkipFile("docs/Logo.PNG")
  {
    LogoPngExt();
    assert ".png" in SkipExtensions;
  }

  lemma MainPyNames()
    ensures BaseName("src/main.py") == "main.py"
    ensures Lower(NameExt("main.py")) == ".py"
    ensures !EndsWith("main.py", ".min.js") && !EndsWith("main.py", ".min.css")
  {
    RFindIs("src/main.py", '/', 3);
    RFindIs("main.py", '.', 4);
    assert "main.py"[..4][0] != '.';
    assert NameExt("main.py") == ".py";
    assert Lower(".py") == ".py";
  }

  lemma KeepSourceExample()
    ensures !ShouldSkipFile("src/main.py")
  {
    MainPyNames();
    assert ".py" !in SkipExtensions;
  }

  lemma LayoutXmlExt()
    ensures Lower(Ext("res/Layout.XML")) == ".xml"
  {
    LayoutXmlBase();
    LayoutXmlNameExt();
    assert Lower(".XML") == ".xml";
  }

  lemma LayoutXmlBase()
    ensures BaseName("res/Layout.XML") == "Layout.XML"
  {
    RFindIs("res/Layout.XML", '/', 3);
  }

  lemma LayoutXmlNameExt()
    ensures NameExt("Layout.XML") == ".XML"
  {
    RFindIs("Layout.XML", '.', 6);
    assert "Layout.XML"[..6][0] != '.';
  }

  /** The extension decides the language, in any case. */
  lemma DetectLanguageExample()
    ensures DetectLanguage("res/Layout.XML") == "XML"
  {
    LayoutXmlExt();
    assert ".xml" in LanguageOf && LanguageOf[".xml"] == "XML";
  }

  lemma NoExtensions()
    ensures Lower(Ext("Makefile")) == [] && Lower(Ext(".bashrc")) == []
  {
    RFindIs("Makefile", '/', -1);
    RFindIs("Makefile", '.', -1);
    RFindIs(".bashrc", '/', -1);
    RFindIs(".bashrc", '.', 0);
  }

  /** A name without an extension, or a hidden file's name, gives "Other". */
  lemma OtherLanguageExamples()
    ensures DetectLanguage("Makefile") == "Other"
    ensures DetectLanguage(".bashrc") == "Other"
  {
    NoExtensions();
    NoEmptyExtension();
  }

  lemma NoEmptyExtension()
    ensures "" !in LanguageOf
  {
  }
}
