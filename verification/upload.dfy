/**
 * `run_upload_ingest` (src/routes/repo.py): a folder uploaded from the
 * browser becomes a repository entry. Paths are made relative to the
 * folder, files are filtered by directory, name, byte size and UTF-8
 * validity, and a file is taken only when it fits in the character budget
 * whole; later files are still tried. The kept files are sorted priority
 * first, then by size, and rendered into the entry's text.
 */
module Upload {
  import opened Wrappers
  import opened Seqs
  import opened Text
  import StableSort
  import Ingest

  /** One uploaded file: its path as sent, its length in bytes, and its UTF-8 decoding when it has one. */
  datatype Upload = Upload(path: string, byteLen: nat, text: Option<string>)

  /** The entry's data and its text. */
  datatype Uploaded = Uploaded(data: Ingest.RepoData, text: string)

  const DefaultFolder: string := "uploaded-project"

  /** The first path's leading directory when it has a '/', otherwise the default name. */
  function FolderName(files: seq<Upload>): (r: string)
    ensures |files| > 0 && '/' in files[0].path ==> '/' !in r && StartsWith(files[0].path, r + "/")
    ensures !(|files| > 0 && '/' in files[0].path) ==> r == DefaultFolder
  {
    if |files| > 0 && '/' in files[0].path then
      var p := files[0].path;
      var r := BeforeFirst(p, '/');
      assert |r| < |p|;
      assert p[..|r| + 1] == r + "/";
      r
    else DefaultFolder
  }

  /** The path with the folder's "name/" prefix removed when it has one. */
  function RelPath(path: string, folder: string): (r: string)
    ensures StartsWith(path, folder + "/") ==> path == folder + "/" + r
    ensures !StartsWith(path, folder + "/") ==> r == path
  {
    if StartsWith(path, folder + "/") then
      var r := path[|folder| + 1..];
      assert path == path[..|folder| + 1] + r;
      r
    else path
  }

  /** Turned away by name: under a skipped directory, or a skipped file name. */
  predicate Named(rel: string) {
    Ingest.InSkippedDir(rel) || Ingest.ShouldSkipFile(rel)
  }

  /**
   * The file is kept: it passes the name filter `skip`, is at most the
   * file-size limit in bytes, decodes, and its text fits in what is left of
   * the character budget.
   */
  predicate Fits(u: Upload, rel: string, total: nat, skip: string -> bool) {
    && !skip(rel)
    && u.byteLen <= Ingest.MaxFileSize
    && u.text.Some?
    && total + |u.text.value| <= Ingest.MaxTotalChars
  }

  /** One pass of the loop: take the file whole, or count it as skipped. */
  function Step(acc: Ingest.Acc, u: Upload, folder: string, skip: string -> bool, prio: string -> bool, lang: string -> string): (r: Ingest.Acc)
    ensures |r.files| + r.skipped == |acc.files| + acc.skipped + 1
    ensures |acc.files| <= |r.files| && r.files[..|acc.files|] == acc.files
  {
    var rel := RelPath(u.path, folder);
    if Fits(u, rel, acc.total, skip) then
      var content := u.text.value;
      Ingest.Take(acc, Ingest.Candidate(rel, |content|, prio(rel), u.text), content, lang(rel))
    else acc.(skipped := acc.skipped + 1)
  }

  /** The loop over the uploaded files in the order they were sent; the filters are parameters. */
  function Process(files: seq<Upload>, folder: string, skip: string -> bool, prio: string -> bool, lang: string -> string, acc: Ingest.Acc): (r: Ingest.Acc)
    ensures |r.files| + r.skipped == |acc.files| + acc.skipped + |files|
    ensures |acc.files| <= |r.files| && r.files[..|acc.files|] == acc.files
    decreases |files|
  {
    if |files| == 0 then acc
    else
      var next := Step(acc, files[0], folder, skip, prio, lang);
      var r := Process(files[1..], folder, skip, prio, lang, next);
      assert r.files[..|acc.files|] == r.files[..|next.files|][..|acc.files|];
      r
  }

  /** The loop as `run_upload_ingest` runs it. */
  function Processed(files: seq<Upload>): (r: Ingest.Acc)
    ensures |r.files| + r.skipped == |files|
  {
    Process(files, FolderName(files), Named, Ingest.IsPriority, Ingest.DetectLanguage, Ingest.Acc([], 0, 0, []))
  }

  /** The sort key `(not is_priority, size)`. */
  function FileRank(f: Ingest.RepoFile): StableSort.Rank {
    (if f.isPriority then 0 else 1, f.size)
  }

  /** The lines before the files: title, counts, and the top languages when there are any. */
  function UploadHeader(folder: string, fileCount: nat, skipped: nat, stats: Ingest.LangStats): (r: seq<string>)
    ensures |r| == if |stats| > 0 then 3 else 2
    ensures r[0] == "# Project: " + folder
  {
    var head := ["# Project: " + folder, "Files included: " + NatToString(fileCount) + " (" + NatToString(skipped) + " skipped)"];
    head + if |stats| > 0 then [Ingest.LanguagesLine(stats)] else []
  }

  /** The lines joined into the entry's text: the header, then one section per file, priority files first. */
  function UploadSections(folder: string, files: seq<Ingest.RepoFile>, skipped: nat, stats: Ingest.LangStats): (r: seq<string>)
    ensures var h := UploadHeader(folder, |files|, skipped, stats);
      var order := Ingest.EmitOrder(files);
      && |r| == |h| + |files| && r[..|h|] == h && |order| == |files|
      && forall k :: 0 <= k < |order| ==> r[|h| + k] == Ingest.FileSection(order[k])
  {
    var order := Ingest.EmitOrder(files);
    Ingest.EmitOrderPermutes(files);
    UploadHeader(folder, |files|, skipped, stats) + seq(|order|, k requires 0 <= k < |order| => Ingest.FileSection(order[k]))
  }

  /** The entry's data: the folder's name and URL, the kept files sorted, and the counts. */
  function UploadData(files: seq<Upload>): (r: Ingest.RepoData)
    ensures r.url == "upload://" + r.name && r.tree == ""
    ensures |r.files| + r.skippedCount == |files|
  {
    var folder := FolderName(files);
    var acc := Processed(files);
    Ingest.RepoData(folder, "upload://" + folder, "", StableSort.Sort(acc.files, FileRank), acc.total, acc.skipped,
                    Ingest.TopLanguages(acc.stats, 10))
  }

  /**
   * `run_upload_ingest` on files whose records all have a path and content:
   * the stored files are the kept files sorted priority first, then by size,
   * their characters stay within the budget, and the text is the header
   * followed by one section per stored file, in stored order.
   */
  function UploadIngest(files: seq<Upload>): (r: Uploaded)
    ensures r.data == UploadData(files)
    ensures r.data.totalChars <= Ingest.MaxTotalChars
    ensures multiset(r.data.files) == multiset(Processed(files).files)
    ensures StableSort.Sorted(r.data.files, FileRank) && Ingest.PriorityFirst(r.data.files)
    ensures r.text == Join("\n", UploadHeader(r.data.name, |r.data.files|, r.data.skippedCount, Processed(files).stats)
                                 + Ingest.FileSections(r.data.files))
  {
    var d := UploadData(files);
    var acc := Processed(files);
    UploadWithinBudget(files);
    UploadOrder(files, (0, 0));
    RankedIsPriorityFirst(d.files);
    SectionsInOrder(d.name, d.files, d.skippedCount, acc.stats);
    Uploaded(d, Join("\n", UploadSections(d.name, d.files, d.skippedCount, acc.stats)))
  }

  // ---------------------------------------------------------------------
  // One step
  // ---------------------------------------------------------------------

  /**
   * A file is kept exactly when it fits: then it is appended with its
   * relative path, its whole text and its priority, and the total grows by
   * its length; otherwise only the skipped count moves.
   */
  lemma StepSpec(acc: Ingest.Acc, u: Upload, folder: string, skip: string -> bool, prio: string -> bool, lang: string -> string)
    ensures var rel := RelPath(u.path, folder);
      var r := Step(acc, u, folder, skip, prio, lang);
      && (Fits(u, rel, acc.total, skip) <==> |r.files| == |acc.files| + 1)
      && (Fits(u, rel, acc.total, skip) ==>
            && r.files == acc.files + [Ingest.RepoFile(rel, u.text.value, |u.text.value|, prio(rel))]
            && r.total == acc.total + |u.text.value| && r.skipped == acc.skipped)
      && (!Fits(u, rel, acc.total, skip) ==> r == acc.(skipped := acc.skipped + 1))
  {
  }

  /** What the loop keeps true: the ingest accumulator's bookkeeping, with the total inside the budget. */
  predicate UploadInv(acc: Ingest.Acc) {
    && acc.total == Ingest.SumSizes(acc.files)
    && acc.total <= Ingest.MaxTotalChars
    && Ingest.Total(acc.stats) == |acc.files|
    && Distinct(Ingest.Languages(acc.stats))
    && (forall k :: 0 <= k < |acc.files| ==> acc.files[k].size == |acc.files[k].content|)
  }

  lemma StepKeepsInv(acc: Ingest.Acc, u: Upload, folder: string, skip: string -> bool, prio: string -> bool, lang: string -> string)
    requires UploadInv(acc)
    ensures UploadInv(Step(acc, u, folder, skip, prio, lang))
  {
    var rel := RelPath(u.path, folder);
    if Fits(u, rel, acc.total, skip) {
      var content := u.text.value;
      var c := Ingest.Candidate(rel, |content|, prio(rel), u.text);
      var r := Ingest.Take(acc, c, content, lang(rel));
      assert r.files[..|r.files| - 1] == acc.files;
      Ingest.BumpSpec(acc.stats, lang(rel));
      forall k | 0 <= k < |r.files| ensures r.files[k].size == |r.files[k].content| {
        if k < |acc.files| {
          assert r.files[k] == acc.files[k];
        }
      }
    }
  }

  lemma {:induction false} ProcessKeepsInv(files: seq<Upload>, folder: string, skip: string -> bool, prio: string -> bool, lang: string -> string, acc: Ingest.Acc)
    requires UploadInv(acc)
    ensures UploadInv(Process(files, folder, skip, prio, lang, acc))
    decreases |files|
  {
    if |files| > 0 {
      StepKeepsInv(acc, files[0], folder, skip, prio, lang);
      ProcessKeepsInv(files[1..], folder, skip, prio, lang, Step(acc, files[0], folder, skip, prio, lang));
    }
  }

  lemma StepCounts(acc: Ingest.Acc, u: Upload, folder: string, skip: string -> bool, prio: string -> bool, lang: string -> string)
    requires Ingest.Tallied(acc, lang)
    ensures Ingest.Tallied(Step(acc, u, folder, skip, prio, lang), lang)
  {
    var rel := RelPath(u.path, folder);
    if Fits(u, rel, acc.total, skip) {
      var content := u.text.value;
      Ingest.TakeCounts(acc, Ingest.Candidate(rel, |content|, prio(rel), u.text), content, lang);
    }
  }

  lemma {:induction false} ProcessCounts(files: seq<Upload>, folder: string, skip: string -> bool, prio: string -> bool, lang: string -> string, acc: Ingest.Acc)
    requires Ingest.Tallied(acc, lang)
    ensures Ingest.Tallied(Process(files, folder, skip, prio, lang, acc), lang)
    decreases |files|
  {
    if |files| > 0 {
      StepCounts(acc, files[0], folder, skip, prio, lang);
      ProcessCounts(files[1..], folder, skip, prio, lang, Step(acc, files[0], folder, skip, prio, lang));
    }
  }

  /**
   * The languages line and the stored "languages" come from the counts of
   * the kept files: each language once, in order of first appearance, with
   * its number of files; the stored table is the ten most frequent.
   */
  lemma UploadLanguages(files: seq<Upload>)
    ensures var acc := Processed(files);
      var langs := Ingest.Detected(acc.files, Ingest.DetectLanguage);
      && Ingest.Languages(acc.stats) == Ingest.FirstAppearances(langs)
      && (forall l :: Ingest.CountOf(acc.stats, l) == multiset(langs)[l])
      && UploadData(files).languageStats == Ingest.TopLanguages(acc.stats, 10)
  {
    var acc0 := Ingest.Acc([], 0, 0, []);
    assert Ingest.Tallied(acc0, Ingest.DetectLanguage);
    ProcessCounts(files, FolderName(files), Named, Ingest.IsPriority, Ingest.DetectLanguage, acc0);
    var acc := Processed(files);
    Ingest.CountedSpec(Ingest.Detected(acc.files, Ingest.DetectLanguage));
  }

  // ---------------------------------------------------------------------
  // Every kept file comes from the upload and passed every filter
  // ---------------------------------------------------------------------

  /** `f` is the kept form of the uploaded file `u`. */
  predicate KeptFrom(f: Ingest.RepoFile, u: Upload, folder: string, skip: string -> bool, prio: string -> bool) {
    && f.path == RelPath(u.path, folder)
    && !skip(f.path)
    && u.byteLen <= Ingest.MaxFileSize
    && u.text == Some(f.content)
    && f.size == |f.content|
    && f.isPriority == prio(f.path)
  }

  /** `f` is the kept form of one of the uploaded files. */
  predicate FromUpload(f: Ingest.RepoFile, files: seq<Upload>, folder: string, skip: string -> bool, prio: string -> bool) {
    exists u :: u in files && KeptFrom(f, u, folder, skip, prio)
  }

  lemma StepKeepsOnlyPassing(acc: Ingest.Acc, u: Upload, folder: string, skip: string -> bool, prio: string -> bool, lang: string -> string)
    ensures var r := Step(acc, u, folder, skip, prio, lang);
      |acc.files| <= |r.files| && r.files[..|acc.files|] == acc.files
      && forall k :: |acc.files| <= k < |r.files| ==> KeptFrom(r.files[k], u, folder, skip, prio)
  {
    StepSpec(acc, u, folder, skip, prio, lang);
  }

  lemma {:induction false} ProcessKeepsOnlyPassing(files: seq<Upload>, folder: string, skip: string -> bool, prio: string -> bool, lang: string -> string, acc: Ingest.Acc)
    ensures forall k :: |acc.files| <= k < |Process(files, folder, skip, prio, lang, acc).files| ==>
      FromUpload(Process(files, folder, skip, prio, lang, acc).files[k], files, folder, skip, prio)
    decreases |files|
  {
    if |files| > 0 {
      var u := files[0];
      var next := Step(acc, u, folder, skip, prio, lang);
      var r := Process(files[1..], folder, skip, prio, lang, next);
      assert r == Process(files, folder, skip, prio, lang, acc);
      StepKeepsOnlyPassing(acc, u, folder, skip, prio, lang);
      ProcessKeepsOnlyPassing(files[1..], folder, skip, prio, lang, next);
      forall k | |acc.files| <= k < |r.files| ensures FromUpload(r.files[k], files, folder, skip, prio) {
        if k < |next.files| {
          assert r.files[k] == next.files[k];
          assert u in files && KeptFrom(r.files[k], u, folder, skip, prio);
        } else {
          assert FromUpload(r.files[k], files[1..], folder, skip, prio);
          var v :| v in files[1..] && KeptFrom(r.files[k], v, folder, skip, prio);
          assert v in files;
        }
      }
    }
  }

  // ---------------------------------------------------------------------
  // The whole upload
  // ---------------------------------------------------------------------

  /**
   * The budget is strict: the kept characters, which are the sum of the
   * kept files' sizes, never exceed it; the language counts add up to the
   * number of kept files.
   */
  lemma UploadWithinBudget(files: seq<Upload>)
    ensures var acc := Processed(files);
      && acc.total == Ingest.SumSizes(acc.files)
      && acc.total <= Ingest.MaxTotalChars
      && Ingest.Total(acc.stats) == |acc.files|
      && UploadData(files).totalChars == acc.total
  {
    ProcessKeepsInv(files, FolderName(files), Named, Ingest.IsPriority, Ingest.DetectLanguage, Ingest.Acc([], 0, 0, []));
  }

  /**
   * Every stored file is an uploaded file made relative to the folder that
   * is under no skipped directory, has no skipped name, is within the size
   * limit and decoded to exactly the stored content.
   */
  lemma SortKeepsOnlyPassing(files: seq<Upload>, folder: string, skip: string -> bool, prio: string -> bool, lang: string -> string)
    ensures var kept := Process(files, folder, skip, prio, lang, Ingest.Acc([], 0, 0, [])).files;
      forall f :: f in StableSort.Sort(kept, FileRank) ==> FromUpload(f, files, folder, skip, prio)
  {
    var kept := Process(files, folder, skip, prio, lang, Ingest.Acc([], 0, 0, [])).files;
    ProcessKeepsOnlyPassing(files, folder, skip, prio, lang, Ingest.Acc([], 0, 0, []));
    forall f | f in StableSort.Sort(kept, FileRank) ensures FromUpload(f, files, folder, skip, prio) {
      var k :| 0 <= k < |kept| && kept[k] == f;
    }
  }

  lemma UploadKeepsOnlyPassing(files: seq<Upload>)
    ensures var d := UploadData(files);
      forall f :: f in d.files ==> FromUpload(f, files, d.name, Named, Ingest.IsPriority)
  {
    SortKeepsOnlyPassing(files, FolderName(files), Named, Ingest.IsPriority, Ingest.DetectLanguage);
  }

  /**
   * The stored files are the kept files reordered: priority files first,
   * then by ascending size, and files of equal rank in upload order.
   */
  lemma UploadOrder(files: seq<Upload>, rank: StableSort.Rank)
    ensures var d := UploadData(files);
      var kept := Processed(files).files;
      && multiset(d.files) == multiset(kept)
      && StableSort.Sorted(d.files, FileRank)
      && Filter(d.files, StableSort.HasRank(FileRank, rank)) == Filter(kept, StableSort.HasRank(FileRank, rank))
  {
    var kept := Processed(files).files;
    StableSort.SortPermutes(kept, FileRank);
    StableSort.SortSorted(kept, FileRank);
    StableSort.SortStable(kept, FileRank, rank);
  }

  /** Sorted by `FileRank`, no regular file comes before a priority file. */
  lemma RankedIsPriorityFirst(fs: seq<Ingest.RepoFile>)
    requires StableSort.Sorted(fs, FileRank)
    ensures Ingest.PriorityFirst(fs)
  {
    forall i, j | 0 <= i < j < |fs| && fs[j].isPriority ensures fs[i].isPriority {
      assert StableSort.RankLe(FileRank(fs[i]), FileRank(fs[j]));
    }
  }

  /**
   * The text lists the files in their stored order: after the header lines,
   * the k-th section is the k-th stored file's.
   */
  /** With the files already priority first, the sections follow the header in stored order. */
  lemma SectionsInOrder(folder: string, fs: seq<Ingest.RepoFile>, skipped: nat, stats: Ingest.LangStats)
    requires Ingest.PriorityFirst(fs)
    ensures UploadSections(folder, fs, skipped, stats) == UploadHeader(folder, |fs|, skipped, stats) + Ingest.FileSections(fs)
  {
    Ingest.EmitOrderSpec(fs);
    SplitAt(UploadSections(folder, fs, skipped, stats), UploadHeader(folder, |fs|, skipped, stats), Ingest.FileSections(fs));
  }

  lemma UploadTextFollowsOrder(files: seq<Upload>)
    ensures var d := UploadData(files);
      var acc := Processed(files);
      var secs := UploadSections(d.name, d.files, acc.skipped, acc.stats);
      var h := if |acc.stats| > 0 then 3 else 2;
      && secs[0] == "# Project: " + d.name
      && forall k :: 0 <= k < |d.files| ==> secs[h + k] == Ingest.FileSection(d.files[k])
  {
    var d := UploadData(files);
    var acc := Processed(files);
    StableSort.SortSorted(acc.files, FileRank);
    RankedIsPriorityFirst(d.files);
    Ingest.EmitOrderSpec(d.files);
  }
}
