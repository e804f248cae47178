/**
 * Curated learning paths (src/learning_paths.py): a fixed table of paths,
 * a listing that summarises each one, and a lookup by id. The prose of the
 * table (titles, descriptions, repository notes) is a parameter; the ids,
 * their order and the number of repositories per path are modelled.
 */
module LearningPaths {
  import opened Wrappers

  /** One repository a path recommends. */
  datatype RepoRef = RepoRef(url: string, name: string, teaches: string)

  /** One learning path with its full repository list. */
  datatype Path = Path(
    id: string,
    title: string,
    description: string,
    tags: seq<string>,
    difficulty: string,
    icon: string,
    repos: seq<RepoRef>)

  /** A path as listed: everything but the repositories, which are only counted. */
  datatype Summary = Summary(
    id: string,
    title: string,
    description: string,
    tags: seq<string>,
    difficulty: string,
    icon: string,
    repoCount: nat)

  /** The ids of the table, in table order. */
  const Ids: seq<string> := [
    "event-driven", "rest-api", "state-machines", "auth-patterns", "database-orms",
    "cli-tools", "web-scraping", "websockets", "testing-patterns", "microservices"]

  /** How many repositories each path of the table lists, in table order. */
  const RepoCounts: seq<nat> := [4, 4, 3, 4, 4, 4, 4, 4, 4, 4]

  /** A table that has the configured ids and repository counts, in order. */
  predicate IsCatalog(paths: seq<Path>) {
    && |paths| == |Ids|
    && (forall i :: 0 <= i < |paths| ==> paths[i].id == Ids[i])
    && (forall i :: 0 <= i < |paths| ==> |paths[i].repos| == RepoCounts[i])
  }

  /** No two paths share an id. */
  predicate DistinctIds(paths: seq<Path>) {
    forall i, j :: 0 <= i < j < |paths| ==> paths[i].id != paths[j].id
  }

  /** The listing entry of one path. */
  function Summarize(p: Path): Summary {
    Summary(p.id, p.title, p.description, p.tags, p.difficulty, p.icon, |p.repos|)
  }

  /** `get_all_paths`: one summary per path, in table order. */
  function AllPaths(paths: seq<Path>): (r: seq<Summary>)
    ensures |r| == |paths|
    ensures forall i :: 0 <= i < |paths| ==> r[i] == Summarize(paths[i])
  {
    if paths == [] then [] else [Summarize(paths[0])] + AllPaths(paths[1..])
  }

  /** `get_path_by_id`: the first path whose id matches, or None. */
  function PathById(paths: seq<Path>, id: string): (r: Option<Path>)
    ensures r.Some? ==> r.value in paths && r.value.id == id
    ensures r.None? <==> forall i :: 0 <= i < |paths| ==> paths[i].id != id
  {
    if paths == [] then None
    else if paths[0].id == id then Some(paths[0])
    else PathById(paths[1..], id)
  }

  // ---------------------------------------------------------------------
  // Properties
  // ---------------------------------------------------------------------

  /**
   * A summary keeps the path's id, title, description, tags, difficulty and
   * icon unchanged and counts its repositories.
   */
  lemma SummaryCopiesFields(paths: seq<Path>, i: nat)
    requires i < |paths|
    ensures var s := AllPaths(paths)[i];
      && s.id == paths[i].id && s.title == paths[i].title
      && s.description == paths[i].description && s.tags == paths[i].tags
      && s.difficulty == paths[i].difficulty && s.icon == paths[i].icon
      && s.repoCount == |paths[i].repos|
  {
  }

  /** The lookup returns the path at the first index carrying the id. */
  lemma {:induction false} PathByIdIsFirst(paths: seq<Path>, id: string, i: nat)
    requires i < |paths| && paths[i].id == id
    requires forall j :: 0 <= j < i ==> paths[j].id != id
    ensures PathById(paths, id) == Some(paths[i])
    decreases i
  {
    if i > 0 {
      assert paths[0].id != id;
      PathByIdIsFirst(paths[1..], id, i - 1);
    }
  }

  /** When ids are distinct, every listed id leads back to the very path it summarises. */
  lemma ListedIsFound(paths: seq<Path>, k: nat)
    requires DistinctIds(paths) && k < |paths|
    ensures PathById(paths, AllPaths(paths)[k].id) == Some(paths[k])
  {
    PathByIdIsFirst(paths, paths[k].id, k);
  }

  /** The configured ids are pairwise distinct. */
  lemma IdsDistinct()
    ensures forall i, j :: 0 <= i < j < |Ids| ==> Ids[i] != Ids[j]
  {
  }

  /**
   * The configured table lists ten paths in the configured order with their
   * repository counts, and each listed id leads back to its path.
   */
  lemma CatalogListing(paths: seq<Path>, k: nat)
    requires IsCatalog(paths) && k < |paths|
    ensures |AllPaths(paths)| == 10
    ensures AllPaths(paths)[k].id == Ids[k]
    ensures AllPaths(paths)[k].repoCount == RepoCounts[k]
    ensures PathById(paths, AllPaths(paths)[k].id) == Some(paths[k])
  {
    IdsDistinct();
    ListedIsFound(paths, k);
  }

  /** An id outside the configured ones is not found. */
  lemma UnknownIdNotFound(paths: seq<Path>, id: string)
    requires IsCatalog(paths) && id !in Ids
    ensures PathById(paths, id) == None
  {
    forall i | 0 <= i < |paths|
      ensures paths[i].id != id
    {
      assert Ids[i] in Ids;
    }
  }
}
