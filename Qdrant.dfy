/** Model of src/db/qdrant.rs: the vector-store adapter. Insertion creates the repository's
    collection and upserts one point per file embedding; retrieval turns search hits into
    files by fetching each hit's content; path listing maps scrolled points to their paths.

    The Qdrant server is an oracle. The store is a value mapping a collection name to its
    points; `create` and `upsert` take the store and a request and answer with the new store
    or an error; `search` and `scroll` answer a request with points. Formatting a payload
    value (`Value::to_string`) is the parameter `render`, and the UUIDs that
    `Uuid::new_v4` draws for the points of one insertion are the parameter `newId`. */
module Qdrant {
  import opened Prelude
  import opened Text
  import opened Github

  datatype Distance = Cosine | Euclid | Dot | Manhattan

  /** A payload value (`qdrant_client::qdrant::Value`), reduced to its scalar kinds. */
  datatype Value = NullValue | BoolValue(b: bool) | IntegerValue(i: int) | DoubleValue(d: real) | StringValue(s: string)

  type Payload = map<string, Value>

  datatype PointStruct = PointStruct(id: string, vectors: Embeddings, payload: Payload)

  /** The part of `CreateCollection` the adapter sets: the name and the vector parameters. */
  datatype CreateCollection = CreateCollection(collectionName: string, size: nat, distance: Distance)

  datatype UpsertPoints = UpsertPoints(collectionName: string, points: seq<PointStruct>)

  datatype SearchPoints = SearchPoints(collectionName: string, vector: Embeddings, withPayload: bool, limit: Uint64)

  /** The part of `ScrollPoints` the adapter sets; filter, vectors and read consistency are
      all left unset. */
  datatype ScrollPoints = ScrollPoints(collectionName: string, offset: Option<string>, limit: Option<Uint32>, withPayload: bool)

  datatype ScoredPoint = ScoredPoint(id: string, payload: Payload, score: real)

  datatype RetrievedPoint = RetrievedPoint(id: string, payload: Payload)

  /** The server's collections: each collection name with the points stored in it. */
  type Store = map<string, seq<PointStruct>>

  /** Dimension of every collection this adapter creates. */
  const VectorSize: nat := 384

  // ---------------------------------------------------------------------------------------
  // Insertion: `insert_repo_embeddings`
  // ---------------------------------------------------------------------------------------

  /** The collection created for a repository: named after its key, 384-dimensional, cosine. */
  function CollectionFor(repoId: string): CreateCollection {
    CreateCollection(repoId, VectorSize, Cosine)
  }

  /** The payload of a point: the single key `path`, holding the file's path as a string. */
  function PathPayload(path: string): Payload {
    map["path" := StringValue(path)]
  }

  /** The `map` over the file embeddings: one point per file embedding, in order, with the
      `k`-th drawn id, the file's vector, and the file's path as the only payload entry. */
  function BuildPoints(fileEmbeddings: seq<FileEmbeddings>, newId: nat -> string): (points: seq<PointStruct>)
    ensures |points| == |fileEmbeddings|
    ensures forall k :: 0 <= k < |points| ==>
              && points[k].id == newId(k)
              && points[k].vectors == fileEmbeddings[k].embeddings
              && points[k].payload.Keys == {"path"}
              && points[k].payload["path"] == StringValue(fileEmbeddings[k].path)
  {
    seq(|fileEmbeddings|, k requires 0 <= k < |fileEmbeddings| =>
      PointStruct(newId(k), fileEmbeddings[k].embeddings, PathPayload(fileEmbeddings[k].path)))
  }

  /** `insert_repo_embeddings`: create the collection named `repo_id`; if that fails, return
      its error without upserting; otherwise upsert the built points into that same
      collection of the store the creation left, and return the upsert's outcome. */
  function InsertRepoEmbeddings(store: Store, repo: RepositoryEmbeddings, newId: nat -> string,
                                create: (Store, CreateCollection) -> Result<Store>,
                                upsert: (Store, UpsertPoints) -> Result<Store>): (r: Result<Store>)
    ensures create(store, CollectionFor(repo.repoId)).Err? ==>
              r == Err(create(store, CollectionFor(repo.repoId)).error)
    ensures create(store, CollectionFor(repo.repoId)).Ok? ==>
              r == upsert(create(store, CollectionFor(repo.repoId)).value,
                          UpsertPoints(repo.repoId, BuildPoints(repo.fileEmbeddings, newId)))
  {
    var created :- create(store, CollectionFor(repo.repoId));
    upsert(created, UpsertPoints(repo.repoId, BuildPoints(repo.fileEmbeddings, newId)))
  }

  /** When creation fails nothing is upserted: the outcome is the same whatever the server
      would have done with an upsert. */
  lemma NoUpsertAfterFailedCreate(store: Store, repo: RepositoryEmbeddings, newId: nat -> string,
                                  create: (Store, CreateCollection) -> Result<Store>,
                                  upsert1: (Store, UpsertPoints) -> Result<Store>,
                                  upsert2: (Store, UpsertPoints) -> Result<Store>)
    requires create(store, CollectionFor(repo.repoId)).Err?
    ensures InsertRepoEmbeddings(store, repo, newId, create, upsert1)
         == InsertRepoEmbeddings(store, repo, newId, create, upsert2)
         == Err(create(store, CollectionFor(repo.repoId)).error)
  {
  }

  /** Two repositories whose keys collide are ingested alike: the same file embeddings give
      the same creation, the same upsert and the same resulting store. */
  lemma CollidingRepositoriesShareInsertion(r1: Repository, r2: Repository, store: Store,
                                            fileEmbeddings: seq<FileEmbeddings>, newId: nat -> string,
                                            create: (Store, CreateCollection) -> Result<Store>,
                                            upsert: (Store, UpsertPoints) -> Result<Store>)
    requires RepoId(r1) == RepoId(r2)
    ensures InsertRepoEmbeddings(store, RepositoryEmbeddings(RepoId(r1), fileEmbeddings), newId, create, upsert)
         == InsertRepoEmbeddings(store, RepositoryEmbeddings(RepoId(r2), fileEmbeddings), newId, create, upsert)
  {
  }

  /** A search for either of two colliding repositories reads the same collection: both
      succeed or fail together, and they return the same paths in the same order. The
      contents may differ, since each hit is fetched from its own repository's URL. */
  lemma CollidingRepositoriesShareSearch(r1: Repository, r2: Repository, query: Embeddings, limit: Uint64,
                                         search: SearchPoints -> Result<seq<ScoredPoint>>,
                                         get: string -> Result<HttpResponse>, render: Value -> string)
    requires RepoId(r1) == RepoId(r2)
    requires ScoredHavePath(search(SearchPoints(RepoId(r1), query, true, limit)))
    ensures var a, b := GetRelevantFiles(r1, query, limit, search, get, render),
                        GetRelevantFiles(r2, query, limit, search, get, render);
            && (a.Ok? <==> b.Ok?)
            && (a.Err? ==> a.error == b.error)
            && (a.Ok? ==> |a.value| == |b.value| && forall k :: 0 <= k < |a.value| ==> a.value[k].path == b.value[k].path)
  {
  }

  /** Listing the paths of either of two colliding repositories gives the same answer. */
  lemma CollidingRepositoriesShareListing(r1: Repository, r2: Repository, maxFileCount: Uint32,
                                          scroll: ScrollPoints -> Result<seq<RetrievedPoint>>,
                                          render: Value -> string)
    requires RepoId(r1) == RepoId(r2)
    requires RetrievedHavePath(scroll(ScrollFor(r1, maxFileCount)))
    ensures GetFilePaths(r1, maxFileCount, scroll, render) == GetFilePaths(r2, maxFileCount, scroll, render)
  {
  }

  // ---------------------------------------------------------------------------------------
  // A reference upsert: overwrite by point id
  // ---------------------------------------------------------------------------------------

  predicate HasId(points: seq<PointStruct>, id: string) {
    exists i :: 0 <= i < |points| && points[i].id == id
  }

  /** Puts one point into a collection: it replaces the point with the same id, if there is
      one, and is appended otherwise. */
  function PutPoint(points: seq<PointStruct>, p: PointStruct): (r: seq<PointStruct>)
    ensures p in r
    ensures |r| == if HasId(points, p.id) then |points| else |points| + 1
    ensures forall i :: 0 <= i < |points| && points[i].id != p.id ==> points[i] in r
    decreases |points|
  {
    if points == [] then [p]
    else if points[0].id == p.id then [p] + points[1..]
    else
      var r := [points[0]] + PutPoint(points[1..], p);
      assert forall i :: 1 <= i < |points| ==> points[i] == points[1..][i - 1];
      assert HasId(points, p.id) <==> HasId(points[1..], p.id) by {
        if HasId(points, p.id) {
          var i :| 0 <= i < |points| && points[i].id == p.id;
          assert points[1..][i - 1].id == p.id;
        }
        if HasId(points[1..], p.id) {
          var i :| 0 <= i < |points| - 1 && points[1..][i].id == p.id;
          assert points[i + 1].id == p.id;
        }
      }
      r
  }

  /** Puts the incoming points one after the other. */
  function MergeById(points: seq<PointStruct>, incoming: seq<PointStruct>): seq<PointStruct>
    decreases |incoming|
  {
    if incoming == [] then points
    else PutPoint(MergeById(points, incoming[..|incoming| - 1]), incoming[|incoming| - 1])
  }

  /** An upsert that overwrites by id into an existing collection (the server's documented
      behaviour), and fails for a collection that does not exist. */
  function RefUpsert(store: Store, request: UpsertPoints): Result<Store> {
    if request.collectionName in store then
      Ok(store[request.collectionName := MergeById(store[request.collectionName], request.points)])
    else
      Err(Error("collection not found"))
  }

  /** A point whose id is new to the collection is appended. */
  lemma {:induction false} PutPointFresh(points: seq<PointStruct>, p: PointStruct)
    requires !HasId(points, p.id)
    ensures PutPoint(points, p) == points + [p]
    decreases |points|
  {
    if points != [] {
      assert points[0].id != p.id;
      assert !HasId(points[1..], p.id);
      PutPointFresh(points[1..], p);
      assert [points[0]] + (points[1..] + [p]) == points + [p];
    }
  }

  /** The ids drawn for `n` points are pairwise distinct and distinct from every id already
      in the collection (what random UUIDs give). */
  ghost predicate FreshIds(existing: seq<PointStruct>, newId: nat -> string, n: nat) {
    && (forall i, j :: 0 <= i < n && 0 <= j < |existing| ==> newId(i) != existing[j].id)
    && (forall i, j :: 0 <= i < j < n ==> newId(i) != newId(j))
  }

  /** No id of `incoming` occurs in `existing`, and the ids of `incoming` are pairwise distinct. */
  predicate NewIds(existing: seq<PointStruct>, incoming: seq<PointStruct>) {
    && (forall i, j :: 0 <= i < |incoming| && 0 <= j < |existing| ==> incoming[i].id != existing[j].id)
    && (forall i, j :: 0 <= i < j < |incoming| ==> incoming[i].id != incoming[j].id)
  }

  /** Merging points with new, distinct ids appends them. */
  lemma {:induction false} MergeFresh(existing: seq<PointStruct>, incoming: seq<PointStruct>)
    requires NewIds(existing, incoming)
    ensures MergeById(existing, incoming) == existing + incoming
    decreases |incoming|
  {
    if incoming != [] {
      var n := |incoming| - 1;
      var front, last := incoming[..n], incoming[n];
      assert incoming == front + [last];
      NewIdsOfFront(existing, front, last);
      MergeFresh(existing, front);
      LastIsNew(existing, front, last);
      PutPointFresh(existing + front, last);
    }
  }

  lemma NewIdsOfFront(existing: seq<PointStruct>, front: seq<PointStruct>, last: PointStruct)
    requires NewIds(existing, front + [last])
    ensures NewIds(existing, front)
  {
    assert forall i :: 0 <= i < |front| ==> (front + [last])[i] == front[i];
  }

  lemma LastIsNew(existing: seq<PointStruct>, front: seq<PointStruct>, last: PointStruct)
    requires NewIds(existing, front + [last])
    ensures !HasId(existing + front, last.id)
  {
    var incoming := front + [last];
    forall i | 0 <= i < |existing + front|
      ensures (existing + front)[i].id != last.id
    {
      if i < |existing| {
        assert incoming[|front|] == last;
      } else {
        assert incoming[i - |existing|] == front[i - |existing|];
        assert incoming[|front|] == last;
      }
    }
  }

  /** With fresh ids, a successful insertion appends one new point per file embedding to the
      repository's collection and leaves every other collection as creation left it: random
      ids never overwrite, so a path that is inserted again is stored twice. */
  lemma InsertAppends(store: Store, repo: RepositoryEmbeddings, newId: nat -> string,
                      create: (Store, CreateCollection) -> Result<Store>)
    requires create(store, CollectionFor(repo.repoId)).Ok?
    requires repo.repoId in create(store, CollectionFor(repo.repoId)).value
    requires FreshIds(create(store, CollectionFor(repo.repoId)).value[repo.repoId], newId, |repo.fileEmbeddings|)
    ensures var created := create(store, CollectionFor(repo.repoId)).value;
            InsertRepoEmbeddings(store, repo, newId, create, RefUpsert)
              == Ok(created[repo.repoId := created[repo.repoId] + BuildPoints(repo.fileEmbeddings, newId)])
  {
    var created := create(store, CollectionFor(repo.repoId)).value;
    MergeFresh(created[repo.repoId], BuildPoints(repo.fileEmbeddings, newId));
  }

  /** Re-inserting a repository whose points are already stored keeps the old point of each
      file next to the new one: both carry the same path and different ids. */
  lemma ReinsertKeepsOldPoints(store: Store, repo: RepositoryEmbeddings, oldId: nat -> string, newId: nat -> string,
                               create: (Store, CreateCollection) -> Result<Store>, k: nat)
    requires create(store, CollectionFor(repo.repoId)).Ok?
    requires repo.repoId in create(store, CollectionFor(repo.repoId)).value
    requires var existing := create(store, CollectionFor(repo.repoId)).value[repo.repoId];
             forall j :: 0 <= j < |repo.fileEmbeddings| ==> BuildPoints(repo.fileEmbeddings, oldId)[j] in existing
    requires FreshIds(create(store, CollectionFor(repo.repoId)).value[repo.repoId], newId, |repo.fileEmbeddings|)
    requires k < |repo.fileEmbeddings|
    ensures InsertRepoEmbeddings(store, repo, newId, create, RefUpsert).Ok?
    ensures var stored := InsertRepoEmbeddings(store, repo, newId, create, RefUpsert).value[repo.repoId];
            var before, after := BuildPoints(repo.fileEmbeddings, oldId)[k], BuildPoints(repo.fileEmbeddings, newId)[k];
            && before in stored && after in stored
            && before.id != after.id
            && before.payload == after.payload == PathPayload(repo.fileEmbeddings[k].path)
  {
    var created := create(store, CollectionFor(repo.repoId)).value;
    var existing := created[repo.repoId];
    InsertAppends(store, repo, newId, create);
    var before := BuildPoints(repo.fileEmbeddings, oldId)[k];
    assert before in existing;
    var j :| 0 <= j < |existing| && existing[j] == before;
    assert newId(k) != existing[j].id;
  }

  // ---------------------------------------------------------------------------------------
  // Retrieval: `get_relevant_files`
  // ---------------------------------------------------------------------------------------

  /** Indexing `payload["path"]` panics when the key is missing, so every answered point must
      carry one. */
  predicate ScoredHavePath(answer: Result<seq<ScoredPoint>>) {
    answer.Ok? ==> forall k :: 0 <= k < |answer.value| ==> "path" in answer.value[k].payload
  }

  /** Hydrates one hit: the rendered payload path, the fetched content (empty when the fetch
      fails), and the content's byte length. */
  function HydrateHit(repo: Repository, payload: Payload, get: string -> Result<HttpResponse>,
                      render: Value -> string): (f: File)
    requires "path" in payload
    ensures f.path == render(payload["path"])
    ensures f.length == Utf8Length(f.content)
    ensures FetchFileContent(repo, f.path, get).Ok? ==> f.content == FetchFileContent(repo, f.path, get).value
    ensures FetchFileContent(repo, f.path, get).Err? ==> f.content == "" && f.length == 0
  {
    var path := render(payload["path"]);
    var content := FetchFileContent(repo, path, get).UnwrapOr("");
    File(path, content, Utf8Length(content))
  }

  /** `get_relevant_files`: search the repository's collection (named by its key) with the
      query vector and the caller's limit; a search error propagates; otherwise one file per
      hit, in hit order. */
  function GetRelevantFiles(repo: Repository, query: Embeddings, limit: Uint64,
                            search: SearchPoints -> Result<seq<ScoredPoint>>,
                            get: string -> Result<HttpResponse>, render: Value -> string): (r: Result<seq<File>>)
    requires ScoredHavePath(search(SearchPoints(RepoId(repo), query, true, limit)))
    ensures r.Ok? <==> search(SearchPoints(RepoId(repo), query, true, limit)).Ok?
    ensures r.Err? ==> r.error == search(SearchPoints(RepoId(repo), query, true, limit)).error
    ensures r.Ok? ==>
              var hits := search(SearchPoints(RepoId(repo), query, true, limit)).value;
              && |r.value| == |hits|
              && forall k :: 0 <= k < |hits| ==>
                   && r.value[k].path == render(hits[k].payload["path"])
                   && r.value[k].content == FetchFileContent(repo, r.value[k].path, get).UnwrapOr("")
                   && r.value[k].length == Utf8Length(r.value[k].content)
  {
    var hits :- search(SearchPoints(RepoId(repo), query, true, limit));
    Ok(seq(|hits|, k requires 0 <= k < |hits| => HydrateHit(repo, hits[k].payload, get, render)))
  }

  /** A hit whose content cannot be fetched is still returned, as an empty file at its rank. */
  lemma FailedFetchDegrades(repo: Repository, query: Embeddings, limit: Uint64,
                            search: SearchPoints -> Result<seq<ScoredPoint>>,
                            get: string -> Result<HttpResponse>, render: Value -> string, k: nat)
    requires ScoredHavePath(search(SearchPoints(RepoId(repo), query, true, limit)))
    requires search(SearchPoints(RepoId(repo), query, true, limit)).Ok?
    requires k < |search(SearchPoints(RepoId(repo), query, true, limit)).value|
    requires var hit := search(SearchPoints(RepoId(repo), query, true, limit)).value[k];
             FetchFileContent(repo, render(hit.payload["path"]), get).Err?
    ensures var files := GetRelevantFiles(repo, query, limit, search, get, render).value;
            var hit := search(SearchPoints(RepoId(repo), query, true, limit)).value[k];
            files[k] == File(render(hit.payload["path"]), "", 0)
  {
  }

  // ---------------------------------------------------------------------------------------
  // Path listing: `get_file_paths`
  // ---------------------------------------------------------------------------------------

  predicate RetrievedHavePath(answer: Result<seq<RetrievedPoint>>) {
    answer.Ok? ==> forall k :: 0 <= k < |answer.value| ==> "path" in answer.value[k].payload
  }

  /** The scroll request: the repository's collection, from the start, at most
      `maxFileCount` points, with payloads. */
  function ScrollFor(repo: Repository, maxFileCount: Uint32): ScrollPoints {
    ScrollPoints(RepoId(repo), None, Some(maxFileCount), true)
  }

  /** `get_file_paths`: scroll the repository's collection (a scroll error propagates) and
      return one rendered path per point, in scroll order, under the repository's key. */
  function GetFilePaths(repo: Repository, maxFileCount: Uint32,
                        scroll: ScrollPoints -> Result<seq<RetrievedPoint>>,
                        render: Value -> string): (r: Result<RepositoryFilePaths>)
    requires RetrievedHavePath(scroll(ScrollFor(repo, maxFileCount)))
    ensures r.Ok? <==> scroll(ScrollFor(repo, maxFileCount)).Ok?
    ensures r.Err? ==> r.error == scroll(ScrollFor(repo, maxFileCount)).error
    ensures r.Ok? ==>
              var points := scroll(ScrollFor(repo, maxFileCount)).value;
              && r.value.repoId == RepoId(repo)
              && |r.value.filePaths| == |points|
              && forall k :: 0 <= k < |points| ==> r.value.filePaths[k] == render(points[k].payload["path"])
  {
    var points :- scroll(ScrollFor(repo, maxFileCount));
    Ok(RepositoryFilePaths(RepoId(repo), seq(|points|, k requires 0 <= k < |points| => render(points[k].payload["path"]))))
  }
}
