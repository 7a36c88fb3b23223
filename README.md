# Repository embedding ingestion and retrieval, modelled in Dafny

This project models the bookkeeping core of a service that indexes a GitHub repository
into a Qdrant vector store and answers queries against it:

- **Collection naming** (`Github.RepoId`): a repository `{owner, name, branch}` is keyed
  `owner-name-branch`. Ingestion uses that key as `repo_id`. Search and scroll use the same
  key as the collection name.
- **Embedded text** (`Github.FileText`): the exact text handed to the embedding model for
  a file: `File path: …\nFile length: … bytes\nFile content: …`.
- **File extraction** (`Github.FetchRepoFiles`, `Github.ExtractFiles`): the archive is
  walked in index order. Regular files that read as UTF-8 are kept. Directories and
  undecodable files are dropped without failing. The leading archive directory is
  stripped from each path.
- **Embedding fan-out** (`Github.EmbedRepo`): one `FileEmbeddings` per fetched file, in
  order.
- **Fetching one file** (`Github.FetchFileContent`): only a 200 response yields content.
- **Vector-store adapter** (`Qdrant`):
  - insertion creates a 384-dimensional cosine collection named `repo_id` and upserts one
    point per file embedding there;
  - retrieval turns search hits, in order, into files whose content is fetched per hit;
  - path listing maps scrolled points to their paths.

Everything is pure: datatypes, functions and lemmas. The external world works as an oracle
passed in as a function parameter:

| oracle | stands for |
|---|---|
| `download` | `reqwest::get` of the archive URL plus `ZipArchive::new` |
| `get` | `reqwest::get` of a raw-content URL |
| `embed` | the embedding model |
| `create`, `upsert` | the Qdrant server; each takes the store and returns the new store or an error |
| `search`, `scroll` | the Qdrant server's answers |
| `render` | `Value::to_string` on a payload value |
| `newId` | the UUIDs drawn by `Uuid::new_v4` |

The store is a value: a map from collection name to the points in that collection.
Rayon's parallel iterators and `join_all` are read as sequential, order-preserving maps.
Three `unwrap`-style panics become preconditions: `split_once("/").unwrap()`,
`model.embed(..).unwrap()` and `payload["path"]`.

Modules:

| module | contents |
|---|---|
| `Prelude` | `Option`, the `anyhow` error and `Result`, `Embeddings`, `u32`/`u64` |
| `Iter` | `filter_map`/`collect`, characterised index by index |
| `Text` | `String::len` (UTF-8 byte length), decimal `Display`, `split_once` |
| `Github` | src/github/mod.rs |
| `Qdrant` | src/db/qdrant.rs |

Behaviour the model reproduces as the code has it, although a reader may not expect it:

- The key is not injective, because `-` may occur inside the fields: the repositories
  (owner, name, branch) `("a-b", "c", "d")` and `("a", "b-c", "d")` both map to `a-b-c-d` (`Github.RepoIdNotInjective`). Distinct keys are
  guaranteed only when owner and name contain no dash (`Github.RepoIdInjectiveWithoutDashes`).
- `fetch_repo_files` reads `length` from the buffer before `read_to_string` fills it. So every
  fetched file has length 0 (`Github.ExtractedLengthIsZero`). The embedded text always says
  `File length: 0 bytes` (`Github.FetchedFileText`).
- Point ids are random. So if the server accepts creating the already existing collection
  again, inserting a repository again adds a second point for every path next to the old
  one rather than overwriting it (`Qdrant.ReinsertKeepsOldPoints`). If the server refuses
  that creation, the second insertion returns its error and upserts nothing
  (`Qdrant.NoUpsertAfterFailedCreate`).
- A search error, including a missing collection, propagates as an error. It does not
  become an empty result.
- A hit whose content cannot be fetched is kept, as `content = ""` and `length = 0`
  (`Qdrant.FailedFetchDegrades`).

Behaviour a reader might expect of such a service that the code does not provide, and the
model does not provide either:

- injective keys;
- ids derived from key and path;
- an empty result for a never-ingested repository;
- `length` always equal to the byte length of `content`;
- per-file embedding failures absorbed rather than fatal.

## Model

| member | source | states |
|---|---|---|
| `Github.RepoId` | src/github/mod.rs:48-52 | definition: the collection key of a repository is its owner, `-`, its name, `-`, its branch |
| `Github.RepoIdRoundTrip` | src/github/mod.rs:48-52 | the key is owner, `-`, name, `-`, branch: when owner and name are dash-free, cutting the key at its first two dashes gives back the repository |
| `Github.SplitRepoIdSound` | src/github/mod.rs:50 | every key that splits is the key of the repository it splits into, and that repository's owner and name are dash-free |
| `Github.RepoIdInjectiveWithoutDashes` | src/github/mod.rs:50 | on dash-free owners and names, equal keys imply equal repositories |
| `Github.RepoIdCollision` | src/github/mod.rs:50 | for all strings, `(a-b, c, d)` and `(a, b-c, d)` are different repositories with the same key |
| `Github.RepoIdNotInjective` | src/github/mod.rs:50 | the concrete collision: `("a-b","c","d")` and `("a","b-c","d")` both have key `a-b-c-d` |
| `Github.FileText` | src/github/mod.rs:19-27 | definition: the embedded text is `File path: `, the path, `\nFile length: `, the length in decimal, ` bytes\nFile content: `, the content |
| `Github.FileTextRoundTrip` | src/github/mod.rs:19-27 | the embedded text of a file whose path has no newline determines path, length and content |
| `Github.ParseFileTextSound` | src/github/mod.rs:21-25 | every text the parser accepts is exactly `File path: P\nFile length: N bytes\nFile content: C` for the file it returns |
| `Github.ParseFileTextIff` | src/github/mod.rs:19-27 | a text parses to `f` if and only if it is the text of `f` and `f`'s path has no newline |
| `Github.StripRoot` | src/github/mod.rs:99 | the stored path is what follows the first `/` of the entry name; the part before it contains no `/` |
| `Github.ReadEntry` | src/github/mod.rs:91-107 | an entry yields a file iff it is a regular file whose text is UTF-8; the file has the stripped path, the text as content, and length 0 |
| `Github.ArchiveUrl` | src/github/mod.rs:86 | definition: the archive URL `https://github.com/{owner}/{name}/archive/{branch}.zip` |
| `Github.ExtractFiles` | src/github/mod.rs:90-109 | definition: the files are the archive entries in index order, filtered and mapped through `ReadEntry` |
| `Github.ExtractFilesSelects` | src/github/mod.rs:90-109 | entry `i` is kept iff it is readable; survivors keep archive order; the `k`-th file is built from the `k`-th kept entry |
| `Github.ExtractedLengthIsZero` | src/github/mod.rs:94-101 | every extracted file has length 0 |
| `Github.ExtractFilesSnoc` | src/github/mod.rs:90-109 | an unreadable entry adds nothing and does not fail the walk; a readable one appends its file at the end |
| `Github.FetchRepoFiles` | src/github/mod.rs:80-111 | succeeds iff the archive download and open succeed, and propagates their error otherwise; on success returns the extracted files |
| `Github.FetchedFileText` | src/github/mod.rs:21-25 | the text embedded for every fetched file reports `0 bytes` |
| `Github.EmbedFiles` | src/github/mod.rs:61-71 | exactly one `FileEmbeddings` per file, same index, same path, vector = model applied to the file's text; none dropped |
| `Github.EmbedRepo` | src/github/mod.rs:53-78 | a fetch error propagates; otherwise `repo_id` is the repository's key and the embeddings correspond one-to-one and in order to the extracted files |
| `Github.RawUrl` | src/github/mod.rs:119-120 | definition: the raw-content URL `https://raw.githubusercontent.com/{owner}/{name}/{branch}/{path}` |
| `Github.RawUrlDeterminesPath` | src/github/mod.rs:119-120 | within one repository the raw-content URL determines the path: distinct paths are fetched from distinct URLs |
| `Github.FetchFileContent` | src/github/mod.rs:113-128 | returns the body iff the raw-URL request succeeds with status 200 and its body reads; a 200 response whose body cannot be read gives that read's error; any other status gives the error "Unable to fetch file content"; transport errors propagate |
| `Iter.FilterMap` | src/github/mod.rs:90-109 | `filter_map(..).collect()`: the `Some` results of the closure in input order, never more than the input holds |
| `Iter.FilterMapSelects` | src/github/mod.rs:90-109 | `filter_map` keeps exactly the `Some` results, in input order, at strictly increasing indices |
| `Iter.FilterMapAllSome` | src/github/mod.rs:63-70 | a closure that always returns `Some` makes `filter_map` a one-to-one, order-preserving map |
| `Iter.FilterMapAppend` | src/github/mod.rs:90-109 | `filter_map` distributes over concatenation |
| `Iter.SomeIndices` | src/github/mod.rs:90-109 | the surviving indices are in range, strictly increasing, and contain `i` iff the closure yields `Some` at `i` |
| `Text.Utf8Length` | src/db/qdrant.rs:83 | the byte length of a string lies between its character count and four times it |
| `Text.Utf8LengthAppend` | src/db/qdrant.rs:83 | byte lengths add up over concatenation |
| `Text.Utf8LengthAscii` | src/db/qdrant.rs:83 | for ASCII text the byte length is the character count |
| `Text.Dec` | src/github/mod.rs:23-24 | the length is written as at least one decimal digit, with a leading `0` only for zero |
| `Text.DecRoundTrip` | src/github/mod.rs:23-24 | reading the written digits back gives the length |
| `Text.DecInjective` | src/github/mod.rs:23-24 | distinct lengths are written differently |
| `Text.SplitOnce` | src/github/mod.rs:99 | `split_once` succeeds iff the separator occurs, and yields the text before its first occurrence and the text after |
| `Text.SplitOnceOf` | src/github/mod.rs:99 | the split is unique: splitting `before + c + after` with `c` not in `before` gives back `before` and `after` |
| `Qdrant.CollectionFor` | src/db/qdrant.rs:29-39 | definition: the created collection is named `repo_id`, with 384-dimensional vectors and cosine distance |
| `Qdrant.PathPayload` | src/db/qdrant.rs:47 | definition: a point's payload is the single entry `path` holding the file's path as a string |
| `Qdrant.BuildPoints` | src/db/qdrant.rs:42-51 | one point per file embedding, same index, with the drawn id, the file's vector, and the single payload key `path` holding the file's path |
| `Qdrant.InsertRepoEmbeddings` | src/db/qdrant.rs:27-56 | creates collection `repo_id` (384, cosine); a creation error is returned as is; otherwise the result is the upsert of the built points into collection `repo_id` of the store creation left |
| `Qdrant.NoUpsertAfterFailedCreate` | src/db/qdrant.rs:28-40 | after a failed creation the outcome is independent of the upsert oracle: no upsert happens |
| `Qdrant.CollidingRepositoriesShareInsertion` | src/db/qdrant.rs:27-56 | two repositories with colliding keys and the same file embeddings are inserted identically: same creation, same upsert, same resulting store |
| `Qdrant.CollidingRepositoriesShareSearch` | src/db/qdrant.rs:58-94 | a search for either of two colliding repositories succeeds or fails together with the same error, and returns the same paths in the same order |
| `Qdrant.CollidingRepositoriesShareListing` | src/db/qdrant.rs:96-119 | listing the paths of either of two colliding repositories gives the same answer |
| `Qdrant.PutPoint` | src/db/qdrant.rs:52-54 | reference upsert of one point: keeps the point, overwrites a same-id point or appends, and keeps every point with another id |
| `Qdrant.PutPointFresh` | src/db/qdrant.rs:52-54 | a point whose id is new is appended |
| `Qdrant.MergeFresh` | src/db/qdrant.rs:49-54 | points with new, pairwise distinct ids are all appended |
| `Qdrant.InsertAppends` | src/db/qdrant.rs:42-54 | with fresh ids and the reference upsert, a successful insertion appends all built points to collection `repo_id` and leaves the rest of the store as creation left it |
| `Qdrant.ReinsertKeepsOldPoints` | src/db/qdrant.rs:49 | inserting a repository again keeps each file's old point beside the new one: same path payload, different ids |
| `Qdrant.HydrateHit` | src/db/qdrant.rs:77-89 | a hydrated file has the rendered payload path, the fetched content or `""` when the fetch fails, and length equal to the content's byte length |
| `Qdrant.GetRelevantFiles` | src/db/qdrant.rs:58-94 | searches collection `RepoId(repo)` with the given vector and limit; a search error propagates; otherwise one file per hit in hit order, with length = byte length of content |
| `Qdrant.FailedFetchDegrades` | src/db/qdrant.rs:80-88 | a hit whose fetch fails is returned at its rank as `(path, "", 0)` |
| `Qdrant.ScrollFor` | src/db/qdrant.rs:99-107 | definition: the scroll reads collection `RepoId(repo)` from the start, at most `MAX_FILE_COUNT` points, with payloads |
| `Qdrant.GetFilePaths` | src/db/qdrant.rs:96-119 | scrolls collection `RepoId(repo)` asking for at most `MAX_FILE_COUNT` points; a scroll error propagates; otherwise one rendered path per point in scroll order, under `repo_id = RepoId(repo)` |

## Left out

- src/utils/embeddings.rs: the ONNX session, tokenizer and mean pooling are foreign numerics. The zip download to disk and the directory walk are I/O. It is an older pipeline used only by src/main.rs.
- src/routes/mod.rs and src/main.rs: HTTP handlers, startup and panics on `unwrap`. The route calls `embed_repo` with four arguments, which does not match `embed_repo` itself (src/github/mod.rs:53), so it is stale.
- src/bin/test.rs: a standalone regex program over a hard-coded local path.
- src/utils/conversation.rs: a client constructor that reads an environment variable.
- src/db/mod.rs: a trait declaration without behaviour.
- `QdrantDB::initialize`: builds a client from environment variables.
- The network, the zip reader, the embedding model and the Qdrant server are oracles (see above). `archive.by_index(i).unwrap()` is taken to succeed for every index.
- `Github.EmbedRepo`: a model error panics through `unwrap` in the source. Here it is excluded by a precondition rather than modelled as an outcome.
- Server semantics are oracle behaviour: similarity ranking, how `limit` is enforced, and what creating an existing collection does. Whether a second insertion of a repository reaches its upsert at all therefore depends on `create`; `Qdrant.ReinsertKeepsOldPoints` states the duplication only for a creation that succeeds. `Qdrant.RefUpsert` (overwrite by id) is a reference semantics used only by the lemmas that mention it. Nothing else depends on it.
- `Value::to_string` is the parameter `render`, and it is not assumed to be the identity. The model therefore does not decide whether the rendered path (possibly quoted) is a usable URL path.
- UUID generation is the parameter `newId`. Uniqueness is assumed only where a lemma requires it, through the predicates `Qdrant.FreshIds` and `Qdrant.NewIds` that are preconditions of `Qdrant.MergeFresh`, `Qdrant.InsertAppends` and `Qdrant.ReinsertKeepsOldPoints`.
- The value of `MAX_FILE_COUNT` is not in the modelled files, so it is a `u32` parameter of `Qdrant.GetFilePaths`.
- `RepositoryFilePaths` is not declared in the modelled files. It is declared from its use in src/db/qdrant.rs:115-118.
- Request fields left at their defaults are not represented: other `CreateCollection` and `VectorParams` settings, and the scroll's filter, vectors and read consistency.
- Payload `Value`s are reduced to their scalar kinds.
- `f32` vector components are reals. No floating-point behaviour is modelled.
- `usize` lengths are unbounded naturals, so no overflow is modelled.
- Concurrency (rayon, `join_all`) is read as sequential, order-preserving maps. Timing, `println!` and the elapsed-time measurements are left out.
