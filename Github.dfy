/** Model of src/github/mod.rs: repository identity and its collection key, the text that is
    embedded for a file, extraction of files from the downloaded archive, the embedding
    fan-out, and fetching one file's content.

    The network is an oracle: `download` answers an archive URL with the archive's entries
    (standing for `reqwest::get(..).bytes()` followed by `ZipArchive::new`), `get` answers a
    URL with an HTTP response, and `embed` is the embedding model. */
module Github {
  import opened Prelude
  import opened Iter
  import opened Text

  /** A source file; `length` is meant to be the byte length of `content`. */
  datatype File = File(path: string, content: string, length: nat)

  datatype FileEmbeddings = FileEmbeddings(path: string, embeddings: Embeddings)

  datatype RepositoryEmbeddings = RepositoryEmbeddings(repoId: string, fileEmbeddings: seq<FileEmbeddings>)

  datatype Repository = Repository(owner: string, name: string, branch: string)

  /** Result of listing a repository's indexed paths (its fields are those used by
      src/db/qdrant.rs:115-118). */
  datatype RepositoryFilePaths = RepositoryFilePaths(repoId: string, filePaths: seq<string>)

  // ---------------------------------------------------------------------------------------
  // Collection key: `Display for Repository`
  // ---------------------------------------------------------------------------------------

  /** `format!("{repository}")`: the key under which a repository's vectors are stored,
      used as `repo_id` at ingestion and as the collection name by search and scroll. */
  function RepoId(r: Repository): string {
    r.owner + "-" + r.name + "-" + r.branch
  }

  /** Reads a key back by cutting it at its first two dashes. */
  function SplitRepoId(key: string): Option<Repository> {
    match SplitOnce(key, '-')
    case None => None
    case Some((owner, rest)) =>
      match SplitOnce(rest, '-')
      case None => None
      case Some((name, branch)) => Some(Repository(owner, name, branch))
  }

  /** The key of a repository whose owner and name contain no dash tells the three fields
      apart: cutting at the first two dashes recovers the repository. */
  lemma RepoIdRoundTrip(r: Repository)
    requires '-' !in r.owner && '-' !in r.name
    ensures SplitRepoId(RepoId(r)) == Some(r)
  {
    var rest := r.name + "-" + r.branch;
    assert RepoId(r) == r.owner + ['-'] + rest;
    SplitOnceOf(r.owner, '-', rest);
    assert rest == r.name + ['-'] + r.branch;
    SplitOnceOf(r.name, '-', r.branch);
  }

  /** Whatever `SplitRepoId` accepts is the key of what it returns, and that repository has
      dash-free owner and name. */
  lemma SplitRepoIdSound(key: string)
    requires SplitRepoId(key).Some?
    ensures RepoId(SplitRepoId(key).value) == key
    ensures '-' !in SplitRepoId(key).value.owner && '-' !in SplitRepoId(key).value.name
  {
    var first := SplitOnce(key, '-').value;
    var second := SplitOnce(first.1, '-').value;
    assert SplitRepoId(key).value == Repository(first.0, second.0, second.1);
  }

  /** On repositories whose owner and name contain no dash, distinct repositories get
      distinct keys. */
  lemma RepoIdInjectiveWithoutDashes(r1: Repository, r2: Repository)
    requires '-' !in r1.owner && '-' !in r1.name
    requires '-' !in r2.owner && '-' !in r2.name
    requires RepoId(r1) == RepoId(r2)
    ensures r1 == r2
  {
    RepoIdRoundTrip(r1);
    RepoIdRoundTrip(r2);
  }

  /** The key is not injective: moving a dash-separated segment from the end of the owner to
      the start of the name leaves the key unchanged. */
  lemma RepoIdCollision(a: string, b: string, c: string, d: string)
    ensures Repository(a + "-" + b, c, d) != Repository(a, b + "-" + c, d)
    ensures RepoId(Repository(a + "-" + b, c, d)) == RepoId(Repository(a, b + "-" + c, d))
  {
    assert |a + "-" + b| != |a|;
    assert a + "-" + b + "-" + c + "-" + d == a + "-" + (b + "-" + c) + "-" + d;
  }

  /** The concrete collision: the repositories `("a-b", "c", "d")` and `("a", "b-c", "d")`
      (owner, name, branch) share the collection `a-b-c-d`. */
  lemma RepoIdNotInjective()
    ensures Repository("a-b", "c", "d") != Repository("a", "b-c", "d")
    ensures RepoId(Repository("a-b", "c", "d")) == RepoId(Repository("a", "b-c", "d")) == "a-b-c-d"
  {
    RepoIdCollision("a", "b", "c", "d");
  }

  // ---------------------------------------------------------------------------------------
  // Embedded text: `Display for File`
  // ---------------------------------------------------------------------------------------

  const PathLabel: string := "File path: "
  const LengthLabel: string := "\nFile length: "
  const ContentLabel: string := " bytes\nFile content: "

  /** `format!("{file}")`: the text handed to the embedding model for a file. */
  function FileText(f: File): string {
    PathLabel + f.path + LengthLabel + Dec(f.length) + ContentLabel + f.content
  }

  /** The part of a file's text after the path's newline: the length tag, the length in
      canonical decimal, and the content label, followed by the content. */
  function ParseLengthAndContent(rest: string): Option<(nat, string)> {
    var tag := LengthLabel[1..];
    if !IsPrefix(tag, rest) then None
    else
      var numbered := rest[|tag|..];
      var d := DigitPrefix(numbered);
      var digits := numbered[..d];
      var tail := numbered[d..];
      if d == 0 || digits != Dec(ParseDec(digits)) || !IsPrefix(ContentLabel, tail) then None
      else Some((ParseDec(digits), tail[|ContentLabel|..]))
  }

  /** Reads the path, the length and the content back out of a file's text. The path ends
      at the first newline. */
  function ParseFileText(t: string): Option<File> {
    if !IsPrefix(PathLabel, t) then None
    else
      var split := SplitOnce(t[|PathLabel|..], '\n');
      if split.None? then None
      else
        var lengthAndContent := ParseLengthAndContent(split.value.1);
        if lengthAndContent.None? then None
        else Some(File(split.value.0, lengthAndContent.value.1, lengthAndContent.value.0))
  }

  lemma ParseLengthAndContentRoundTrip(n: nat, content: string)
    ensures ParseLengthAndContent(LengthLabel[1..] + Dec(n) + ContentLabel + content) == Some((n, content))
  {
    var tag := LengthLabel[1..];
    var digits := Dec(n);
    var tail := ContentLabel + content;
    var numbered := digits + tail;
    var rest := tag + numbered;
    assert rest == tag + Dec(n) + ContentLabel + content;
    assert rest[..|tag|] == tag && rest[|tag|..] == numbered;
    assert tail[0] == ' ';
    DigitPrefixOf(digits, tail);
    assert numbered[..|digits|] == digits && numbered[|digits|..] == tail;
    DecRoundTrip(n);
    assert tail[..|ContentLabel|] == ContentLabel && tail[|ContentLabel|..] == content;
  }

  lemma ParseLengthAndContentSound(rest: string)
    requires ParseLengthAndContent(rest).Some?
    ensures rest == LengthLabel[1..] + Dec(ParseLengthAndContent(rest).value.0) + ContentLabel
                    + ParseLengthAndContent(rest).value.1
  {
    var tag := LengthLabel[1..];
    var numbered := rest[|tag|..];
    var d := DigitPrefix(numbered);
    var digits := numbered[..d];
    var tail := numbered[d..];
    var n, content := ParseLengthAndContent(rest).value.0, ParseLengthAndContent(rest).value.1;
    assert digits == Dec(n);
    assert content == tail[|ContentLabel|..];
    SplitAt(numbered, d);
    Assoc4(tag, digits, ContentLabel, content);
  }

  lemma SplitAt(s: string, k: nat)
    requires k <= |s|
    ensures s == s[..k] + s[k..]
  {
  }

  lemma Assoc4(a: string, b: string, c: string, d: string)
    ensures a + (b + (c + d)) == a + b + c + d
  {
  }

  /** The text of a file whose path has no newline determines the file: path, length and
      content can all be read back. */
  lemma FileTextRoundTrip(f: File)
    requires '\n' !in f.path
    ensures ParseFileText(FileText(f)) == Some(f)
  {
    var t := FileText(f);
    var tail := Dec(f.length) + (ContentLabel + f.content);
    var rest := LengthLabel[1..] + tail;
    assert t == PathLabel + (f.path + ['\n'] + rest);
    SplitOnceOf(f.path, '\n', rest);
    Assoc4(LengthLabel[1..], Dec(f.length), ContentLabel, f.content);
    ParseLengthAndContentRoundTrip(f.length, f.content);
  }

  /** Conversely, every text that parses is the text of the file it parses to, and that
      file's path has no newline. */
  lemma ParseFileTextSound(t: string)
    requires ParseFileText(t).Some?
    ensures '\n' !in ParseFileText(t).value.path
    ensures FileText(ParseFileText(t).value) == t
  {
    var f := ParseFileText(t).value;
    var body := t[|PathLabel|..];
    var split := SplitOnce(body, '\n').value;
    var path, rest := split.0, split.1;
    var lengthAndContent := ParseLengthAndContent(rest).value;
    assert f == File(path, lengthAndContent.1, lengthAndContent.0);
    ParseLengthAndContentSound(rest);
    var tail := Dec(f.length) + (ContentLabel + f.content);
    Assoc4(LengthLabel[1..], Dec(f.length), ContentLabel, f.content);
    assert rest == LengthLabel[1..] + tail;
    NewlineThenTag(path, rest, tail);
    assert body == path + (LengthLabel + tail);
    assert t == PathLabel + (path + (LengthLabel + tail));
    Rejoin(PathLabel, path, LengthLabel, Dec(f.length), ContentLabel, f.content);
  }

  lemma NewlineThenTag(path: string, rest: string, tail: string)
    requires rest == LengthLabel[1..] + tail
    ensures path + ['\n'] + rest == path + (LengthLabel + tail)
  {
    assert ['\n'] + LengthLabel[1..] == LengthLabel;
  }

  lemma Rejoin(a: string, b: string, c: string, d: string, e: string, g: string)
    ensures a + (b + (c + (d + (e + g)))) == a + b + c + d + e + g
  {
  }

  /** Together: a text parses to `f` exactly when it is `f`'s text and `f`'s path has no
      newline. */
  lemma ParseFileTextIff(t: string, f: File)
    ensures ParseFileText(t) == Some(f) <==> '\n' !in f.path && t == FileText(f)
  {
    if ParseFileText(t) == Some(f) {
      ParseFileTextSound(t);
    }
    if '\n' !in f.path && t == FileText(f) {
      FileTextRoundTrip(f);
    }
  }

  // ---------------------------------------------------------------------------------------
  // Archive extraction: `fetch_repo_files`
  // ---------------------------------------------------------------------------------------

  /** One entry of the zip archive: its name, whether it is a regular file, and its contents
      when they read as UTF-8 (`None` when `read_to_string` fails). */
  datatype Entry = Entry(name: string, isFile: bool, text: Option<string>)

  /** The archive's `.../archive/<branch>.zip` download URL. */
  function ArchiveUrl(r: Repository): string {
    "https://github.com/" + r.owner + "/" + r.name + "/archive/" + r.branch + ".zip"
  }

  /** The entry would be kept: a regular file whose contents are valid UTF-8. */
  predicate Readable(e: Entry) {
    e.isFile && e.text.Some?
  }

  /** `name.split_once("/").unwrap().1`: the name with its leading archive directory removed. */
  function StripRoot(name: string): (path: string)
    requires '/' in name
    ensures |path| < |name|
    ensures name[|name| - |path| - 1] == '/' && name[|name| - |path|..] == path
    ensures '/' !in name[..|name| - |path| - 1]
  {
    var (root, path) := SplitOnce(name, '/').value;
    assert name[..|root|] == root && name[|root| + 1..] == path;
    path
  }

  /** The `filter_map` closure over archive indices. The length is read from the buffer
      before `read_to_string` fills it, so it is the length of the empty string. Unwrapping
      `split_once` panics on a name without `/`, so a readable entry must have one. */
  function ReadEntry(e: Entry): (r: Option<File>)
    requires Readable(e) ==> '/' in e.name
    ensures r.Some? <==> Readable(e)
    ensures r.Some? ==> r.value == File(StripRoot(e.name), e.text.value, 0)
  {
    if e.isFile then
      var buffer := "";
      var length := Utf8Length(buffer);
      match e.text
      case Some(content) => Some(File(StripRoot(e.name), content, length))
      case None => None
    else None
  }

  /** No readable entry makes the path stripping panic. */
  predicate NamesSplit(entries: seq<Entry>) {
    forall i :: 0 <= i < |entries| ==> Readable(entries[i]) ==> '/' in entries[i].name
  }

  /** The files of an opened archive, in archive-index order. */
  function ExtractFiles(entries: seq<Entry>): (files: seq<File>)
    requires NamesSplit(entries)
  {
    FilterMap(entries, ReadEntry)
  }

  /** The indices of the entries `ExtractFiles` keeps. */
  function KeptIndices(entries: seq<Entry>): seq<nat>
    requires NamesSplit(entries)
  {
    SomeIndices(entries, ReadEntry)
  }

  /** `ExtractFiles` keeps an entry exactly when it is a regular file that reads as UTF-8,
      keeps the survivors in archive order, and turns each into a file with the stripped
      name as path, the text as content and length 0. */
  lemma ExtractFilesSelects(entries: seq<Entry>)
    requires NamesSplit(entries)
    ensures forall i :: 0 <= i < |entries| ==> (i in KeptIndices(entries) <==> Readable(entries[i]))
    ensures forall a, b :: 0 <= a < b < |KeptIndices(entries)| ==> KeptIndices(entries)[a] < KeptIndices(entries)[b]
    ensures |ExtractFiles(entries)| == |KeptIndices(entries)|
    ensures forall k :: 0 <= k < |ExtractFiles(entries)| ==>
              var e := entries[KeptIndices(entries)[k]];
              ExtractFiles(entries)[k] == File(StripRoot(e.name), e.text.value, 0)
  {
    FilterMapSelects(entries, ReadEntry);
  }

  /** Every extracted file has length 0, whatever its content. */
  lemma ExtractedLengthIsZero(entries: seq<Entry>)
    requires NamesSplit(entries)
    ensures forall k :: 0 <= k < |ExtractFiles(entries)| ==> ExtractFiles(entries)[k].length == 0
  {
    ExtractFilesSelects(entries);
  }

  /** Entries are decided one by one: a directory or an undecodable file appended to the
      archive leaves the extracted files unchanged, and a readable one adds its file at
      the end. */
  lemma ExtractFilesSnoc(entries: seq<Entry>, e: Entry)
    requires NamesSplit(entries) && (Readable(e) ==> '/' in e.name)
    ensures NamesSplit(entries + [e])
    ensures ExtractFiles(entries + [e]) ==
              ExtractFiles(entries) + if Readable(e) then [File(StripRoot(e.name), e.text.value, 0)] else []
  {
    assert forall i :: 0 <= i < |entries| ==> (entries + [e])[i] == entries[i];
    assert (entries + [e])[|entries|] == e;
    FilterMapAppend(entries, [e], ReadEntry);
    assert FilterMap([e], ReadEntry) == FilterMap([], ReadEntry) + match ReadEntry(e) { case Some(f) => [f] case None => [] };
  }

  /** The archive download answers, or its error is returned. Every readable entry of a
      downloaded archive must have a `/` in its name. */
  ghost predicate ArchiveWellFormed(repo: Repository, download: string -> Result<seq<Entry>>) {
    download(ArchiveUrl(repo)).Ok? ==> NamesSplit(download(ArchiveUrl(repo)).value)
  }

  /** `fetch_repo_files`: download and open the archive (failures propagate), then extract
      its files. */
  function FetchRepoFiles(repo: Repository, download: string -> Result<seq<Entry>>): (r: Result<seq<File>>)
    requires ArchiveWellFormed(repo, download)
    ensures r.Ok? <==> download(ArchiveUrl(repo)).Ok?
    ensures r.Err? ==> r.error == download(ArchiveUrl(repo)).error
    ensures r.Ok? ==> r.value == ExtractFiles(download(ArchiveUrl(repo)).value)
  {
    var entries :- download(ArchiveUrl(repo));
    Ok(ExtractFiles(entries))
  }

  /** Since every fetched file has length 0, the text embedded for it always reports
      `0 bytes`, whatever the size of its content. */
  lemma FetchedFileText(entries: seq<Entry>, k: nat)
    requires NamesSplit(entries)
    requires k < |ExtractFiles(entries)|
    ensures FileText(ExtractFiles(entries)[k]) ==
              PathLabel + ExtractFiles(entries)[k].path + LengthLabel + "0" + ContentLabel + ExtractFiles(entries)[k].content
  {
    ExtractedLengthIsZero(entries);
    assert Dec(0) == "0";
  }

  // ---------------------------------------------------------------------------------------
  // Embedding fan-out: `embed_repo`
  // ---------------------------------------------------------------------------------------

  /** The model returns a vector for the text of every file (`unwrap` panics otherwise). */
  ghost predicate EmbedsAll(files: seq<File>, embed: string -> Result<Embeddings>) {
    forall i :: 0 <= i < |files| ==> embed(FileText(files[i])).Ok?
  }

  /** The `filter_map` over the fetched files: one `FileEmbeddings` per file, in order, with
      the file's path and the vector of the file's text; no file is dropped. */
  function EmbedFiles(files: seq<File>, embed: string -> Result<Embeddings>): (r: seq<FileEmbeddings>)
    requires EmbedsAll(files, embed)
    ensures |r| == |files|
    ensures forall k :: 0 <= k < |files| ==>
              r[k].path == files[k].path && r[k].embeddings == embed(FileText(files[k])).value
  {
    var closure := (file: File) requires embed(FileText(file)).Ok? =>
      Some(FileEmbeddings(file.path, embed(FileText(file)).value));
    FilterMapAllSome(files, closure);
    FilterMap(files, closure)
  }

  /** `embed_repo`: fetch the files (a fetch error propagates), embed each, and label the
      result with the repository's key. */
  function EmbedRepo(repo: Repository, download: string -> Result<seq<Entry>>,
                     embed: string -> Result<Embeddings>): (r: Result<RepositoryEmbeddings>)
    requires ArchiveWellFormed(repo, download)
    requires FetchRepoFiles(repo, download).Ok? ==> EmbedsAll(FetchRepoFiles(repo, download).value, embed)
    ensures r.Ok? <==> download(ArchiveUrl(repo)).Ok?
    ensures r.Err? ==> r.error == download(ArchiveUrl(repo)).error
    ensures r.Ok? ==> r.value.repoId == RepoId(repo)
    ensures r.Ok? ==>
              var files := ExtractFiles(download(ArchiveUrl(repo)).value);
              && |r.value.fileEmbeddings| == |files|
              && forall k :: 0 <= k < |files| ==>
                   && r.value.fileEmbeddings[k].path == files[k].path
                   && r.value.fileEmbeddings[k].embeddings == embed(FileText(files[k])).value
  {
    var files :- FetchRepoFiles(repo, download);
    Ok(RepositoryEmbeddings(RepoId(repo), EmbedFiles(files, embed)))
  }

  // ---------------------------------------------------------------------------------------
  // One file's content: `fetch_file_content`
  // ---------------------------------------------------------------------------------------

  /** An HTTP response: its status code and the outcome of reading its body as text. */
  datatype HttpResponse = HttpResponse(status: nat, text: Result<string>)

  const StatusOk: nat := 200

  /** The raw-content URL of `path` on the repository's branch. */
  function RawUrl(r: Repository, path: string): string {
    "https://raw.githubusercontent.com/" + r.owner + "/" + r.name + "/" + r.branch + "/" + path
  }

  /** Within one repository, distinct paths are fetched from distinct URLs: the URL
      determines the path. */
  lemma RawUrlDeterminesPath(repo: Repository, p1: string, p2: string)
    requires RawUrl(repo, p1) == RawUrl(repo, p2)
    ensures p1 == p2
  {
    var base := "https://raw.githubusercontent.com/" + repo.owner + "/" + repo.name + "/" + repo.branch + "/";
    PrefixOfConcat(base, p2);
  }

  /** `fetch_file_content`: a transport error propagates; a 200 response yields its body (a
      body that cannot be read propagates its error); any other status is an error. */
  function FetchFileContent(repo: Repository, path: string, get: string -> Result<HttpResponse>): (r: Result<string>)
    ensures r.Ok? <==> get(RawUrl(repo, path)).Ok? && get(RawUrl(repo, path)).value.status == StatusOk
                        && get(RawUrl(repo, path)).value.text.Ok?
    ensures r.Ok? ==> r.value == get(RawUrl(repo, path)).value.text.value
    ensures get(RawUrl(repo, path)).Ok? && get(RawUrl(repo, path)).value.status != StatusOk ==>
              r == Err(Error("Unable to fetch file content"))
    ensures get(RawUrl(repo, path)).Ok? && get(RawUrl(repo, path)).value.status == StatusOk
            && get(RawUrl(repo, path)).value.text.Err? ==>
              r == Err(get(RawUrl(repo, path)).value.text.error)
    ensures get(RawUrl(repo, path)).Err? ==> r == Err(get(RawUrl(repo, path)).error)
  {
    var response :- get(RawUrl(repo, path));
    if response.status == StatusOk then
      var content :- response.text;
      Ok(content)
    else
      Err(Error("Unable to fetch file content"))
  }
}
