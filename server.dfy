/** The local-disk backend: files live under `uploads/<namespace>/<document>/<name>`
    in the tree of `Disk`, next to the temporary files the upload middleware
    leaves in `uploads/`. Public URLs point at the server's file route. */
module Server {
  import opened Results
  import opened Strings
  import opened Storage
  import opened Disk

  const UploadDir := "uploads"
  /** The port used when `PORT` is unset or empty. */
  const DefaultPort := "4001"
  const LocalHost := "http://localhost:"
  const FilesRoute := "/api/documents/files/"
  /** What `path.join` throws when handed `undefined` in place of a segment. */
  const TypeError := "TypeError: The \"path\" argument must be of type string. Received undefined"

  /** A path segment as the storage layer builds them: not empty, without "/",
      and not one of the names "." and ".." that `path.join` would resolve. */
  predicate Segment(s: string) {
    s != "" && '/' !in s && s != "." && s != ".."
  }

  /** `a || b` on environment values: `a` when it is truthy, otherwise `b`. */
  function Or(a: Option<string>, b: string): string {
    if Truthy(a) then a.value else b
  }

  /** `SERVER_URL || "http://localhost:" + (PORT || 4001)`: an empty variable
      falls back exactly as an unset one does. */
  function Domain(serverUrl: Option<string>, port: Option<string>): (d: string)
    ensures Truthy(serverUrl) ==> d == serverUrl.value
    ensures !Truthy(serverUrl) && Truthy(port) ==> d == LocalHost + port.value
    ensures !Truthy(serverUrl) && !Truthy(port) ==> d == "http://localhost:4001"
  {
    Or(serverUrl, LocalHost + Or(port, DefaultPort))
  }

  /** The URL `constructFileUrl` builds: the file route of the domain followed by the key. */
  function FileUrl(domain: string, fileKey: string): (url: string)
    ensures KeyOfUrl(domain, url) == Some(fileKey)
  {
    domain + FilesRoute + fileKey
  }

  /** The key a URL of the file route names, when it is one. */
  function KeyOfUrl(domain: string, url: string): Option<string> {
    var base := domain + FilesRoute;
    if IsPrefix(base, url) then Some(url[|base|..]) else None
  }

  /** The destructured key of `saveFile`: the namespace, the document and the
      remaining pieces joined back with "/". */
  datatype KeyParts = KeyParts(namespaceId: string, documentId: string, fileName: string)

  /** `const [namespaceId, documentId, ...rest] = fileKey.split("/")` with
      `fileName = rest.join("/")`; None when the key holds no "/", which leaves
      `documentId` undefined. Whenever the key has two or more "/", the three
      parts rejoined with "/" give the key back. */
  function SplitKey(fileKey: string): (r: Option<KeyParts>)
    ensures r.None? <==> '/' !in fileKey
    ensures r.Some? ==> '/' !in r.value.namespaceId && '/' !in r.value.documentId
    ensures r.Some? && |Split(fileKey, '/')| == 2 ==>
      r.value.fileName == "" && fileKey == r.value.namespaceId + "/" + r.value.documentId
    ensures r.Some? && |Split(fileKey, '/')| >= 3 ==>
      fileKey == r.value.namespaceId + "/" + r.value.documentId + "/" + r.value.fileName
  {
    var parts := Split(fileKey, '/');
    if |parts| < 2 then None
    else
      KeyRejoins(fileKey);
      Some(KeyParts(parts[0], parts[1], Join(parts[2..], "/")))
  }

  /** The pieces of a key with a "/", rejoined as `saveFile` regroups them. */
  lemma KeyRejoins(fileKey: string)
    requires |Split(fileKey, '/')| >= 2
    ensures var parts := Split(fileKey, '/');
      && (|parts| == 2 ==> fileKey == parts[0] + "/" + parts[1])
      && (|parts| >= 3 ==> fileKey == parts[0] + "/" + parts[1] + "/" + Join(parts[2..], "/"))
  {
    var parts := Split(fileKey, '/');
    JoinSplit(fileKey, '/');
    var tail := Join(parts[1..], "/");
    assert fileKey == parts[0] + "/" + tail;
    if |parts| == 2 {
      assert parts[1..] == [parts[1]];
    } else {
      assert parts[1..][0] == parts[1];
      assert parts[1..][1..] == parts[2..];
      assert tail == parts[1] + "/" + Join(parts[2..], "/");
    }
  }

  /** `path.join(uploadDir, namespaceId)`. */
  function NamespaceDir(namespaceId: string): Path {
    PathJoin([], [UploadDir, namespaceId])
  }

  /** `path.join(uploadDir, namespaceId, documentId)`. */
  function DocumentDir(namespaceId: string, documentId: string): Path {
    PathJoin([], [UploadDir, namespaceId, documentId])
  }

  /** Both directories lie inside `uploads`, so neither is the working directory. */
  lemma DirsInUploads(namespaceId: string, documentId: string)
    ensures |NamespaceDir(namespaceId)| >= 1 && NamespaceDir(namespaceId)[0] == UploadDir
    ensures |DocumentDir(namespaceId, documentId)| >= 1 && DocumentDir(namespaceId, documentId)[0] == UploadDir
  {
    SplitCons(UploadDir, '/', namespaceId);
    assert Join([UploadDir, namespaceId], "/") == UploadDir + "/" + namespaceId;
    var rest := Join([namespaceId, documentId], "/");
    SplitCons(UploadDir, '/', rest);
    assert [UploadDir, namespaceId, documentId][1..] == [namespaceId, documentId];
    assert Join([UploadDir, namespaceId, documentId], "/") == UploadDir + "/" + rest;
  }

  /** `path.join` of plain segments keeps them as they are. */
  lemma {:induction false} JoinPlain(segs: seq<string>)
    requires |segs| >= 1 && forall i :: 0 <= i < |segs| ==> segs[i] != "" && '/' !in segs[i]
    ensures PathJoin([], segs) == segs
  {
    SplitJoin(segs, '/');
    KeepNonEmpty(segs);
  }

  lemma {:induction false} KeepNonEmpty(segs: seq<string>)
    requires forall i :: 0 <= i < |segs| ==> segs[i] != ""
    ensures NonEmpty(segs) == segs
  {
    if segs != [] {
      KeepNonEmpty(segs[1..]);
    }
  }

  /** For plain segments the directories are exactly `uploads/ns` and `uploads/ns/doc`. */
  lemma PlainDirs(namespaceId: string, documentId: string)
    requires Segment(namespaceId) && Segment(documentId)
    ensures NamespaceDir(namespaceId) == [UploadDir, namespaceId]
    ensures DocumentDir(namespaceId, documentId) == [UploadDir, namespaceId, documentId]
  {
    JoinPlain([UploadDir, namespaceId]);
    JoinPlain([UploadDir, namespaceId, documentId]);
  }

  /** `if (!fs.existsSync(dir)) fs.mkdirSync(dir, { recursive: true })`. */
  function Prepared(t: Tree, dir: Path): (r: Result<Tree>)
    requires Disk.Valid(t)
    ensures r.Ok? ==> Disk.Valid(r.value) && Exists(r.value, dir)
    ensures r.Ok? ==> forall p :: p in t.nodes ==> p in r.value.nodes && r.value.nodes[p] == t.nodes[p]
    ensures r.Ok? ==> forall p :: p in r.value.nodes && p !in t.nodes ==> Within(p, dir) && r.value.nodes[p] == Dir
  {
    if Exists(t, dir) then Ok(t) else MakeDirs(t, dir)
  }

  /** What a successful save does to the tree: the temporary file's contents
      move to the destination, the document directory exists, every other
      entry is kept, and the only new entries are the destination and the
      directories on the way to the document directory. The document directory
      is a directory unless the destination is that very path (an empty file
      name moved onto a file that sat there). */
  lemma SaveEffect(t: Tree, docDir: Path, src: Path, dst: Path)
    requires Disk.Valid(t) && Within(docDir, dst)
    requires Prepared(t, docDir).Ok? && Rename(Prepared(t, docDir).value, src, dst).Ok?
    ensures var t2 := Rename(Prepared(t, docDir).value, src, dst).value;
      && (dst != docDir ==> IsDir(t2, docDir))
      && src in t.nodes && dst in t2.nodes && t2.nodes[dst] == t.nodes[src]
      && (src != dst ==> src !in t2.nodes)
      && (forall p :: p in t.nodes && p != src && p != dst ==> p in t2.nodes && t2.nodes[p] == t.nodes[p])
      && (forall p :: p in t2.nodes && p !in t.nodes ==> p == dst || Within(p, docDir))
  {
    var t1 := Prepared(t, docDir).value;
    var t2 := Rename(t1, src, dst).value;
    assert src in t.nodes;
    if docDir != [] && dst != docDir {
      assert InDir(t1, dst);
      var parent := dst[..|dst| - 1];
      assert Within(docDir, parent);
      if parent != docDir {
        AncestorIsDir(t1, docDir, parent);
      }
    }
  }

  /** A file name without "/" joined onto a directory is one entry inside it. */
  lemma JoinName(dir: Path, name: string)
    requires name != "" && '/' !in name
    ensures PathJoin(dir, [name]) == dir + [name]
  {
    assert Join([name], "/") == name;
    assert Split(name, '/') == [name];
    assert NonEmpty([name]) == [name] + NonEmpty([]);
  }

  /** The details of one document directory's entries, in their order. */
  function DocDetails(domain: string, namespaceId: string, documentId: string, names: seq<string>): seq<FileDetail> {
    seq(|names|, i requires 0 <= i < |names| =>
      FileDetail(documentId, names[i], FileUrl(domain, namespaceId + "/" + documentId + "/" + names[i])))
  }

  /** The files of the given documents of a namespace, document after document. */
  function ListedFiles(t: Tree, domain: string, namespaceId: string, docs: seq<string>): seq<FileDetail> {
    if docs == [] then []
    else
      var doc := docs[|docs| - 1];
      ListedFiles(t, domain, namespaceId, docs[..|docs| - 1])
        + DocDetails(domain, namespaceId, doc, Entries(t, NamespaceDir(namespaceId) + [doc]))
  }

  /** `listFilesInNamespace`: read the namespace directory, keep its
      subdirectories, and list every entry of each. It rejects exactly when the
      namespace directory is missing or is a file. */
  function NamespaceListing(t: Tree, domain: string, namespaceId: string): (r: Result<seq<FileDetail>>)
    ensures r.Ok? <==> IsDir(t, NamespaceDir(namespaceId))
  {
    var dir := NamespaceDir(namespaceId);
    match ReadDir(t, dir)
    case Err(e) => Err(e)
    case Ok(_) => Ok(ListedFiles(t, domain, namespaceId, SubDirNames(t, dir)))
  }

  /** What a listing says about one file: its document is a subdirectory of the
      namespace directory, its name is an entry of that subdirectory, and its
      URL is built from `ns/doc/name`. */
  predicate Listed(t: Tree, domain: string, namespaceId: string, d: FileDetail) {
    var doc := NamespaceDir(namespaceId) + [d.documentId];
    && doc in t.order && doc in t.nodes && t.nodes[doc].Dir?
    && doc + [d.name] in t.order
    && d.url == FileUrl(domain, namespaceId + "/" + d.documentId + "/" + d.name)
  }

  lemma {:induction false} ListedFilesMembers(t: Tree, domain: string, namespaceId: string, docs: seq<string>, d: FileDetail)
    ensures d in ListedFiles(t, domain, namespaceId, docs) <==>
      && d.documentId in docs
      && NamespaceDir(namespaceId) + [d.documentId] + [d.name] in t.order
      && d.url == FileUrl(domain, namespaceId + "/" + d.documentId + "/" + d.name)
  {
    if docs != [] {
      var init := docs[..|docs| - 1];
      var doc := docs[|docs| - 1];
      ListedFilesMembers(t, domain, namespaceId, init, d);
      assert forall x :: x in docs <==> x in init || x == doc;
      var names := Entries(t, NamespaceDir(namespaceId) + [doc]);
      var details := DocDetails(domain, namespaceId, doc, names);
      if d in details {
        var i :| 0 <= i < |details| && details[i] == d;
        assert names[i] in names;
      }
      if d.documentId == doc && d.name in names
        && d.url == FileUrl(domain, namespaceId + "/" + d.documentId + "/" + d.name) {
        var i :| 0 <= i < |names| && names[i] == d.name;
        assert details[i] == d;
      }
    }
  }

  /** A namespace listing holds exactly the files of the namespace's
      subdirectories: plain files beside them contribute nothing. */
  lemma ListingMembers(t: Tree, domain: string, namespaceId: string, d: FileDetail)
    requires IsDir(t, NamespaceDir(namespaceId))
    ensures d in NamespaceListing(t, domain, namespaceId).value <==> Listed(t, domain, namespaceId, d)
  {
    var dir := NamespaceDir(namespaceId);
    ListedFilesMembers(t, domain, namespaceId, SubDirNames(t, dir), d);
  }

  /** The number of entries of the given document directories. */
  function EntryCount(t: Tree, dir: Path, docs: seq<string>): nat {
    if docs == [] then 0
    else EntryCount(t, dir, docs[..|docs| - 1]) + |Entries(t, dir + [docs[|docs| - 1]])|
  }

  /** Every entry of every document directory gives one listed file: nothing is filtered. */
  lemma {:induction false} ListingLength(t: Tree, domain: string, namespaceId: string, docs: seq<string>)
    ensures |ListedFiles(t, domain, namespaceId, docs)| == EntryCount(t, NamespaceDir(namespaceId), docs)
  {
    if docs != [] {
      ListingLength(t, domain, namespaceId, docs[..|docs| - 1]);
    }
  }

  /** After the namespace directory has been removed, listing the namespace
      rejects instead of answering with an empty list. */
  lemma ListingAfterDeleteFails(t: Tree, domain: string, namespaceId: string)
    requires Disk.Valid(t) && IsDir(t, NamespaceDir(namespaceId))
    ensures NamespaceListing(RemoveTree(t, NamespaceDir(namespaceId)).value, domain, namespaceId).Err?
  {
    DirsInUploads(namespaceId, "");
    var dir := NamespaceDir(namespaceId);
    assert Within(dir, dir);
  }

  /** Removing one namespace keeps every entry of another. */
  lemma DeleteKeepsOtherNamespaces(t: Tree, ns1: string, ns2: string, p: Path)
    requires Segment(ns1) && Segment(ns2) && ns1 != ns2
    requires p in t.nodes && Within(NamespaceDir(ns2), p)
    ensures p in Pruned(t.nodes, NamespaceDir(ns1))
  {
    PlainDirs(ns1, "x");
    PlainDirs(ns2, "x");
    assert p[1] == ns2;
  }

  /** Removing one document keeps its siblings, including one whose id merely
      extends it: directories are compared segment by segment. */
  lemma DeleteKeepsSiblingDocuments(t: Tree, ns: string, d1: string, d2: string, p: Path)
    requires Segment(ns) && Segment(d1) && Segment(d2) && d1 != d2
    requires p in t.nodes && Within(DocumentDir(ns, d2), p)
    ensures p in Pruned(t.nodes, DocumentDir(ns, d1))
  {
    PlainDirs(ns, d1);
    PlainDirs(ns, d2);
    assert p[2] == d2;
  }

  /** A file saved as `name` in the directory of document `doc` of namespace
      `ns` (the pieces of the key `ns/doc/name`) is in the next listing of the
      namespace, with that document, that name and the key's URL. */
  lemma SavedFileIsListed(t: Tree, domain: string, ns: string, doc: string, name: string)
    requires Disk.Valid(t) && Segment(ns) && Segment(doc) && name != "" && '/' !in name
    requires IsDir(t, DocumentDir(ns, doc)) && PathJoin(DocumentDir(ns, doc), [name]) in t.nodes
    ensures NamespaceListing(t, domain, ns).Ok?
    ensures FileDetail(doc, name, FileUrl(domain, ns + "/" + doc + "/" + name)) in NamespaceListing(t, domain, ns).value
  {
    var docDir := DocumentDir(ns, doc);
    var nsDir := NamespaceDir(ns);
    PlainDirs(ns, doc);
    JoinName(docDir, name);
    assert docDir in t.nodes && t.nodes[docDir].Dir?;
    assert IsDir(t, nsDir) by {
      assert InDir(t, docDir);
      assert docDir[..2] == nsDir;
    }
    var d := FileDetail(doc, name, FileUrl(domain, ns + "/" + doc + "/" + name));
    assert nsDir + [doc] == docDir;
    assert Listed(t, domain, ns, d);
    ListingMembers(t, domain, ns, d);
  }

  class ServerStorage {
    /** `SERVER_URL` and `PORT` as the process environment holds them. */
    const serverUrl: Option<string>
    const port: Option<string>
    /** The working directory's tree, `uploads` included. */
    var disk: Tree

    ghost predicate Valid()
      reads this
    {
      Disk.Valid(disk)
    }

    constructor (serverUrl: Option<string>, port: Option<string>, disk: Tree)
      requires Disk.Valid(disk)
      ensures Valid()
      ensures this.serverUrl == serverUrl && this.port == port && this.disk == disk
    {
      this.serverUrl := serverUrl;
      this.port := port;
      this.disk := disk;
    }

    /** `saveFile`: split the key, create the document directory when it does
        not exist, then move the temporary file into it. A failed move leaves
        the created directories in place. On success the file's contents sit
        at the destination, the temporary path is gone unless it is the
        destination itself, and every other entry
        is as it was; the only new entries are the destination and the
        directories on the way to the document directory. */
    method SaveFile(file: UploadedFile, fileKey: string) returns (r: Outcome)
      requires Valid()
      modifies this
      ensures Valid()
      ensures SplitKey(fileKey).None? ==> r == Fail(TypeError) && disk == old(disk)
      ensures SplitKey(fileKey).Some? ==>
        var k := SplitKey(fileKey).value;
        var docDir := DocumentDir(k.namespaceId, k.documentId);
        var src := PathJoin([], [file.path]);
        var dst := PathJoin(docDir, [k.fileName]);
        var made := Prepared(old(disk), docDir);
        && (made.Err? ==> r == Fail(made.error) && disk == old(disk))
        && (made.Ok? && Rename(made.value, src, dst).Err? ==>
              r == Fail(Rename(made.value, src, dst).error) && disk == made.value)
        && (made.Ok? && Rename(made.value, src, dst).Ok? ==>
              r == Pass && disk == Rename(made.value, src, dst).value)
        && (r.Pass? ==>
              && (dst != docDir ==> IsDir(disk, docDir))
              && src in old(disk).nodes && dst in disk.nodes && disk.nodes[dst] == old(disk).nodes[src]
              && (src != dst ==> src !in disk.nodes)
              && (forall p :: p in old(disk).nodes && p != src && p != dst ==> p in disk.nodes && disk.nodes[p] == old(disk).nodes[p])
              && (forall p :: p in disk.nodes && p !in old(disk).nodes ==> p == dst || Within(p, docDir)))
    {
      var k := SplitKey(fileKey);
      if k.None? {
        return Fail(TypeError);
      }
      var docDir := DocumentDir(k.value.namespaceId, k.value.documentId);
      if !Exists(disk, docDir) {
        var made := MakeDirs(disk, docDir);
        if made.Err? {
          return Fail(made.error);
        }
        disk := made.value;
      }
      var src := PathJoin([], [file.path]);
      var dst := PathJoin(docDir, [k.value.fileName]);
      var moved := Rename(disk, src, dst);
      if moved.Err? {
        return Fail(moved.error);
      }
      SaveEffect(old(disk), docDir, src, dst);
      disk := moved.value;
      r := Pass;
    }

    /** `constructFileUrl`. The function `FileUrl` is its specification; this
        member applies it to the domain taken from the object's environment. */
    function ConstructFileUrl(fileKey: string): (url: string)
      ensures KeyOfUrl(Domain(serverUrl, port), url) == Some(fileKey)
    {
      FileUrl(Domain(serverUrl, port), fileKey)
    }

    /** `getFilePath`: the first entry of `uploads/<fileKey>` joined onto it. It
        rejects when the directory is missing or is a file (the directory read
        fails) and when it is empty (the first entry is undefined). */
    function GetFilePath(fileKey: string): (r: Result<string>)
      reads this
      ensures var dir := PathJoin([], [UploadDir, fileKey]);
        && (r.Ok? <==> IsDir(disk, dir) && Entries(disk, dir) != [])
        && (IsDir(disk, dir) && Entries(disk, dir) == [] ==> r == Err(TypeError))
        && (r.Ok? ==> dir + [Entries(disk, dir)[0]] in disk.order
                      && r.value == PathString(dir + [Entries(disk, dir)[0]]))
    {
      var dir := PathJoin([], [UploadDir, fileKey]);
      match ReadDir(disk, dir)
      case Err(e) => Err(e)
      case Ok(files) =>
        if files == [] then Err(TypeError)
        else
          assert files[0] in files;
          Ok(PathString(dir + [files[0]]))
    }

    /** `deleteWorkspaceFiles`: remove `uploads/<namespace>` with everything in
        it when it exists; nothing happens when it does not, so after a
        successful call a second one is a no-op. */
    method DeleteWorkspaceFiles(namespaceId: string) returns (r: Outcome)
      requires Valid()
      modifies this
      ensures Valid()
      ensures var dir := NamespaceDir(namespaceId);
        && (!Exists(old(disk), dir) ==> r == Pass && disk == old(disk))
        && (IsDir(old(disk), dir) ==> r == Pass && disk == RemoveTree(old(disk), dir).value
                                      && disk.nodes == Pruned(old(disk).nodes, dir))
        && (Exists(old(disk), dir) && !IsDir(old(disk), dir) ==> r == Fail(ENOTDIR) && disk == old(disk))
        && (r.Pass? ==> !Exists(disk, dir))
    {
      var dir := NamespaceDir(namespaceId);
      DirsInUploads(namespaceId, "");
      assert Within(dir, dir);
      r := Pass;
      if Exists(disk, dir) {
        var removed := RemoveTree(disk, dir);
        if removed.Err? {
          return Fail(removed.error);
        }
        disk := removed.value;
      }
    }

    /** `deleteFileFromWorkspace`: remove `uploads/<namespace>/<document>` with
        everything in it when it exists; nothing happens when it does not, and
        a failure of the removal is re-thrown. */
    method DeleteFileFromWorkspace(namespaceId: string, documentId: string) returns (r: Outcome)
      requires Valid()
      modifies this
      ensures Valid()
      ensures var dir := DocumentDir(namespaceId, documentId);
        && (!Exists(old(disk), dir) ==> r == Pass && disk == old(disk))
        && (IsDir(old(disk), dir) ==> r == Pass && disk == RemoveTree(old(disk), dir).value
                                      && disk.nodes == Pruned(old(disk).nodes, dir))
        && (Exists(old(disk), dir) && !IsDir(old(disk), dir) ==> r == Fail(ENOTDIR) && disk == old(disk))
        && (r.Pass? ==> !Exists(disk, dir))
    {
      var dir := DocumentDir(namespaceId, documentId);
      DirsInUploads(namespaceId, documentId);
      assert Within(dir, dir);
      r := Pass;
      if Exists(disk, dir) {
        var removed := RemoveTree(disk, dir);
        if removed.Err? {
          return Fail(removed.error);
        }
        disk := removed.value;
      }
    }

    /** `listFilesInNamespace`: the loop over the document directories that
        appends each one's files computes the namespace listing. */
    method ListFilesInNamespace(namespaceId: string) returns (r: Result<seq<FileDetail>>)
      requires Valid()
      ensures r == NamespaceListing(disk, Domain(serverUrl, port), namespaceId)
    {
      var domain := Domain(serverUrl, port);
      var dir := NamespaceDir(namespaceId);
      var entries := ReadDir(disk, dir);
      if entries.Err? {
        return Err(entries.error);
      }
      var docs := SubDirNames(disk, dir);
      var allFiles: seq<FileDetail> := [];
      for i := 0 to |docs|
        invariant allFiles == ListedFiles(disk, domain, namespaceId, docs[..i])
      {
        assert docs[i] in docs;
        var files := ReadDir(disk, dir + [docs[i]]);
        assert docs[..i + 1][..i] == docs[..i];
        allFiles := allFiles + DocDetails(domain, namespaceId, docs[i], files.value);
      }
      assert docs[..|docs|] == docs;
      r := Ok(allFiles);
    }
  }
}
