/** The storage interface shared by both backends: the `FileDetail` record
    that listings return, the uploaded-file handle that `saveFile` consumes,
    and the start-up choice between the object-store and the local-disk backend. */
module Storage {
  import opened Results

  type Bytes = seq<bv8>

  /** One listed file: its document, its name and a public URL for it. */
  datatype FileDetail = FileDetail(documentId: string, name: string, url: string)

  /** The temporary file an upload left on local disk (the fields of a multer file that the backends read). */
  datatype UploadedFile = UploadedFile(fieldname: string, originalname: string, mimetype: string, path: string)

  /** The two implementations of the storage interface. Both offer the same six
      operations (saveFile, constructFileUrl, getFilePath, listFilesInNamespace,
      deleteWorkspaceFiles, deleteFileFromWorkspace) and list `FileDetail`s. */
  datatype Backend = SpacesBackend | ServerBackend

  /** The process environment. */
  type Env = map<string, string>

  const AccessKeyVar := "DO_SPACES_ACCESS_KEY_ID"
  const SecretKeyVar := "DO_SPACES_SECRET_ACCESS_KEY"

  /** `process.env[name]`: undefined when the variable is not set. */
  function Lookup(env: Env, name: string): Option<string> {
    if name in env then Some(env[name]) else None
  }

  /** JavaScript truthiness of an environment value: set and not empty. */
  predicate Truthy(v: Option<string>) {
    v.Some? && v.value != ""
  }

  /** `a && b`: `a` itself when it is falsy, otherwise `b`. */
  function And(a: Option<string>, b: Option<string>): Option<string> {
    if Truthy(a) then b else a
  }

  /** The backend bound once, at start-up, to the exported constant `storageService`:
      the object store exactly when both credentials are set and non-empty;
      a missing or empty access key, or a missing or empty secret, selects the
      local disk whatever the other value is. */
  function SelectBackend(env: Env): (b: Backend)
    ensures b == SpacesBackend <==> Truthy(Lookup(env, AccessKeyVar)) && Truthy(Lookup(env, SecretKeyVar))
    ensures !Truthy(Lookup(env, AccessKeyVar)) ==> b == ServerBackend
    ensures !Truthy(Lookup(env, SecretKeyVar)) ==> b == ServerBackend
  {
    var useSpaces := And(Lookup(env, AccessKeyVar), Lookup(env, SecretKeyVar));
    if Truthy(useSpaces) then SpacesBackend else ServerBackend
  }
}
