/** The backend's fixed limits. */
module Limits {
  const MaxFolderNameLength: nat := 60
  const MaxFilesPerUpload: nat := 50
  const MaxFileSizeBytes: nat := 50 * 1024 * 1024
  /** How many offending names an error message lists. */
  const MaxListedNames: nat := 5
}

/** The HTTP errors the handlers raise, and the success-or-error result of a
    handler. */
module Http {
  import opened Text

  datatype Option<+T> = None | Some(value: T)

  /** Why a request was refused; each reason has one fixed detail text. */
  datatype Reason =
    | FolderNameRequired
    | FolderNameTooLong
    | FolderNameForbiddenChar
    | FolderNameExists
    | FolderNotFound(folderId: string)
    | RootNotDeletable
    | ServerNameRequired
    | InvalidServerName
    | FileNotInMetadata
    | NoFilesProvided
    | TooManyFiles
    | FileTooLarge(originalName: string)
    | FilesNotInFolder(names: seq<string>)
    | FilesMissing(names: seq<string>)
    | QueryRequired

  datatype Error = Error(status: int, reason: Reason)

  datatype Result<+T> = Success(value: T) | Failure(error: Error)

  const FolderNotFoundPrefix: string := "Folder not found: "
  const FileTooLargePrefix: string := "File too large: "
  const FileTooLargeSuffix: string := " (max 52428800 bytes)"

  /** The `detail` field of the HTTP error for each reason. */
  function Detail(r: Reason): string {
    match r
    case FolderNameRequired => "Folder name is required"
    case FolderNameTooLong => "Folder name too long (max 60)"
    case FolderNameForbiddenChar => "Folder name cannot include \\ / : * ? \" < > |"
    case FolderNameExists => "Folder name already exists"
    case FolderNotFound(id) => FolderNotFoundPrefix + id
    case RootNotDeletable => "Root folder cannot be deleted"
    case ServerNameRequired => "server_name is required"
    case InvalidServerName => "Invalid server_name path"
    case FileNotInMetadata => "File not found in metadata"
    case NoFilesProvided => "No files provided"
    case TooManyFiles => "Too many files. Max 50 per upload."
    case FileTooLarge(name) => FileTooLargePrefix + name + FileTooLargeSuffix
    case FilesNotInFolder(names) => "Some files not in selected folder: " + ListRepr(names)
    case FilesMissing(names) => "Some files missing on server: " + ListRepr(names)
    case QueryRequired => "query is required"
  }

  predicate StartsWith(d: string, p: string) {
    |p| <= |d| && d[..|p|] == p
  }

  /** How a client reads the subject back out of the two detail texts that
      carry one: the folder id after "Folder not found: ", or the file name
      between "File too large: " and the size limit. */
  function SubjectOf(d: string): Option<Reason> {
    if StartsWith(d, FolderNotFoundPrefix) then
      Some(FolderNotFound(d[|FolderNotFoundPrefix|..]))
    else if StartsWith(d, FileTooLargePrefix) && |FileTooLargePrefix| + |FileTooLargeSuffix| <= |d|
            && d[|d| - |FileTooLargeSuffix|..] == FileTooLargeSuffix then
      Some(FileTooLarge(d[|FileTooLargePrefix|..|d| - |FileTooLargeSuffix|]))
    else None
  }

  /** A text whose k-th character differs from the prefix's does not start
      with it. */
  lemma NotStartsAt(d: string, p: string, k: nat)
    requires k < |d| && k < |p| && d[k] != p[k]
    ensures !StartsWith(d, p)
  {
  }

  /** The detail for a missing folder reads back as that folder's id. */
  lemma SubjectOfFolderNotFound(id: string)
    ensures SubjectOf(Detail(FolderNotFound(id))) == Some(FolderNotFound(id))
  {
    var d := Detail(FolderNotFound(id));
    assert d[..|FolderNotFoundPrefix|] == FolderNotFoundPrefix;
    assert d[|FolderNotFoundPrefix|..] == id;
  }

  /** The detail for a file over the limit reads back as that file's name,
      and does not read as a missing folder. */
  lemma SubjectOfFileTooLarge(name: string)
    ensures SubjectOf(Detail(FileTooLarge(name))) == Some(FileTooLarge(name))
  {
    var d := Detail(FileTooLarge(name));
    assert d[..|FileTooLargePrefix|] == FileTooLargePrefix;
    NotStartsAt(d, FolderNotFoundPrefix, 1);
    assert d[|d| - |FileTooLargeSuffix|..] == FileTooLargeSuffix;
    assert d[|FileTooLargePrefix|..|d| - |FileTooLargeSuffix|] == name;
  }

  /** So two refusals of these kinds with the same detail text are the same
      refusal about the same folder or file. */
  lemma DetailNamesSubject(a: Reason, b: Reason)
    requires a.FolderNotFound? || a.FileTooLarge?
    requires b.FolderNotFound? || b.FileTooLarge?
    requires Detail(a) == Detail(b)
    ensures a == b
  {
    if a.FolderNotFound? { SubjectOfFolderNotFound(a.folderId); } else { SubjectOfFileTooLarge(a.originalName); }
    if b.FolderNotFound? { SubjectOfFolderNotFound(b.folderId); } else { SubjectOfFileTooLarge(b.originalName); }
  }
}
