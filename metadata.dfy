/** The metadata document (storage/metadata.json): a list of folders, each
    with the files uploaded into it, and the lookups over it
    (aiapp/api.py, _default_metadata, _load_metadata, _get_folder,
    _find_file_entry). */
module Metadata {
  import opened Http

  /** One uploaded file: the client's file name, the storage path of the
      file ("<folder id>/<stored name>"), its size in bytes, and the storage
      path of its companion "_normalised.json" file. */
  datatype FileEntry = FileEntry(originalName: string, serverName: string, size: nat, normalizedServerName: string)

  datatype Folder = Folder(id: string, name: string, files: seq<FileEntry>)

  /** What reading metadata.json can give: no file; a file that is not JSON,
      not an object, has no "folders" list or holds a folder that is not an
      object with an "id" (every one of these makes _load_metadata fall back
      to the default); or a well-formed list of folders. */
  datatype Document = Absent | Malformed | Parsed(folders: seq<Folder>)

  const RootId: string := "root"
  const RootFolder: Folder := Folder(RootId, "Root", [])
  /** _default_metadata's folder list. */
  const DefaultFolders: seq<Folder> := [RootFolder]

  predicate HasRoot(fs: seq<Folder>) {
    exists i :: 0 <= i < |fs| && fs[i].id == RootId
  }

  /** The normalisation in _load_metadata: a missing or malformed document
      becomes the default one, and a folder list without a "root" folder
      gets one inserted at the front. */
  function LoadMetadata(doc: Document): (fs: seq<Folder>)
    ensures HasRoot(fs)
    ensures !doc.Parsed? ==> fs == DefaultFolders
    ensures doc.Parsed? && HasRoot(doc.folders) ==> fs == doc.folders
    ensures doc.Parsed? && !HasRoot(doc.folders) ==> |fs| == |doc.folders| + 1 && fs[0] == RootFolder && fs[1..] == doc.folders
  {
    match doc
    case Parsed(folders) =>
      if HasRoot(folders) then folders
      else
        var fs := [RootFolder] + folders;
        assert fs[0].id == RootId;
        fs
    case _ =>
      assert DefaultFolders[0].id == RootId;
      DefaultFolders
  }

  /** Loading the document written back after a load gives the same folders:
      normalising is idempotent. */
  lemma LoadMetadataIdempotent(doc: Document)
    ensures LoadMetadata(Parsed(LoadMetadata(doc))) == LoadMetadata(doc)
  {
  }

  /** _get_folder: the position of the first folder with that id, or 404.
      The position stands for the folder object the handlers then update. */
  function FindFolder(fs: seq<Folder>, id: string): (r: Result<nat>)
    ensures r.Success? ==> r.value < |fs| && fs[r.value].id == id
    ensures r.Success? ==> forall j :: 0 <= j < r.value ==> fs[j].id != id
    ensures r.Failure? <==> forall j :: 0 <= j < |fs| ==> fs[j].id != id
    ensures r.Failure? ==> r.error == Error(404, FolderNotFound(id))
  {
    if fs == [] then Failure(Error(404, FolderNotFound(id)))
    else if fs[0].id == id then Success(0)
    else
      match FindFolder(fs[1..], id)
      case Success(k) => Success(k + 1)
      case Failure(e) => Failure(e)
  }

  /** _find_file_entry: the first entry with that server name, if any. */
  function FindFileEntry(es: seq<FileEntry>, serverName: string): (r: Option<FileEntry>)
    ensures r.None? <==> forall j :: 0 <= j < |es| ==> es[j].serverName != serverName
    ensures r.Some? ==> exists k :: 0 <= k < |es| && es[k] == r.value && r.value.serverName == serverName
                                     && forall j :: 0 <= j < k ==> es[j].serverName != serverName
  {
    if es == [] then None
    else if es[0].serverName == serverName then Some(es[0])
    else
      var r := FindFileEntry(es[1..], serverName);
      if r.Some? then
        ghost var k :| 0 <= k < |es[1..]| && es[1..][k] == r.value && r.value.serverName == serverName
                       && forall j :: 0 <= j < k ==> es[1..][j].serverName != serverName;
        assert es[k + 1] == r.value;
        r
      else r
  }

  /** Replacing one folder by one with the same id keeps every id in its
      place, and so the root folder. */
  lemma ReplaceKeepsIds(fs: seq<Folder>, k: nat, g: Folder)
    requires k < |fs| && g.id == fs[k].id
    ensures |fs[k := g]| == |fs| && forall j :: 0 <= j < |fs| ==> fs[k := g][j].id == fs[j].id
    ensures HasRoot(fs) ==> HasRoot(fs[k := g])
  {
    if HasRoot(fs) {
      var i :| 0 <= i < |fs| && fs[i].id == RootId;
      assert fs[k := g][i].id == RootId;
    }
  }

  /** The set of server names listed in a folder. */
  function ServerNames(es: seq<FileEntry>): set<string> {
    set e | e in es :: e.serverName
  }

  /** The filter of the comprehensions that drop a file by server name. */
  function OtherServerName(serverName: string): FileEntry -> bool {
    (e: FileEntry) => e.serverName != serverName
  }

  /** The filter of the comprehension that drops a folder by id. */
  function OtherFolder(id: string): Folder -> bool {
    (f: Folder) => f.id != id
  }
}
