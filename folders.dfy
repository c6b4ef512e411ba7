/** What create_folder, delete_folder and delete_file do to the loaded folder
    list (aiapp/api.py). Writing the result back, creating and removing
    directories and deleting stored files are left to the caller. */
module FolderOps {
  import opened Text
  import opened Http
  import opened Seqs
  import opened Metadata
  import opened Validators

  const FolderIdPrefix: string := "fld_"

  /** Some folder's name equals `name` once both are lower-cased. */
  predicate NameTaken(fs: seq<Folder>, name: string) {
    exists i :: 0 <= i < |fs| && Lower(fs[i].name) == Lower(name)
  }

  /** No two folders have names that are equal once lower-cased. */
  predicate DistinctNames(fs: seq<Folder>) {
    forall i, j :: 0 <= i < j < |fs| ==> Lower(fs[i].name) != Lower(fs[j].name)
  }

  predicate DistinctIds(fs: seq<Folder>) {
    forall i, j :: 0 <= i < j < |fs| ==> fs[i].id != fs[j].id
  }

  /** create_folder: `token` is the ten hex digits that uuid4 contributes to
      the new id. The name is sanitised first; a name already taken (ignoring
      case) is refused; otherwise exactly one empty folder is appended. */
  function CreateFolder(fs: seq<Folder>, rawName: string, token: string): (r: Result<seq<Folder>>)
    ensures SanitizeName(rawName).Failure? ==> r == Failure(SanitizeName(rawName).error)
    ensures SanitizeName(rawName).Success? && NameTaken(fs, SanitizeName(rawName).value)
            ==> r == Failure(Error(400, FolderNameExists))
    ensures r.Success? <==> SanitizeName(rawName).Success? && !NameTaken(fs, SanitizeName(rawName).value)
    ensures r.Success? ==> |r.value| == |fs| + 1 && r.value[..|fs|] == fs
    ensures r.Success? ==> var added := r.value[|fs|];
              added == Folder(FolderIdPrefix + token, added.name, [])
              && added.name == Strip(rawName) && ValidFolderName(added.name) && !NameTaken(fs, added.name)
    ensures r.Success? && HasRoot(fs) ==> HasRoot(r.value)
  {
    match SanitizeName(rawName)
    case Failure(e) => Failure(e)
    case Success(name) =>
      if NameTaken(fs, name) then Failure(Error(400, FolderNameExists))
      else
        var r := fs + [Folder(FolderIdPrefix + token, name, [])];
        assert r[..|fs|] == fs;
        Success(r)
  }

  /** Creating a folder keeps folder names distinct, and keeps ids distinct
      when the new id is not already in use (the source does not check). */
  lemma CreateFolderKeepsDistinct(fs: seq<Folder>, rawName: string, token: string)
    requires DistinctNames(fs) && DistinctIds(fs)
    requires forall i :: 0 <= i < |fs| ==> fs[i].id != FolderIdPrefix + token
    requires CreateFolder(fs, rawName, token).Success?
    ensures DistinctNames(CreateFolder(fs, rawName, token).value)
    ensures DistinctIds(CreateFolder(fs, rawName, token).value)
  {
    var r := CreateFolder(fs, rawName, token).value;
    forall i, j | 0 <= i < j < |r| ensures Lower(r[i].name) != Lower(r[j].name) && r[i].id != r[j].id {
      assert r[i] == fs[i];
      if j == |fs| {
        assert !NameTaken(fs, r[j].name);
      } else {
        assert r[j] == fs[j];
      }
    }
  }

  /** delete_folder: "root" is refused before anything else, an unknown id
      gives 404, and otherwise every folder with that id is dropped. */
  function DeleteFolder(fs: seq<Folder>, id: string): (r: Result<seq<Folder>>)
    ensures id == RootId ==> r == Failure(Error(400, RootNotDeletable))
    ensures id != RootId && (forall j :: 0 <= j < |fs| ==> fs[j].id != id)
            ==> r == Failure(Error(404, FolderNotFound(id)))
    ensures r.Success? <==> id != RootId && exists j :: 0 <= j < |fs| && fs[j].id == id
    ensures r.Success? ==> r.value == Filter(fs, OtherFolder(id)) && |r.value| < |fs|
    ensures r.Success? ==> forall f :: f in r.value <==> f in fs && f.id != id
    ensures r.Success? && HasRoot(fs) ==> HasRoot(r.value)
  {
    if id == RootId then Failure(Error(400, RootNotDeletable))
    else
      match FindFolder(fs, id)
      case Failure(e) => Failure(e)
      case Success(k) =>
        var r := Filter(fs, OtherFolder(id));
        assert !OtherFolder(id)(fs[k]);
        assert HasRoot(fs) ==> HasRoot(r) by {
          if HasRoot(fs) {
            var i :| 0 <= i < |fs| && fs[i].id == RootId;
            assert OtherFolder(id)(fs[i]);
            assert fs[i] in r;
          }
        }
        Success(r)
  }

  /** The folders that survive a deletion keep their relative order: deleting
      from a concatenation deletes from each part. */
  lemma DeleteFolderKeepsOrder(front: seq<Folder>, back: seq<Folder>, id: string)
    requires DeleteFolder(front + back, id).Success?
    ensures DeleteFolder(front + back, id).value == Filter(front, OtherFolder(id)) + Filter(back, OtherFolder(id))
  {
    FilterAppend(front, back, OtherFolder(id));
  }

  /** A folder with every entry of that server name dropped, as the
      comprehension in delete_file builds it. */
  function DropFile(f: Folder, name: string): (g: Folder)
    ensures g.id == f.id && g.name == f.name
    ensures g.files == Filter(f.files, OtherServerName(name))
    ensures forall e :: e in g.files <==> e in f.files && e.serverName != name
    ensures (exists j :: 0 <= j < |f.files| && f.files[j].serverName == name) ==> |g.files| < |f.files|
  {
    var g := f.(files := Filter(f.files, OtherServerName(name)));
    assert (exists j :: 0 <= j < |f.files| && f.files[j].serverName == name) ==> |g.files| < |f.files| by {
      if exists j :: 0 <= j < |f.files| && f.files[j].serverName == name {
        var j :| 0 <= j < |f.files| && f.files[j].serverName == name;
        assert !OtherServerName(name)(f.files[j]);
      }
    }
    g
  }

  /** delete_file: 404 for an unknown folder, then the server name is
      normalised (400 on a bad path), 404 when no entry of the folder has
      it, and otherwise every entry with it is dropped from that folder and
      every other folder is left as it was. */
  function DeleteFile(fs: seq<Folder>, folderId: string, rawServerName: string): (r: Result<seq<Folder>>)
    ensures FindFolder(fs, folderId).Failure? ==> r == Failure(FindFolder(fs, folderId).error)
    ensures FindFolder(fs, folderId).Success? && SafeRelPath(rawServerName).Failure?
            ==> r == Failure(SafeRelPath(rawServerName).error)
    ensures FindFolder(fs, folderId).Success? && SafeRelPath(rawServerName).Success? ==>
              var k := FindFolder(fs, folderId).value;
              var name := SafeRelPath(rawServerName).value;
              && (r.Success? <==> exists j :: 0 <= j < |fs[k].files| && fs[k].files[j].serverName == name)
              && (r.Failure? ==> r == Failure(Error(404, FileNotInMetadata)))
              && (r.Success? ==> r.value == fs[k := DropFile(fs[k], name)])
  {
    match FindFolder(fs, folderId)
    case Failure(e) => Failure(e)
    case Success(k) =>
      match SafeRelPath(rawServerName)
      case Failure(e) => Failure(e)
      case Success(name) =>
        match FindFileEntry(fs[k].files, name)
        case None => Failure(Error(404, FileNotInMetadata))
        case Some(entry) =>
          Success(fs[k := DropFile(fs[k], name)])
  }

  /** Deleting a file keeps the folder list's length, every folder's id, and
      so the root folder. */
  lemma DeleteFileKeepsFolders(fs: seq<Folder>, folderId: string, rawServerName: string)
    requires DeleteFile(fs, folderId, rawServerName).Success?
    ensures var r := DeleteFile(fs, folderId, rawServerName).value;
            |r| == |fs| && (forall j :: 0 <= j < |fs| ==> r[j].id == fs[j].id)
            && (HasRoot(fs) ==> HasRoot(r))
  {
    var k := FindFolder(fs, folderId).value;
    ReplaceKeepsIds(fs, k, DropFile(fs[k], SafeRelPath(rawServerName).value));
  }
}
