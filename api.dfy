/** The handlers of aiapp/api.py that read and write metadata.json, over one
    stored document. Every handler loads the document first, and loading
    writes back the normalised form whenever it had to change something;
    a handler that succeeds writes its new folder list. */
module Api {
  import Text
  import Limits
  import opened Http
  import opened Metadata
  import F = FolderOps
  import U = Uploads
  import V = Validation
  import S = Search
  import C = Chat

  class MetadataStore {
    /** The contents of storage/metadata.json. */
    var doc: Document

    constructor(stored: Document)
      ensures doc == stored
    {
      doc := stored;
    }

    /** _load_metadata: the normalised folder list, and the document as it
        stands afterwards. A well-formed document that already has a root is
        left as it was, which is what writing back its normalised form
        amounts to. */
    method Load() returns (fs: seq<Folder>)
      modifies this
      ensures fs == LoadMetadata(old(doc))
      ensures doc == Parsed(fs)
      ensures HasRoot(fs)
    {
      match doc
      case Parsed(folders) =>
        fs := folders;
        if !HasRoot(fs) {
          fs := [RootFolder] + fs;
          doc := Parsed(fs);
        }
      case _ =>
        fs := DefaultFolders;
        doc := Parsed(fs);
    }

    /** GET /metadata. */
    method Metadata() returns (fs: seq<Folder>)
      modifies this
      ensures fs == LoadMetadata(old(doc)) && doc == Parsed(fs)
    {
      fs := Load();
    }

    /** POST /folders. */
    method CreateFolder(rawName: string, token: string) returns (r: Result<seq<Folder>>)
      modifies this
      ensures r == F.CreateFolder(LoadMetadata(old(doc)), rawName, token)
      ensures doc == Parsed(if r.Success? then r.value else LoadMetadata(old(doc)))
      ensures doc.Parsed? && HasRoot(doc.folders)
    {
      var fs := Load();
      r := F.CreateFolder(fs, rawName, token);
      if r.Success? {
        doc := Parsed(r.value);
      }
    }

    /** DELETE /folders/{folder_id}: "root" is refused before the document
        is even read. */
    method DeleteFolder(id: string) returns (r: Result<seq<Folder>>)
      modifies this
      ensures id == RootId ==> r == Failure(Error(400, RootNotDeletable)) && doc == old(doc)
      ensures id != RootId ==> r == F.DeleteFolder(LoadMetadata(old(doc)), id)
      ensures id != RootId ==> doc == Parsed(if r.Success? then r.value else LoadMetadata(old(doc)))
      ensures id != RootId ==> doc.Parsed? && HasRoot(doc.folders)
    {
      if id == RootId {
        return Failure(Error(400, RootNotDeletable));
      }
      var fs := Load();
      r := F.DeleteFolder(fs, id);
      if r.Success? {
        doc := Parsed(r.value);
      }
    }

    /** POST /upload: the file count is checked before the document is
        read. */
    method Upload(folderId: string, uploads: seq<U.UploadFile>) returns (r: Result<seq<Folder>>)
      modifies this
      ensures (|uploads| == 0 || |uploads| > Limits.MaxFilesPerUpload) ==> doc == old(doc)
      ensures r == U.UploadResult(LoadMetadata(old(doc)), folderId, uploads)
      ensures 0 < |uploads| <= Limits.MaxFilesPerUpload
              ==> doc == Parsed(if r.Success? then r.value else LoadMetadata(old(doc)))
      ensures 0 < |uploads| <= Limits.MaxFilesPerUpload ==> doc.Parsed? && HasRoot(doc.folders)
    {
      if |uploads| == 0 {
        return Failure(Error(400, NoFilesProvided));
      }
      if |uploads| > Limits.MaxFilesPerUpload {
        return Failure(Error(400, TooManyFiles));
      }
      var fs := Load();
      r := U.Upload(fs, folderId, uploads);
      if r.Success? {
        doc := Parsed(r.value);
      }
    }

    /** DELETE /folders/{folder_id}/files. */
    method DeleteFile(folderId: string, rawServerName: string) returns (r: Result<seq<Folder>>)
      modifies this
      ensures r == F.DeleteFile(LoadMetadata(old(doc)), folderId, rawServerName)
      ensures doc == Parsed(if r.Success? then r.value else LoadMetadata(old(doc)))
      ensures doc.Parsed? && HasRoot(doc.folders)
    {
      var fs := Load();
      r := F.DeleteFile(fs, folderId, rawServerName);
      if r.Success? {
        F.DeleteFileKeepsFolders(fs, folderId, rawServerName);
        doc := Parsed(r.value);
      }
    }

    /** _validate_folder_files: it reads the document under the lock and
        then checks the files against the folder it found. */
    method ValidateFolderFiles(folderId: string, files: seq<string>, disk: V.Disk) returns (r: Result<Folder>)
      modifies this
      ensures r == V.ValidationResult(LoadMetadata(old(doc)), folderId, V.Checks(files), disk)
      ensures doc == Parsed(LoadMetadata(old(doc)))
    {
      var fs := Load();
      r := V.ValidateFolderFiles(fs, folderId, files, disk);
    }

    /** POST /search. */
    method Search(req: S.SearchRequest, disk: V.Disk) returns (r: Result<seq<S.ResultRow>>)
      modifies this
      ensures r == S.SearchResult(LoadMetadata(old(doc)), req, disk)
      ensures doc == Parsed(LoadMetadata(old(doc)))
    {
      var checked := ValidateFolderFiles(req.folderId, req.files, disk);
      if checked.Failure? {
        return Failure(checked.error);
      }
      var q := Text.Strip(req.query);
      if q == [] {
        return Failure(Error(400, QueryRequired));
      }
      var results := S.BuildRows(req.folderId, req.files, q);
      return Success(results);
    }

    /** POST /chat/search: search (which reads the document once more)
        after a validation of its own. */
    method ChatSearch(req: C.ChatSearchRequest, disk: V.Disk) returns (r: Result<C.ChatResponse>)
      modifies this
      ensures r == C.ChatSearchResult(LoadMetadata(old(doc)), req, disk)
      ensures doc == Parsed(LoadMetadata(old(doc)))
    {
      var checked := ValidateFolderFiles(req.folderId, req.files, disk);
      if checked.Failure? {
        return Failure(checked.error);
      }
      LoadMetadataIdempotent(old(doc));
      var base := Search(C.AsSearchRequest(req), disk);
      if base.Failure? {
        return Failure(base.error);
      }
      var text := C.BuildChatAnswer(req.query, C.Hits(base.value));
      return Success(C.ChatResponse(text, base.value));
    }
  }
}
