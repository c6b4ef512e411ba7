/** The metadata side of the upload handler (aiapp/api.py, upload): how each
    uploaded file is named and how it replaces the entry already recorded
    under the same original name. Writing the bytes and the companion JSON
    file, and deleting the replaced files, are not modelled. */
module Uploads {
  import opened Text
  import opened Http
  import opened Limits
  import opened Seqs
  import opened Metadata

  /** One part of the multipart request: the client's file name ("" when the
      part has none), the byte count that streaming it reaches, and the
      eight hex digits that uuid4 contributes to its stored name. */
  datatype UploadFile = UploadFile(filename: string, size: nat, fileId: string)

  /** The original name with both kinds of slash turned into "_". */
  function SafeOriginal(orig: string): string {
    ReplaceChar(ReplaceChar(orig, '\\', '_'), '/', '_')
  }

  /** The position of the last ".", or -1 (str.rfind). */
  function LastDot(s: string): (r: int)
    ensures -1 <= r < |s|
    ensures r >= 0 ==> s[r] == '.'
    ensures forall k :: r < k < |s| ==> s[k] != '.'
  {
    if s == [] then -1
    else if s[|s| - 1] == '.' then |s| - 1
    else LastDot(s[..|s| - 1])
  }

  /** pathlib's (stem, suffix) of a one-component name: the suffix starts at
      the last dot unless that dot is the first or the last character; "."
      itself has an empty stem. */
  function StemAndSuffix(name: string): (r: (string, string))
    ensures name != "." ==> r.0 + r.1 == name
    ensures name == "." ==> r.0 == [] && r.1 == []
    ensures r.1 == [] || (r.1[0] == '.' && |r.1| >= 2)
    ensures r.1 != [] ==> r.0 != [] && '.' !in r.1[1..]
    ensures r.1 == [] && name != "." ==> !SplitsAt(name, LastDot(name))
  {
    if name == "." then ([], [])
    else
      var i := LastDot(name);
      if 0 < i < |name| - 1 then
        assert name[..i] + name[i..] == name;
        assert forall k :: 0 <= k < |name[i..][1..]| ==> name[i..][1..][k] == name[i + 1 + k];
        (name[..i], name[i..])
      else (name, [])
  }

  /** A dot at position i that pathlib takes as the start of the suffix:
      neither the first nor the last character. */
  predicate SplitsAt(name: string, i: int) {
    0 < i < |name| - 1 && name[i] == '.'
  }

  /** "<stem>_<file id><suffix>". */
  function StoredName(orig: string, fileId: string): string {
    var parts := StemAndSuffix(SafeOriginal(orig));
    parts.0 + "_" + fileId + parts.1
  }

  /** "<stem>_<file id>_normalised.json". */
  function NormalisedName(orig: string, fileId: string): string {
    StemAndSuffix(SafeOriginal(orig)).0 + "_" + fileId + "_normalised.json"
  }

  /** The metadata entry recorded for an uploaded file. */
  function NewEntry(folderId: string, u: UploadFile): FileEntry {
    FileEntry(u.filename, folderId + "/" + StoredName(u.filename, u.fileId), u.size,
              folderId + "/" + NormalisedName(u.filename, u.fileId))
  }

  /** A new entry's server name is the folder id, one "/", and a stored name
      with no slash of either kind, so the file lands directly in the folder's
      directory whatever the client called it. */
  lemma ServerNameShape(folderId: string, u: UploadFile)
    requires '/' !in u.fileId && '\\' !in u.fileId
    ensures var n := StoredName(u.filename, u.fileId);
            NewEntry(folderId, u).serverName == folderId + "/" + n && '/' !in n && '\\' !in n
  {
    var safe := SafeOriginal(u.filename);
    assert '/' !in safe && '\\' !in safe;
    var parts := StemAndSuffix(safe);
    if safe != "." {
      assert forall c :: c in parts.0 || c in parts.1 ==> c in parts.0 + parts.1;
    }
  }

  /** The handler's working state: the folder's file list and the
      `existing_by_name` dictionary. */
  datatype Dedupe = Dedupe(files: seq<FileEntry>, byName: map<string, FileEntry>)

  /** `{fe["original_name"]: fe for fe in es}`: a later entry overwrites an
      earlier one with the same name. */
  function IndexByName(es: seq<FileEntry>): map<string, FileEntry> {
    if es == [] then map[]
    else IndexByName(es[..|es| - 1])[es[|es| - 1].originalName := es[|es| - 1]]
  }

  predicate Oversize(u: UploadFile) {
    u.filename != "" && u.size > MaxFileSizeBytes
  }

  /** No named file of the request is over the size limit. */
  predicate NoOversize(us: seq<UploadFile>) {
    forall k :: 0 <= k < |us| ==> !Oversize(us[k])
  }

  /** us[k] is the first named file of the request over the size limit. */
  predicate FirstOversize(us: seq<UploadFile>, k: int) {
    0 <= k < |us| && Oversize(us[k]) && forall j :: 0 <= j < k ==> !Oversize(us[j])
  }

  /** One iteration of the upload loop. */
  function Step(folderId: string, st: Dedupe, u: UploadFile): Result<Dedupe> {
    if u.filename == "" then Success(st)
    else if u.size > MaxFileSizeBytes then Failure(Error(400, FileTooLarge(u.filename)))
    else
      var e := NewEntry(folderId, u);
      Success(Dedupe(Kept(st, u.filename) + [e], st.byName[u.filename := e]))
  }

  /** The folder's list without the entry the dictionary records under
      `orig`, dropped by its server name as the comprehension in upload does. */
  function Kept(st: Dedupe, orig: string): seq<FileEntry> {
    if orig in st.byName then Filter(st.files, OtherServerName(st.byName[orig].serverName)) else st.files
  }

  /** The whole upload loop, stopping at the first file that is too large. */
  function ApplyUploads(folderId: string, st: Dedupe, us: seq<UploadFile>): Result<Dedupe>
    decreases |us|
  {
    if us == [] then Success(st)
    else
      match Step(folderId, st, us[0])
      case Failure(e) => Failure(e)
      case Success(next) => ApplyUploads(folderId, next, us[1..])
  }

  /** The upload handler's effect on the loaded folder list. */
  function UploadResult(fs: seq<Folder>, folderId: string, us: seq<UploadFile>): (r: Result<seq<Folder>>)
    ensures |us| == 0 ==> r == Failure(Error(400, NoFilesProvided))
    ensures |us| > MaxFilesPerUpload ==> r == Failure(Error(400, TooManyFiles))
    ensures 0 < |us| <= MaxFilesPerUpload && FindFolder(fs, folderId).Failure?
            ==> r == Failure(FindFolder(fs, folderId).error)
    ensures r.Success? <==> 0 < |us| <= MaxFilesPerUpload && FindFolder(fs, folderId).Success? && NoOversize(us)
    ensures forall k :: 0 < |us| <= MaxFilesPerUpload && FindFolder(fs, folderId).Success? && FirstOversize(us, k)
              ==> r == Failure(Error(400, FileTooLarge(us[k].filename)))
    ensures r.Success? ==>
              var k := FindFolder(fs, folderId).value;
              && |r.value| == |fs|
              && (forall j :: 0 <= j < |fs| && j != k ==> r.value[j] == fs[j])
              && r.value[k].id == fs[k].id && r.value[k].name == fs[k].name
    ensures r.Success? && HasRoot(fs) ==> HasRoot(r.value)
  {
    if |us| == 0 then Failure(Error(400, NoFilesProvided))
    else if |us| > MaxFilesPerUpload then Failure(Error(400, TooManyFiles))
    else
      match FindFolder(fs, folderId)
      case Failure(e) => Failure(e)
      case Success(k) =>
        ApplyUploadsFailsOnOversize(folderId, Dedupe(fs[k].files, IndexByName(fs[k].files)), us);
        match ApplyUploads(folderId, Dedupe(fs[k].files, IndexByName(fs[k].files)), us)
        case Failure(e) => Failure(e)
        case Success(st) =>
          var r := fs[k := fs[k].(files := st.files)];
          assert HasRoot(fs) ==> HasRoot(r) by {
            if HasRoot(fs) {
              var i :| 0 <= i < |fs| && fs[i].id == RootId;
              assert r[i].id == RootId;
            }
          }
          Success(r)
  }

  /** upload: the loop keeps the folder's list and the by-name dictionary
      and updates both in place for every named file. */
  method Upload(fs: seq<Folder>, folderId: string, uploads: seq<UploadFile>) returns (r: Result<seq<Folder>>)
    ensures r == UploadResult(fs, folderId, uploads)
  {
    if |uploads| == 0 {
      return Failure(Error(400, NoFilesProvided));
    }
    if |uploads| > MaxFilesPerUpload {
      return Failure(Error(400, TooManyFiles));
    }
    var found := FindFolder(fs, folderId);
    if found.Failure? {
      return Failure(found.error);
    }
    var k := found.value;
    var files := fs[k].files;
    var existingByName := IndexByName(files);
    ghost var start := Dedupe(files, existingByName);
    var i := 0;
    while i < |uploads|
      invariant 0 <= i <= |uploads|
      invariant ApplyUploads(folderId, start, uploads) == ApplyUploads(folderId, Dedupe(files, existingByName), uploads[i..])
    {
      var up := uploads[i];
      assert uploads[i..][0] == up && uploads[i..][1..] == uploads[i + 1..];
      if up.filename != "" {
        if up.size > MaxFileSizeBytes {
          return Failure(Error(400, FileTooLarge(up.filename)));
        }
        var entry := NewEntry(folderId, up);
        if up.filename in existingByName {
          var previous := existingByName[up.filename];
          files := Filter(files, OtherServerName(previous.serverName));
        }
        files := files + [entry];
        existingByName := existingByName[up.filename := entry];
      }
      i := i + 1;
    }
    r := Success(fs[k := fs[k].(files := files)]);
  }

  /** The upload fails exactly when some named file is too large, and then
      with the error for the first such file. */
  lemma {:induction false} ApplyUploadsFailsOnOversize(folderId: string, st: Dedupe, us: seq<UploadFile>)
    ensures ApplyUploads(folderId, st, us).Failure? <==> exists k :: 0 <= k < |us| && Oversize(us[k])
    ensures forall k :: 0 <= k < |us| && Oversize(us[k]) && (forall j :: 0 <= j < k ==> !Oversize(us[j]))
              ==> ApplyUploads(folderId, st, us) == Failure(Error(400, FileTooLarge(us[k].filename)))
    decreases |us|
  {
    if us != [] {
      if Oversize(us[0]) {
        assert ApplyUploads(folderId, st, us) == Failure(Error(400, FileTooLarge(us[0].filename)));
      } else {
        var next := Step(folderId, st, us[0]).value;
        ApplyUploadsFailsOnOversize(folderId, next, us[1..]);
        assert forall k :: 1 <= k < |us| ==> us[1..][k - 1] == us[k];
        assert (exists k :: 0 <= k < |us| && Oversize(us[k])) <==> (exists k :: 0 <= k < |us[1..]| && Oversize(us[1..][k])) by {
          if exists k :: 0 <= k < |us| && Oversize(us[k]) {
            var k :| 0 <= k < |us| && Oversize(us[k]);
            assert us[1..][k - 1] == us[k];
          }
        }
        forall k | 0 <= k < |us| && Oversize(us[k]) && (forall j :: 0 <= j < k ==> !Oversize(us[j]))
          ensures ApplyUploads(folderId, st, us) == Failure(Error(400, FileTooLarge(us[k].filename)))
        {
          assert us[1..][k - 1] == us[k];
          assert forall j :: 0 <= j < k - 1 ==> us[1..][j] == us[j + 1];
        }
      }
    }
  }

  /** When the last file of the request has a name and the upload succeeds,
      its entry is the last one of the folder. */
  lemma {:induction false} LastUploadIsLast(folderId: string, st: Dedupe, us: seq<UploadFile>)
    requires |us| > 0 && us[|us| - 1].filename != ""
    requires ApplyUploads(folderId, st, us).Success?
    ensures var out := ApplyUploads(folderId, st, us).value.files;
            |out| > 0 && out[|out| - 1] == NewEntry(folderId, us[|us| - 1])
    decreases |us|
  {
    var next := Step(folderId, st, us[0]).value;
    if |us| > 1 {
      LastUploadIsLast(folderId, next, us[1..]);
    }
  }

  // ---------------------------------------------------------------------
  // Keeping the latest entry per original name

  function Originals(es: seq<FileEntry>): set<string> {
    set e | e in es :: e.originalName
  }

  /** Entries are told apart by their original name and by their server
      name, and none is listed twice. */
  ghost predicate UniqueKeys(es: seq<FileEntry>) {
    && NoDuplicates(es)
    && (forall a, b :: a in es && b in es && a.originalName == b.originalName ==> a == b)
    && (forall a, b :: a in es && b in es && a.serverName == b.serverName ==> a == b)
  }

  /** The by-name dictionary maps each original name in the list to its
      entry. */
  ghost predicate Indexed(st: Dedupe) {
    && UniqueKeys(st.files)
    && st.byName.Keys == Originals(st.files)
    && forall o :: o in st.byName ==> st.byName[o] in st.files && st.byName[o].originalName == o
  }

  function UploadedNames(us: seq<UploadFile>): set<string> {
    set u | u in us && u.filename != "" :: u.filename
  }

  /** Upload k has a name and no later upload has the same one. */
  predicate IsLatestUpload(us: seq<UploadFile>, k: nat)
    requires k < |us|
  {
    us[k].filename != "" && forall j :: k < j < |us| ==> us[j].filename != us[k].filename
  }

  /** The stored names the handler draws are new: none is taken already and
      no two uploads of the request get the same one. The source does not
      check this; uuid4 makes it overwhelmingly likely. */
  ghost predicate FreshServerNames(folderId: string, taken: set<string>, us: seq<UploadFile>) {
    forall k :: 0 <= k < |us| && us[k].filename != "" ==>
      && NewEntry(folderId, us[k]).serverName !in taken
      && forall j :: k < j < |us| && us[j].filename != "" ==>
           NewEntry(folderId, us[j]).serverName != NewEntry(folderId, us[k]).serverName
  }

  /** The dictionary comprehension maps every original name to an entry of
      the list with that name. */
  lemma {:induction false} IndexByNameFacts(es: seq<FileEntry>)
    ensures IndexByName(es).Keys == Originals(es)
    ensures forall o :: o in IndexByName(es) ==> IndexByName(es)[o] in es && IndexByName(es)[o].originalName == o
  {
    if es != [] {
      var front := es[..|es| - 1];
      var last := es[|es| - 1];
      IndexByNameFacts(front);
      assert es == front + [last];
      assert forall x :: x in es <==> x in front || x == last;
      assert Originals(es) == Originals(front) + {last.originalName};
    }
  }

  /** With an exact dictionary, the kept entries are exactly those with
      another original name, and they are still unique. */
  lemma KeptFacts(st: Dedupe, orig: string)
    requires Indexed(st)
    ensures forall x :: x in Kept(st, orig) <==> x in st.files && x.originalName != orig
    ensures UniqueKeys(Kept(st, orig))
  {
    var kept := Kept(st, orig);
    if orig in st.byName {
      var prior := st.byName[orig];
      forall x | x in st.files ensures x in kept <==> x.originalName != orig {
        if x.originalName == orig {
          assert x == prior;
          assert !OtherServerName(prior.serverName)(x);
        } else {
          assert x.serverName != prior.serverName;
          assert OtherServerName(prior.serverName)(x);
        }
      }
      FilterNoDuplicates(st.files, OtherServerName(prior.serverName));
    } else {
      assert orig !in Originals(st.files);
    }
  }

  /** Appending an entry whose original and server names are both new keeps
      the keys unique. */
  lemma AppendKeepsUnique(es: seq<FileEntry>, e: FileEntry)
    requires UniqueKeys(es)
    requires forall x :: x in es ==> x.originalName != e.originalName && x.serverName != e.serverName
    ensures UniqueKeys(es + [e])
    ensures forall x :: x in es + [e] <==> x in es || x == e
  {
    var out := es + [e];
    assert forall x :: x in out <==> x in es || x == e;
    forall i, j | 0 <= i < j < |out| ensures out[i] != out[j] {
      if j < |es| {
        assert out[i] == es[i] && out[j] == es[j];
      } else {
        assert out[i] in es;
      }
    }
  }

  /** One named, small enough file keeps the dictionary exact, replaces the
      entry of the same name (if any) by the new one and touches nothing
      else. */
  lemma StepKeepsIndexed(folderId: string, st: Dedupe, u: UploadFile)
    requires Indexed(st)
    requires u.filename != "" && u.size <= MaxFileSizeBytes
    requires NewEntry(folderId, u).serverName !in ServerNames(st.files)
    ensures Step(folderId, st, u).Success?
    ensures var next := Step(folderId, st, u).value;
            var e := NewEntry(folderId, u);
            && Indexed(next)
            && Originals(next.files) == Originals(st.files) + {u.filename}
            && e in next.files
            && (forall x :: x in st.files && x.originalName != u.filename ==> x in next.files)
            && (forall x :: x in next.files ==> x in st.files || x == e)
  {
    var e := NewEntry(folderId, u);
    ReplaceKeepsIndexed(st, u.filename, e);
  }

  /** Recording entry e under its original name, after dropping the entry
      recorded there before, keeps the dictionary exact. */
  lemma ReplaceKeepsIndexed(st: Dedupe, orig: string, e: FileEntry)
    requires Indexed(st)
    requires e.originalName == orig && e.serverName !in ServerNames(st.files)
    ensures var out := Kept(st, orig) + [e];
            && Indexed(Dedupe(out, st.byName[orig := e]))
            && Originals(out) == Originals(st.files) + {orig}
            && e in out
            && (forall x :: x in st.files && x.originalName != orig ==> x in out)
            && (forall x :: x in out ==> x in st.files || x == e)
  {
    var kept := Kept(st, orig);
    KeptFacts(st, orig);
    forall x | x in kept ensures x.originalName != e.originalName && x.serverName != e.serverName {
      assert x.serverName in ServerNames(st.files);
    }
    AppendKeepsUnique(kept, e);
    var out := kept + [e];
    ReplaceOriginals(st, orig, e);
    var byName := st.byName[orig := e];
    forall p | p in byName ensures byName[p] in out && byName[p].originalName == p {
      if p != orig {
        assert st.byName[p] in st.files;
      }
    }
  }

  lemma ReplaceOriginals(st: Dedupe, orig: string, e: FileEntry)
    requires Indexed(st) && e.originalName == orig
    ensures Originals(Kept(st, orig) + [e]) == Originals(st.files) + {orig}
  {
    KeptFacts(st, orig);
    var out := Kept(st, orig) + [e];
    forall n | n in Originals(st.files) + {orig} ensures n in Originals(out) {
      if n != orig {
        var x :| x in st.files && x.originalName == n;
        assert x in out;
      } else {
        assert e in out;
      }
    }
  }

  /** Any iteration that does not fail, from an exact dictionary: a skipped
      part changes nothing, and a named file is handled as StepKeepsIndexed
      says, adding at most its own server name. */
  lemma StepFacts(folderId: string, st: Dedupe, u: UploadFile)
    requires Indexed(st)
    requires Step(folderId, st, u).Success?
    requires u.filename != "" ==> NewEntry(folderId, u).serverName !in ServerNames(st.files)
    ensures var next := Step(folderId, st, u).value;
            && Indexed(next)
            && (u.filename == "" ==> next == st)
            && (u.filename != "" ==> Originals(next.files) == Originals(st.files) + {u.filename})
            && (u.filename != "" ==> NewEntry(folderId, u) in next.files)
            && (forall x :: x in st.files && x.originalName != u.filename ==> x in next.files)
            && (forall n :: n in ServerNames(next.files) ==>
                  n in ServerNames(st.files) || (u.filename != "" && n == NewEntry(folderId, u).serverName))
  {
    if u.filename != "" {
      var next := Step(folderId, st, u).value;
      StepKeepsIndexed(folderId, st, u);
      forall n | n in ServerNames(next.files)
        ensures n in ServerNames(st.files) || n == NewEntry(folderId, u).serverName
      {
        var x :| x in next.files && x.serverName == n;
        if x != NewEntry(folderId, u) {
          assert x in st.files;
        }
      }
    }
  }

  /** Freshness of the drawn names carries over to the rest of the request
      when the taken names grow by at most the first upload's. */
  lemma FreshTail(folderId: string, taken: set<string>, taken': set<string>, us: seq<UploadFile>)
    requires |us| > 0 && FreshServerNames(folderId, taken, us)
    requires forall n :: n in taken' ==> n in taken || (us[0].filename != "" && n == NewEntry(folderId, us[0]).serverName)
    ensures FreshServerNames(folderId, taken', us[1..])
  {
    var rest := us[1..];
    forall k | 0 <= k < |rest| && rest[k].filename != ""
      ensures NewEntry(folderId, rest[k]).serverName !in taken'
    {
      assert rest[k] == us[k + 1];
    }
    forall k, j | 0 <= k < j < |rest| && rest[k].filename != "" && rest[j].filename != ""
      ensures NewEntry(folderId, rest[j]).serverName != NewEntry(folderId, rest[k]).serverName
    {
      assert rest[k] == us[k + 1] && rest[j] == us[j + 1];
    }
  }

  lemma UnionStep<T>(before: set<T>, next: set<T>, after: set<T>, first: set<T>, rest: set<T>, all: set<T>)
    requires next == before + first && after == next + rest && all == first + rest
    ensures after == before + all
  {
  }

  lemma UploadedNamesCons(us: seq<UploadFile>)
    requires |us| > 0
    ensures UploadedNames(us) == (if us[0].filename != "" then {us[0].filename} else {}) + UploadedNames(us[1..])
  {
    assert forall x :: x in us <==> x == us[0] || x in us[1..];
  }

  /** The latest upload of a name stays the latest in the rest of the
      request, and the first upload, when it is the latest, has a name no
      later upload uses. */
  lemma LatestInTail(us: seq<UploadFile>, k: nat)
    requires k < |us| && IsLatestUpload(us, k)
    ensures k > 0 ==> IsLatestUpload(us[1..], k - 1)
    ensures k == 0 ==> us[0].filename !in UploadedNames(us[1..])
  {
    var rest := us[1..];
    if k > 0 {
      forall j | k - 1 < j < |rest| ensures rest[j].filename != rest[k - 1].filename {
        assert rest[j] == us[j + 1] && rest[k - 1] == us[k];
      }
    } else {
      forall x | x in rest && x.filename != "" ensures x.filename != us[0].filename {
        var j :| 0 <= j < |rest| && rest[j] == x;
        assert us[j + 1] == x;
      }
    }
  }

  /** The upload loop, from a state whose dictionary is exact, keeps it
      exact. */
  lemma {:induction false} ApplyUploadsKeepsIndexed(folderId: string, st: Dedupe, us: seq<UploadFile>)
    requires Indexed(st)
    requires FreshServerNames(folderId, ServerNames(st.files), us)
    requires ApplyUploads(folderId, st, us).Success?
    ensures Indexed(ApplyUploads(folderId, st, us).value)
    decreases |us|
  {
    if us != [] {
      var u := us[0];
      var rest := us[1..];
      var next := Step(folderId, st, u).value;
      assert ApplyUploads(folderId, st, us) == ApplyUploads(folderId, next, rest);
      StepFacts(folderId, st, u);
      FreshTail(folderId, ServerNames(st.files), ServerNames(next.files), us);
      ApplyUploadsKeepsIndexed(folderId, next, rest);
    }
  }

  /** The original names after the loop are the old ones plus the uploaded
      ones. */
  lemma {:induction false} ApplyUploadsNames(folderId: string, st: Dedupe, us: seq<UploadFile>)
    requires Indexed(st)
    requires FreshServerNames(folderId, ServerNames(st.files), us)
    requires ApplyUploads(folderId, st, us).Success?
    ensures Originals(ApplyUploads(folderId, st, us).value.files) == Originals(st.files) + UploadedNames(us)
    decreases |us|
  {
    if us != [] {
      var u := us[0];
      var rest := us[1..];
      var next := Step(folderId, st, u).value;
      assert ApplyUploads(folderId, st, us) == ApplyUploads(folderId, next, rest);
      StepFacts(folderId, st, u);
      FreshTail(folderId, ServerNames(st.files), ServerNames(next.files), us);
      UploadedNamesCons(us);
      ApplyUploadsNames(folderId, next, rest);
      var named: set<string> := if u.filename != "" then {u.filename} else {};
      assert Originals(next.files) == Originals(st.files) + named;
      UnionStep(Originals(st.files), Originals(next.files), Originals(ApplyUploads(folderId, st, us).value.files),
                named, UploadedNames(rest), UploadedNames(us));
    }
  }

  /** Every entry whose original name is not uploaded survives the loop. */
  lemma {:induction false} ApplyUploadsKeepsOthers(folderId: string, st: Dedupe, us: seq<UploadFile>)
    requires Indexed(st)
    requires FreshServerNames(folderId, ServerNames(st.files), us)
    requires ApplyUploads(folderId, st, us).Success?
    ensures forall x :: x in st.files && x.originalName !in UploadedNames(us) ==> x in ApplyUploads(folderId, st, us).value.files
    decreases |us|
  {
    if us != [] {
      var u := us[0];
      var rest := us[1..];
      var next := Step(folderId, st, u).value;
      assert ApplyUploads(folderId, st, us) == ApplyUploads(folderId, next, rest);
      StepFacts(folderId, st, u);
      FreshTail(folderId, ServerNames(st.files), ServerNames(next.files), us);
      UploadedNamesCons(us);
      ApplyUploadsKeepsOthers(folderId, next, rest);
      forall x | x in st.files && x.originalName !in UploadedNames(us)
        ensures x in ApplyUploads(folderId, st, us).value.files
      {
        assert x in next.files;
      }
    }
  }

  /** The entry of the latest upload of each name is in the folder after the
      loop. */
  lemma {:induction false} ApplyUploadsAddsLatest(folderId: string, st: Dedupe, us: seq<UploadFile>)
    requires Indexed(st)
    requires FreshServerNames(folderId, ServerNames(st.files), us)
    requires ApplyUploads(folderId, st, us).Success?
    ensures forall k :: 0 <= k < |us| && IsLatestUpload(us, k) ==> NewEntry(folderId, us[k]) in ApplyUploads(folderId, st, us).value.files
    decreases |us|
  {
    if us != [] {
      var u := us[0];
      var rest := us[1..];
      var next := Step(folderId, st, u).value;
      assert ApplyUploads(folderId, st, us) == ApplyUploads(folderId, next, rest);
      StepFacts(folderId, st, u);
      FreshTail(folderId, ServerNames(st.files), ServerNames(next.files), us);
      ApplyUploadsAddsLatest(folderId, next, rest);
      ApplyUploadsKeepsOthers(folderId, next, rest);
      forall k | 0 <= k < |us| && IsLatestUpload(us, k)
        ensures NewEntry(folderId, us[k]) in ApplyUploads(folderId, st, us).value.files
      {
        LatestInTail(us, k);
      }
    }
  }

  /** The dedupe rule of upload, end to end: if the folder's entries are
      unique by original and by server name and the drawn names are fresh,
      then after a successful upload the folder still has one entry per
      original name, its names are the old ones plus the uploaded ones, every
      entry whose name was not uploaded is kept, and each uploaded name's
      entry is the one from its latest upload in the request. */
  lemma UploadKeepsLatest(fs: seq<Folder>, folderId: string, us: seq<UploadFile>)
    requires UploadResult(fs, folderId, us).Success?
    requires UniqueKeys(fs[FindFolder(fs, folderId).value].files)
    requires FreshServerNames(folderId, ServerNames(fs[FindFolder(fs, folderId).value].files), us)
    ensures var k := FindFolder(fs, folderId).value;
            var before := fs[k].files;
            var after := UploadResult(fs, folderId, us).value[k].files;
            && UniqueKeys(after)
            && Originals(after) == Originals(before) + UploadedNames(us)
            && (forall x :: x in before && x.originalName !in UploadedNames(us) ==> x in after)
            && (forall j :: 0 <= j < |us| && IsLatestUpload(us, j) ==> NewEntry(folderId, us[j]) in after)
  {
    var k := FindFolder(fs, folderId).value;
    var start := Dedupe(fs[k].files, IndexByName(fs[k].files));
    IndexByNameFacts(fs[k].files);
    ApplyUploadsKeepsIndexed(folderId, start, us);
    ApplyUploadsNames(folderId, start, us);
    ApplyUploadsKeepsOthers(folderId, start, us);
    ApplyUploadsAddsLatest(folderId, start, us);
  }
}
