/** The check that search, chat search and IQA run before anything else
    (aiapp/api.py, _validate_folder_files): the folder must exist and every
    requested file must be one of its entries and be present on disk. */
module Validation {
  import opened Http
  import opened Limits
  import opened Seqs
  import opened Metadata
  import opened Validators

  /** What the handlers can learn from the storage directory: which
      normalised server names exist as files, and which ones resolve (through
      an absolute path or a link) to somewhere outside the storage
      directory, which _safe_full_path refuses. */
  datatype Disk = Disk(present: set<string>, escaping: set<string>)

  /** The two lists the loop fills: names that are not entries of the
      folder, and entries whose file is not on disk. */
  datatype Buckets = Buckets(notInFolder: seq<string>, missing: seq<string>)

  /** Each requested name as _safe_rel_path leaves it, or its error. */
  function Checks(files: seq<string>): (r: seq<Result<string>>)
    ensures |r| == |files|
  {
    seq(|files|, i requires 0 <= i < |files| => SafeRelPath(files[i]))
  }

  /** The only errors a check can carry are the two of _safe_rel_path. */
  predicate PathErrorsOnly(cs: seq<Result<string>>) {
    forall i :: 0 <= i < |cs| && cs[i].Failure? ==>
      cs[i].error == Error(400, ServerNameRequired) || cs[i].error == Error(400, InvalidServerName)
  }

  lemma ChecksPathErrorsOnly(files: seq<string>)
    ensures PathErrorsOnly(Checks(files))
  {
    forall i | 0 <= i < |files| {
      SafeRelPathErrors(files[i]);
    }
  }

  /** A checked name gets through the loop without an exception: it
      normalised, and if it is an entry of the folder, its full path stays
      inside the storage directory. */
  predicate Admissible(allowed: set<string>, disk: Disk, c: Result<string>) {
    c.Success? && (c.value in allowed ==> c.value !in disk.escaping)
  }

  /** The exception the loop raises for a name that is not admissible. */
  function Rejection(allowed: set<string>, disk: Disk, c: Result<string>): Error
    requires !Admissible(allowed, disk, c)
  {
    if c.Failure? then c.error else Error(400, InvalidServerName)
  }

  /** The normalised names, once every name normalised. */
  function Paths(cs: seq<Result<string>>): (r: seq<string>)
    requires forall i :: 0 <= i < |cs| ==> cs[i].Success?
    ensures |r| == |cs|
    ensures forall i :: 0 <= i < |cs| ==> r[i] == cs[i].value
  {
    if cs == [] then [] else [cs[0].value] + Paths(cs[1..])
  }

  /** The conditions that put a normalised name into each bucket. */
  function NotAllowed(allowed: set<string>): string -> bool {
    (p: string) => p !in allowed
  }

  function MissingOnDisk(allowed: set<string>, disk: Disk): string -> bool {
    (p: string) => p in allowed && p !in disk.present
  }

  /** Buckets gathered so far, put in front of what the rest of the loop
      gathers. */
  function Prepend(front: Buckets, rest: Result<Buckets>): Result<Buckets> {
    match rest
    case Failure(e) => Failure(e)
    case Success(b) => Success(Buckets(front.notInFolder + b.notInFolder, front.missing + b.missing))
  }

  /** One admissible name's contribution to the buckets. */
  function Contribution(allowed: set<string>, disk: Disk, p: string): Buckets {
    Buckets(if p !in allowed then [p] else [], if p in allowed && p !in disk.present then [p] else [])
  }

  /** The loop of _validate_folder_files as one pass over the checked names;
      it fails exactly when some name is not admissible. */
  function Classify(allowed: set<string>, disk: Disk, cs: seq<Result<string>>): (r: Result<Buckets>)
    ensures r.Success? <==> forall i :: 0 <= i < |cs| ==> Admissible(allowed, disk, cs[i])
  {
    if cs == [] then Success(Buckets([], []))
    else
      var rest := Classify(allowed, disk, cs[1..]);
      assert forall j :: 1 <= j < |cs| ==> cs[1..][j - 1] == cs[j];
      match cs[0]
      case Failure(e) => Failure(e)
      case Success(p) =>
        if p in allowed && p in disk.escaping then Failure(Error(400, InvalidServerName))
        else Prepend(Contribution(allowed, disk, p), rest)
  }

  /** A failing pass fails with the exception of the first name that is not
      admissible. */
  lemma {:induction false} ClassifyRejects(allowed: set<string>, disk: Disk, cs: seq<Result<string>>)
    requires Classify(allowed, disk, cs).Failure?
    ensures exists k :: 0 <= k < |cs| && !Admissible(allowed, disk, cs[k])
                        && (forall j :: 0 <= j < k ==> Admissible(allowed, disk, cs[j]))
                        && Classify(allowed, disk, cs).error == Rejection(allowed, disk, cs[k])
  {
    if Admissible(allowed, disk, cs[0]) {
      var rest := cs[1..];
      ClassifyRejects(allowed, disk, rest);
      var k :| 0 <= k < |rest| && !Admissible(allowed, disk, rest[k])
               && (forall j :: 0 <= j < k ==> Admissible(allowed, disk, rest[j]))
               && Classify(allowed, disk, rest).error == Rejection(allowed, disk, rest[k]);
      assert cs[k + 1] == rest[k];
      assert forall j :: 1 <= j < k + 1 ==> cs[j] == rest[j - 1];
    }
  }

  /** A successful pass fills each bucket with the normalised names that
      meet its condition, in request order. */
  lemma {:induction false} ClassifyBuckets(allowed: set<string>, disk: Disk, cs: seq<Result<string>>)
    requires Classify(allowed, disk, cs).Success?
    ensures Classify(allowed, disk, cs).value.notInFolder == Filter(Paths(cs), NotAllowed(allowed))
    ensures Classify(allowed, disk, cs).value.missing == Filter(Paths(cs), MissingOnDisk(allowed, disk))
  {
    if cs != [] {
      var rest := cs[1..];
      assert forall j :: 1 <= j < |cs| ==> rest[j - 1] == cs[j];
      ClassifyBuckets(allowed, disk, rest);
      assert Paths(cs)[1..] == Paths(rest);
    }
  }

  /** The first five names of a bucket, as `names[:5]` in the messages. */
  function FirstNames(names: seq<string>): (r: seq<string>)
    ensures |r| <= MaxListedNames && |r| <= |names|
    ensures |r| == |names| || |r| == MaxListedNames
    ensures r == names[..|r|]
  {
    if |names| <= MaxListedNames then names else names[..MaxListedNames]
  }

  /** _validate_folder_files on the loaded folder list and the requested
      names as SafeRelPath leaves them (`cs` is Checks(files)): 404 for an
      unknown folder, the loop's exception if there is one, then "not in
      selected folder" before "missing on server", each listing at most five
      names; otherwise the folder. */
  function ValidationResult(fs: seq<Folder>, folderId: string, cs: seq<Result<string>>, disk: Disk): (r: Result<Folder>)
    ensures FindFolder(fs, folderId).Failure? ==> r == Failure(FindFolder(fs, folderId).error)
    ensures r.Success? ==> FindFolder(fs, folderId).Success? && r.value == fs[FindFolder(fs, folderId).value]
  {
    match FindFolder(fs, folderId)
    case Failure(e) => Failure(e)
    case Success(k) =>
      match Classify(ServerNames(fs[k].files), disk, cs)
      case Failure(e) => Failure(e)
      case Success(b) =>
        if b.notInFolder != [] then Failure(Error(400, FilesNotInFolder(FirstNames(b.notInFolder))))
        else if b.missing != [] then Failure(Error(400, FilesMissing(FirstNames(b.missing))))
        else Success(fs[k])
  }

  /** A checked name passes every check: it normalised to one of the
      folder's server names, whose file is on disk and inside the storage
      directory. */
  predicate Accepted(allowed: set<string>, disk: Disk, c: Result<string>) {
    c.Success? && c.value in allowed && c.value in disk.present && c.value !in disk.escaping
  }

  /** A pass ends with both buckets empty exactly when every name is
      accepted. */
  lemma {:induction false} ClassifyAccepts(allowed: set<string>, disk: Disk, cs: seq<Result<string>>)
    ensures (Classify(allowed, disk, cs) == Success(Buckets([], [])))
            <==> forall i :: 0 <= i < |cs| ==> Accepted(allowed, disk, cs[i])
  {
    if cs != [] {
      var rest := cs[1..];
      ClassifyAccepts(allowed, disk, rest);
      assert forall j :: 1 <= j < |cs| ==> cs[j] == rest[j - 1];
      if Accepted(allowed, disk, cs[0]) {
        assert Contribution(allowed, disk, cs[0].value) == Buckets([], []);
        var r := Classify(allowed, disk, rest);
        if r.Success? {
          assert [] + r.value.notInFolder == r.value.notInFolder && [] + r.value.missing == r.value.missing;
        }
      }
    }
  }

  /** Validation succeeds exactly when the folder exists and every requested
      name, normalised, is accepted. */
  lemma ValidationAcceptsExactly(fs: seq<Folder>, folderId: string, cs: seq<Result<string>>, disk: Disk)
    ensures ValidationResult(fs, folderId, cs, disk).Success? <==>
            FindFolder(fs, folderId).Success? &&
            forall i :: 0 <= i < |cs| ==> Accepted(ServerNames(fs[FindFolder(fs, folderId).value].files), disk, cs[i])
  {
    if FindFolder(fs, folderId).Success? {
      var k := FindFolder(fs, folderId).value;
      ClassifyAccepts(ServerNames(fs[k].files), disk, cs);
    }
  }

  /** With every name admissible, some name is not an entry exactly when the
      first bucket is not empty, and, when every name is an entry, some file
      is missing exactly when the second bucket is not empty. */
  lemma {:induction false} ClassifyNonEmpty(allowed: set<string>, disk: Disk, cs: seq<Result<string>>)
    requires forall i :: 0 <= i < |cs| ==> Admissible(allowed, disk, cs[i])
    ensures var b := Classify(allowed, disk, cs).value;
            && (b.notInFolder != [] <==> exists i :: 0 <= i < |cs| && cs[i].value !in allowed)
            && (b.missing != [] <==> exists i :: 0 <= i < |cs| && cs[i].value in allowed && cs[i].value !in disk.present)
  {
    if cs != [] {
      var rest := cs[1..];
      assert forall j :: 1 <= j < |cs| ==> cs[j] == rest[j - 1];
      ClassifyNonEmpty(allowed, disk, rest);
      if exists i :: 0 <= i < |cs| && cs[i].value !in allowed {
        var i :| 0 <= i < |cs| && cs[i].value !in allowed;
        if i > 0 { assert rest[i - 1].value !in allowed; }
      }
      if exists i :: 0 <= i < |cs| && cs[i].value in allowed && cs[i].value !in disk.present {
        var i :| 0 <= i < |cs| && cs[i].value in allowed && cs[i].value !in disk.present;
        if i > 0 { assert rest[i - 1].value in allowed && rest[i - 1].value !in disk.present; }
      }
    }
  }

  /** The precedence of the two messages: once every name is admissible, a
      name that is not an entry of the folder gives "not in selected folder"
      listing the first five such names, whatever is missing on disk; only
      when every name is an entry does a missing file give "missing on
      server", listing the first five missing names. */
  lemma ValidationPrecedence(fs: seq<Folder>, folderId: string, cs: seq<Result<string>>, disk: Disk)
    requires FindFolder(fs, folderId).Success?
    requires forall i :: 0 <= i < |cs| ==>
               cs[i].Success? && (cs[i].value in ServerNames(fs[FindFolder(fs, folderId).value].files) ==> cs[i].value !in disk.escaping)
    ensures var allowed := ServerNames(fs[FindFolder(fs, folderId).value].files);
            var ns := Paths(cs);
            && ((exists i :: 0 <= i < |ns| && ns[i] !in allowed) ==>
                 ValidationResult(fs, folderId, cs, disk)
                   == Failure(Error(400, FilesNotInFolder(FirstNames(Filter(ns, NotAllowed(allowed)))))))
            && ((forall i :: 0 <= i < |ns| ==> ns[i] in allowed) && (exists i :: 0 <= i < |ns| && ns[i] !in disk.present) ==>
                 ValidationResult(fs, folderId, cs, disk)
                   == Failure(Error(400, FilesMissing(FirstNames(Filter(ns, MissingOnDisk(allowed, disk)))))))
  {
    var k := FindFolder(fs, folderId).value;
    var allowed := ServerNames(fs[k].files);
    ClassifyBuckets(allowed, disk, cs);
    ClassifyNonEmpty(allowed, disk, cs);
  }

  /** Every name a bucket holds is a checked name that meets the bucket's
      condition. */
  lemma ClassifyListed(allowed: set<string>, disk: Disk, cs: seq<Result<string>>)
    requires Classify(allowed, disk, cs).Success?
    ensures var b := Classify(allowed, disk, cs).value;
            && (forall n :: n in b.notInFolder ==> n !in allowed && exists i :: 0 <= i < |cs| && cs[i] == Success(n))
            && (forall n :: n in b.missing ==> n in allowed && n !in disk.present && exists i :: 0 <= i < |cs| && cs[i] == Success(n))
  {
    var b := Classify(allowed, disk, cs).value;
    ClassifyBuckets(allowed, disk, cs);
    var ns := Paths(cs);
    forall n | n in b.notInFolder || n in b.missing ensures exists i :: 0 <= i < |cs| && cs[i] == Success(n) {
      var i :| 0 <= i < |ns| && ns[i] == n;
      assert cs[i] == Success(n);
    }
  }

  /** Every name an error message lists is a requested name, normalised,
      that meets that message's condition, and there are at most five. */
  lemma ListedNamesMeetCondition(fs: seq<Folder>, folderId: string, cs: seq<Result<string>>, disk: Disk)
    requires PathErrorsOnly(cs)
    requires ValidationResult(fs, folderId, cs, disk).Failure?
    ensures var e := ValidationResult(fs, folderId, cs, disk).error;
            (e.reason.FilesNotInFolder? || e.reason.FilesMissing?) ==>
              var allowed := ServerNames(fs[FindFolder(fs, folderId).value].files);
              && |e.reason.names| <= MaxListedNames
              && forall n :: n in e.reason.names ==>
                   && (exists i :: 0 <= i < |cs| && cs[i] == Success(n))
                   && (e.reason.FilesNotInFolder? ==> n !in allowed)
                   && (e.reason.FilesMissing? ==> n in allowed && n !in disk.present)
  {
    var e := ValidationResult(fs, folderId, cs, disk).error;
    if e.reason.FilesNotInFolder? || e.reason.FilesMissing? {
      var k := FindFolder(fs, folderId).value;
      if Classify(ServerNames(fs[k].files), disk, cs).Failure? {
        ClassifyRejects(ServerNames(fs[k].files), disk, cs);
      }
      ClassifyListed(ServerNames(fs[k].files), disk, cs);
    }
  }

  /** Two sets of buckets, one after the other. */
  function Add(front: Buckets, back: Buckets): Buckets {
    Buckets(front.notInFolder + back.notInFolder, front.missing + back.missing)
  }

  /** The loop of _validate_folder_files as it runs: the buckets filled so
      far are carried along, and the first name that is not admissible ends
      the loop with its exception. */
  function Gather(allowed: set<string>, disk: Disk, cs: seq<Result<string>>, acc: Buckets): Result<Buckets>
    decreases |cs|
  {
    if cs == [] then Success(acc)
    else if !Admissible(allowed, disk, cs[0]) then Failure(Rejection(allowed, disk, cs[0]))
    else Gather(allowed, disk, cs[1..], Add(acc, Contribution(allowed, disk, cs[0].value)))
  }

  /** Running the loop from some buckets is the one-pass Classify with those
      buckets put in front. */
  lemma {:induction false} GatherIsClassify(allowed: set<string>, disk: Disk, cs: seq<Result<string>>, acc: Buckets)
    ensures Gather(allowed, disk, cs, acc) == Prepend(acc, Classify(allowed, disk, cs))
    decreases |cs|
  {
    if cs == [] {
      assert acc.notInFolder + [] == acc.notInFolder && acc.missing + [] == acc.missing;
    } else if Admissible(allowed, disk, cs[0]) {
      var step := Contribution(allowed, disk, cs[0].value);
      GatherIsClassify(allowed, disk, cs[1..], Add(acc, step));
      var r := Classify(allowed, disk, cs[1..]);
      if r.Success? {
        assert acc.notInFolder + (step.notInFolder + r.value.notInFolder) == (acc.notInFolder + step.notInFolder) + r.value.notInFolder;
        assert acc.missing + (step.missing + r.value.missing) == (acc.missing + step.missing) + r.value.missing;
      }
    }
  }

  /** One turn of the loop, at position i. */
  lemma GatherStep(allowed: set<string>, disk: Disk, cs: seq<Result<string>>, i: nat, acc: Buckets)
    requires i < |cs|
    ensures Gather(allowed, disk, cs[i..], acc)
            == if !Admissible(allowed, disk, cs[i]) then Failure(Rejection(allowed, disk, cs[i]))
               else Gather(allowed, disk, cs[i + 1..], Add(acc, Contribution(allowed, disk, cs[i].value)))
  {
    assert cs[i..][0] == cs[i] && cs[i..][1..] == cs[i + 1..];
  }

  /** Adding one name's contribution appends it to the bucket it falls in. */
  lemma AddContribution(allowed: set<string>, disk: Disk, acc: Buckets, p: string)
    ensures Add(acc, Contribution(allowed, disk, p))
            == Buckets(if p !in allowed then acc.notInFolder + [p] else acc.notInFolder,
                       if p in allowed && p !in disk.present then acc.missing + [p] else acc.missing)
  {
    assert acc.notInFolder + [] == acc.notInFolder && acc.missing + [] == acc.missing;
  }

  /** _validate_folder_files: the loop fills both lists in place and raises
      as soon as a name is refused. */
  method ValidateFolderFiles(fs: seq<Folder>, folderId: string, files: seq<string>, disk: Disk) returns (r: Result<Folder>)
    ensures r == ValidationResult(fs, folderId, Checks(files), disk)
  {
    var found := FindFolder(fs, folderId);
    if found.Failure? {
      return Failure(found.error);
    }
    var folder := fs[found.value];
    var allowed := ServerNames(folder.files);
    ghost var cs := Checks(files);
    ghost var whole := Gather(allowed, disk, cs, Buckets([], []));
    GatherIsClassify(allowed, disk, cs, Buckets([], []));
    assert whole == Classify(allowed, disk, cs) by {
      var c := Classify(allowed, disk, cs);
      if c.Success? {
        assert [] + c.value.notInFolder == c.value.notInFolder && [] + c.value.missing == c.value.missing;
      }
    }
    var missing: seq<string> := [];
    var notInFolder: seq<string> := [];
    var i := 0;
    assert cs[0..] == cs;
    while i < |files|
      invariant 0 <= i <= |files|
      invariant Gather(allowed, disk, cs[i..], Buckets(notInFolder, missing)) == whole
    {
      GatherStep(allowed, disk, cs, i, Buckets(notInFolder, missing));
      var checked := SafeRelPath(files[i]);
      if checked.Failure? {
        return Failure(checked.error);
      }
      var f := checked.value;
      AddContribution(allowed, disk, Buckets(notInFolder, missing), f);
      if f !in allowed {
        notInFolder := notInFolder + [f];
      } else {
        // _safe_full_path runs _safe_rel_path again on f, which leaves it
        // unchanged (Validators.SafeRelPathIdempotent).
        if f in disk.escaping {
          return Failure(Error(400, InvalidServerName));
        }
        if f !in disk.present {
          missing := missing + [f];
        }
      }
      i := i + 1;
    }
    assert cs[i..] == [];
    if notInFolder != [] {
      return Failure(Error(400, FilesNotInFolder(FirstNames(notInFolder))));
    }
    if missing != [] {
      return Failure(Error(400, FilesMissing(FirstNames(missing))));
    }
    return Success(folder);
  }
}
