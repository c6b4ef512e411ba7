/** The name and path checks that every handler applies to user input
    (aiapp/api.py, _sanitize_name and _safe_rel_path). */
module Validators {
  import opened Text
  import opened Http
  import opened Limits

  /** The characters a folder name may not contain. */
  const ForbiddenNameChars: seq<char> := ['\\', '/', ':', '*', '?', '"', '<', '>', '|']

  predicate HasForbiddenChar(s: string) {
    exists i :: 0 <= i < |s| && s[i] in ForbiddenNameChars
  }

  /** A folder name as the backend stores it, stated independently of how
      SanitizeName computes it. */
  predicate ValidFolderName(n: string) {
    1 <= |n| <= MaxFolderNameLength && IsStripped(n) && !HasForbiddenChar(n)
  }

  /** _sanitize_name: strip the name, then refuse it if empty, longer than 60
      characters or holding a forbidden character, in that order. */
  function SanitizeName(name: string): (r: Result<string>)
    ensures r.Success? <==> ValidFolderName(Strip(name))
    ensures r.Success? ==> r.value == Strip(name)
    ensures Strip(name) == [] ==> r == Failure(Error(400, FolderNameRequired))
    ensures |Strip(name)| > MaxFolderNameLength ==> r == Failure(Error(400, FolderNameTooLong))
    ensures Strip(name) != [] && |Strip(name)| <= MaxFolderNameLength && HasForbiddenChar(Strip(name))
            ==> r == Failure(Error(400, FolderNameForbiddenChar))
  {
    var n := Strip(name);
    if n == [] then Failure(Error(400, FolderNameRequired))
    else if |n| > MaxFolderNameLength then Failure(Error(400, FolderNameTooLong))
    else if HasForbiddenChar(n) then Failure(Error(400, FolderNameForbiddenChar))
    else Success(n)
  }

  /** Every valid folder name is accepted unchanged; with SanitizeName's own
      contract this makes "accepted" and "valid after stripping" the same. */
  lemma SanitizeAcceptsValid(n: string)
    requires ValidFolderName(n)
    ensures SanitizeName(n) == Success(n)
  {
    StripOfStripped(n);
  }

  /** Sanitising an accepted name again changes nothing. */
  lemma SanitizeIdempotent(name: string)
    requires SanitizeName(name).Success?
    ensures SanitizeName(SanitizeName(name).value) == SanitizeName(name)
  {
    SanitizeAcceptsValid(SanitizeName(name).value);
  }

  /** A relative storage path as the backend accepts it. */
  predicate ValidRelPath(p: string) {
    p != [] && '\\' !in p && IsStripped(p) && ".." !in Split(p, '/')
  }

  /** _safe_rel_path: turn backslashes into slashes, strip, and refuse an
      empty result or one with a ".." segment. */
  function SafeRelPath(p: string): (r: Result<string>)
    ensures r.Success? <==> ValidRelPath(Strip(ReplaceChar(p, '\\', '/')))
    ensures r.Success? ==> r.value == Strip(ReplaceChar(p, '\\', '/'))
    ensures Strip(ReplaceChar(p, '\\', '/')) == [] ==> r == Failure(Error(400, ServerNameRequired))
    ensures Strip(ReplaceChar(p, '\\', '/')) != [] && ".." in Split(Strip(ReplaceChar(p, '\\', '/')), '/')
            ==> r == Failure(Error(400, InvalidServerName))
  {
    var t := ReplaceChar(p, '\\', '/');
    ReplaceCharRemoves(p, '\\', '/');
    StripAvoids(t, '\\');
    var q := Strip(t);
    if q == [] then Failure(Error(400, ServerNameRequired))
    else if ".." in Split(q, '/') then Failure(Error(400, InvalidServerName))
    else Success(q)
  }

  /** SafeRelPath refuses a path only as missing or as invalid. */
  lemma SafeRelPathErrors(p: string)
    ensures SafeRelPath(p).Failure? ==>
              SafeRelPath(p).error == Error(400, ServerNameRequired) || SafeRelPath(p).error == Error(400, InvalidServerName)
  {
  }

  /** Every valid relative path is accepted unchanged. */
  lemma SafeRelPathAcceptsValid(p: string)
    requires ValidRelPath(p)
    ensures SafeRelPath(p) == Success(p)
  {
    assert ReplaceChar(p, '\\', '/') == p;
    StripOfStripped(p);
  }

  /** Normalising an accepted path again changes nothing. */
  lemma SafeRelPathIdempotent(p: string)
    requires SafeRelPath(p).Success?
    ensures SafeRelPath(SafeRelPath(p).value) == SafeRelPath(p)
  {
    SafeRelPathAcceptsValid(SafeRelPath(p).value);
  }
}
