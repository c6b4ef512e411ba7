# Folder and file metadata store of the FastAPI backend

This project models the metadata store of the backend in `aiapp/api.py` and
proves properties of the model. The store is the `storage/metadata.json`
document: a list of folders, each with an id, a name and a list of file
entries (original name, server name, size, normalised server name). The
handlers read it, normalise it and write a new folder list back.

The model covers:

- the two validators, `_sanitize_name` and `_safe_rel_path`;
- loading with normalisation: a default document, and a root folder
  inserted at the front;
- the folder and file lookups;
- the folder-list logic of `create_folder`, `delete_folder`, `delete_file`
  and `upload`, including upload's keep-the-latest rule per original name
  and the shape of the names it generates;
- `_validate_folder_files`, with its two error buckets and their
  precedence;
- the result rows of `search`;
- the text of `_build_chat_answer` and the `chat_search` handler;
- `Api.MetadataStore`, a class holding the stored document, with one method
  per handler. Each method loads the document, may write it back, and
  states the response and the new document exactly.

Modules follow the program's layers:

| module | contents |
|---|---|
| `Text` | `str.strip`, `replace`, `split`, `join`, ASCII `lower`, `repr` of plain strings, decimal rendering |
| `Limits`, `Http` | the constants, the HTTP errors with their detail texts, and a `Result` type |
| `Seqs` | list-comprehension filtering, concatenation of lists of lists, `enumerate` numbering |
| `Validators` | `_sanitize_name` and `_safe_rel_path` |
| `Metadata` | the document, `_default_metadata`, the normalisation in `_load_metadata`, `_get_folder` and `_find_file_entry` |
| `FolderOps` | `create_folder`, `delete_folder` and `delete_file`, as pure functions over the folder list |
| `Uploads` | the upload loop (a method over a dedupe state it updates) and the specification it is proved against |
| `Validation` | `_validate_folder_files` (a method with the loop) and its specification |
| `Search` | the request bounds, the rows and the `search` handler |
| `Chat` | `_build_chat_answer` (a method building the lines by appends) and `chat_search` |
| `Api` | `MetadataStore`, the stored document and the handlers over it |

Parameters stand in for the environment:

- The disk is a `Disk` value with two sets. `present` holds the server names
  whose file exists. `escaping` holds those that `_safe_full_path` refuses
  because they resolve outside the storage directory.
- The hex digits `uuid4` contributes to a new id are explicit arguments:
  `token` for a folder, `fileId` for an uploaded file.
- An uploaded file is its name, its byte count and its file id.

Floats are kept as integer hundredths. Search's score is
`85 + idx % 10` hundredths, and `Chat.ScoreText` renders hundredths the way
`str()` prints the rounded float (85 is `0.85`, 90 is `0.9`).

## Model

| member | source | states |
|---|---|---|
| Text.Strip | aiapp/api.py:88 | the result has no leading or trailing whitespace, is no longer than the input, and is empty exactly when every character is whitespace (Python's `isspace` set) |
| Text.StripSlice | aiapp/api.py:88 | `strip()` drops only a whitespace prefix and a whitespace suffix: the result is a contiguous slice of the input with only whitespace around it |
| Text.StripOfStripped | aiapp/api.py:88 | a string without surrounding whitespace is left unchanged |
| Text.StripIdempotent | aiapp/api.py:88 | stripping twice is stripping once |
| Text.StripAvoids | aiapp/api.py:100 | a character absent from the input is absent from the stripped string |
| Text.ReplaceCharRemoves | aiapp/api.py:100 | after `replace("\\", "/")` no backslash is left |
| Text.Split | aiapp/api.py:103 | `split` gives at least one piece and no piece holds the separator |
| Text.SplitJoin | aiapp/api.py:223 | lines without the separator, joined by it and split by it, come back exactly |
| Text.NatToString | aiapp/api.py:215 | an integer renders as a non-empty string of decimal digits |
| Text.NatToStringValue | aiapp/api.py:215 | `str(n)` spells n: its digits, read back as a decimal number, give n, and only `str(0)` starts with a "0" |
| Seqs.Filter | aiapp/api.py:292 | a comprehension filter keeps exactly the elements satisfying the condition; keeping all returns the input; dropping one shortens it |
| Seqs.FilterAppend | aiapp/api.py:292 | filtering a concatenation filters each part, so kept elements keep their order |
| Seqs.FilterNoDuplicates | aiapp/api.py:391 | filtering a list without duplicates leaves a list without duplicates |
| Seqs.NumberedAt | aiapp/api.py:198 | `enumerate(xs, start)` pairs the k-th element with number start + k |
| Http.Detail | aiapp/api.py:84-413 | the `detail` text of each refusal, with the limits and the offending folder id, file name or names filled in as the source's f-strings do |
| Http.SubjectOfFolderNotFound | aiapp/api.py:84 | the "Folder not found" detail reads back as the folder id it names |
| Http.SubjectOfFileTooLarge | aiapp/api.py:345-348 | the "File too large" detail reads back as the file name it names, and is not read as a missing folder |
| Http.DetailNamesSubject | aiapp/api.py:84-348 | two "Folder not found" or "File too large" refusals with the same detail text are the same refusal about the same folder or file |
| Validators.SanitizeName | aiapp/api.py:87-96 | succeeds exactly when the stripped name is a valid folder name (1 to 60 characters, no surrounding whitespace, no forbidden character), and then returns that stripped name; an empty name, a name over 60 characters and a name with a forbidden character each fail with their own 400 error, in that order |
| Validators.SanitizeAcceptsValid | aiapp/api.py:87-96 | every valid folder name (1 to 60 characters, nothing around it to strip, no forbidden character) is accepted unchanged |
| Validators.SanitizeIdempotent | aiapp/api.py:87-96 | sanitising an accepted name again gives the same result |
| Validators.SafeRelPath | aiapp/api.py:99-105 | succeeds exactly when the input, with backslashes made slashes and stripped, is a valid relative path (not empty, no backslash, no surrounding whitespace, no `..` segment), and then returns it; a blank result and a result with a `..` segment each fail with their own 400 error |
| Validators.SafeRelPathErrors | aiapp/api.py:99-105 | a refused path fails only with "server_name is required" or "Invalid server_name path" |
| Validators.SafeRelPathAcceptsValid | aiapp/api.py:99-105 | every valid relative path (non-empty, no backslash, nothing to strip, no `..` segment) is accepted unchanged |
| Validators.SafeRelPathIdempotent | aiapp/api.py:99-105 | an accepted path passes again, unchanged |
| Metadata.LoadMetadata | aiapp/api.py:51-77 | the loaded list always has a root folder; a missing or malformed document gives the default single Root folder; a list with a root is kept; a list without one gets Root at index 0, with the others after it in their order |
| Metadata.LoadMetadataIdempotent | aiapp/api.py:61-67 | loading the normalised list again changes nothing, which is why a second load writes nothing new |
| Metadata.FindFolder | aiapp/api.py:80-84 | the index of the first folder with the id, or exactly when none has it, the 404 "Folder not found" error |
| Metadata.FindFileEntry | aiapp/api.py:120-124 | the first entry with the server name, or None exactly when no entry has it |
| FolderOps.CreateFolder | aiapp/api.py:262-276 | succeeds exactly when the name sanitises and no folder has it ignoring case; sanitising errors pass through; a name equal, ignoring case, to an existing folder's name is refused; on success the old list is kept as a prefix and exactly one empty folder follows, with id "fld_" + token and the stripped name; a root stays |
| FolderOps.CreateFolderKeepsDistinct | aiapp/api.py:268-272 | with a fresh token, a successful create keeps folder names distinct ignoring case and keeps ids distinct |
| FolderOps.DeleteFolder | aiapp/api.py:279-294 | "root" is always refused with 400; an unknown id gives 404; success happens exactly when the id is not root and present, and removes every folder with that id (and nothing else), keeping the order; a root stays |
| FolderOps.DeleteFolderKeepsOrder | aiapp/api.py:292 | deleting from a concatenation deletes from each part, so the remaining folders keep their relative order |
| FolderOps.DropFile | aiapp/api.py:391 | the folder keeps its id and name, and its entries are exactly those with another server name, in order |
| FolderOps.DeleteFile | aiapp/api.py:377-393 | an unknown folder gives 404; a refused server name gives its 400 error; success happens exactly when some entry has the cleaned server name, and then only that folder changes, losing exactly those entries; otherwise 404 "File not found in metadata" |
| FolderOps.DeleteFileKeepsFolders | aiapp/api.py:391 | deleting a file keeps the number of folders, each folder's id, and the root |
| Uploads.LastDot | aiapp/api.py:323-324 | the position of the last "." or -1, with no "." after it |
| Uploads.StemAndSuffix | aiapp/api.py:323-324 | stem and suffix put back together give the name (except for "."); a suffix is empty or a "." followed by at least one character and no other "."; a non-empty suffix follows a non-empty stem; the suffix is empty only when the last "." is the first or the last character, or there is none |
| Uploads.ServerNameShape | aiapp/api.py:322-326 | a new entry's server name is the folder id, "/", and a stored name containing neither slash |
| Uploads.UploadResult | aiapp/api.py:298-372 | succeeds exactly when there are 1 to 50 files, the folder exists and no named file is over 50 MiB; zero files and more than 50 files are refused before anything else; an unknown folder gives 404; otherwise the first named file over the limit is refused with its name; on success only the target folder changes, and it keeps its id and name; a root stays |
| Uploads.Upload | aiapp/api.py:300-372 | the loop that updates the file list and the by-name dictionary computes UploadResult |
| Uploads.ApplyUploadsFailsOnOversize | aiapp/api.py:339-348 | the upload fails exactly when some named file is over 50 MiB, and then with "File too large" for the first such file |
| Uploads.LastUploadIsLast | aiapp/api.py:369 | when the last upload has a name, its entry ends the folder's list |
| Uploads.IndexByNameFacts | aiapp/api.py:313 | the by-name dictionary has exactly the list's original names as keys, each mapped to an entry of the list with that name |
| Uploads.KeptFacts | aiapp/api.py:367 | removing the recorded entry by its server name keeps exactly the entries with another original name |
| Uploads.StepKeepsIndexed | aiapp/api.py:363-370 | one named upload replaces the entry for its original name with the new entry, keeps every other entry, and keeps the dictionary in step with the list |
| Uploads.StepFacts | aiapp/api.py:315-370 | one iteration: a nameless file changes nothing; a named one adds its name and its entry, keeps other names' entries and adds only its own server name |
| Uploads.ApplyUploadsKeepsIndexed | aiapp/api.py:315-370 | over the whole loop, entries stay unique by original name and by server name, and the dictionary matches the list |
| Uploads.ApplyUploadsNames | aiapp/api.py:315-370 | after the loop, the folder's original names are the old ones plus every non-empty uploaded name |
| Uploads.ApplyUploadsKeepsOthers | aiapp/api.py:363-367 | entries whose original name was not uploaded survive |
| Uploads.ApplyUploadsAddsLatest | aiapp/api.py:363-370 | for each name, the entry of its last upload is in the folder |
| Uploads.UploadKeepsLatest | aiapp/api.py:313-370 | a successful upload leaves the folder with one entry per original name, the old names plus the uploaded ones, untouched entries for other names, and the latest entry for each uploaded name |
| Validation.ChecksPathErrorsOnly | aiapp/api.py:166 | each requested name either passes `_safe_rel_path` or fails with one of its two errors |
| Validation.Classify | aiapp/api.py:165-171 | the loop completes exactly when every name passes `_safe_rel_path` and, when listed in the folder, `_safe_full_path` |
| Validation.ClassifyRejects | aiapp/api.py:165-171 | a loop that stops raises the exception of the first name that is not admissible |
| Validation.ClassifyBuckets | aiapp/api.py:165-171 | `not_in_folder` is the cleaned names not in the folder, and `missing` is those in the folder but not on disk, both in request order |
| Validation.ClassifyAccepts | aiapp/api.py:165-176 | both buckets end empty exactly when every name is in the folder, on disk and inside storage |
| Validation.ClassifyNonEmpty | aiapp/api.py:173-176 | each bucket is non-empty exactly when some name meets its condition |
| Validation.ClassifyListed | aiapp/api.py:165-171 | every name in a bucket was requested and meets that bucket's condition |
| Validation.GatherIsClassify | aiapp/api.py:165-171 | the loop with its buckets carried along equals the one-pass classification placed after what it has gathered |
| Validation.FirstNames | aiapp/api.py:174 | `[:5]` keeps a prefix of at most five names, and all of them when there are fewer |
| Validation.ValidationResult | aiapp/api.py:149-178 | an unknown folder gives 404; success returns the folder `_get_folder` found |
| Validation.ValidationAcceptsExactly | aiapp/api.py:149-178 | validation succeeds exactly when the folder exists and every requested name is accepted |
| Validation.ValidationPrecedence | aiapp/api.py:173-176 | a name outside the folder gives "not in selected folder" with the first five such names, even if files are also missing; only when all are in the folder does a missing file give "missing on server" with the first five missing names |
| Validation.ListedNamesMeetCondition | aiapp/api.py:173-176 | an error lists at most five names, each requested and each meeting that error's condition |
| Validation.ValidateFolderFiles | aiapp/api.py:149-178 | the loop filling the two lists computes ValidationResult |
| Search.MakeRow | aiapp/api.py:428-438 | row idx carries id idx, the file, the folder id and the query; a score of 0.85 to 0.94, a page of 1 to 5 and line 10 + idx |
| Search.Rows | aiapp/api.py:426-439 | one row per file, the k-th being the row numbered k + 1 for the k-th file |
| Search.SearchResult | aiapp/api.py:407-441 | validation errors pass through; a blank query gives 400 "query is required"; success happens exactly when validation passes and the query is not blank, with one row per requested file |
| Search.SearchRowsFacts | aiapp/api.py:426-439 | row k of a successful search has id k + 1, the k-th file, the folder id, the stripped non-empty query, and score, page and line within their bounds |
| Search.SearchIdsDistinct | aiapp/api.py:429 | result ids strictly increase, so they are distinct |
| Search.SearchNonEmpty | aiapp/api.py:397-400 | a request within the Field bounds gets at least one row when search succeeds |
| Search.BuildRows | aiapp/api.py:425-439 | the loop appending rows computes Rows |
| Search.Search | aiapp/api.py:407-441 | the handler computes SearchResult |
| Chat.ScoreText | aiapp/api.py:433 | a score renders with only digits and "." characters; a score under 1 starts with "0." |
| Chat.ScoreTextReadsBack | aiapp/api.py:433 | the rendered score has exactly one ".", not at the start; the digits before it spell cents / 100; the one or two digits after it give cents % 100 as hundredths, and a second digit is never "0", as `str()` of `round(x, 2)` shows a float |
| Chat.MetaBits | aiapp/api.py:205-211 | one bit per present value, in the order score, page, line |
| Chat.ItemNumbered | aiapp/api.py:198-219 | an item has one line, or two when the file name is not empty, and its first line starts with its number and ")" |
| Chat.ItemAt | aiapp/api.py:198 | the k-th item renders the k-th hit with number k + 1 |
| Chat.Top | aiapp/api.py:191 | the first min(5, n) hits |
| Chat.ChatAnswer | aiapp/api.py:181-223 | the answer is the "couldn't find" sentence for the stripped query exactly when there are no results |
| Chat.AnswerItem | aiapp/api.py:198-219 | the lines of the k-th top hit sit, under number k + 1, between the header with the earlier items and the later items with the closing lines |
| Chat.AnswerLinesCount | aiapp/api.py:191-222 | an answer has 4 + n to 4 + 2n lines for n = min(5, results) |
| Chat.ChatAnswerTopFive | aiapp/api.py:191 | results after the fifth do not change the answer |
| Chat.ChatAnswerSplits | aiapp/api.py:223 | when no value holds a newline, splitting the answer at newlines gives back exactly its lines |
| Chat.AppendItem | aiapp/api.py:199-219 | one loop iteration appends exactly the item's lines |
| Chat.BuildChatAnswer | aiapp/api.py:181-223 | the loop building the lines by appends computes ChatAnswer |
| Chat.ChatSearchResult | aiapp/api.py:461-485 | validation errors pass through; otherwise the outcome is search's, and its rows are returned with the answer built over them |
| Chat.MetaOfRow | aiapp/api.py:205-213 | a search row has all three meta bits, so its meta is " (score …, page …, line …)" |
| Chat.SnippetStripped | aiapp/api.py:200 | search's snippets have nothing to strip |
| Chat.RowItemLines | aiapp/api.py:214-219 | a search row renders as its snippet and, for a named file, a file line with all three meta bits |
| Chat.ChatSearchRows | aiapp/api.py:475-479 | a successful chat search has a non-blank query, search's rows over the stripped query, and the answer over those rows |
| Chat.RowsAnswer | aiapp/api.py:475-479 | over search's rows for a non-empty list of files, the answer is never the "couldn't find" sentence and splits back into its lines |
| Chat.AnswerReadsBack | aiapp/api.py:186-223 | with at least one result and no newlines, the answer is not the "couldn't find" sentence and splits back into its lines |
| Chat.ChatSearchText | aiapp/api.py:461-485 | for a request within the bounds whose query and file names hold no newline, a successful chat search's text is never the "couldn't find" sentence and reads back line by line as header, items and closing lines |
| Chat.RowsItem | aiapp/api.py:426-439 | item k + 1 over search's rows is the k-th file's snippet, plus, for a named file, its file line with score, page and line |
| Chat.ChatSearchItem | aiapp/api.py:475-479 | in a successful chat search, item k + 1 for each of the first min(5, n) files is that file's snippet and file line |
| Chat.ChatSearch | aiapp/api.py:461-485 | the handler computes ChatSearchResult |
| Api.MetadataStore.Load | aiapp/api.py:51-77 | returns the normalised list of the stored document, and afterwards the store holds exactly that list, with a root |
| Api.MetadataStore.Metadata | aiapp/api.py:255-258 | GET /metadata returns the normalised list and stores it |
| Api.MetadataStore.CreateFolder | aiapp/api.py:262-276 | the response is CreateFolder over the loaded list; the new list is stored on success, and only the normalised list otherwise |
| Api.MetadataStore.DeleteFolder | aiapp/api.py:279-294 | "root" is refused without touching the store; otherwise DeleteFolder over the loaded list, stored on success |
| Api.MetadataStore.Upload | aiapp/api.py:298-373 | a bad file count is refused without touching the store; otherwise UploadResult over the loaded list, stored on success |
| Api.MetadataStore.DeleteFile | aiapp/api.py:377-393 | DeleteFile over the loaded list, stored on success, with a root kept |
| Api.MetadataStore.ValidateFolderFiles | aiapp/api.py:157-178 | ValidationResult over the loaded list; only the normalised list is stored |
| Api.MetadataStore.Search | aiapp/api.py:407-441 | SearchResult over the loaded list; only the normalised list is stored |
| Api.MetadataStore.ChatSearch | aiapp/api.py:461-485 | ChatSearchResult over the loaded list, although the document is read twice; only the normalised list is stored |

## Left out

- File-system effects are not modelled: `_save_metadata`'s temporary file and rename, `mkdir`, `rmtree`, `unlink`, `_delete_path_quiet`, `_create_empty_normalised_json`, and the bytes written by upload. The document is a value held by `Api.MetadataStore`.
- `_load_metadata`'s failure paths (no file, invalid JSON, no `folders` list, a folder that is not an object or has no `id`) are folded into the `Absent` and `Malformed` documents. The directory it creates for each folder is left out.
- `_safe_full_path`'s `resolve()` and prefix check depend on the real file system. They are the `escaping` set of `Validation.Disk`, and file existence is its `present` set.
- Upload reads the file in 1 MiB chunks and counts the bytes. It is modelled as a file with a known size; a size over the limit fails at that file, like the source's check after the chunk that crosses it.
- `META_LOCK` and concurrency: every handler is one atomic step on the store.
- `time.sleep` and the `delay_ms` / `per_file_delay_ms` knobs.
- `uuid4` ids are arguments. The source does not check for collisions.
- Uploads.UploadKeepsLatest: requires fresh server names (`FreshServerNames`) and unique entries in the target folder, because the source relies on `uuid4` never colliding and does not check.
- Folder and entry records are assumed to carry all their keys (`id`, `name`, `files`, `original_name`, `server_name`, `normalized_server_name`, `size`). The `.get(..., default)` fallbacks for absent keys are not modelled.
- Keys of a folder or file record beyond the modelled ones are not kept. The source loads the whole JSON object and writes every key back.
- `_load_metadata` also falls back to the default document when creating a folder's directory raises. File-system failures are not modelled, so the model's load only falls back for a missing or malformed document.
- Uploads.StemAndSuffix: follows pathlib's rule as of Python 3.13, where a name ending in "." has no suffix.
- Http.Detail: only the two details that carry one name are shown to read back. That the fixed texts differ from each other, and that the listed names can be read back from the list details, is not proved.
- Text.Lower: lower-cases ASCII letters only, while Python's `str.lower` also folds other scripts.
- Text.Repr: renders only strings that `repr` would put in single quotes without escapes; quotes, backslashes and unprintable characters in listed file names are not escaped.
- `(name or "")`, `(p or "")` and `(query or "")` treat `None` as empty. The model's strings are never `None`.
- Chat.Hit: `_build_chat_answer` calls `str()` on the values it reads. The model's hits hold those strings already, and `Chat.HitOfRow` gives them for search's rows.
- Search.ValidSearchRequest and Chat.ValidChatSearchRequest state pydantic's `Field` bounds. The rest of FastAPI and pydantic (routing, parsing, 422 responses, the role literal of a message) is left out. Prior chat messages are only validated, as in the source.
- Chat.ChatSearchText and Chat.ChatAnswerSplits require that neither the query nor any file name holds a newline. A newline inside a value would split a line in two when the text is read back.
- The `/me` profile, CORS configuration and the IQA endpoints are not part of this model.
