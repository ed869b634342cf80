# Streaming multipart upload middleware, modelled in Dafny

This project models the request pipeline of the `UploadBuffer` web
application (`UploadBuffer/Startup.cs`). A request whose `Content-Type` is
multipart is not buffered. Its body is read section by section. For each
section the file name comes from the section's `Content-Disposition` header,
the file is opened with `FileMode.Append`, and the body is copied into it
through one reusable 1024-byte buffer: read, write exactly the bytes read,
and stop after a read of 0 bytes. Any other request is handed to the next
stage of the pipeline.

The project has four modules:

- `Wrappers` (`wrappers.dfy`): `Option` and `Result`. A null
  `Content-Type` is `None`. An exception thrown by a parser is an `Err`
  carrying a named error.
- `Strings` (`strings.dfy`): the .NET string operations the parsers are
  built from, on `string = seq<char>`. These are `Split(char)`, ordinal
  `StartsWith` and `Contains`, `IndexOf(..., OrdinalIgnoreCase)` and
  `Trim(char)`. The file also proves the facts about them that the parsers
  rely on.
- `Headers` (`headers.dfy`): the three header parsers,
  `IsMultipartContentType`, `GetBoundary` and `GetFileName`, written as pure
  functions. Their contracts state the success and failure conditions.
  Round-trip lemmas rebuild a header from its parts and show that the
  parser returns the part it was built from.
- `Middleware` (`middleware.dfy`): the middleware lambda as imperative code.
  - The local file system is a `FileStore` object holding a
    `map<string, seq<byte>>`.
  - `FileStream` appends to one path of that map.
  - `SectionStream` is a section body with a read position.
  - `MultipartReader` hands out the sections of the request one at a time.
  - `CopySection` is the do-while chunk loop. `StoreSection` is one pass of
    the section loop, `StoreSections` is the section loop itself, and
    `HandleRequest` is the whole lambda.
  - The specification is the function `UploadAll`: process the sections in
    order, append each body to the file its header names, and stop at the
    first header without a usable name. The lemmas about `UploadAll` state
    what the upload promises as a whole: append-only, arrival order, and
    what the files hold when a section fails.

`StoreSection`, `StoreSections` and the `UploadAll` lemmas take the file-name
extractor as a parameter `nameOf`, so their facts hold for any extractor.
`HandleRequest` passes `GetFileName`, so its contract is about the real
parser.

Three behaviours of the code are easy to misread, and the model follows the
code:

- A `Content-Disposition` with two or more `;`-separated parts that contain
  "filename" makes `SingleOrDefault` throw. The model returns
  `Err(SeveralFileNameParts)`. One case is an RFC 6266 `filename*=` next to
  `filename=`. Another is a `name` value that contains "filename".
- A boundary parameter counts only when it starts the value or follows a
  space. The boundary is
  everything after `boundary=` up to the next space, including any `;`.
- Quote stripping in `GetBoundary` needs a value of at least two characters.
  A lone `"` is kept.

## Model

| member | source | states |
|---|---|---|
| `Headers.IsMultipartContentType` | UploadBuffer/Startup.cs:111-116 | True exactly when the value is present, non-empty, and contains "multipart/" at some index under ordinal ignore-case comparison. So null and "" are rejected. |
| `Headers.MultipartIgnoresCase` | UploadBuffer/Startup.cs:115 | Any value containing "MultiPart/" (mixed case, anywhere) is treated as multipart. |
| `Strings.IndexOfIgnoreCase` | UploadBuffer/Startup.cs:115 | -1 exactly when there is no case-insensitive occurrence. Otherwise it is an occurrence and no earlier index is one. |
| `Strings.ToUpperOrdinal` | UploadBuffer/Startup.cs:115 | The `OrdinalIgnoreCase` fold: each lower-case ASCII letter becomes its own capital (code point minus 32), every other character is unchanged, so the result is never a-z and is a capital exactly when the input is an ASCII letter. |
| `Strings.EqualsIgnoreCase` | UploadBuffer/Startup.cs:115 | True exactly when the two strings have the same length and agree at every index up to the case of ASCII letters. In particular, equal strings compare equal. |
| `Strings.Split` | UploadBuffer/Startup.cs:120 | `Split(char)` gives at least one part. No part contains the separator. Joining the parts with the separator gives back the input, so empty parts are kept. |
| `Strings.SplitWithoutSeparator` | UploadBuffer/Startup.cs:120 | A string without the separator splits into itself alone. |
| `Strings.SplitOfJoin` | UploadBuffer/Startup.cs:120 | Splitting undoes joining, for parts that do not contain the separator. |
| `Strings.SplitAppendedPart` | UploadBuffer/Startup.cs:135 | Appending a separator and a separator-free part adds exactly that part to the end of the split. |
| `Strings.StartsWith` | UploadBuffer/Startup.cs:121 | Ordinal `StartsWith`: true exactly when the prefix is no longer than the string and agrees with it character by character. |
| `Headers.FirstWithPrefix` | UploadBuffer/Startup.cs:121 | `Where(StartsWith).First()` as an index. It is None exactly when no element has the prefix. Otherwise it is an element with the prefix, and no earlier element has it. |
| `Headers.StripQuotes` | UploadBuffer/Startup.cs:124-129 | Removes one leading and one trailing `"` exactly when the value has at least 2 characters and starts and ends with `"`. Otherwise the value is unchanged. |
| `Headers.GetBoundary` | UploadBuffer/Startup.cs:118-130 | Fails exactly when no space-separated element starts with "boundary=". Otherwise the result is the first such element after its 9-character prefix, trailing characters included, with one pair of quotes stripped. |
| `Headers.BoundaryOfElements` | UploadBuffer/Startup.cs:120-129 | Round trip: space-joined elements whose first "boundary=" element is `boundary=v` yield `v` with its quotes stripped, whatever follows. |
| `Headers.BoundaryNeedsSpace` | UploadBuffer/Startup.cs:120-121 | `<type>;boundary=<value>` with no space fails, e.g. `multipart/form-data;boundary=x`. The only exception is a type that itself starts with "boundary=". |
| `Strings.Contains` | UploadBuffer/Startup.cs:136 | Ordinal `Contains`: true exactly when the substring occurs at some index. |
| `Strings.ContainsInPrefix` | UploadBuffer/Startup.cs:136 | A string contains every substring of its prefixes. |
| `Headers.PartsContaining` | UploadBuffer/Startup.cs:136 | The indices of exactly the parts that contain the key, in increasing order. |
| `Strings.Last` | UploadBuffer/Startup.cs:138 | `.Last()` of a non-empty sequence: the element that, put after all the others, gives back the sequence. |
| `Strings.LastSegmentAfter` | UploadBuffer/Startup.cs:137-138 | `Split('=').Last()` is the text after the last `=`. |
| `Strings.TrimStart` | UploadBuffer/Startup.cs:139 | Drops exactly the leading run of the character. The result is a suffix of the input and does not start with that character. |
| `Strings.TrimEnd` | UploadBuffer/Startup.cs:139 | Drops exactly the trailing run of the character. The result is a prefix of the input and does not end with that character. |
| `Strings.Trim` | UploadBuffer/Startup.cs:139 | `Trim('"')` removes only copies of the character, and only from the two ends. The result neither starts nor ends with it and holds only characters of the input. |
| `Strings.TrimWrapped` | UploadBuffer/Startup.cs:139 | Trimming `c` from `c + n + c` gives `n` when `n` has no `c` at either end. |
| `Headers.ValueOfPart` | UploadBuffer/Startup.cs:137-139 | The value of a `key=value` part contains no `=` and neither starts nor ends with `"`. |
| `Headers.FileNameAmong` | UploadBuffer/Startup.cs:136-139 | `SingleOrDefault(Contains("filename"))` over the parts, then the value of the part found. It returns NoFileNamePart exactly when no part matches, SeveralFileNameParts exactly when two parts match, and otherwise the value of the sole match. |
| `Headers.GetFileName` | UploadBuffer/Startup.cs:132-140 | Splits on `;`. The null dereference (no part contains "filename") and the `SingleOrDefault` exception (two or more do) are named errors, each in both directions. Otherwise the result is the value of the sole matching part: no `=`, and no quote at either end. |
| `Headers.EmptyDispositionFails` | UploadBuffer/Startup.cs:134-136 | A section without a `Content-Disposition` header (modelled as `""`) fails with NoFileNamePart, as the null dereference does. |
| `Headers.FileNameOfSolePart` | UploadBuffer/Startup.cs:134-139 | For `;`-joined parts with exactly one "filename" part, the name is that part's value. |
| `Headers.FileNameOfAppendedPart` | UploadBuffer/Startup.cs:134-139 | A part appended after parameters that never mention "filename" is where the name is read. |
| `Headers.ValueOfQuotedParameter` | UploadBuffer/Startup.cs:137-139 | The value of `key="name"` is `name` when the name has no `=` and no quote at either end. |
| `Headers.FileNameOfAppendedParameter` | UploadBuffer/Startup.cs:132-140 | Round trip: appending `;<key>="<name>"` (the key contains "filename") to parameters that never mention "filename" yields `name`. |
| `Middleware.FileStore.constructor` | UploadBuffer/Startup.cs:90 | The local file system the file streams write to starts out holding exactly the given files. |
| `Middleware.FileStream.OpenAppend` | UploadBuffer/Startup.cs:90 | `FileMode.Append` creates a missing file empty and leaves an existing file's contents and every other file unchanged. The new stream's log of writes is empty. |
| `Middleware.FileStream.Write` | UploadBuffer/Startup.cs:95 | Appends exactly `buffer[offset..offset+count]` to this stream's file and changes nothing else. The stream's log of writes gains that run of bytes. |
| `Middleware.SectionStream.constructor` | UploadBuffer/Startup.cs:80 | A section's body stream starts at position 0 over that section's bytes. |
| `Middleware.SectionStream.Read` | UploadBuffer/Startup.cs:94 | `ReadAsync(buffer, 0, count)`: the bytes come in order from the current position. It returns at most `count` bytes, and 0 exactly when `count` is 0 or the section is exhausted. Buffer cells outside the bytes read are unchanged. |
| `Middleware.MultipartReader.constructor` | UploadBuffer/Startup.cs:79 | The reader holds the boundary and the request's sections and has handed out none. |
| `Middleware.MultipartReader.ReadNextSection` | UploadBuffer/Startup.cs:100 | Null exactly when every section has been handed out. Otherwise it returns a fresh stream over the next section, in order. |
| `Middleware.CopySection` | UploadBuffer/Startup.cs:85-97 | After the do-while, the file is its old contents followed by the whole rest of the section, in order, and the section is drained. The stream's log of writes grows by exactly the loop's writes, and these end with a 0-byte write. Every earlier write was 1 to 1024 bytes, and the writes joined together are the section body. |
| `Middleware.StoreSection` | UploadBuffer/Startup.cs:86-98 | One pass of the section loop. A header without a usable name fails before any file is touched and leaves the section unread. Otherwise the named file gains the rest of the section body at its end, no other file changes, and the section is drained. |
| `Middleware.StoreSections` | UploadBuffer/Startup.cs:80-101 | The section loop leaves exactly the files of `UploadAll` over the request's sections. It reports the first file-name failure, or none, and when none it has read every section the reader held. |
| `Middleware.HandleRequest` | UploadBuffer/Startup.cs:72-107 | Not multipart: passed to `next()`, no file touched. No boundary element: fails, no file touched. Otherwise the files are those of `UploadAll(GetFileName, ...)`. The response is "Upload successfully!" when every section had a usable name; otherwise the run fails with that error and keeps what earlier sections wrote. |
| `Middleware.UploadAll` | UploadBuffer/Startup.cs:80-101 | The reference definition of the section loop. No file disappears, and a run fails only with the error of some section's header. |
| `Middleware.UploadAllSequential` | UploadBuffer/Startup.cs:82-101 | Sections are processed strictly in order. Running `a + b` is running `a`, then `b` from the resulting files unless `a` failed. |
| `Middleware.UploadAllStep` | UploadBuffer/Startup.cs:82-101 | One more section with a usable name extends the run by appending its body to its file. |
| `Middleware.UploadAllComplete` | UploadBuffer/Startup.cs:82-101 | After every section with a usable name has been processed, the run is complete and did not fail. |
| `Middleware.UploadAllSucceeds` | UploadBuffer/Startup.cs:88 | A run fails only when some section's header has no usable name. |
| `Middleware.UploadAllStopsAtFirstBadName` | UploadBuffer/Startup.cs:88 | The run stops with error `e` at the first bad header `k`. The files then hold exactly what sections 0 to k-1 wrote. |
| `Middleware.UploadAllAppends` | UploadBuffer/Startup.cs:90-97 | When the run succeeds, each file holds its old contents followed by the bodies of the sections naming it, in arrival order. |
| `Middleware.UploadAllKeepsOldContents` | UploadBuffer/Startup.cs:90 | Never overwritten: whether or not the run fails, every file's old contents remain a prefix of its new contents, and no file disappears. |
| `Middleware.SameNameTwiceAppends` | UploadBuffer/Startup.cs:90-97 | Two sections with the same name concatenate their bodies, in order, after the file's old contents. |
| `Middleware.TwoFilesKeepTheirBodies` | UploadBuffer/Startup.cs:82-101 | Two sections with different names each append their own body to their own file. |

## Left out

- Working-set logging (UploadBuffer/Startup.cs:69-70, 104-105). It reads live process state and does not affect behaviour.
- `ConfigureServices` and the default pipeline setup (UploadBuffer/Startup.cs:31-61). This is host configuration: form limits, routing, HTTPS redirection.
- UploadBuffer/Controllers/FileController.cs is not part of this model. It is framework model binding with no logic of its own.
- Distinct paths that name the same file, such as `a.txt` and `./a.txt`, or names differing only in case on a case-insensitive volume. Files are keyed by the path string, so two different strings are two different files.
- A section without a `Content-Disposition` header. `section.ContentDisposition` is then null and `GetFileName` throws (UploadBuffer/Startup.cs:134-135). `Section.contentDisposition` is a string, so the model writes the missing header as `""`, which also fails with NoFileNamePart before any file is opened.
- A section-body read that throws part-way through a copy, for example when the client aborts (UploadBuffer/Startup.cs:94). The C# code then keeps the bytes already appended and lets the exception escape. `SectionStream.Read` never fails, so `HandleRequest` does not cover this case.
- Internals of `MultipartReader`: splitting the raw body on the boundary, and reading section headers. The request arrives as a sequence of already-parsed sections. The boundary is computed and passed to the reader but is not used to parse anything.
- A `ReadNextSectionAsync` that throws (UploadBuffer/Startup.cs:80, 100), for example on a body that does not split on the extracted boundary (such as `abc;` from `boundary=abc; charset=utf-8`), an oversized section header or a truncated body. `HandleRequest` assumes the reader yields `requestSections` in full, so it promises the success response in these cases too.
- File-system failures. The model accepts any string as a path and never fails a write. An empty name, invalid path characters, missing directories, a full disk or a permission error would throw in the C# code.
- `using` disposal and buffering inside `FileStream`. Each write reaches the file map immediately.
- `async`/`await` scheduling and concurrent requests. One request runs sequentially, so two requests writing the same file at once are not modelled.
- `Response.WriteAsync` (UploadBuffer/Startup.cs:107) is modelled only as the outcome `Responded("Upload successfully!")`. That the call is not awaited is not modelled. `await next()` is the outcome `PassedToNext`. An exception escaping to the host is the outcome `Faulted`, and the host's error page is left out.
- `StartsWith(string)` (UploadBuffer/Startup.cs:121) uses the current culture's comparison rules. The model compares ordinally, which is what `Contains(string)` (UploadBuffer/Startup.cs:136) already does. Culture-sensitive matching, such as ignorable characters, is left out.
- The model's ignore-case comparison folds only the ASCII letters a-z. .NET's `OrdinalIgnoreCase` (UploadBuffer/Startup.cs:115) also upper-cases other letters, so that `é` and `É` compare equal. That folding is left out.
- Middleware.SectionStream.Read: the contract allows any short read. It promises at most `count` bytes, and 0 exactly when `count` is 0 or the section is exhausted, because the network may deliver fewer bytes than asked. The body is one possible implementation that reads as much as it can. Callers may rely only on the contract.
