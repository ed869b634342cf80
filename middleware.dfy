/**
 * The streaming-upload middleware: for a multipart request, every section
 * of the body is appended, in arrival order, to the file its
 * `Content-Disposition` names, copied through a reusable 1024-byte buffer;
 * any other request is handed to the next stage untouched.
 */
module Middleware {
  import opened Wrappers
  import opened Headers

  newtype byte = x: int | 0 <= x < 256

  /** Size of the reusable copy buffer. */
  const ChunkSize: nat := 1024

  /** The text written to the response once every section is stored. */
  const SuccessMessage: string := "Upload successfully!"

  /** The local file system: path to contents. */
  type FileMap = map<string, seq<byte>>

  /** What a file holds; a missing file reads as empty, as FileMode.Append creates it. */
  function FileContents(files: FileMap, path: string): seq<byte> {
    if path in files then files[path] else []
  }

  /** One part of the multipart body, as the multipart reader delivers it. */
  datatype Section = Section(contentDisposition: string, body: seq<byte>)

  datatype Fault =
    | MissingBoundary(BoundaryError)   // GetBoundary threw
    | BadFileName(FileNameError)       // GetFileName threw for some section

  /** How the middleware leaves a request. */
  datatype Outcome =
    | PassedToNext          // not multipart: `await next()`
    | Responded(text: string)
    | Faulted(fault: Fault) // an exception escaped to the host

  // ---------------------------------------------------------------------
  // Specification of the upload
  // ---------------------------------------------------------------------

  /**
   * How a section's `Content-Disposition` is turned into a path. The
   * middleware uses `GetFileName`; the facts below hold for any extractor.
   */
  type NameOf = string -> Result<string, FileNameError>

  /** Files after processing sections in order, and the file-name failure that stopped it, if any. */
  datatype UploadRun = UploadRun(files: FileMap, failure: Option<FileNameError>)

  /**
   * The sections processed in order: each one's body is appended to the
   * file its header names; the first header without a usable name stops
   * the run, keeping what earlier sections wrote.
   */
  function UploadAll(nameOf: NameOf, files: FileMap, sections: seq<Section>): (r: UploadRun)
    ensures files.Keys <= r.files.Keys
    ensures r.failure.Some? ==> exists j :: 0 <= j < |sections| && nameOf(sections[j].contentDisposition) == Err(r.failure.value)
    decreases |sections|
  {
    if sections == [] then UploadRun(files, None)
    else
      match nameOf(sections[0].contentDisposition)
      case Err(e) => UploadRun(files, Some(e))
      case Ok(path) => UploadAll(nameOf, files[path := FileContents(files, path) + sections[0].body], sections[1..])
  }

  /** The bodies, in order, of the sections whose header names `path`. */
  function BodiesFor(nameOf: NameOf, sections: seq<Section>, path: string): seq<byte>
  {
    if sections == [] then []
    else
      (if nameOf(sections[0].contentDisposition) == Ok(path) then sections[0].body else [])
      + BodiesFor(nameOf, sections[1..], path)
  }

  /** Processing `a + b` is processing `a`, then, unless it failed, `b` from where `a` left off. */
  lemma {:induction false} UploadAllSequential(nameOf: NameOf, files: FileMap, a: seq<Section>, b: seq<Section>)
    ensures UploadAll(nameOf, files, a + b) ==
            (var run := UploadAll(nameOf, files, a);
             if run.failure.Some? then run else UploadAll(nameOf, run.files, b))
    decreases |a|
  {
    if a != [] {
      assert (a + b)[0] == a[0];
      assert (a + b)[1..] == a[1..] + b;
      match nameOf(a[0].contentDisposition)
      case Err(_) =>
      case Ok(path) =>
        UploadAllSequential(nameOf, files[path := FileContents(files, path) + a[0].body], a[1..], b);
    } else {
      assert a + b == b;
    }
  }

  /** Prepending nothing leaves a byte sequence as it was. */
  lemma EmptyAppend(x: seq<byte>)
    ensures [] + x == x
  {
  }

  /** Appending nothing leaves a byte sequence as it was. */
  lemma AppendEmpty(x: seq<byte>)
    ensures x + [] == x
  {
  }

  /** Appending a concatenation is appending its two halves in turn. */
  lemma AppendAssociates(x: seq<byte>, y: seq<byte>, z: seq<byte>)
    ensures x + (y + z) == x + y + z
  {
  }

  /**
   * Append-only: when every section has a usable name, each file ends as
   * its old contents followed by the bodies of the sections naming it, in
   * arrival order.
   */
  lemma {:induction false} UploadAllAppends(nameOf: NameOf, files: FileMap, sections: seq<Section>, path: string)
    requires UploadAll(nameOf, files, sections).failure.None?
    ensures FileContents(UploadAll(nameOf, files, sections).files, path) == FileContents(files, path) + BodiesFor(nameOf, sections, path)
    decreases |sections|
  {
    if sections != [] {
      var s := sections[0];
      var name := nameOf(s.contentDisposition);
      assert name.Ok?;
      var p := name.value;
      var next := files[p := FileContents(files, p) + s.body];
      assert UploadAll(nameOf, files, sections) == UploadAll(nameOf, next, sections[1..]);
      UploadAllAppends(nameOf, next, sections[1..], path);
      if p == path {
        assert FileContents(next, path) == FileContents(files, path) + s.body;
        assert BodiesFor(nameOf, sections, path) == s.body + BodiesFor(nameOf, sections[1..], path);
      } else {
        assert FileContents(next, path) == FileContents(files, path);
        assert BodiesFor(nameOf, sections, path) == [] + BodiesFor(nameOf, sections[1..], path);
        EmptyAppend(BodiesFor(nameOf, sections[1..], path));
      }
    }
  }

  /**
   * Never overwritten: whether or not a later section fails, every file's
   * old contents remain a prefix of its new contents, and no file disappears.
   */
  lemma {:induction false} UploadAllKeepsOldContents(nameOf: NameOf, files: FileMap, sections: seq<Section>, path: string)
    ensures var after := UploadAll(nameOf, files, sections).files;
            files.Keys <= after.Keys
            && FileContents(files, path) <= FileContents(after, path)
    decreases |sections|
  {
    if sections != [] {
      match nameOf(sections[0].contentDisposition)
      case Err(_) =>
      case Ok(p) =>
        var next := files[p := FileContents(files, p) + sections[0].body];
        UploadAllKeepsOldContents(nameOf, next, sections[1..], path);
        assert FileContents(files, path) <= FileContents(next, path);
    }
  }

  /**
   * Failure: when section `k` is the first whose header has no usable
   * name, with error `e`, the run stops with `e`, and the files then hold what
   * sections 0 to k-1 wrote.
   */
  lemma {:induction false} UploadAllStopsAtFirstBadName(nameOf: NameOf, files: FileMap, sections: seq<Section>, k: nat)
    requires k < |sections|
    requires forall j :: 0 <= j < k ==> nameOf(sections[j].contentDisposition).Ok?
    requires nameOf(sections[k].contentDisposition).Err?
    ensures UploadAll(nameOf, files, sections)
         == UploadRun(UploadAll(nameOf, files, sections[..k]).files,
                      Some(nameOf(sections[k].contentDisposition).error))
  {
    var done, rest := sections[..k], sections[k..];
    assert done + rest == sections;
    UploadAllSequential(nameOf, files, done, rest);
    assert forall j :: 0 <= j < |done| ==> done[j] == sections[j];
    UploadAllSucceeds(nameOf, files, done);
    var run := UploadAll(nameOf, files, done);
    assert rest != [] && rest[0] == sections[k];
    assert UploadAll(nameOf, run.files, rest) == UploadRun(run.files, Some(nameOf(sections[k].contentDisposition).error));
  }

  /** A run over sections that all carry a usable name does not fail. */
  lemma {:induction false} UploadAllSucceeds(nameOf: NameOf, files: FileMap, sections: seq<Section>)
    requires forall j :: 0 <= j < |sections| ==> nameOf(sections[j].contentDisposition).Ok?
    ensures UploadAll(nameOf, files, sections).failure.None?
    decreases |sections|
  {
    if sections != [] {
      var path := nameOf(sections[0].contentDisposition).value;
      UploadAllSucceeds(nameOf, files[path := FileContents(files, path) + sections[0].body], sections[1..]);
    }
  }

  /** The bodies of two sections, in order; `BodiesFor` over a two-element list. */
  lemma BodiesForPair(nameOf: NameOf, first: Section, second: Section, path: string)
    ensures BodiesFor(nameOf, [first, second], path)
         == (if nameOf(first.contentDisposition) == Ok(path) then first.body else [])
            + (if nameOf(second.contentDisposition) == Ok(path) then second.body else [])
  {
    var pair := [first, second];
    assert pair[0] == first && pair[1..] == [second];
    assert [second][0] == second && [second][1..] == [];
    var y := if nameOf(second.contentDisposition) == Ok(path) then second.body else [];
    assert BodiesFor(nameOf, [second], path) == y + [];
    AppendEmpty(y);
  }

  /** Uploading the same name twice concatenates the two bodies, in order. */
  lemma SameNameTwiceAppends(nameOf: NameOf, files: FileMap, first: Section, second: Section, path: string)
    requires nameOf(first.contentDisposition) == Ok(path)
    requires nameOf(second.contentDisposition) == Ok(path)
    ensures var run := UploadAll(nameOf, files, [first, second]);
            run.failure.None? && FileContents(run.files, path) == FileContents(files, path) + first.body + second.body
  {
    var pair := [first, second];
    assert pair[0] == first && pair[1] == second;
    UploadAllSucceeds(nameOf, files, pair);
    UploadAllAppends(nameOf, files, pair, path);
    BodiesForPair(nameOf, first, second, path);
    AppendAssociates(FileContents(files, path), first.body, second.body);
  }

  /** Two sections naming different files each leave their own body in their own file. */
  lemma TwoFilesKeepTheirBodies(nameOf: NameOf, files: FileMap, first: Section, second: Section, a: string, b: string)
    requires a != b
    requires nameOf(first.contentDisposition) == Ok(a)
    requires nameOf(second.contentDisposition) == Ok(b)
    ensures var run := UploadAll(nameOf, files, [first, second]);
            run.failure.None?
            && FileContents(run.files, a) == FileContents(files, a) + first.body
            && FileContents(run.files, b) == FileContents(files, b) + second.body
  {
    var pair := [first, second];
    assert pair[0] == first && pair[1] == second;
    UploadAllSucceeds(nameOf, files, pair);
    UploadAllAppends(nameOf, files, pair, a);
    UploadAllAppends(nameOf, files, pair, b);
    BodiesForPair(nameOf, first, second, a);
    BodiesForPair(nameOf, first, second, b);
    AppendEmpty(first.body);
    EmptyAppend(second.body);
  }

  // ---------------------------------------------------------------------
  // The objects the middleware works with
  // ---------------------------------------------------------------------

  /** The local file system, shared by every file stream. */
  class FileStore {
    var files: FileMap

    constructor (initial: FileMap)
      ensures files == initial
    {
      files := initial;
    }
  }

  /** A FileStream opened with FileMode.Append on one path. */
  class FileStream {
    const store: FileStore
    const path: string
    /** The byte runs passed to `Write` since the stream was opened, in order. */
    ghost var writes: seq<seq<byte>>

    /** Opening in append mode creates the file if missing and keeps its contents otherwise. */
    constructor OpenAppend(store: FileStore, path: string)
      modifies store
      ensures this.store == store && this.path == path && writes == []
      ensures store.files == old(store.files)[path := FileContents(old(store.files), path)]
    {
      this.store := store;
      this.path := path;
      writes := [];
      new;
      store.files := store.files[path := FileContents(store.files, path)];
    }

    /** `Write(buffer, offset, count)`: appends exactly `buffer[offset..offset + count]`. */
    method Write(buffer: array<byte>, offset: nat, count: nat)
      requires offset + count <= buffer.Length
      modifies this, store
      ensures store.files == old(store.files)[path := FileContents(old(store.files), path) + buffer[offset..offset + count]]
      ensures writes == old(writes) + [buffer[offset..offset + count]]
    {
      writes := writes + [buffer[offset..offset + count]];
      store.files := store.files[path := FileContents(store.files, path) + buffer[offset..offset + count]];
    }
  }

  /** The body stream of one section: its bytes and how many have been read. */
  class SectionStream {
    const contentDisposition: string
    const data: seq<byte>
    var position: nat

    ghost predicate Valid()
      reads this
    {
      position <= |data|
    }

    /** The bytes not yet read. */
    ghost function Remaining(): seq<byte>
      reads this
      requires Valid()
    {
      data[position..]
    }

    constructor (section: Section)
      ensures Valid()
      ensures contentDisposition == section.contentDisposition && data == section.body && position == 0
    {
      contentDisposition := section.contentDisposition;
      data := section.body;
      position := 0;
    }

    /**
     * `ReadAsync(buffer, offset, count)`. The contract is all a caller may
     * rely on: at least one and at most `count` bytes while any remain (the
     * network may deliver fewer than asked), 0 only at the end of the
     * section or when `count` is 0. The bytes read land in
     * `buffer[offset..offset + n]`; the rest of the buffer keeps what an
     * earlier read left there. This body happens to read as much as it can.
     */
    method Read(buffer: array<byte>, offset: nat, count: nat) returns (n: nat)
      requires Valid()
      requires offset + count <= buffer.Length
      modifies this, buffer
      ensures Valid()
      ensures n <= count
      ensures n == 0 <==> count == 0 || old(position) == |data|
      ensures position == old(position) + n
      ensures buffer[offset..offset + n] == data[old(position)..position]
      ensures forall i :: 0 <= i < buffer.Length && !(offset <= i < offset + n) ==> buffer[i] == old(buffer[i])
    {
      var available := |data| - position;
      n := if count < available then count else available;
      forall i | offset <= i < offset + n {
        buffer[i] := data[position + i - offset];
      }
      position := position + n;
    }
  }

  /** Hands out the sections of the request body one at a time, in order. */
  class MultipartReader {
    const boundary: string
    const sections: seq<Section>
    var next: nat

    constructor (boundary: string, sections: seq<Section>)
      ensures this.boundary == boundary && this.sections == sections && next == 0
    {
      this.boundary := boundary;
      this.sections := sections;
      next := 0;
    }

    /** `ReadNextSectionAsync()`: the next section's stream, or null after the last. */
    method ReadNextSection() returns (section: SectionStream?)
      requires next <= |sections|
      modifies this
      ensures section == null <==> old(next) == |sections|
      ensures section == null ==> next == old(next)
      ensures section != null ==> next == old(next) + 1 && fresh(section) && section.Valid()
      ensures section != null ==>
                section.position == 0
                && section.contentDisposition == sections[old(next)].contentDisposition
                && section.data == sections[old(next)].body
                && section.Remaining() == sections[old(next)].body
    {
      if next == |sections| {
        section := null;
      } else {
        section := new SectionStream(sections[next]);
        next := next + 1;
      }
    }
  }

  /** The chunks written, one after another. */
  ghost function Flatten(chunks: seq<seq<byte>>): seq<byte>
  {
    if chunks == [] then [] else Flatten(chunks[..|chunks| - 1]) + chunks[|chunks| - 1]
  }

  /** A slice is its two halves on either side of any point within it. */
  lemma SliceSplits(s: seq<byte>, i: nat, j: nat, k: nat)
    requires i <= j <= k <= |s|
    ensures s[i..k] == s[i..j] + s[j..k]
  {
  }

  /** Every logged write moved between 1 and ChunkSize bytes. */
  ghost predicate WritesBounded(chunks: seq<seq<byte>>) {
    forall i :: 0 <= i < |chunks| ==> 1 <= |chunks[i]| <= ChunkSize
  }

  /** Logging one more non-empty write extends the flattened log by that write. */
  lemma LogChunk(chunks: seq<seq<byte>>, chunk: seq<byte>)
    requires WritesBounded(chunks) && 1 <= |chunk| <= ChunkSize
    ensures Flatten(chunks + [chunk]) == Flatten(chunks) + chunk
    ensures WritesBounded(chunks + [chunk])
  {
    assert (chunks + [chunk])[..|chunks|] == chunks;
  }

  /** Logging the final empty write leaves the flattened log as it was. */
  lemma LogLastChunk(chunks: seq<seq<byte>>)
    requires WritesBounded(chunks)
    ensures Flatten(chunks + [[]]) == Flatten(chunks)
  {
    assert (chunks + [[]])[..|chunks|] == chunks;
    AppendEmpty(Flatten(chunks));
  }

  // ---------------------------------------------------------------------
  // The middleware body
  // ---------------------------------------------------------------------

  /**
   * The do-while copy loop for one section: read up to `buffer.Length`
   * bytes, write exactly the bytes read, stop after a read of 0. The file
   * ends as its old contents followed by every remaining byte of the
   * section, in order; `chunks` is what this loop added to the stream's
   * log of writes: each of 1 to 1024 bytes except the final empty one.
   */
  method CopySection(body: SectionStream, file: FileStream, buffer: array<byte>)
    returns (ghost chunks: seq<seq<byte>>)
    requires body.Valid()
    requires file.path in file.store.files
    requires buffer.Length == ChunkSize
    modifies body, file, file.store, buffer
    ensures body.Valid() && body.position == |body.data|
    ensures file.store.files == old(file.store.files)[file.path := FileContents(old(file.store.files), file.path) + old(body.Remaining())]
    ensures |chunks| >= 1 && chunks[|chunks| - 1] == []
    ensures forall i :: 0 <= i < |chunks| - 1 ==> 1 <= |chunks[i]| <= ChunkSize
    ensures Flatten(chunks) == old(body.Remaining())
    ensures file.writes == old(file.writes) + chunks
  {
    ghost var start := body.position;
    ghost var before := file.store.files[file.path];
    ghost var copied: seq<byte> := [];
    chunks := [];
    AppendEmpty(before);
    assert old(file.store.files)[file.path := before] == old(file.store.files);
    while true
      invariant body.Valid() && start <= body.position
      invariant copied == body.data[start..body.position]
      invariant file.store.files == old(file.store.files)[file.path := before + copied]
      invariant Flatten(chunks) == copied && WritesBounded(chunks)
      invariant file.writes == old(file.writes) + chunks
      decreases |body.data| - body.position
    {
      ghost var consumed := body.position;
      ghost var written := file.store.files;
      var bytesRead := body.Read(buffer, 0, buffer.Length);
      file.Write(buffer, 0, bytesRead);
      ghost var chunk := buffer[0..bytesRead];
      AppendedChunk(old(file.store.files), file.path, before, copied, chunk, written, file.store.files);
      SliceSplits(body.data, start, consumed, body.position);
      if bytesRead == 0 {
        LogLastChunk(chunks);
        AppendEmpty(copied);
        chunks := chunks + [chunk];
        break;
      }
      LogChunk(chunks, chunk);
      chunks := chunks + [chunk];
      copied := copied + chunk;
    }
    assert copied == old(body.Remaining());
  }

  /** One write of the copy loop: the file held `before + copied` and now also holds `chunk`. */
  lemma AppendedChunk(files: FileMap, path: string, before: seq<byte>, copied: seq<byte>, chunk: seq<byte>,
                      written: FileMap, after: FileMap)
    requires written == files[path := before + copied]
    requires after == written[path := FileContents(written, path) + chunk]
    ensures after == files[path := before + (copied + chunk)]
  {
    AppendAssociates(before, copied, chunk);
  }

  /** Opening a section's file for append and copying its body appends the body. */
  lemma AppendedTwice(files: FileMap, path: string, body: seq<byte>)
    ensures var created := files[path := FileContents(files, path)];
            created[path := FileContents(created, path) + body] == files[path := FileContents(files, path) + body]
  {
  }

  /** One more section with a usable name extends the run by that section. */
  lemma UploadAllStep(nameOf: NameOf, files: FileMap, sections: seq<Section>, done: nat)
    requires done < |sections|
    requires forall j :: 0 <= j <= done ==> nameOf(sections[j].contentDisposition).Ok?
    ensures var path := nameOf(sections[done].contentDisposition).value;
            var earlier := UploadAll(nameOf, files, sections[..done]).files;
            UploadAll(nameOf, files, sections[..done + 1]).files
            == earlier[path := FileContents(earlier, path) + sections[done].body]
  {
    var a, b := sections[..done], [sections[done]];
    assert sections[..done + 1] == a + b;
    UploadAllSequential(nameOf, files, a, b);
    assert forall j :: 0 <= j < |a| ==> a[j] == sections[j];
    UploadAllSucceeds(nameOf, files, a);
    assert b[0] == sections[done] && b[1..] == [];
  }

  /** Once every section has been processed with a usable name, the run is complete and did not fail. */
  lemma UploadAllComplete(nameOf: NameOf, files: FileMap, sections: seq<Section>, done: nat)
    requires done == |sections|
    requires forall j :: 0 <= j < done ==> nameOf(sections[j].contentDisposition).Ok?
    ensures UploadAll(nameOf, files, sections) == UploadRun(UploadAll(nameOf, files, sections[..done]).files, None)
  {
    assert sections[..done] == sections;
    UploadAllSucceeds(nameOf, files, sections);
  }

  /**
   * One pass of the section loop: names the file from the section's
   * header and appends the whole body to it. When the header has no usable
   * name the pass stops before any file is opened.
   */
  method StoreSection(nameOf: NameOf, section: SectionStream, store: FileStore)
    returns (failure: Option<FileNameError>)
    requires section.Valid()
    modifies section, store
    ensures section.Valid()
    ensures nameOf(section.contentDisposition).Ok? ==> section.position == |section.data|
    ensures nameOf(section.contentDisposition).Err? ==> section.position == old(section.position)
    ensures var name := nameOf(section.contentDisposition);
            if name.Err? then failure == Some(name.error) && store.files == old(store.files)
            else failure == None
                 && store.files == old(store.files)[name.value := FileContents(old(store.files), name.value) + old(section.Remaining())]
  {
    var buffer := new byte[ChunkSize];
    var fileName := nameOf(section.contentDisposition);
    if fileName.Err? {
      return Some(fileName.error);
    }
    ghost var before := store.files;
    var stream := new FileStream.OpenAppend(store, fileName.value);
    ghost var chunks := CopySection(section, stream, buffer);
    AppendedTwice(before, fileName.value, old(section.Remaining()));
    failure := None;
  }

  /**
   * The section loop: reads every section the reader still holds and
   * appends each one's body to the file its header names; stops at the
   * first header without a usable file name, keeping what the earlier
   * sections wrote.
   */
  method StoreSections(nameOf: NameOf, reader: MultipartReader, store: FileStore) returns (failure: Option<FileNameError>)
    requires reader.next == 0
    modifies reader, store
    ensures var run := UploadAll(nameOf, old(store.files), reader.sections);
            store.files == run.files && failure == run.failure
    ensures failure.None? ==> reader.next == |reader.sections|
  {
    var section := reader.ReadNextSection();
    ghost var done: nat := 0;

    while section != null
      invariant reader.next <= |reader.sections|
      invariant section == null ==> done == reader.next == |reader.sections|
      invariant section != null ==>
                  done + 1 == reader.next && fresh(section) && section.Valid()
                  && section.Remaining() == reader.sections[done].body
                  && section.contentDisposition == reader.sections[done].contentDisposition
      invariant forall j :: 0 <= j < done ==> nameOf(reader.sections[j].contentDisposition).Ok?
      invariant store.files == UploadAll(nameOf, old(store.files), reader.sections[..done]).files
      decreases |reader.sections| - reader.next + (if section == null then 0 else 1)
    {
      failure := StoreSection(nameOf, section, store);
      if failure.Some? {
        UploadAllStopsAtFirstBadName(nameOf, old(store.files), reader.sections, done);
        return;
      }
      assert forall j :: 0 <= j <= done ==> nameOf(reader.sections[j].contentDisposition).Ok?;
      UploadAllStep(nameOf, old(store.files), reader.sections, done);
      ghost var files := store.files;
      assert files == UploadAll(nameOf, old(store.files), reader.sections[..done + 1]).files;
      section := reader.ReadNextSection();
      done := done + 1;
      assert store.files == files;
    }
    UploadAllComplete(nameOf, old(store.files), reader.sections, done);
    failure := None;
  }

  /**
   * The middleware: a request whose Content-Type is not multipart goes to
   * the next stage with no file touched; otherwise every section, in
   * order, is appended to the file its header names, and the response is
   * the success message. A Content-Type without a boundary element, or a
   * section header without exactly one `filename` part, raises; the files
   * then keep what the earlier sections wrote.
   */
  method HandleRequest(contentType: Option<string>, requestSections: seq<Section>, store: FileStore)
    returns (outcome: Outcome)
    modifies store
    ensures !IsMultipartContentType(contentType) ==>
              outcome == PassedToNext && store.files == old(store.files)
    ensures IsMultipartContentType(contentType) && GetBoundary(contentType.value).Err? ==>
              outcome == Faulted(MissingBoundary(GetBoundary(contentType.value).error))
              && store.files == old(store.files)
    ensures IsMultipartContentType(contentType) && GetBoundary(contentType.value).Ok? ==>
              var run := UploadAll(GetFileName, old(store.files), requestSections);
              store.files == run.files
              && outcome == (if run.failure.None? then Responded(SuccessMessage) else Faulted(BadFileName(run.failure.value)))
  {
    if !IsMultipartContentType(contentType) {
      return PassedToNext;
    }
    var boundary := GetBoundary(contentType.value);
    if boundary.Err? {
      return Faulted(MissingBoundary(boundary.error));
    }
    var reader := new MultipartReader(boundary.value, requestSections);
    var failure := StoreSections(GetFileName, reader, store);
    if failure.Some? {
      return Faulted(BadFileName(failure.value));
    }
    outcome := Responded(SuccessMessage);
  }
}
