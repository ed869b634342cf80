/**
 * The three header parsers of the upload middleware: the multipart gate on
 * `Content-Type`, the boundary extractor, and the file-name extractor for a
 * section's `Content-Disposition`.
 */
module Headers {
  import opened Wrappers
  import opened Strings

  const MultipartMarker: string := "multipart/"
  const BoundaryPrefix: string := "boundary="
  const FileNameKey: string := "filename"

  /** Why `GetBoundary` throws: `First()` found no element. */
  datatype BoundaryError = NoBoundaryElement

  /** Why `GetFileName` throws. */
  datatype FileNameError =
    | NoFileNamePart        // SingleOrDefault gave null and `.Split` dereferenced it
    | SeveralFileNameParts  // SingleOrDefault found more than one match

  // ---------------------------------------------------------------------
  // IsMultipartContentType
  // ---------------------------------------------------------------------

  /**
   * The request is streamed to disk iff it has a non-empty `Content-Type`
   * (null is `None`) in which "multipart/" occurs somewhere, ignoring case.
   */
  function IsMultipartContentType(contentType: Option<string>): (r: bool)
    ensures r <==> contentType.Some? && contentType.value != []
                   && exists i :: OccursIgnoreCaseAt(contentType.value, MultipartMarker, i)
  {
    contentType.Some? && contentType.value != "" &&
    IndexOfIgnoreCase(contentType.value, MultipartMarker) >= 0
  }

  /** The marker is found in any letter case and anywhere in the value. */
  lemma MultipartIgnoresCase(prefix: string, suffix: string)
    ensures IsMultipartContentType(Some(prefix + "MultiPart/" + suffix))
  {
    var s := prefix + "MultiPart/" + suffix;
    assert s[|prefix|..|prefix| + 10] == "MultiPart/";
    assert OccursIgnoreCaseAt(s, MultipartMarker, |prefix|);
  }

  // ---------------------------------------------------------------------
  // GetBoundary
  // ---------------------------------------------------------------------

  /** Element `k` is the first of `elements` that starts with "boundary=". */
  ghost predicate FirstBoundaryElement(elements: seq<string>, k: int) {
    0 <= k < |elements| && StartsWith(elements[k], BoundaryPrefix)
    && forall j :: 0 <= j < k ==> !StartsWith(elements[j], BoundaryPrefix)
  }

  /** `Where(...).First()`: the index of the first element with the prefix, or None. */
  function FirstWithPrefix(elements: seq<string>, prefix: string, from: nat): (k: Option<nat>)
    requires from <= |elements|
    ensures k.None? <==> forall j :: from <= j < |elements| ==> !StartsWith(elements[j], prefix)
    ensures k.Some? ==> from <= k.value < |elements| && StartsWith(elements[k.value], prefix)
    ensures k.Some? ==> forall j :: from <= j < k.value ==> !StartsWith(elements[j], prefix)
    decreases |elements| - from
  {
    if from == |elements| then None
    else if StartsWith(elements[from], prefix) then Some(from)
    else FirstWithPrefix(elements, prefix, from + 1)
  }

  /**
   * Removes one pair of surrounding double quotes from a value of at least
   * two characters that starts and ends with one; leaves any other value alone.
   */
  function StripQuotes(raw: string): (r: string)
    ensures |raw| >= 2 && raw[0] == '"' && raw[|raw| - 1] == '"' ==> raw == "\"" + r + "\""
    ensures !(|raw| >= 2 && raw[0] == '"' && raw[|raw| - 1] == '"') ==> r == raw
  {
    if |raw| >= 2 && raw[0] == '"' && raw[|raw| - 1] == '"' then raw[1..|raw| - 1] else raw
  }

  /**
   * The boundary of a multipart `Content-Type`: split on spaces, take the
   * first element that starts with "boundary=", keep what follows the prefix
   * (trailing characters included), and strip one pair of quotes. Fails iff
   * no element starts with "boundary=".
   */
  function GetBoundary(contentType: string): (r: Result<string, BoundaryError>)
    ensures var elements := Split(contentType, ' ');
            r.Err? <==> forall j :: 0 <= j < |elements| ==> !StartsWith(elements[j], BoundaryPrefix)
    ensures var elements := Split(contentType, ' ');
            r.Ok? ==> exists k :: FirstBoundaryElement(elements, k)
                                  && r.value == StripQuotes(elements[k][|BoundaryPrefix|..])
  {
    var elements := Split(contentType, ' ');
    match FirstWithPrefix(elements, BoundaryPrefix, 0)
    case None => Err(NoBoundaryElement)
    case Some(k) =>
      assert FirstBoundaryElement(elements, k);
      Ok(StripQuotes(elements[k][|BoundaryPrefix|..]))
  }

  /**
   * Round trip: a header made of space-separated elements, none before the
   * boundary element starting with "boundary=", yields that element's value
   * with one pair of quotes stripped, whatever follows it.
   */
  lemma {:induction false} BoundaryOfElements(before: seq<string>, value: string, after: seq<string>)
    requires forall j :: 0 <= j < |before| ==> ' ' !in before[j] && !StartsWith(before[j], BoundaryPrefix)
    requires ' ' !in value
    requires forall j :: 0 <= j < |after| ==> ' ' !in after[j]
    ensures GetBoundary(Join(before + [BoundaryPrefix + value] + after, ' ')) == Ok(StripQuotes(value))
  {
    var elements := before + [BoundaryPrefix + value] + after;
    var k := |before|;
    assert elements[k] == BoundaryPrefix + value;
    forall j | 0 <= j < |elements| ensures ' ' !in elements[j] {
      if j < k {
        assert elements[j] == before[j];
      } else if j > k {
        assert elements[j] == after[j - k - 1];
      }
    }
    SplitOfJoin(elements, ' ');
    assert (BoundaryPrefix + value)[..|BoundaryPrefix|] == BoundaryPrefix;
    assert (BoundaryPrefix + value)[|BoundaryPrefix|..] == value;
    assert FirstBoundaryElement(elements, k);
    var r := GetBoundary(Join(elements, ' '));
    assert r.Ok? by {
      assert StartsWith(elements[k], BoundaryPrefix);
    }
    var k' :| FirstBoundaryElement(elements, k') && r.value == StripQuotes(elements[k'][|BoundaryPrefix|..]);
    assert k' == k;
  }

  /**
   * Without a space before it the boundary parameter is not an element of
   * its own, so `<media type>;boundary=<value>` (for instance
   * `multipart/form-data;boundary=x`) fails, unless the media type itself
   * starts with "boundary=".
   */
  lemma BoundaryNeedsSpace(mediaType: string, value: string)
    requires ' ' !in mediaType && ' ' !in value
    requires !StartsWith(mediaType, BoundaryPrefix)
    ensures GetBoundary(mediaType + ";" + BoundaryPrefix + value).Err?
  {
    var s := mediaType + ";" + BoundaryPrefix + value;
    assert ' ' !in s by {
      assert ' ' !in ";" + BoundaryPrefix;
    }
    SplitWithoutSeparator(s, ' ');
    assert !StartsWith(s, BoundaryPrefix) by {
      if |mediaType| >= |BoundaryPrefix| {
        var i :| 0 <= i < |BoundaryPrefix| && mediaType[i] != BoundaryPrefix[i];
        assert s[i] == mediaType[i];
      } else {
        var n := |mediaType|;
        assert s[n] == ';';
        assert BoundaryPrefix[n] != ';';
      }
    }
    assert forall j :: 0 <= j < |[s]| ==> !StartsWith([s][j], BoundaryPrefix);
  }

  // ---------------------------------------------------------------------
  // GetFileName
  // ---------------------------------------------------------------------

  /** The indices, from `from` on and in increasing order, of the parts that contain `key`. */
  function PartsContaining(parts: seq<string>, key: string, from: nat): (m: seq<nat>)
    requires from <= |parts|
    ensures forall k :: k in m <==> from <= k < |parts| && Contains(parts[k], key)
    ensures forall a, b :: 0 <= a < b < |m| ==> m[a] < m[b]
    ensures forall a :: 0 <= a < |m| ==> from <= m[a] < |parts|
    decreases |parts| - from
  {
    if from == |parts| then []
    else
      var rest := PartsContaining(parts, key, from + 1);
      if Contains(parts[from], key) then [from] + rest else rest
  }

  /** No part contains "filename" (`SingleOrDefault` yields null). */
  ghost predicate NoFileNamePartIn(parts: seq<string>) {
    forall i :: 0 <= i < |parts| ==> !Contains(parts[i], FileNameKey)
  }

  /** Two or more parts contain "filename" (`SingleOrDefault` throws). */
  ghost predicate SeveralFileNamePartsIn(parts: seq<string>) {
    exists i, j :: 0 <= i < j < |parts| && Contains(parts[i], FileNameKey) && Contains(parts[j], FileNameKey)
  }

  /** Part `i` is the one and only part that contains "filename". */
  ghost predicate SoleFileNamePart(parts: seq<string>, i: int) {
    0 <= i < |parts| && Contains(parts[i], FileNameKey)
    && forall j :: 0 <= j < |parts| && j != i ==> !Contains(parts[j], FileNameKey)
  }

  /** The value of one `key=value` part: the text after its last '=', with every leading and trailing '"' trimmed. */
  function ValueOfPart(part: string): (r: string)
    ensures '=' !in r
    ensures r == [] || (r[0] != '"' && r[|r| - 1] != '"')
  {
    var segments := Split(part, '=');
    assert '=' !in Last(segments);
    Trim(Last(segments), '"')
  }

  /** `SingleOrDefault(part => part.Contains("filename"))` over the parts, then the value of the part found. */
  function FileNameAmong(parts: seq<string>): (r: Result<string, FileNameError>)
    ensures r == Err(NoFileNamePart) <==> NoFileNamePartIn(parts)
    ensures r == Err(SeveralFileNameParts) <==> SeveralFileNamePartsIn(parts)
    ensures r.Ok? ==> exists i :: SoleFileNamePart(parts, i) && r.value == ValueOfPart(parts[i])
  {
    var matching := PartsContaining(parts, FileNameKey, 0);
    if |matching| == 0 then
      assert forall i :: 0 <= i < |parts| ==> !Contains(parts[i], FileNameKey) by {
        forall i | 0 <= i < |parts| ensures !Contains(parts[i], FileNameKey) {
          assert i !in matching;
        }
      }
      Err(NoFileNamePart)
    else if |matching| > 1 then
      assert matching[0] in matching && matching[1] in matching;
      Err(SeveralFileNameParts)
    else
      var i := matching[0];
      assert i in matching;
      assert SoleFileNamePart(parts, i) by {
        forall j | 0 <= j < |parts| && j != i ensures !Contains(parts[j], FileNameKey) {
          assert j !in matching;
        }
      }
      Ok(ValueOfPart(parts[i]))
  }

  /**
   * The file name of a `Content-Disposition`: split on ';', the single part
   * that contains "filename", the text after its last '=', with every
   * leading and trailing '"' trimmed. Fails with `NoFileNamePart` when no
   * part matches and with `SeveralFileNameParts` when two or more do.
   */
  function GetFileName(contentDisposition: string): (r: Result<string, FileNameError>)
    ensures r == Err(NoFileNamePart) <==> NoFileNamePartIn(Split(contentDisposition, ';'))
    ensures r == Err(SeveralFileNameParts) <==> SeveralFileNamePartsIn(Split(contentDisposition, ';'))
    ensures r.Ok? ==> exists i :: SoleFileNamePart(Split(contentDisposition, ';'), i)
                                 && r.value == ValueOfPart(Split(contentDisposition, ';')[i])
    ensures r.Ok? ==> '=' !in r.value
    ensures r.Ok? ==> r.value == [] || (r.value[0] != '"' && r.value[|r.value| - 1] != '"')
  {
    FileNameAmong(Split(contentDisposition, ';'))
  }

  /**
   * A section without a `Content-Disposition` header: the middleware then
   * dereferences null. The model passes the empty string, which fails in
   * the same way, before any file is opened.
   */
  lemma EmptyDispositionFails()
    ensures GetFileName("") == Err(NoFileNamePart)
  {
  }

  /** The name read from parameters whose only "filename" part is part `i`. */
  lemma FileNameOfSolePart(parts: seq<string>, i: int)
    requires |parts| >= 1
    requires forall j :: 0 <= j < |parts| ==> ';' !in parts[j]
    requires SoleFileNamePart(parts, i)
    ensures GetFileName(Join(parts, ';')) == Ok(ValueOfPart(parts[i]))
  {
    SplitOfJoin(parts, ';');
    var r := GetFileName(Join(parts, ';'));
    assert r != Err(NoFileNamePart);
    assert r != Err(SeveralFileNameParts);
    var k :| SoleFileNamePart(parts, k) && r.value == ValueOfPart(parts[k]);
    assert k == i;
  }


  /** A part appended after parameters none of which mentions "filename" is the one the name is read from. */
  lemma {:induction false} FileNameOfAppendedPart(params: string, part: string)
    requires NoFileNamePartIn(Split(params, ';'))
    requires Contains(part, FileNameKey) && ';' !in part
    ensures GetFileName(params + [';'] + part) == Ok(ValueOfPart(part))
  {
    var before := Split(params, ';');
    SplitAppendedPart(params, part, ';');
    var parts := before + [part];
    JoinAppend(before, part, ';');
    assert SoleFileNamePart(parts, |before|) by {
      forall j | 0 <= j < |parts| && j != |before| ensures !Contains(parts[j], FileNameKey) {
        assert parts[j] == before[j];
      }
    }
    FileNameOfSolePart(parts, |before|);
  }

  /** The value of `key="name"` is `name` when the name has no '=' and no quote at either end. */
  lemma {:induction false} ValueOfQuotedParameter(key: string, name: string)
    requires '=' !in name
    requires name == [] || (name[0] != '"' && name[|name| - 1] != '"')
    ensures ValueOfPart(key + ['='] + (['"'] + name + ['"'])) == name
  {
    var quoted := ['"'] + name + ['"'];
    LastSegmentAfter(key, quoted, '=');
    TrimWrapped(name, '"');
  }

  /**
   * Round trip: appending `;<key>="<name>"` to parameters none of which
   * mentions "filename" yields `name`, for any `key` that contains
   * "filename" (such as ` filename`) and any name without ';' or '=' that
   * does not start or end with a quote.
   */
  lemma {:induction false} FileNameOfAppendedParameter(params: string, key: string, name: string)
    requires NoFileNamePartIn(Split(params, ';'))
    requires Contains(key, FileNameKey) && ';' !in key
    requires ';' !in name && '=' !in name
    requires name == [] || (name[0] != '"' && name[|name| - 1] != '"')
    ensures GetFileName(params + [';'] + key + ['='] + ['"'] + name + ['"']) == Ok(name)
  {
    var quoted := ['"'] + name + ['"'];
    var part := key + ['='] + quoted;
    ParameterRegrouped(params, key, name);
    assert ';' !in part;
    ContainsInPrefix(key, ['='], FileNameKey);
    ContainsInPrefix(key + ['='], quoted, FileNameKey);
    FileNameOfAppendedPart(params, part);
    ValueOfQuotedParameter(key, name);
  }

  /** `;key="name"` appended piece by piece is `;` followed by the whole parameter. */
  lemma ParameterRegrouped(params: string, key: string, name: string)
    ensures params + [';'] + key + ['='] + ['"'] + name + ['"'] == params + [';'] + (key + ['='] + (['"'] + name + ['"']))
  {
  }
}
