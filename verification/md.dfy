/**
 * The guards of `partition_md`: `optional_decode`, the exactly-one-source
 * check with `text=None` read as "", the reading of each source, the
 * acceptance rule for a URL response, and the `last_modified` handed on.
 * The markdown-to-HTML conversion and `partition_html` are not modelled;
 * the result is what would be handed to them.
 */
module Md {
  import opened Wrappers
  import opened PyStr
  import Utf8
  import opened Common

  /** The media type a URL response must start with. */
  const MarkdownMime := "text/markdown"

  /** What `read()` returns: bytes from a binary stream, a string from a text stream. */
  datatype Contents = Bytes(data: seq<Utf8.byte>) | Chars(text: string)

  /** `optional_decode`: bytes are decoded as strict UTF-8, a string is returned as it is. */
  function OptionalDecode(contents: Contents): (r: Result<string, Error>)
    ensures contents.Chars? ==> r == Ok(contents.text)
    ensures contents.Bytes? && r.Ok? ==> Utf8.Encode(r.value) == contents.data
    ensures r.Err? ==> r.error == DecodeError
  {
    match contents
    case Bytes(data) =>
      (match Utf8.Decode(data)
       case None => Err(DecodeError)
       case Some(s) => Utf8.EncodeDecode(data); Ok(s))
    case Chars(text) => Ok(text)
  }

  /** Applying `optional_decode` to its own output changes nothing. */
  lemma OptionalDecodeIdempotent(contents: Contents)
    requires OptionalDecode(contents).Ok?
    ensures OptionalDecode(Chars(OptionalDecode(contents).value)) == OptionalDecode(contents)
  {
  }

  /** The UTF-8 bytes of a string decode back to that string. */
  lemma OptionalDecodeOfEncoded(s: string)
    ensures OptionalDecode(Bytes(Utf8.Encode(s))) == Ok(s)
  {
    Utf8.DecodeEncode(s);
  }

  /** The parts of a `requests` response the URL branch reads; `contentType` is the `Content-Type` header. */
  datatype Response = Response(ok: bool, statusCode: int, contentType: Option<string>, text: string)

  /**
   * The URL branch's checks, status first: a response that is not `ok`
   * raises with its status code; then a `Content-Type` (default "") that
   * does not start with "text/markdown" raises with that type.
   */
  function CheckResponse(resp: Response): (r: Result<string, Error>)
    ensures r.Ok? <==> resp.ok && StartsWith(resp.contentType.GetOr(""), MarkdownMime)
    ensures r.Ok? ==> r.value == resp.text
    ensures !resp.ok ==> r == Err(UrlStatusError(resp.statusCode))
    ensures resp.ok && r.Err? ==> r == Err(ContentTypeError(resp.contentType.GetOr("")))
  {
    if !resp.ok then Err(UrlStatusError(resp.statusCode))
    else
      var contentType := resp.contentType.GetOr("");
      if !StartsWith(contentType, MarkdownMime) then Err(ContentTypeError(contentType))
      else Ok(resp.text)
  }

  /** A prefix test: parameters after the media type are tolerated. */
  lemma ParametersTolerated(resp: Response, parameters: string)
    requires resp.ok && resp.contentType == Some(MarkdownMime + parameters)
    ensures CheckResponse(resp) == Ok(resp.text)
  {
    assert (MarkdownMime + parameters)[..|MarkdownMime|] == MarkdownMime;
  }

  /** A missing `Content-Type` is read as "" and rejected. */
  lemma MissingContentTypeRejected(resp: Response)
    requires resp.ok && resp.contentType.None?
    ensures CheckResponse(resp) == Err(ContentTypeError(""))
  {
  }

  /** The cases the test suite exercises: 200 markdown, 500 html, 200 json. */
  lemma ResponseExamples(text: string)
    ensures CheckResponse(Response(true, 200, Some("text/markdown"), text)) == Ok(text)
    ensures CheckResponse(Response(false, 500, Some("text/html"), text)) == Err(UrlStatusError(500))
    ensures CheckResponse(Response(true, 200, Some("application/json"), text))
         == Err(ContentTypeError("application/json"))
  {
    assert "application/json"[..|MarkdownMime|] != MarkdownMime by {
      assert "application/json"[0] != MarkdownMime[0];
    }
  }

  /**
   * The collaborators `partition_md` calls but that are not modelled: the
   * filesystem, `get_last_modified_date` and `requests.get` (`None` when
   * the request itself fails).
   */
  datatype Io = Io(
    files: map<string, seq<Utf8.byte>>,
    lastModified: string -> Option<string>,
    fetch: string -> Option<Response>)

  /** `open(filename, encoding="utf8").read()`: strict UTF-8, then universal newlines. */
  function ReadTextFile(io: Io, path: string): (r: Result<string, Error>)
    ensures r.Ok? ==> '\r' !in r.value
    ensures r.Ok? <==> path in io.files && Utf8.Decode(io.files[path]).Some?
    ensures path !in io.files ==> r == Err(FileNotFound(path))
    ensures r.Ok? ==> r.value == TranslateNewlines(Utf8.Decode(io.files[path]).value)
  {
    if path !in io.files then Err(FileNotFound(path))
    else
      match Utf8.Decode(io.files[path])
      case None => Err(DecodeError)
      case Some(s) => Ok(TranslateNewlines(s))
  }

  /** A file holding a text's UTF-8 bytes reads back as that text with its line breaks translated. */
  lemma ReadEncodedFile(io: Io, path: string, t: string)
    requires path in io.files && io.files[path] == Utf8.Encode(t)
    ensures ReadTextFile(io, path) == Ok(TranslateNewlines(t))
  {
    Utf8.DecodeEncode(t);
  }

  /** The URL branch: fetch, then the response checks. */
  function Fetch(io: Io, url: string): (r: Result<string, Error>)
    ensures io.fetch(url).None? ==> r == Err(RequestError(url))
    ensures r.Ok? <==> io.fetch(url).Some? && io.fetch(url).value.ok
                       && StartsWith(io.fetch(url).value.contentType.GetOr(""), MarkdownMime)
    ensures r.Ok? ==> r.value == io.fetch(url).value.text
  {
    match io.fetch(url)
    case None => Err(RequestError(url))
    case Some(resp) => CheckResponse(resp)
  }

  /** What `partition_md` hands on: the markdown to convert and the `metadata_last_modified` for `partition_html`. */
  datatype MdDocument = MdDocument(markdown: string, lastModified: Option<string>)

  /** The flags `exactly_one` sees, after `text=None` became "". */
  function SuppliedSources(filename: Option<string>, file: Option<Contents>,
                           text: Option<string>, url: Option<string>): (flags: seq<bool>)
    ensures |flags| == 4
  {
    [Supplied(filename), file.Some?, text.GetOr("") != "", Supplied(url)]
  }

  /**
   * `partition_md` up to the markdown conversion. The sources are read in
   * the order filename, file, url, text, each chosen by `is not None`.
   */
  function PartitionMd(io: Io, filename: Option<string>, file: Option<Contents>, text: Option<string>,
                       url: Option<string>, metadataLastModified: Option<string>): (r: Result<MdDocument, Error>)
    ensures Count(SuppliedSources(filename, file, text, url)) != 1 ==> r == Err(InputSelectionError)
    ensures r.Ok? ==> r.value.lastModified == LastModified(metadataLastModified, filename, io.lastModified)
    ensures r.Ok? && filename.Some? ==> '\r' !in r.value.markdown
    ensures r.Ok? && filename.Some? ==>
              (filename.value in io.files
               && Utf8.Decode(io.files[filename.value]).Some?
               && r.value.markdown == TranslateNewlines(Utf8.Decode(io.files[filename.value]).value))
  {
    var text := text.GetOr("");
    var _ :- ExactlyOne([Supplied(filename), file.Some?, text != "", Supplied(url)]);
    var lastModified := if Truthy(filename) then io.lastModified(filename.value) else None;
    var markdown :-
      if filename.Some? then
        var raw :- ReadTextFile(io, filename.value);
        OptionalDecode(Chars(raw))
      else if file.Some? then OptionalDecode(file.value)
      else if url.Some? then Fetch(io, url.value)
      else Ok(text);
    Ok(MdDocument(markdown, Or(metadataLastModified, lastModified)))
  }

  /** The selection check raises exactly when the number of supplied sources is not one. */
  lemma SelectionIff(io: Io, filename: Option<string>, file: Option<Contents>, text: Option<string>,
                     url: Option<string>, metadataLastModified: Option<string>)
    ensures PartitionMd(io, filename, file, text, url, metadataLastModified) == Err(InputSelectionError)
        <==> Count(SuppliedSources(filename, file, text, url)) != 1
  {
  }

  /** With no source at all, `text=None` becomes "" and the call raises. */
  lemma NoSourceRaises(io: Io, metadataLastModified: Option<string>)
    ensures PartitionMd(io, None, None, None, None, metadataLastModified) == Err(InputSelectionError)
  {
    Count4(false, false, false, false);
  }

  /** A filename together with a text raises. */
  lemma FilenameAndTextRaise(io: Io, name: string, t: string, metadataLastModified: Option<string>)
    requires name != "" && t != ""
    ensures PartitionMd(io, Some(name), None, Some(t), None, metadataLastModified) == Err(InputSelectionError)
  {
    Count4(true, false, true, false);
  }

  /** An empty text counts as no text: it changes neither the check nor the result. */
  lemma EmptyTextIsAbsent(io: Io, filename: Option<string>, file: Option<Contents>,
                          url: Option<string>, metadataLastModified: Option<string>)
    ensures PartitionMd(io, filename, file, Some(""), url, metadataLastModified)
         == PartitionMd(io, filename, file, None, url, metadataLastModified)
  {
  }

  /** A text source is converted as it is; `last_modified` is only ever the explicit one. */
  lemma TextSource(io: Io, t: string, metadataLastModified: Option<string>)
    requires t != ""
    ensures PartitionMd(io, None, None, Some(t), None, metadataLastModified)
         == Ok(MdDocument(t, if Truthy(metadataLastModified) then metadataLastModified else None))
  {
    Count4(false, false, true, false);
  }

  /** A binary file holding a text's UTF-8 bytes gives the same result as the text itself. */
  lemma FileBytesAsText(io: Io, t: string, metadataLastModified: Option<string>)
    requires t != ""
    ensures PartitionMd(io, None, Some(Bytes(Utf8.Encode(t))), None, None, metadataLastModified)
         == PartitionMd(io, None, None, Some(t), None, metadataLastModified)
  {
    Count4(false, true, false, false);
    Count4(false, false, true, false);
    OptionalDecodeOfEncoded(t);
  }

  /**
   * A filename source is read as strict UTF-8 in text mode: the markdown
   * handed on is the file's text with universal newlines applied, which
   * is the text itself when it has no carriage return.
   */
  lemma FilenameSource(io: Io, name: string, t: string, metadataLastModified: Option<string>)
    requires name != "" && name in io.files && io.files[name] == Utf8.Encode(t)
    ensures PartitionMd(io, Some(name), None, None, None, metadataLastModified)
         == Ok(MdDocument(TranslateNewlines(t), LastModified(metadataLastModified, Some(name), io.lastModified)))
    ensures '\r' !in t ==>
              (PartitionMd(io, Some(name), None, None, None, metadataLastModified)
               == Ok(MdDocument(t, LastModified(metadataLastModified, Some(name), io.lastModified))))
  {
    Count4(true, false, false, false);
    ReadEncodedFile(io, name, t);
  }

  /** A URL source is accepted exactly when the response is ok and its type is markdown, and then hands on the response text. */
  lemma UrlSource(io: Io, url: string, metadataLastModified: Option<string>)
    requires url != "" && io.fetch(url).Some?
    ensures var resp := io.fetch(url).value;
            PartitionMd(io, None, None, None, Some(url), metadataLastModified).Ok?
            <==> resp.ok && StartsWith(resp.contentType.GetOr(""), MarkdownMime)
    ensures var resp := io.fetch(url).value;
            !resp.ok ==> PartitionMd(io, None, None, None, Some(url), metadataLastModified)
                         == Err(UrlStatusError(resp.statusCode))
    ensures var resp := io.fetch(url).value;
            resp.ok && StartsWith(resp.contentType.GetOr(""), MarkdownMime) ==>
              PartitionMd(io, None, None, None, Some(url), metadataLastModified)
              == Ok(MdDocument(resp.text, if Truthy(metadataLastModified) then metadataLastModified else None))
  {
    Count4(false, false, false, true);
  }

  /**
   * `last_modified` precedence across the sources: an explicit value wins;
   * otherwise a filename source takes the filesystem date; a file source
   * has none.
   */
  lemma LastModifiedPrecedence(io: Io, name: string, contents: Contents, explicit: string)
    requires name != "" && explicit != ""
    ensures var r := PartitionMd(io, Some(name), None, None, None, Some(explicit));
            r.Ok? ==> r.value.lastModified == Some(explicit)
    ensures var r := PartitionMd(io, Some(name), None, None, None, None);
            r.Ok? ==> r.value.lastModified == io.lastModified(name)
    ensures var r := PartitionMd(io, None, Some(contents), None, None, None);
            r.Ok? ==> r.value.lastModified == None
    ensures var r := PartitionMd(io, None, Some(contents), None, None, Some(explicit));
            r.Ok? ==> r.value.lastModified == Some(explicit)
  {
  }

  /**
   * Dispatch is by `is not None` while the check is by truthiness: an
   * empty filename next to a text passes the check, and the empty path is
   * then opened instead of the text being used.
   */
  lemma EmptyFilenameIsOpened(io: Io, t: string, metadataLastModified: Option<string>)
    requires t != "" && "" !in io.files
    ensures PartitionMd(io, Some(""), None, Some(t), None, metadataLastModified) == Err(FileNotFound(""))
  {
    Count4(false, false, true, false);
  }
}
