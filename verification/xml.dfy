/**
 * `partition_xml` and its leaf walker: the exactly-one-source check, the
 * dispatch from filename / file / text to the bytes lxml parses, the
 * forward pass over start/end events (or over the `xml_path` selection),
 * the metadata template and the one-element-per-text loop.
 */
module Xml {
  import opened Wrappers
  import opened PyStr
  import Utf8
  import opened Common
  import opened Elements
  import opened XmlTree

  const DetectionOrigin := "xml"

  /**
   * The collaborators `partition_xml` calls but that are not modelled:
   * the filesystem, `get_last_modified_date`, lxml's parser and XPath
   * evaluation, `read_txt_file` (given the bytes and the `encoding`
   * argument) and `element_from_text`. `parse` is the whole iterparse
   * run: the finished tree, or `None` when lxml reports an error at any
   * point. `parseHead` is the tree lxml has built when iterparse reports
   * its first event, or `None` when even that fails; it is all the
   * `xml_path` branch ever reads, so an error lxml would report later is
   * never raised there.
   */
  datatype Io = Io(
    files: map<string, seq<Utf8.byte>>,
    lastModified: string -> Option<string>,
    parse: seq<Utf8.byte> -> Option<Node>,
    parseHead: seq<Utf8.byte> -> Option<Node>,
    select: (string, Node) -> Option<seq<Node>>,
    readTxt: (seq<Utf8.byte>, Option<string>) -> Option<string>,
    fromText: string -> Element)

  /** The one source that passed `exactly_one`. */
  datatype Source = Path(name: string) | Stream(content: seq<Utf8.byte>) | Raw(text: string)

  /**
   * `exactly_one(filename=..., file=..., text=...)` followed by the
   * `if filename / elif file / else text` dispatch.
   */
  function SelectSource(filename: Option<string>, file: Option<seq<Utf8.byte>>, text: Option<string>)
    : (r: Result<Source, Error>)
    ensures r.Err? <==> Count([Supplied(filename), file.Some?, Supplied(text)]) != 1
    ensures r.Err? ==> r.error == InputSelectionError
    ensures r.Ok? && r.value.Path? ==> filename == Some(r.value.name) && r.value.name != ""
                                       && file.None? && !Supplied(text)
    ensures r.Ok? && r.value.Stream? ==> file == Some(r.value.content) && !Supplied(filename) && !Supplied(text)
    ensures r.Ok? && r.value.Raw? ==> text == Some(r.value.text) && r.value.text != ""
                                      && !Supplied(filename) && file.None?
  {
    Count3(Supplied(filename), file.Some?, Supplied(text));
    var _ :- ExactlyOne([Supplied(filename), file.Some?, Supplied(text)]);
    if Truthy(filename) then Ok(Path(filename.value))
    else if file.Some? then Ok(Stream(file.value))
    else Ok(Raw(text.value))
  }

  /** The bytes lxml parses: the file at the path, the stream's bytes, or the text's UTF-8 bytes. */
  function SourceBytes(io: Io, src: Source): (r: Result<seq<Utf8.byte>, Error>)
    ensures src.Path? ==> (r.Ok? <==> src.name in io.files)
    ensures src.Path? && r.Ok? ==> r.value == io.files[src.name]
    ensures src.Stream? ==> r == Ok(src.content)
    ensures src.Raw? ==> r.Ok? && Utf8.Decode(r.value) == Some(src.text)
  {
    match src
    case Path(name) => if name in io.files then Ok(io.files[name]) else Err(FileNotFound(name))
    case Stream(content) => Ok(content)
    case Raw(text) => Utf8.DecodeEncode(text); Ok(Utf8.Encode(text))
  }

  /**
   * The tree the walker reads: the whole stream's tree without `xml_path`;
   * with it, the tree as it stands at the first `next()` of iterparse.
   */
  function Parse(io: Io, bytes: seq<Utf8.byte>, xmlPath: Option<string>): (r: Result<Node, Error>) {
    match (if xmlPath.None? then io.parse(bytes) else io.parseHead(bytes))
    case Some(root) => Ok(root)
    case None => Err(ParseError)
  }

  /** The end events `_get_leaf_elements` walks when `xml_path` selected `sel`. */
  function SelectedEvents(sel: seq<Node>): (es: seq<Event>)
    ensures Ends(es) == sel
    decreases |sel|
  {
    if sel == [] then []
    else
      var es := SelectedEvents(sel[..|sel| - 1]) + [End(sel[|sel| - 1])];
      assert es[..|es| - 1] == SelectedEvents(sel[..|sel| - 1]);
      es
  }

  /**
   * The `for event, element in element_iterator` loop of
   * `_get_leaf_elements`: at each end event, yield the element's `.text`,
   * unchanged, when it is not `None` and not blank; start events yield nothing.
   */
  method WalkEvents(events: seq<Event>) returns (out: seq<string>)
    ensures out == OwnTexts(Ends(events))
  {
    out := [];
    var i := 0;
    while i < |events|
      invariant 0 <= i <= |events|
      invariant out == OwnTexts(Ends(events[..i]))
    {
      var event := events[i];
      WalkStep(events, i);
      if event.End? {
        var element := event.node;
        if element.text.Some? && HasContent(element.text.value) {
          out := out + [element.text.value];
        }
      }
      i := i + 1;
    }
    assert events[..i] == events;
  }

  /**
   * `_get_leaf_elements`: without `xml_path` the events are the whole
   * document's start/end stream; with it, one end event per selected
   * element, in selection order.
   */
  method WalkLeaves(root: Node, selection: Option<seq<Node>>) returns (out: seq<string>)
    ensures selection.None? ==> out == LeafTexts(root)
    ensures selection.Some? ==> out == OwnTexts(selection.value)
  {
    if selection.None? {
      out := WalkEvents(Events(root));
      EndsOfEvents(root);
    } else {
      out := WalkEvents(SelectedEvents(selection.value));
    }
  }

  /** One more event adds the ended element's text when it contributes, and nothing otherwise. */
  lemma WalkStep(events: seq<Event>, i: int)
    requires 0 <= i < |events|
    ensures events[i].End? && Contributes(events[i].node) ==>
              OwnTexts(Ends(events[..i + 1])) == OwnTexts(Ends(events[..i])) + [events[i].node.text.value]
    ensures !(events[i].End? && Contributes(events[i].node)) ==>
              OwnTexts(Ends(events[..i + 1])) == OwnTexts(Ends(events[..i]))
  {
    var event := events[i];
    assert events[..i + 1] == events[..i] + [event];
    EndsSnoc(events[..i], event);
    if event.End? {
      OwnTextsSnoc(Ends(events[..i]), event.node);
    } else {
      assert Ends(events[..i]) + [] == Ends(events[..i]);
    }
  }

  /**
   * What the walker yields for a parsed document: the non-blank own texts
   * at the end events of the stream it walks, which is the document's
   * iterparse stream, or one end event per element `xml_path` selects.
   */
  function Leaves(io: Io, root: Node, xmlPath: Option<string>): (r: Result<seq<string>, Error>)
    ensures xmlPath.None? ==> r == Ok(OwnTexts(Ends(Events(root))))
    ensures xmlPath.Some? ==> (r.Ok? <==> io.select(xmlPath.value, root).Some?)
    ensures xmlPath.Some? && r.Ok? ==> r.value == OwnTexts(Ends(SelectedEvents(io.select(xmlPath.value, root).value)))
  {
    match xmlPath
    case None => EndsOfEvents(root); Ok(LeafTexts(root))
    case Some(path) =>
      match io.select(path, root)
      case None => Err(XPathError)
      case Some(sel) => Ok(OwnTexts(sel))
  }

  /** `get_leaf_elements`: source selection, reading, parsing and the walk. */
  function GetLeafElements(io: Io, filename: Option<string>, file: Option<seq<Utf8.byte>>,
                           text: Option<string>, xmlPath: Option<string>): (r: Result<seq<string>, Error>)
    ensures Count([Supplied(filename), file.Some?, Supplied(text)]) != 1 ==> r == Err(InputSelectionError)
    ensures r.Ok? ==> forall k :: 0 <= k < |r.value| ==> !IsBlank(r.value[k])
  {
    var src :- SelectSource(filename, file, text);
    var bytes :- SourceBytes(io, src);
    var root :- Parse(io, bytes, xmlPath);
    Leaves(io, root, xmlPath)
  }

  /** A text source is walked exactly as a file source holding the text's UTF-8 bytes. */
  lemma TextIsUtf8File(io: Io, t: string, xmlPath: Option<string>)
    requires t != ""
    ensures GetLeafElements(io, None, None, Some(t), xmlPath)
         == GetLeafElements(io, None, Some(Utf8.Encode(t)), None, xmlPath)
  {
    Count3(false, false, true);
    Count3(false, true, false);
  }

  /**
   * Once the source has been read to `bs`, the result is decided by the
   * parsed document. Without `xml_path`: an error anywhere in the stream
   * raises, otherwise the document's leaf texts in post-order. With it:
   * only a failure of the first event raises a parse error; then an
   * XPath failure raises, and otherwise the texts of what XPath selects
   * in the tree built so far, in selection order.
   */
  lemma GetLeafElementsOfBytes(io: Io, filename: Option<string>, file: Option<seq<Utf8.byte>>,
                               text: Option<string>, xmlPath: Option<string>, bs: seq<Utf8.byte>)
    requires SelectSource(filename, file, text).Ok?
    requires SourceBytes(io, SelectSource(filename, file, text).value) == Ok(bs)
    ensures xmlPath.None? && io.parse(bs).None? ==>
              GetLeafElements(io, filename, file, text, xmlPath) == Err(ParseError)
    ensures xmlPath.None? && io.parse(bs).Some? ==>
              GetLeafElements(io, filename, file, text, xmlPath) == Ok(LeafTexts(io.parse(bs).value))
    ensures xmlPath.Some? && io.parseHead(bs).None? ==>
              GetLeafElements(io, filename, file, text, xmlPath) == Err(ParseError)
    ensures xmlPath.Some? && io.parseHead(bs).Some? && io.select(xmlPath.value, io.parseHead(bs).value).None? ==>
              GetLeafElements(io, filename, file, text, xmlPath) == Err(XPathError)
    ensures xmlPath.Some? && io.parseHead(bs).Some? && io.select(xmlPath.value, io.parseHead(bs).value).Some? ==>
              GetLeafElements(io, filename, file, text, xmlPath)
              == Ok(OwnTexts(io.select(xmlPath.value, io.parseHead(bs).value).value))
  {
  }

  /**
   * A document lxml rejects only after its first event (a root that is
   * never closed, say) raises when streamed, yet with `xml_path` yields
   * the texts XPath selects in the partial tree.
   */
  lemma LateParseErrorOnlyWhenStreaming(io: Io, t: string, path: string, head: Node, sel: seq<Node>)
    requires t != ""
    requires io.parse(Utf8.Encode(t)).None? && io.parseHead(Utf8.Encode(t)) == Some(head)
    requires io.select(path, head) == Some(sel)
    ensures GetLeafElements(io, None, None, Some(t), None) == Err(ParseError)
    ensures GetLeafElements(io, None, None, Some(t), Some(path)) == Ok(OwnTexts(sel))
  {
    Count3(false, false, true);
  }

  /** A path source whose file is missing raises before anything is parsed. */
  lemma MissingFileRaises(io: Io, name: string, xmlPath: Option<string>)
    requires name != "" && name !in io.files
    ensures GetLeafElements(io, Some(name), None, None, xmlPath) == Err(FileNotFound(name))
  {
    Count3(true, false, false);
  }

  /**
   * The metadata every element receives: `filename` is `metadata_filename
   * or filename`, `last_modified` is `metadata_last_modified or` the
   * filesystem date (looked up only for a filename), `detection_origin` is
   * "xml"; with `include_metadata=False` no field is set.
   */
  function Template(io: Io, filename: Option<string>, metadataFilename: Option<string>,
                    includeMetadata: bool, metadataLastModified: Option<string>): (m: Metadata)
    ensures !includeMetadata ==> m == EmptyMetadata
    ensures includeMetadata ==> m.detectionOrigin == Some(DetectionOrigin)
    ensures includeMetadata && Truthy(metadataFilename) ==> m.filename == metadataFilename
    ensures includeMetadata && !Truthy(metadataFilename) ==> m.filename == filename
    ensures includeMetadata ==> m.lastModified == LastModified(metadataLastModified, filename, io.lastModified)
  {
    if includeMetadata then
      Metadata(Or(metadataFilename, filename),
               LastModified(metadataLastModified, filename, io.lastModified),
               Some(DetectionOrigin))
    else EmptyMetadata
  }

  /** The non-empty texts of `leaves`, in order: the ones `if leaf_element:` lets through. */
  function NonEmptyTexts(leaves: seq<string>): (r: seq<string>)
    ensures |r| <= |leaves|
    ensures forall k :: 0 <= k < |r| ==> r[k] != ""
    ensures forall x :: x in r <==> x in leaves && x != ""
    ensures (forall k :: 0 <= k < |leaves| ==> leaves[k] != "") ==> r == leaves
  {
    if leaves == [] then []
    else (if leaves[0] != "" then [leaves[0]] else []) + NonEmptyTexts(leaves[1..])
  }

  /** The filter keeps a single text exactly when it is non-empty. */
  lemma NonEmptyTextsUnit(x: string)
    ensures NonEmptyTexts([x]) == (if x != "" then [x] else [])
  {
  }

  /** The filter works piecewise, so it keeps the non-empty texts in order and with their repetitions. */
  lemma {:induction false} NonEmptyTextsAppend(a: seq<string>, b: seq<string>)
    ensures NonEmptyTexts(a + b) == NonEmptyTexts(a) + NonEmptyTexts(b)
    decreases |a|
  {
    if a == [] {
      assert a + b == b;
    } else {
      assert (a + b)[1..] == a[1..] + b;
      NonEmptyTextsAppend(a[1..], b);
    }
  }

  /**
   * The `for leaf_element in leaf_elements` loop: each non-empty text
   * becomes `element_from_text(text)` carrying a copy of the template.
   */
  function ToElements(fromText: string -> Element, leaves: seq<string>, template: Metadata)
    : (es: seq<Element>)
    ensures |es| <= |leaves|
    ensures |es| == |NonEmptyTexts(leaves)|
    ensures forall k :: 0 <= k < |es| ==> es[k] == fromText(NonEmptyTexts(leaves)[k]).(metadata := template)
    ensures forall k :: 0 <= k < |es| ==> es[k].metadata == template
    ensures (forall k :: 0 <= k < |leaves| ==> leaves[k] != "") ==>
              |es| == |leaves| &&
              forall k :: 0 <= k < |leaves| ==> es[k] == fromText(leaves[k]).(metadata := template)
  {
    if leaves == [] then []
    else
      var rest := ToElements(fromText, leaves[1..], template);
      if leaves[0] != "" then [fromText(leaves[0]).(metadata := template)] + rest else rest
  }

  /**
   * The raw document text kept in `xml_keep_tags` mode: a file or stream
   * is read with `read_txt_file` under the caller's `encoding`; a text
   * source is kept as it is, whatever the encoding.
   */
  function RawText(io: Io, src: Source, encoding: Option<string>): (r: Result<string, Error>)
    ensures src.Raw? ==> r == Ok(src.text)
    ensures src.Path? ==> (r.Ok? <==> src.name in io.files && io.readTxt(io.files[src.name], encoding).Some?)
    ensures src.Path? && src.name !in io.files ==> r == Err(FileNotFound(src.name))
    ensures src.Path? && r.Ok? ==> io.readTxt(io.files[src.name], encoding) == Some(r.value)
    ensures src.Stream? ==> (r.Ok? <==> io.readTxt(src.content, encoding).Some?)
    ensures src.Stream? && r.Ok? ==> io.readTxt(src.content, encoding) == Some(r.value)
  {
    match src
    case Path(name) =>
      if name !in io.files then Err(FileNotFound(name))
      else if io.readTxt(io.files[name], encoding).None? then Err(DecodeError)
      else Ok(io.readTxt(io.files[name], encoding).value)
    case Stream(content) =>
      if io.readTxt(content, encoding).None? then Err(DecodeError) else Ok(io.readTxt(content, encoding).value)
    case Raw(text) => Ok(text)
  }

  /** `partition_xml`, before language metadata is applied. */
  function PartitionXml(io: Io, filename: Option<string>, file: Option<seq<Utf8.byte>>,
                        text: Option<string>, keepTags: bool, xmlPath: Option<string>,
                        metadataFilename: Option<string>, includeMetadata: bool, encoding: Option<string>,
                        metadataLastModified: Option<string>): (r: Result<seq<Element>, Error>)
    ensures SelectSource(filename, file, text).Err? ==> r == Err(InputSelectionError)
    ensures r.Ok? ==> forall k :: 0 <= k < |r.value| ==>
              r.value[k].metadata == Template(io, filename, metadataFilename, includeMetadata, metadataLastModified)
    ensures keepTags && r.Ok? ==> |r.value| == 1 && r.value[0].category == TextCategory
    ensures keepTags && SelectSource(filename, file, text).Ok? ==>
              var raw := RawText(io, SelectSource(filename, file, text).value, encoding);
              (r.Ok? <==> raw.Ok?) && (r.Ok? ==> r.value[0].text == raw.value)
    ensures !keepTags && SelectSource(filename, file, text).Ok? ==>
              match GetLeafElements(io, filename, file, text, xmlPath)
              case Err(e) => r == Err(e)
              case Ok(leaves) =>
                r.Ok? && |r.value| == |leaves| &&
                forall k :: 0 <= k < |leaves| ==>
                  r.value[k] == io.fromText(leaves[k]).(metadata := r.value[k].metadata)
  {
    var src :- SelectSource(filename, file, text);
    var template := Template(io, filename, metadataFilename, includeMetadata, metadataLastModified);
    if keepTags then
      var raw :- RawText(io, src, encoding);
      Ok([Element(TextCategory, raw, template)])
    else
      var leaves :- GetLeafElements(io, filename, file, text, xmlPath);
      assert forall k :: 0 <= k < |leaves| ==> leaves[k] != "" by {
        forall k | 0 <= k < |leaves| ensures leaves[k] != "" {
          assert !IsBlank(leaves[k]);
        }
      }
      Ok(ToElements(io.fromText, leaves, template))
  }

  /**
   * In keep-tags mode a text source gives one plain Text element holding
   * the raw text; neither `xml_path` nor `encoding` plays a part.
   */
  lemma KeepTagsRawText(io: Io, t: string, xmlPath: Option<string>, metadataFilename: Option<string>,
                        includeMetadata: bool, encoding: Option<string>, metadataLastModified: Option<string>)
    requires t != ""
    ensures PartitionXml(io, None, None, Some(t), true, xmlPath, metadataFilename, includeMetadata, encoding,
                         metadataLastModified)
         == Ok([Element(TextCategory, t, Template(io, None, metadataFilename, includeMetadata, metadataLastModified))])
  {
    Count3(false, false, true);
  }

  /** Keep-tags mode ignores `xml_path` for every source. */
  lemma KeepTagsIgnoresXmlPath(io: Io, filename: Option<string>, file: Option<seq<Utf8.byte>>,
                               text: Option<string>, p1: Option<string>, p2: Option<string>,
                               metadataFilename: Option<string>, includeMetadata: bool,
                               encoding: Option<string>, metadataLastModified: Option<string>)
    ensures PartitionXml(io, filename, file, text, true, p1, metadataFilename, includeMetadata, encoding,
                         metadataLastModified)
         == PartitionXml(io, filename, file, text, true, p2, metadataFilename, includeMetadata, encoding,
                         metadataLastModified)
  {
  }

  /** A file source in keep-tags mode is the text `read_txt_file` gives for the bytes under the caller's encoding. */
  lemma KeepTagsFileUsesEncoding(io: Io, content: seq<Utf8.byte>, encoding: Option<string>,
                                 metadataFilename: Option<string>, includeMetadata: bool,
                                 metadataLastModified: Option<string>)
    requires io.readTxt(content, encoding).Some?
    ensures PartitionXml(io, None, Some(content), None, true, None, metadataFilename, includeMetadata, encoding,
                         metadataLastModified)
         == Ok([Element(TextCategory, io.readTxt(content, encoding).value,
                        Template(io, None, metadataFilename, includeMetadata, metadataLastModified))])
  {
    Count3(false, true, false);
  }
}
