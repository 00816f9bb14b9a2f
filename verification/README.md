# Leaf-text extraction for XML and the input guards of the markdown partitioner

A Dafny model of two small pieces of the `unstructured` document partitioner.

**The XML leaf walker and `partition_xml`** (`unstructured/partition/xml.py`).
- A parsed document is an immutable tree of `Node(tag, text, children)`. The `text` field is lxml's `.text`: the element's own leading text.
- `XmlTree.Events` gives the start/end event stream that `iterparse` reports for a tree.
- `Xml.WalkEvents` is the walker's forward loop over that stream. At each end event it yields the element's text unchanged, if the text is present and `str.strip()` leaves something.
- `Xml.WalkLeaves` runs that loop either over the whole document or over the end events of an `xml_path` selection.
- The reference semantics are stated independently in `XmlTree`: the non-blank own texts of the nodes in post-order (`LeafTexts`), or of the selected nodes in selection order (`OwnTexts`). The lemmas there state:
  - ordering: descendants come before the element, and earlier siblings before later ones;
  - filtering: the walker is exact, position by position;
  - counting: it yields exactly one string per contributing element.
- `Xml.GetLeafElements` and `Xml.PartitionXml` add the surrounding logic:
  - the exactly-one-source check;
  - the dispatch from filename / file / text to the bytes lxml parses (a text is parsed as its UTF-8 bytes);
  - the metadata template built with Python's `or`;
  - the keep-tags branch;
  - the loop that builds one element per yielded text, each carrying a copy of the template.

**The guards of `partition_md`** (`unstructured/partition/md.py`).
- `Md.OptionalDecode` models `optional_decode`.
- `Md.PartitionMd` covers:
  - the source check, where `text=None` becomes `""`, so an empty text counts as no text;
  - reading each source;
  - the URL response rule: the status is checked first, then `Content-Type` must start with `text/markdown`;
  - the `last_modified` precedence.
- It returns the markdown text and the `metadata_last_modified` that would be handed on to the markdown converter and `partition_html`.

Supporting modules:
- `PyStr` models the Python string semantics the code relies on: `str.isspace`, `str.strip`, `str.startswith`, the truthiness of an optional string, `a or b`, and the newline translation done when a file is read in text mode.
- `Utf8` models strict UTF-8, as in `bytes(s, "utf-8")` and `bytes.decode("utf-8")`, for strings of Unicode scalar values. Both round trips are proved.
- `Common` holds the error taxonomy, `exactly_one` and the shared `last_modified` precedence.

Everything the partitioners call but that is not modelled is passed in as a function-typed field of an `Io` record:
- the filesystem;
- `get_last_modified_date`;
- lxml's parser and XPath evaluation; the parser gives both the tree of the whole stream and the tree built by the time iterparse reports its first event;
- `read_txt_file`;
- `element_from_text`;
- `requests.get`.

Notes on the model:
- `exactly_one` lives in `unstructured/partition/common/common.py`, which is not part of this model. The model treats an argument as supplied when it is not `None` and not `""`. This is the reading under which `md.py` normalises `text=None` to `""` before calling it.
- `partition_md` checks its sources by truthiness but then dispatches with `is not None`. So `filename=""` together with a text passes the check, and the empty path is then opened. `Md.EmptyFilenameIsOpened` states this behaviour as written.

## Model

| member | source | states |
|---|---|---|
| PyStr.Strip | unstructured/partition/xml.py:68 | `str.strip()` is the part of the string between a blank prefix and a blank suffix; it is empty exactly when the string is blank, and otherwise starts and ends with a non-whitespace character |
| PyStr.TranslateNewlines | unstructured/partition/md.py:79-80 | reading a file in text mode leaves no CR; the LF count grows by the CRs minus the CRLF pairs, the length shrinks by the pairs, and every other character is kept in order |
| PyStr.TranslateNewlinesUnits | unstructured/partition/md.py:79-80 | a lone CR becomes an LF, any other single character is kept, and a CRLF pair becomes one LF |
| PyStr.TranslateNewlinesAppend | unstructured/partition/md.py:79-80 | translation is piecewise wherever the cut does not split a CRLF pair, so with the unit cases each CRLF pair and each lone CR becomes one LF in place |
| PyStr.NewlineExamples | unstructured/partition/md.py:79-80 | `"a\rb"` and `"a\r\nb"` both read as `"a\nb"` |
| Utf8.DecodeEncode | unstructured/partition/xml.py:43 | encoding a text as UTF-8 loses nothing: strict decoding of its bytes gives the text back |
| Utf8.EncodeDecode | unstructured/partition/md.py:19 | bytes the strict decoder accepts are exactly the UTF-8 encoding of the decoded text |
| Common.ExactlyOneIff | unstructured/partition/md.py:74 | `exactly_one` passes exactly when one argument is supplied and every other one is absent |
| Common.LastModified | unstructured/partition/xml.py:128-133 | an explicit `metadata_last_modified` wins; else the filesystem date, consulted only for a non-empty filename; else absent |
| XmlTree.Events | unstructured/partition/xml.py:54 | an element's event stream has two events per element of its subtree, opens with its start and closes with its end |
| XmlTree.EndsOfEvents | unstructured/partition/xml.py:54 | the end events of the iterparse stream list the subtree's elements in post-order |
| XmlTree.PostOrder | unstructured/partition/xml.py:63-69 | the post-order has one entry per element and ends with the element itself |
| XmlTree.OwnTexts | unstructured/partition/xml.py:68-69 | the walker yields at most one string per element and never a missing, empty or all-whitespace text |
| XmlTree.OwnTextsSound | unstructured/partition/xml.py:68-69 | every yielded string is, untrimmed, the own text of an element whose text passes the strip test |
| XmlTree.OwnTextsComplete | unstructured/partition/xml.py:67-69 | every element whose text passes the strip test has that text among the yielded strings |
| XmlTree.OwnTextsCount | unstructured/partition/xml.py:63-71 | the number of yielded strings equals the number of elements with non-blank own text |
| XmlTree.FilterPosition | unstructured/partition/xml.py:63-69 | a contributing element at position j yields its text at the output position counted by the contributors before j |
| XmlTree.FilterMonotone | unstructured/partition/xml.py:63-69 | an earlier contributing element's text comes before every later element's text |
| XmlTree.OwnTextsIgnoreChildren | unstructured/partition/xml.py:58-69 | with a selection, only the selected elements' own texts matter; their descendants contribute nothing |
| XmlTree.DescendantsFirst | unstructured/partition/xml.py:63-69 | the texts of an element's descendants all come before its own text, which is last |
| XmlTree.SiblingsInOrder | unstructured/partition/xml.py:63-69 | the subtrees of earlier siblings come before a sibling's subtree, and later siblings after it |
| XmlTree.LeafTextsCount | unstructured/partition/xml.py:63-71 | a document yields no more strings than it has elements, and exactly as many when every element has non-blank text |
| Xml.SelectSource | unstructured/partition/xml.py:37-44 | the check fails unless exactly one source is supplied; a filename wins when truthy, then a file, then the text |
| Xml.SourceBytes | unstructured/partition/xml.py:38-44 | lxml parses the named file's bytes, the stream's bytes, or the text's UTF-8 bytes, which decode back to the text |
| Xml.WalkEvents | unstructured/partition/xml.py:63-69 | the forward loop over start/end events yields the non-blank own texts of the ended elements, in end order |
| Xml.WalkLeaves | unstructured/partition/xml.py:47-69 | the walker yields the document's non-blank own texts in post-order, or the selected elements' in selection order |
| Xml.SelectedEvents | unstructured/partition/xml.py:61 | the `xml_path` branch reports one end event per selected element, in selection order |
| Xml.Leaves | unstructured/partition/xml.py:54-69 | the leaves are the non-blank own texts at the end events of the iterparse stream, or of the end events made for the `xml_path` selection; an XPath failure raises |
| Xml.GetLeafElements | unstructured/partition/xml.py:30-44 | an invalid source combination raises before any reading or parsing; every yielded text is non-blank |
| Xml.GetLeafElementsOfBytes | unstructured/partition/xml.py:30-69 | once the source is read: without `xml_path`, an error anywhere in the stream raises, and otherwise the result is the document's post-order leaf texts; with `xml_path`, only a failure of the first event raises, then an XPath failure raises, and otherwise the result is the own texts of what XPath selects in the tree built so far |
| Xml.LateParseErrorOnlyWhenStreaming | unstructured/partition/xml.py:54-61 | a document lxml rejects only after its first event raises when streamed, but with `xml_path` yields the texts selected in the partial tree |
| Xml.MissingFileRaises | unstructured/partition/xml.py:38-39 | a filename that does not exist raises before parsing |
| Xml.TextIsUtf8File | unstructured/partition/xml.py:42-44 | a non-empty text source gives the same leaves as a file source holding its UTF-8 bytes |
| Xml.Template | unstructured/partition/xml.py:128-137 | filename is `metadata_filename` if non-empty else `filename`, `last_modified` follows the precedence, and the origin assigned is "xml"; nothing is set without metadata |
| Xml.NonEmptyTexts | unstructured/partition/xml.py:157-158 | `if leaf_element:` keeps exactly the non-empty texts, and keeps everything when none is empty |
| Xml.NonEmptyTextsUnit | unstructured/partition/xml.py:157-158 | a single text is kept exactly when it is non-empty |
| Xml.NonEmptyTextsAppend | unstructured/partition/xml.py:157-158 | the filter works piecewise over a concatenation, so it keeps the non-empty texts in order and with their repetitions |
| Xml.ToElements | unstructured/partition/xml.py:157-161 | the k-th element is `element_from_text` of the k-th non-empty text, with the template as metadata; empty texts give no element |
| Xml.RawText | unstructured/partition/xml.py:139-146 | in keep-tags mode a text source is kept exactly as given; a file or stream gives what `read_txt_file` reads from its bytes under the caller's `encoding`, and a missing file raises |
| Xml.PartitionXml | unstructured/partition/xml.py:124-161 | the source check fails first; every element carries the template; keep-tags gives one Text element holding the raw text read under `encoding`; otherwise one element per yielded text, in order |
| Xml.KeepTagsRawText | unstructured/partition/xml.py:139-148 | keep-tags on a text source yields exactly one plain Text element holding the raw text and the template, whatever the `encoding` |
| Xml.KeepTagsIgnoresXmlPath | unstructured/partition/xml.py:139-148 | in keep-tags mode `xml_path` has no effect on the result |
| Xml.KeepTagsFileUsesEncoding | unstructured/partition/xml.py:142-148 | keep-tags on a file source holds the text `read_txt_file` decodes from the file's bytes under the caller's `encoding` |
| Md.OptionalDecode | unstructured/partition/md.py:17-20 | a string is returned unchanged; decoded bytes re-encode to the input; failure is a decode error |
| Md.OptionalDecodeIdempotent | unstructured/partition/md.py:17-20 | applying `optional_decode` to its own output is the identity |
| Md.OptionalDecodeOfEncoded | unstructured/partition/md.py:17-20 | the UTF-8 bytes of a text decode to that text |
| Md.CheckResponse | unstructured/partition/md.py:86-96 | a response is accepted exactly when it is ok and its Content-Type (default "") starts with text/markdown; a non-ok response raises with its status whatever its type |
| Md.ParametersTolerated | unstructured/partition/md.py:90-91 | parameters after `text/markdown` in the Content-Type are accepted |
| Md.MissingContentTypeRejected | unstructured/partition/md.py:90-94 | an ok response without a Content-Type is rejected as type "" |
| Md.ResponseExamples | test_unstructured/partition/test_md.py:79-122 | 200 with text/markdown is accepted; 500 with text/html fails on status; 200 with application/json fails on type |
| Md.ReadTextFile | unstructured/partition/md.py:78-80 | reading a file by name succeeds exactly when it exists and is valid UTF-8; a missing file raises; the text read is the decoded contents with universal newlines |
| Md.ReadEncodedFile | unstructured/partition/md.py:78-80 | a file holding a text's UTF-8 bytes reads back as that text with its line breaks translated |
| Md.Fetch | unstructured/partition/md.py:85-96 | a failed request raises; the URL text is accepted exactly when the response is ok and its Content-Type starts with text/markdown, and is then the response text |
| Md.PartitionMd | unstructured/partition/md.py:71-106 | anything but one supplied source raises; `last_modified` follows the precedence; a file read by name gives its decoded contents with universal newlines |
| Md.FilenameSource | test_unstructured/partition/test_md.py:17-42 | a filename source holding a text's UTF-8 bytes hands on that text with universal newlines, which is the text itself when it has no CR, and the filename's `last_modified` |
| Md.SelectionIff | unstructured/partition/md.py:71-74 | the call raises the selection error exactly when the number of supplied sources is not one |
| Md.NoSourceRaises | test_unstructured/partition/test_md.py:125-127 | a call with no source raises |
| Md.FilenameAndTextRaise | test_unstructured/partition/test_md.py:130-136 | a filename together with a text raises |
| Md.EmptyTextIsAbsent | unstructured/partition/md.py:71-74 | an empty text behaves exactly like no text |
| Md.TextSource | unstructured/partition/md.py:71-106 | a text source is converted as it is, and its `last_modified` is the explicit one or absent |
| Md.FileBytesAsText | unstructured/partition/md.py:82-83 | a binary file holding a text's UTF-8 bytes gives the same result as the text |
| Md.UrlSource | unstructured/partition/md.py:85-96 | a URL source succeeds exactly when the response is ok and markdown-typed, and then hands on the response text with the explicit `last_modified` or none; a non-ok response raises with its status |
| Md.LastModifiedPrecedence | test_unstructured/partition/test_md.py:166-222 | explicit value wins for filename and file sources; a filename alone takes the filesystem date; a file alone has none |
| Md.EmptyFilenameIsOpened | unstructured/partition/md.py:74-80 | an empty filename beside a text passes the check and the empty path is opened |

## Left out

- The hierarchy assigner (`set_element_hierarchy`) and the title chunker (`chunk_by_title`). Their implementations are not part of this model.
- lxml itself: event parsing, `resolve_entities=False`, XPath compilation and evaluation, malformed-XML errors. These are inputs:
  - `Io.parse` gives the tree of the whole stream, or a parse error anywhere in it;
  - `Io.parseHead` gives the tree built by the first event, or an error in that event;
  - `Io.select` gives the selected elements or an XPath error.
  How far lxml has parsed at the first event, and so how complete `parseHead`'s tree is, is left to that input.
- XPath results that are not elements, such as strings from `text()`, are not modelled: a selection is a list of elements.
- `element_stack` bookkeeping and `element.clear()` (xml.py:52, 64-65, 71, 73-74). They do not change what is yielded:
  - in streaming mode an element's text is yielded before it is cleared, and clearing a child at its end event never touches its parent's `.text`, which is read later;
  - in `xml_path` mode, clearing a selected ancestor unlinks its descendants, but a selected descendant keeps its own `.text` because the selection list still holds it; XPath node-sets never repeat an element, so no element is read after it was itself cleared.
- `.tail` text is not in the node type, because the walker never reads it.
- The streaming memory bound is not modelled.
- Without `xml_path`, a parse error raised midway through the stream is modelled as the whole call failing. That is what `partition_xml` does, since it discards the partial list. With `xml_path`, the original iterator is never advanced past its first event, so a later error is never raised; `Io.parseHead` models exactly that.
- `element_from_text` classification is the opaque `Io.fromText`.
- `ElementMetadata` is not part of this model, including how it splits a `filename` into directory and base name, and whether it keeps the `detection_origin` assigned at xml.py:135; that field is a debug field, read by the test suite only when `UNSTRUCTURED_INCLUDE_DEBUG_METADATA` is set. The template records the values passed to it.
- `copy.deepcopy` has no Dafny counterpart. Datatype values are immutable, so every element's metadata is already an independent value.
- Language metadata (`apply_lang_metadata`) is not modelled.
- The `process_metadata`, `add_metadata_with_filetype` and `add_chunking_strategy` decorators are not modelled.
- JSON round-tripping is not modelled.
- `read_txt_file` and its encoding detection are the opaque `Io.readTxt`, which receives the bytes and the `encoding` argument.
- Xml.SourceBytes: a Dafny string cannot hold a lone surrogate, so the `UnicodeEncodeError` that `bytes(text, encoding="utf-8")` raises for such a Python string is not modelled; the text branch always succeeds.
- The markdown-to-HTML conversion and `partition_html` are not modelled. `Md.PartitionMd` returns what would be handed to them.
- The `include_page_breaks`, `include_metadata`, `metadata_filename` and language arguments of `partition_md` are passed on unchanged to `partition_html`, so they are not modelled.
- HTTP is not modelled. `requests.get` is `Io.fetch`, and `response.ok` is taken as given: requests sets it for status codes below 400, while the test suite's mock uses below 300.
- The `Content-Type` lookup is taken as already done. requests' case-insensitive header dictionary is not modelled.
- `get_last_modified_date` is the opaque `Io.lastModified`.
- Error messages are not modelled, only their causes.
