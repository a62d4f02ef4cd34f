# HtmlParser, modelled and verified in Dafny

This project models `HtmlParser` from HtmlParserLibrary. The class turns an
HTML fragment into a JSON tree of elements and text, marks which objects
may be edited, and renders a tree back to markup. It also cuts the
editable text into numbered chunks for an editor, reads the edited text
back into an id → content map, and writes that map back into the tree.

The JSON tree is the datatype `JObj` (module `JsonTree`). Each object has:

- an optional five-digit id;
- a type;
- attributes, in order;
- an editable flag;
- content that is either an array of children or a string.

Serialisation to and from JSON text is not modelled: every operation works
on the tree itself.

Modules, following the stages of the source:

- `Text`: character classes, "D5" and "000" number formatting,
  `String.Replace`, UTF-16 lengths.
- `JsonTree`: the tree, the `##id##` marker, ids, sizes, and post-order
  numbering.
- `TreeBuilder`: `PreprocessHtmlForXml`, `IsEditableElement`, the tree
  builder, and the class `HtmlParser` with its `idCounter` field. The
  `ConvertHtmlToJson` and `ConvertNodeToJson` methods advance that field.
  The XML parser is a parameter.
- `Renderer`: `ConvertJsonToHtml` and `ConvertJsonToHtmlRecursive`. The
  string builder is threaded through, and `None` stands for the exception.
- `Chunker`: `ProcessJsonData` and `ProcessJsonRecursive`. They are
  specified by a left fold over the sequence of appends the walk makes.
- `EditParser`: `ParseEditedContent`. The regular expression is written out
  as a scanner over string positions.
- `Updater`: `UpdateJsonRecursive` and `UpdateJsonWithEditedContent`.
- `Pipeline`: theorems that connect the stages.

### What the proofs establish

Conversion:

- A successful conversion numbers its objects in post-order from the
  counter's current value. Every id is distinct, and a parent's id is
  greater than every id below it.
- A failed parse, or a duplicate attribute name, yields the `rawHtml`
  fallback object, which holds the untouched input.
- Preprocessing only expands self-closing tags and escapes `&`.
- Editability is exactly the source's three conditions.

Rendering:

- A converted document renders back as the markup of what was parsed:
  attributes in order, text as is, comments dropped.
- An element literally named `text` anywhere in the document makes
  rendering throw, because the builder gives it the same type as a text
  node, and `GetString()` on its array content throws.

Chunking:

- The chunk bodies join to the stream of markers and texts.
- Chunks are labelled `##100##`, `##101##`, … in order.
- No body is empty, and every body but the last is at least 4000 UTF-16
  units long.
- A body is cut only after a whole text has been appended.

Reading back and updating:

- What the parser reads back has five-digit ids and values without line
  feeds, without "##", and without surrounding whitespace. The last match
  for an id wins.
- The update is idempotent, and leaves a tree unchanged exactly when the
  tree already agrees with the edits.
- Joining the chunk bodies and sending them back unedited leaves the
  converted tree unchanged. This holds when every id is below 100000 and
  every editable text is "clean". A clean text:
  - is on one line;
  - contains neither "##" nor "# #";
  - does not end in '#';
  - has no whitespace at either end.
- The condition is needed: a text that ends in whitespace comes back
  without it (`TrailingWhitespaceDropped`).

## Model

| member | source | states |
|---|---|---|
| TreeBuilder.ExpandSelfClosingTag | HtmlParser.cs:48 | a self-closing tag `<name rest/>`, the name being a whole word, becomes `<name rest></name>`, and the scan resumes after it |
| TreeBuilder.ExpandWithoutSelfClosing | HtmlParser.cs:48 | markup that contains no "/>" passes through the self-closing rewrite unchanged |
| Text.EscapeAmpersandsRoundTrip | HtmlParser.cs:51 | escaping every `&` as `&amp;` loses nothing: replacing `&amp;` by `&` restores the input |
| TreeBuilder.PreprocessRewrites | HtmlParser.cs:46-54 | preprocessing is the self-closing expansion followed by the `&` escape; undoing the escape gives the expanded markup |
| TreeBuilder.BuiltEditability | HtmlParser.cs:98-114 | a converted element is editable iff its lower-cased name is not img, video, meta, script, style, br or hr, it has no child element, and its text is not null or whitespace |
| TreeBuilder.BuildNodesChildElements | HtmlParser.cs:107 | an element has a child element iff one of its converted children carries an array |
| TreeBuilder.BuildElementText | HtmlParser.cs:72-81 | the concatenated strings of a converted element equal the element's Value |
| TreeBuilder.BuildElementShape | HtmlParser.cs:56-96 | every converted object has an id; text nodes become editable "text" objects with string content and no attributes; elements keep their name and attributes and carry an array |
| TreeBuilder.BuildElementNumbered | HtmlParser.cs:56-96 | a successful conversion consumes exactly one counter value per element and text node, numbered in post-order with the element last; a conversion that throws has consumed between one and that many values |
| TreeBuilder.ThrowPropagates | HtmlParser.cs:65-83 | once a child's conversion throws, the whole element's conversion throws at the same counter value |
| TreeBuilder.HtmlToJsonOutcome | HtmlParser.cs:15-44 | the result is the rawHtml fallback holding the untouched input, or a tree numbered from the counter with distinct ids in which each parent's id exceeds its descendants'; the counter never moves back |
| TreeBuilder.HtmlParser.constructor | HtmlParser.cs:13 | a new parser's counter is 1 |
| TreeBuilder.HtmlParser.ConvertHtmlToJson | HtmlParser.cs:15-44 | the returned tree and the new counter are those of the conversion specification started at the old counter |
| TreeBuilder.HtmlParser.ConvertNodeToJson | HtmlParser.cs:56-96 | the returned object and the new counter agree with the builder specification; an exception leaves the counter where the builder stops |
| JsonTree.NumberedIdSet | HtmlParser.cs:77-88 | the ids of a tree numbered from a are exactly D5(a) to D5(a + size - 1) |
| JsonTree.NumberedUnique | HtmlParser.cs:77-88 | post-order numbering gives every object a distinct id |
| JsonTree.NumberedParentExceeds | HtmlParser.cs:77-88 | under post-order numbering every object's id is numerically greater than each id below it |
| Text.FormatDecimalInjective | HtmlParser.cs:77 | distinct counter values format to distinct ids |
| Text.D5Length | HtmlParser.cs:77 | "D5" formatting gives five digits below 100000 and more from 100000 on |
| Renderer.ConvertJsonToHtmlRecursive | HtmlParser.cs:141-196 | the builder afterwards holds its old contents followed by the object's rendering, and the method throws exactly when the rendering is undefined |
| Renderer.AppendOpenTag | HtmlParser.cs:159-169 | the builder afterwards holds its old contents, then `<` and the type, then ` name="value"` for each attribute in order, then `>` |
| Renderer.AppendChildren | HtmlParser.cs:173-179 | the loop over an array throws iff rendering some child throws; otherwise the builder holds its old contents followed by the children's renderings in order |
| Renderer.RenderKidsFailurePropagates | HtmlParser.cs:175-178 | a child whose rendering throws ends the rendering of all its siblings' parent |
| Renderer.ConvertJsonToHtml | HtmlParser.cs:116-139 | the result is the specification: a root's children rendered and then unescaped, throwing when a child's rendering or the unescaping throws; anything else rendered whole |
| Pipeline.RenderBuiltElement | HtmlParser.cs:141-196 | a converted element renders as the markup of the parsed element, and throws iff some element in it is named "text" |
| Pipeline.DocumentRendersBack | HtmlParser.cs:116-139 | a converted document renders back as the unescaped markup of the wrapper's children; it throws iff some element in it is named "text" or the unescaping of that markup throws |
| Pipeline.FallbackRendersRaw | HtmlParser.cs:37-42 | the fallback object renders as the untouched input inside `<rawHtml>` … `</rawHtml>` |
| Chunker.ProcessJsonRecursive | HtmlParser.cs:217-276 | the chunk buffer, the list and the chunk index afterwards are those of the fold over the object's appends |
| Chunker.ProcessChildren | HtmlParser.cs:253-258 | walking the children one after another, each on the buffer, list and index the previous one left, gives the state of the fold over all their appends |
| Chunker.AppendContent | HtmlParser.cs:262-271 | appending an editable text and cutting once the buffer reaches 4000 UTF-16 units gives the buffer, list and index of one step of the fold |
| Chunker.FeedPreservesText | HtmlParser.cs:217-276 | cutting loses and reorders nothing: the cut bodies followed by the buffer spell the old bodies, the old buffer and every append, in order |
| Chunker.ProcessJsonData | HtmlParser.cs:199-215 | the result is the labelled chunk bodies of the fold, plus the non-empty remainder |
| Chunker.ChunkBodiesConcat | HtmlParser.cs:217-276 | the chunk bodies joined together are exactly the stream of markers and texts the walk appends |
| Chunker.ChunkBodiesSizes | HtmlParser.cs:223-228 | no chunk body is empty, and every body but the last is at least 4000 UTF-16 units long |
| Chunker.LabelledAt | HtmlParser.cs:205-211 | the k-th chunk is the header with index 100 + k followed by the k-th body |
| Chunker.SmallTreeSingleChunk | HtmlParser.cs:209-212 | a stream shorter than 4000 units gives no chunk when empty and otherwise the single chunk "##100##" followed by the stream |
| Chunker.MarkersAreEditableIds | HtmlParser.cs:241-249 | a marker is written for an id iff some editable object carries that id |
| EditParser.ParseEditedContent | HtmlParser.cs:278-299 | the result is the map built from every match of the pattern over the normalised text, in order |
| EditParser.ParseEditedWellFormed | HtmlParser.cs:282-292 | every parsed id has five digits, and every parsed value is one line without "##" and without whitespace at either end |
| EditParser.LastWinsLast | HtmlParser.cs:287-293 | an id is in the map iff some match has it, and its value is that of the last such match |
| EditParser.MarkerMatch | HtmlParser.cs:282 | a marker with a five-digit id followed by a clean value, after which the lookahead holds, is matched with exactly that id and value |
| EditParser.NormalizeIdentity | HtmlParser.cs:280 | text without "# #" is left alone by the normalisation |
| EditParser.ParseEditedSegText | HtmlParser.cs:278-299 | the text of (id, value) pairs with five-digit ids and clean values reads back as those pairs, the last value of each id winning |
| EditParser.TrailingWhitespaceDropped | HtmlParser.cs:282 | a value followed by whitespace is read back without that whitespace |
| Updater.UpdateJsonRecursive | HtmlParser.cs:306-346 | the result is the update specification: id, type, attributes and editability kept; a non-root object with a non-empty entry gets that string as content; otherwise each child of an array is updated |
| Updater.UpdateChildren | HtmlParser.cs:326-336 | the array afterwards holds, at each position, the update of the element that was there, as a non-root object |
| Updater.UpdateJsonWithEditedContent | HtmlParser.cs:348-356 | the update with the top object treated as root; a top object with string content is returned unchanged |
| Updater.UpdatedKidsAt | HtmlParser.cs:328-336 | each child is updated on its own, as a non-root object |
| Updater.UpdateFixedPoint | HtmlParser.cs:306-346 | the update changes nothing iff every object already carries what the edits give it |
| Updater.UpdatedConsistent | HtmlParser.cs:313-320 | after the update every object carries what the edits give it |
| Updater.UpdateIdempotent | HtmlParser.cs:306-346 | applying the same edits twice gives the same tree as applying them once |
| Updater.EmptyEditIgnored | HtmlParser.cs:316 | an empty entry for an id acts as no entry for it |
| Updater.UnknownIdsChangeNothing | HtmlParser.cs:308-336 | edits whose ids no object of the tree carries leave the tree unchanged |
| Updater.EditTouchesOnlyItsObject | HtmlParser.cs:308-336 | editing one id changes nothing but the content of the non-root objects that carry it: with those contents blanked out, the tree before and after is the same |
| Updater.EditReachesItsObject | HtmlParser.cs:313-320 | a non-empty edit of an id that a non-root object carries reaches it: afterwards an object with that id holds exactly the edited string |
| Pipeline.UneditedTextChangesNothing | HtmlParser.cs:278-346 | for a tree with distinct ids whose editable objects have five-digit ids and clean strings, reading back the written-out text and updating leaves the tree unchanged |
| Pipeline.ConvertedUneditedChangesNothing | HtmlParser.cs:199-356 | a converted document whose ids stay below 100000 and whose editable strings are clean is left unchanged by joining its chunk bodies, reading them back and updating |

## Left out

- Class1.cs is a superseded revision of the same `HtmlParser` class, without ids, edit parsing or merging, whose chunk walk uses `lock` and `Interlocked.Increment`. It is not part of this model.
- `XDocument.Parse` is a parameter `parse: string -> XParse` that gives an element tree or failure. Which inputs parse, and to what, is left to it. Entity decoding is its business too, so the effect of escaping an `&` that already began an entity is not modelled.
- `Regex.Unescape` is a parameter `unescape: string -> Option<string>`. `None` stands for the `ArgumentException` it throws on an unrecognised escape such as `\p` or on a trailing backslash. Which strings it accepts, and what it makes of them, is left to the parameter.
- JSON serialisation and deserialisation are not modelled: every operation takes and returns the tree. The options on the serialiser (relaxed escaping, indentation) are left out with them.
- `CloneJsonObject` round-trips a node through its JSON text. That gives a copy equal to the original, and on values a copy is the value itself.
- Malformed JSON input, and JSON whose shape differs from what the conversion produces, are left out. This covers a number or an object as content, a missing property, a string or number at the top of the chunk walk, and non-object array items in the updater. The exceptions and fall-throughs on those paths are not modelled.
- `\d`, `\w` and `ToLower` are modelled on ASCII. `\s` is the full `char.IsWhiteSpace` set.
- TreeBuilder.HtmlParser.ConvertHtmlToJson: the counter is an unbounded natural number. The source's `int` would wrap after 2^31 - 1 ids; that is not modelled.
- `chunkCounter` is passed around by the source but never read, so it is left out.
- `ToDictionary` keeps attributes in document order here. A duplicate local name throws, which is modelled as the fallback.
- The `StringBuilder`, the list and the `ref` chunk index of the chunk walk are threaded as in and out parameters of the methods, not shared objects. Nothing else holds them.
- The updater is modelled on values. `UpdateJsonRecursive` overwrites the `content` of the top object it is given, and the elements of that object's array, in place, and returns that same object. The model returns the new value, which is what the caller's reference holds afterwards. The model does not capture that the caller's object itself is changed, so a caller still holding the old tree sees it overwritten. Nested objects are cloned before they are updated. `UpdateJsonWithEditedContent` deserialises a fresh top object, so nothing outside it is touched.
- Pipeline.ConvertedUneditedChangesNothing joins the chunk bodies without their `##NNN##` headers. Headers of index 100 to 999 have three digits and cannot be read as an id; that this holds inside the joined text is not proved. From index 10000 on, a header has five digits and would be read as a marker with an empty value.
