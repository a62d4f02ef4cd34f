/**
  How the stages fit together: a converted document renders back to the
  markup it was parsed from, and the text handed out for editing, sent back
  unedited, leaves the tree as it was.
 */
module Pipeline {
  import opened Text
  import opened JsonTree
  import opened TreeBuilder
  import opened Renderer
  import opened Chunker
  import opened EditParser
  import opened Updater

  // ---------------------------------------------------------------------
  // Converting and rendering back
  // ---------------------------------------------------------------------

  /** The parsed element written out as markup: its attributes in order and
      unescaped, its text as is, comments and other nodes dropped, and every
      element with an explicit closing tag. */
  function Markup(e: XElement): string
    decreases Element(e)
  {
    "<" + e.name + AttrsMarkup(e.attrs) + ">" + NodesMarkup(e.nodes) + "</" + e.name + ">"
  }

  function NodesMarkup(ns: seq<XNode>): string
    decreases ns
  {
    if ns == [] then []
    else
      NodesMarkup(ns[..|ns| - 1]) +
      match ns[|ns| - 1]
      case Element(c) => Markup(c)
      case TextNode(v) => v
      case OtherNode => []
  }

  /** No element of the subtree is named "text". */
  predicate NoTextElement(e: XElement)
    decreases Element(e)
  {
    e.name != "text" && NoTextElementNodes(e.nodes)
  }

  predicate NoTextElementNodes(ns: seq<XNode>)
    decreases ns
  {
    ns == [] ||
    (&& NoTextElementNodes(ns[..|ns| - 1])
     && match ns[|ns| - 1]
        case Element(c) => NoTextElement(c)
        case TextNode(_) => true
        case OtherNode => true)
  }

  /** A converted element renders as the markup it came from; an element
      named "text" anywhere in it becomes a "text" object with an array,
      and rendering throws. */
  lemma {:induction false} RenderBuiltElement(e: XElement, start: nat)
    requires BuildElement(e, start).Built?
    ensures RenderNode(BuildElement(e, start).value) ==
            if NoTextElement(e) then Some(Markup(e)) else None
    decreases Element(e)
  {
    RenderBuiltNodes(e.nodes, start);
    var o := BuildElement(e, start).value;
    assert o.typ == e.name && o.attrs == e.attrs && o.content == Kids(BuildNodes(e.nodes, start).value);
    if e.name != "text" && NoTextElementNodes(e.nodes) {
      assert OpenTag(o) + NodesMarkup(e.nodes) + CloseTag(o) == Markup(e);
    }
  }

  lemma {:induction false} RenderBuiltNodes(ns: seq<XNode>, start: nat)
    requires BuildNodes(ns, start).Built?
    ensures RenderKids(BuildNodes(ns, start).value) ==
            if NoTextElementNodes(ns) then Some(NodesMarkup(ns)) else None
    decreases ns
  {
    if ns != [] {
      var init := ns[..|ns| - 1];
      RenderBuiltNodes(init, start);
      var objs, n := BuildNodes(init, start).value, BuildNodes(init, start).next;
      var ok, text := NoTextElementNodes(init), NodesMarkup(init);
      match ns[|ns| - 1]
      case Element(c) =>
        RenderBuiltElement(c, n);
        RenderKidsSnoc(objs, BuildElement(c, n).value, ok, text, NoTextElement(c), Markup(c));
      case TextNode(v) =>
        RenderKidsSnoc(objs, TextObj(D5(n), v), ok, text, true, v);
        assert text + v == NodesMarkup(ns);
      case OtherNode =>
        assert text + [] == text;
    }
  }

  /** Rendering one more object after the ones already rendered. */
  lemma RenderKidsSnoc(objs: seq<JObj>, o: JObj, ok: bool, text: string, okLast: bool, last: string)
    requires RenderKids(objs) == if ok then Some(text) else None
    requires RenderNode(o) == if okLast then Some(last) else None
    ensures RenderKids(objs + [o]) == if ok && okLast then Some(text + last) else None
  {
    assert (objs + [o])[..|objs|] == objs;
  }

  /** The fallback object renders as the untouched input inside a rawHtml
      element. */
  lemma FallbackRendersRaw(html: string, unescape: string -> Option<string>)
    ensures JsonToHtml(Fallback(html), unescape) == Some("<rawHtml>" + html + "</rawHtml>")
  {
    var o := Fallback(html);
    assert AttrsMarkup([]) == [];
    assert OpenTag(o) == "<rawHtml>";
    assert CloseTag(o) == "</rawHtml>";
    assert RenderNode(o) == Some(OpenTag(o) + html + CloseTag(o));
  }

  /** A document that parses into the wrapper element and converts without
      throwing renders back as the markup of the wrapper's children, passed
      through the unescaping. It throws exactly when some element in it is
      named "text" or the unescaping throws. */
  lemma DocumentRendersBack(html: string, parse: string -> XParse, counter: nat,
                            unescape: string -> Option<string>, root: XElement)
    requires parse(Wrap(PreprocessHtmlForXml(html))) == Parsed(root) && root.name == "root"
    requires BuildElement(root, counter).Built?
    ensures JsonToHtml(HtmlToJson(html, parse, counter).0, unescape) ==
            if NoTextElementNodes(root.nodes) then unescape(NodesMarkup(root.nodes)) else None
  {
    RenderBuiltNodes(root.nodes, counter);
  }

  // ---------------------------------------------------------------------
  // The text handed out for editing
  // ---------------------------------------------------------------------

  lemma {:induction false} FlatAppend(a: seq<Piece>, b: seq<Piece>)
    ensures Flat(a + b) == Flat(a) + Flat(b)
    decreases b
  {
    if b != [] {
      assert (a + b)[..|a + b| - 1] == a + b[..|b| - 1];
      FlatAppend(a, b[..|b| - 1]);
    } else {
      assert a + b == a;
    }
  }

  /** The (id, value) pairs the walk writes: each editable object with an
      id gives its id with its string, or with nothing when its content is
      an array (its children follow). */
  function Segments(o: JObj): seq<(string, string)>
    decreases o
  {
    (if o.editable && o.id.Some? then [(o.id.value, if o.content.Str? then o.content.text else [])] else []) +
    match o.content
    case Str(_) => []
    case Kids(ks) => SegmentsKids(ks)
  }

  function SegmentsKids(ks: seq<JObj>): seq<(string, string)>
    decreases ks
  {
    if ks == [] then [] else SegmentsKids(ks[..|ks| - 1]) + Segments(ks[|ks| - 1])
  }

  /** Every editable object carries a five-digit id and, when its content
      is a string, a clean one. */
  predicate Portable(o: JObj)
    decreases o
  {
    && (o.editable ==> o.id.Some? && |o.id.value| == 5 && AllDigits(o.id.value))
    && (o.editable && o.content.Str? ==> Clean(o.content.text))
    && match o.content
       case Str(_) => true
       case Kids(ks) => PortableKids(ks)
  }

  predicate PortableKids(ks: seq<JObj>)
    decreases ks
  {
    ks == [] || (PortableKids(ks[..|ks| - 1]) && Portable(ks[|ks| - 1]))
  }

  lemma TransportableAppend(a: seq<(string, string)>, b: seq<(string, string)>)
    requires Transportable(a) && Transportable(b)
    ensures Transportable(a + b)
  {
    forall k | 0 <= k < |a + b|
      ensures |(a + b)[k].0| == 5 && AllDigits((a + b)[k].0) && Clean((a + b)[k].1)
    {
      if k >= |a| {
        assert (a + b)[k] == b[k - |a|];
      }
    }
  }

  /** The text of one marker piece, and of one content piece. */
  lemma FlatSingles(id: string, t: string)
    ensures Flat([Marker(id)]) == MarkerText(id)
    ensures Flat([Content(t)]) == t
    ensures SegText([(id, t)]) == MarkerText(id) + t
  {
    assert [Marker(id)][..0] == [];
    assert [Content(t)][..0] == [];
    assert [(id, t)][1..] == [];
  }

  /** An object with string content: its marker and its string, if editable. */
  lemma FlatSegmentsStr(o: JObj, s: string)
    requires Portable(o) && o.content == Str(s)
    ensures Flat(Pieces(o)) == SegText(Segments(o))
    ensures Transportable(Segments(o))
  {
    if o.editable {
      var id := o.id.value;
      assert Pieces(o) == [Marker(id)] + [Content(s)];
      FlatAppend([Marker(id)], [Content(s)]);
      FlatSingles(id, s);
      assert Segments(o) == [(id, s)];
    } else {
      assert Pieces(o) == [] && Segments(o) == [];
    }
  }

  /** The walk writes exactly the text of the object's pairs, and these
      pairs can be read back. */
  lemma {:induction false} FlatSegments(o: JObj)
    requires Portable(o)
    ensures Flat(Pieces(o)) == SegText(Segments(o))
    ensures Transportable(Segments(o))
    decreases o
  {
    match o.content
    case Str(s) => FlatSegmentsStr(o, s);
    case Kids(ks) =>
      FlatSegmentsKids(ks);
      FlatSegmentsArray(o, ks);
  }

  /** An object with array content: its marker, if editable, then its
      children's text. */
  lemma FlatSegmentsArray(o: JObj, ks: seq<JObj>)
    requires Portable(o) && o.content == Kids(ks)
    requires Flat(PiecesKids(ks)) == SegText(SegmentsKids(ks)) && Transportable(SegmentsKids(ks))
    ensures Flat(Pieces(o)) == SegText(Segments(o))
    ensures Transportable(Segments(o))
  {
    var own: seq<(string, string)> := if o.editable then [(o.id.value, [])] else [];
    assert Segments(o) == own + SegmentsKids(ks);
    assert Pieces(o) == MarkerPieces(o) + PiecesKids(ks);
    FlatAppend(MarkerPieces(o), PiecesKids(ks));
    SegTextAppend(own, SegmentsKids(ks));
    assert Transportable(own);
    TransportableAppend(own, SegmentsKids(ks));
    if o.editable {
      FlatSingles(o.id.value, []);
      assert MarkerText(o.id.value) + [] == MarkerText(o.id.value);
    }
  }

  lemma {:induction false} FlatSegmentsKids(ks: seq<JObj>)
    requires PortableKids(ks)
    ensures Flat(PiecesKids(ks)) == SegText(SegmentsKids(ks))
    ensures Transportable(SegmentsKids(ks))
    decreases ks
  {
    if ks != [] {
      var init, last := ks[..|ks| - 1], ks[|ks| - 1];
      FlatSegmentsKids(init);
      FlatSegments(last);
      FlatAppend(PiecesKids(init), Pieces(last));
      SegTextAppend(SegmentsKids(init), Segments(last));
      TransportableAppend(SegmentsKids(init), Segments(last));
    }
  }

  // ---------------------------------------------------------------------
  // Reading the text back and updating
  // ---------------------------------------------------------------------

  /** The (id, string) of every object with string content. */
  function StrPairs(o: JObj): set<(string, string)>
    decreases o
  {
    match o.content
    case Str(s) => if o.id.Some? then {(o.id.value, s)} else {}
    case Kids(ks) => StrPairsKids(ks)
  }

  function StrPairsKids(ks: seq<JObj>): set<(string, string)>
    decreases ks
  {
    if ks == [] then {} else StrPairsKids(ks[..|ks| - 1]) + StrPairs(ks[|ks| - 1])
  }

  lemma {:induction false} StrPairsIds(o: JObj)
    ensures forall p :: p in StrPairs(o) ==> p.0 in IdSet(o)
    decreases o
  {
    match o.content
    case Str(_) =>
    case Kids(ks) => StrPairsKidsIds(ks);
  }

  lemma {:induction false} StrPairsKidsIds(ks: seq<JObj>)
    ensures forall p :: p in StrPairsKids(ks) ==> p.0 in IdSetKids(ks)
    decreases ks
  {
    if ks != [] {
      StrPairsKidsIds(ks[..|ks| - 1]);
      StrPairsIds(ks[|ks| - 1]);
    }
  }

  /** Every non-empty entry of the edits for an id of the subtree is the
      string of an object of the subtree with that id. */
  predicate MapAgrees(edits: map<string, string>, o: JObj) {
    forall k :: k in edits && edits[k] != [] && k in IdSet(o) ==> (k, edits[k]) in StrPairs(o)
  }

  predicate MapAgreesKids(edits: map<string, string>, ks: seq<JObj>) {
    forall k :: k in edits && edits[k] != [] && k in IdSetKids(ks) ==> (k, edits[k]) in StrPairsKids(ks)
  }

  /** With distinct ids, edits that agree with the tree's strings leave it
      consistent. */
  lemma {:induction false} AgreeConsistent(o: JObj, edits: map<string, string>, isRoot: bool)
    requires UniqueIds(o) && MapAgrees(edits, o)
    ensures Consistent(o, edits, isRoot)
    decreases o
  {
    match o.content
    case Str(_) =>
    case Kids(ks) =>
      StrPairsKidsIds(ks);
      AgreeConsistentKids(ks, edits);
  }

  lemma {:induction false} AgreeConsistentKids(ks: seq<JObj>, edits: map<string, string>)
    requires UniqueIdsKids(ks) && MapAgreesKids(edits, ks)
    ensures ConsistentKids(ks, edits)
    decreases ks
  {
    if ks != [] {
      var init, last := ks[..|ks| - 1], ks[|ks| - 1];
      StrPairsKidsIds(init);
      StrPairsIds(last);
      AgreeConsistentKids(init, edits);
      AgreeConsistent(last, edits, false);
    }
  }

  /** A pair with a non-empty value comes from an object with that string. */
  lemma {:induction false} SegmentsFromStrings(o: JObj)
    ensures forall i :: 0 <= i < |Segments(o)| && Segments(o)[i].1 != [] ==> Segments(o)[i] in StrPairs(o)
    decreases o
  {
    match o.content
    case Str(_) =>
    case Kids(ks) => SegmentsKidsFromStrings(ks);
  }

  lemma {:induction false} SegmentsKidsFromStrings(ks: seq<JObj>)
    ensures forall i :: 0 <= i < |SegmentsKids(ks)| && SegmentsKids(ks)[i].1 != [] ==> SegmentsKids(ks)[i] in StrPairsKids(ks)
    decreases ks
  {
    if ks != [] {
      var init, last := ks[..|ks| - 1], ks[|ks| - 1];
      SegmentsKidsFromStrings(init);
      SegmentsFromStrings(last);
      var a: seq<(string, string)>, b: seq<(string, string)> := SegmentsKids(init), Segments(last);
      forall i | 0 <= i < |a + b| && (a + b)[i].1 != []
        ensures (a + b)[i] in StrPairsKids(ks)
      {
        if i < |a| {
          assert (a + b)[i] == a[i];
        } else {
          assert (a + b)[i] == b[i - |a|];
        }
      }
    }
  }

  /** Sending the written-out text back unedited leaves any tree with
      distinct ids and portable content unchanged. */
  lemma UneditedTextChangesNothing(o: JObj)
    requires UniqueIds(o) && Portable(o)
    ensures Updated(o, ParseEdited(Flat(Pieces(o))), true) == o
  {
    var ss := Segments(o);
    FlatSegments(o);
    ParseEditedSegText(ss);
    var m := LastWins(ss);
    SegmentsFromStrings(o);
    forall k | k in m && m[k] != [] && k in IdSet(o)
      ensures (k, m[k]) in StrPairs(o)
    {
      LastWinsLast(ss, k);
    }
    AgreeConsistent(o, m, true);
    UpdateFixedPoint(o, m, true);
  }

  /** Every editable object with string content holds a clean string. */
  predicate CleanTexts(o: JObj)
    decreases o
  {
    match o.content
    case Str(s) => o.editable ==> Clean(s)
    case Kids(ks) => CleanTextsKids(ks)
  }

  predicate CleanTextsKids(ks: seq<JObj>)
    decreases ks
  {
    ks == [] || (CleanTextsKids(ks[..|ks| - 1]) && CleanTexts(ks[|ks| - 1]))
  }

  /** Ids handed out below 100000 have five digits. */
  lemma {:induction false} NumberedPortable(o: JObj, a: nat)
    requires Numbered(o, a) && a + Size(o) <= 100000 && CleanTexts(o)
    ensures Portable(o)
    decreases o
  {
    D5Length(a + Size(o) - 1);
    match o.content
    case Str(_) =>
    case Kids(ks) => NumberedKidsPortable(ks, a);
  }

  lemma {:induction false} NumberedKidsPortable(ks: seq<JObj>, a: nat)
    requires NumberedKids(ks, a) && a + SizeKids(ks) <= 100000 && CleanTextsKids(ks)
    ensures PortableKids(ks)
    decreases ks
  {
    if ks != [] {
      var init := ks[..|ks| - 1];
      NumberedKidsPortable(init, a);
      NumberedPortable(ks[|ks| - 1], a + SizeKids(init));
    }
  }

  /** A converted document whose ids all stay below 100000 and whose
      editable strings are clean: joining the chunk bodies ProcessJsonData
      produces and sending them back unedited leaves the tree unchanged. */
  lemma ConvertedUneditedChangesNothing(html: string, parse: string -> XParse, counter: nat)
    requires HtmlToJson(html, parse, counter).1 <= 100000
    requires CleanTexts(HtmlToJson(html, parse, counter).0)
    ensures var o := HtmlToJson(html, parse, counter).0;
      Updated(o, ParseEdited(Concat(ChunkBodies(o))), true) == o
  {
    var (o, next) := HtmlToJson(html, parse, counter);
    HtmlToJsonOutcome(html, parse, counter);
    ChunkBodiesConcat(o);
    if o != Fallback(html) {
      NumberedPortable(o, counter);
    }
    UneditedTextChangesNothing(o);
  }
}
