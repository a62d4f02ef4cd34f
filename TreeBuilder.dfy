/**
  HtmlToJson: normalise the markup, wrap it in <root>, hand it to the XML
  parser, and turn the parsed element tree into a JObj tree whose ids come
  from the parser object's own `idCounter`. The XML parser itself is a
  parameter; its result is the element tree below, or failure.
 */
module TreeBuilder {
  import opened Text
  import opened JsonTree

  /** The parsed XML tree as the builder sees it: an element has its local
      name, its attributes (local name, value) in document order and its child
      nodes; text covers XText and XCData; comments and processing
      instructions are `OtherNode`. */
  datatype XElement = XElement(name: string, attrs: seq<Attr>, nodes: seq<XNode>)
  datatype XNode = Element(elem: XElement) | TextNode(value: string) | OtherNode

  datatype XParse = Parsed(root: XElement) | ParseFailed

  // ---------------------------------------------------------------------
  // Markup normaliser (PreprocessHtmlForXml)
  // ---------------------------------------------------------------------

  /** Length of the longest prefix of `\w` characters. */
  function WordRun(s: string): (n: nat)
    ensures n <= |s|
    ensures forall i :: 0 <= i < n ==> IsWordChar(s[i])
    ensures n < |s| ==> !IsWordChar(s[n])
  {
    if s != [] && IsWordChar(s[0]) then 1 + WordRun(s[1..]) else 0
  }

  function IndexOf(s: string, c: char): (r: Option<nat>)
    ensures r.Some? ==> r.value < |s| && s[r.value] == c
    ensures r.Some? ==> forall j :: 0 <= j < r.value ==> s[j] != c
    ensures r.None? ==> forall j :: 0 <= j < |s| ==> s[j] != c
  {
    if s == [] then None
    else if s[0] == c then Some(0)
    else match IndexOf(s[1..], c)
      case Some(k) => Some(k + 1)
      case None => None
  }

  /** One match of `<(\w+)([^>]*)/>` at the start of s: the tag name, what
      lies between it and "/>", and the length of the whole match. */
  datatype SelfClosing = SelfClosing(name: string, rest: string, len: nat)

  function SelfClosingAt(s: string): (r: Option<SelfClosing>)
    ensures r.Some? ==> 0 < r.value.len <= |s|
  {
    if |s| >= 2 && s[0] == '<' && IsWordChar(s[1]) then
      var t := s[1..];
      var n := WordRun(t);
      match IndexOf(t, '>')
      case Some(q) =>
        if t[q - 1] == '/' then
          assert n <= q - 1 by { assert !IsWordChar(t[q - 1]); }
          Some(SelfClosing(t[..n], t[n..q - 1], q + 2))
        else None
      case None => None
    else None
  }

  /** What is matched is spelt `<name rest/>`. */
  lemma SelfClosingAtSpelling(s: string)
    requires SelfClosingAt(s).Some?
    ensures s[..SelfClosingAt(s).value.len]
         == "<" + SelfClosingAt(s).value.name + SelfClosingAt(s).value.rest + "/>"
  {
    var t := s[1..];
    var n := WordRun(t);
    var q := IndexOf(t, '>').value;
    assert n <= q - 1 by { assert !IsWordChar(t[q - 1]); }
    assert s[..q + 2] == "<" + t[..n] + t[n..q - 1] + "/>";
  }

  /** Regex.Replace(s, @"<(\w+)([^>]*)/>", "<$1$2></$1>"): scan left to
      right, rewrite each match and resume after it. */
  function ExpandSelfClosingTags(s: string): string
    decreases |s|
  {
    if s == [] then []
    else match SelfClosingAt(s)
      case Some(m) => "<" + m.name + m.rest + "></" + m.name + ">" + ExpandSelfClosingTags(s[m.len..])
      case None => [s[0]] + ExpandSelfClosingTags(s[1..])
  }

  function PreprocessHtmlForXml(html: string): string
  {
    EscapeAmpersands(ExpandSelfClosingTags(html))
  }

  function Wrap(s: string): string { "<root>" + s + "</root>" }

  /** Preprocessing makes exactly two rewrites: self-closing tags are
      expanded, then every '&' is escaped, and undoing the escape gives back
      the expanded markup. */
  lemma PreprocessRewrites(html: string)
    ensures UnescapeAmpersands(PreprocessHtmlForXml(html)) == ExpandSelfClosingTags(html)
  {
    EscapeAmpersandsRoundTrip(ExpandSelfClosingTags(html));
  }

  lemma {:induction false} WordRunOfWord(w: string, x: string)
    requires forall i :: 0 <= i < |w| ==> IsWordChar(w[i])
    requires x == [] || !IsWordChar(x[0])
    ensures WordRun(w + x) == |w|
  {
    if w != [] {
      assert (w + x)[1..] == w[1..] + x;
      WordRunOfWord(w[1..], x);
    } else {
      assert w + x == x;
    }
  }

  lemma {:induction false} IndexOfFirst(u: string, c: char, x: string)
    requires forall i :: 0 <= i < |u| ==> u[i] != c
    ensures IndexOf(u + [c] + x, c) == Some(|u|)
  {
    if u != [] {
      assert (u + [c] + x)[1..] == u[1..] + [c] + x;
      IndexOfFirst(u[1..], c, x);
    }
  }

  /** After the '<' of `<name rest/>`: the word run is the name and the
      first '>' is the one that closes the tag. */
  lemma SelfClosingScan(name: string, rest: string, tail: string)
    requires forall i :: 0 <= i < |name| ==> IsWordChar(name[i])
    requires forall i :: 0 <= i < |rest| ==> rest[i] != '>'
    requires rest == [] || !IsWordChar(rest[0])
    ensures WordRun(name + rest + "/>" + tail) == |name|
    ensures IndexOf(name + rest + "/>" + tail, '>') == Some(|name| + |rest| + 1)
  {
    var after := rest + "/>" + tail;
    assert name + rest + "/>" + tail == name + after;
    assert after[0] == if rest == [] then '/' else rest[0];
    WordRunOfWord(name, after);
    var u := name + rest + "/";
    assert name + rest + "/>" + tail == u + ">" + tail;
    forall i | 0 <= i < |u|
      ensures u[i] != '>'
    {
      if i < |name| {
        assert u[i] == name[i];
      } else if i < |name| + |rest| {
        assert u[i] == rest[i - |name|];
      }
    }
    IndexOfFirst(u, '>', tail);
  }

  lemma SelfClosingAtTag(name: string, rest: string, tail: string)
    requires name != [] && forall i :: 0 <= i < |name| ==> IsWordChar(name[i])
    requires forall i :: 0 <= i < |rest| ==> rest[i] != '>'
    requires rest == [] || !IsWordChar(rest[0])
    ensures SelfClosingAt("<" + name + rest + "/>" + tail) == Some(SelfClosing(name, rest, |name| + |rest| + 3))
  {
    var t := name + rest + "/>" + tail;
    var s := "<" + name + rest + "/>" + tail;
    assert s == "<" + t && s[1..] == t;
    assert s[1] == name[0];
    SelfClosingScan(name, rest, tail);
    var q := |name| + |rest| + 1;
    assert t[q - 1] == '/';
    assert t[..|name|] == name;
    assert t[|name|..q - 1] == rest;
    SelfClosingAtParts(s, name, rest, q);
  }

  /** The match read off from where the name ends and where the first '>' is. */
  lemma SelfClosingAtParts(s: string, name: string, rest: string, q: nat)
    requires |s| >= 2 && s[0] == '<' && IsWordChar(s[1])
    requires IndexOf(s[1..], '>') == Some(q) && 0 < q && s[1..][q - 1] == '/'
    requires WordRun(s[1..]) == |name| <= q - 1
    requires s[1..][..|name|] == name && s[1..][|name|..q - 1] == rest
    ensures SelfClosingAt(s) == Some(SelfClosing(name, rest, q + 2))
  {
  }

  /** A self-closing tag `<name rest/>` becomes `<name rest></name>`; the
      name is the whole word, so `rest` must not continue it. */
  lemma ExpandSelfClosingTag(name: string, rest: string, tail: string)
    requires name != [] && forall i :: 0 <= i < |name| ==> IsWordChar(name[i])
    requires forall i :: 0 <= i < |rest| ==> rest[i] != '>'
    requires rest == [] || !IsWordChar(rest[0])
    ensures ExpandSelfClosingTags("<" + name + rest + "/>" + tail)
         == "<" + name + rest + "></" + name + ">" + ExpandSelfClosingTags(tail)
  {
    var s := "<" + name + rest + "/>" + tail;
    SelfClosingAtTag(name, rest, tail);
    assert s[|name| + |rest| + 3..] == tail;
  }

  /** Markup with no "/>" anywhere passes through the self-closing rewrite unchanged. */
  lemma {:induction false} ExpandWithoutSelfClosing(s: string)
    requires forall i :: 0 <= i < |s| - 1 ==> !(s[i] == '/' && s[i + 1] == '>')
    ensures ExpandSelfClosingTags(s) == s
    decreases |s|
  {
    if s != [] {
      assert SelfClosingAt(s).None?;
      ExpandWithoutSelfClosing(s[1..]);
      assert [s[0]] + s[1..] == s;
    }
  }

  // ---------------------------------------------------------------------
  // Editability (IsEditableElement)
  // ---------------------------------------------------------------------

  const NonEditableTags: seq<string> := ["img", "video", "meta", "script", "style", "br", "hr"]

  /** XElement.Value: the text of every descendant text node, in document order. */
  function ElementValue(e: XElement): string
    decreases Element(e)
  {
    NodesValue(e.nodes)
  }

  function NodesValue(ns: seq<XNode>): string
    decreases ns
  {
    if ns == [] then []
    else
      NodesValue(ns[..|ns| - 1]) +
      match ns[|ns| - 1]
      case Element(c) => ElementValue(c)
      case TextNode(v) => v
      case OtherNode => []
  }

  /** element.Elements().Any() */
  predicate HasChildElements(e: XElement) {
    AnyElement(e.nodes)
  }

  predicate AnyElement(ns: seq<XNode>) {
    ns != [] && (AnyElement(ns[..|ns| - 1]) || ns[|ns| - 1].Element?)
  }

  predicate IsEditableElement(e: XElement) {
    && ToLower(e.name) !in NonEditableTags
    && !HasChildElements(e)
    && !IsNullOrWhiteSpace(ElementValue(e))
  }

  // ---------------------------------------------------------------------
  // Tree builder (ConvertNodeToJson) as a specification
  // ---------------------------------------------------------------------

  /** A result together with the counter value after it, or the exception
      that ended the walk together with the counter value at that moment. */
  datatype Built<T> = Built(value: T, next: nat) | Threw(next: nat)

  predicate HasDuplicateKeys(attrs: seq<Attr>) {
    exists i, j :: 0 <= i < j < |attrs| && attrs[i].0 == attrs[j].0
  }

  function TextObj(id: string, value: string): JObj {
    JObj(Some(id), "text", [], true, Str(value))
  }

  /** Children first, then the element itself takes the next id. Building the
      attribute dictionary comes after the id is taken, so a duplicate
      attribute name throws with that id already consumed. */
  function BuildElement(e: XElement, start: nat): Built<JObj>
    decreases Element(e)
  {
    match BuildNodes(e.nodes, start)
    case Threw(n) => Threw(n)
    case Built(objs, n) =>
      if HasDuplicateKeys(e.attrs) then Threw(n + 1)
      else Built(JObj(Some(D5(n)), e.name, e.attrs, IsEditableElement(e), Kids(objs)), n + 1)
  }

  function BuildNodes(ns: seq<XNode>, start: nat): Built<seq<JObj>>
    decreases ns
  {
    if ns == [] then Built([], start)
    else
      match BuildNodes(ns[..|ns| - 1], start)
      case Threw(n) => Threw(n)
      case Built(objs, n) =>
        match ns[|ns| - 1]
        case Element(c) =>
          (match BuildElement(c, n)
           case Threw(m) => Threw(m)
           case Built(o, m) => Built(objs + [o], m))
        case TextNode(v) => Built(objs + [TextObj(D5(n), v)], n + 1)
        case OtherNode => Built(objs, n)
  }

  /** Elements plus text nodes: the ids a successful conversion consumes. */
  function XSize(e: XElement): nat
    decreases Element(e)
  {
    XSizeNodes(e.nodes) + 1
  }

  function XSizeNodes(ns: seq<XNode>): nat
    decreases ns
  {
    if ns == [] then 0
    else
      XSizeNodes(ns[..|ns| - 1]) +
      match ns[|ns| - 1]
      case Element(c) => XSize(c)
      case TextNode(_) => 1
      case OtherNode => 0
  }

  /** Once a prefix of the children has thrown, the whole walk has thrown, at
      the same counter value. */
  lemma {:induction false} ThrowPropagates(ns: seq<XNode>, k: nat, start: nat)
    requires k <= |ns| && BuildNodes(ns[..k], start).Threw?
    ensures BuildNodes(ns, start) == BuildNodes(ns[..k], start)
    decreases |ns| - k
  {
    if k < |ns| {
      assert ns[..k + 1][..k] == ns[..k];
      ThrowPropagates(ns, k + 1, start);
    } else {
      assert ns[..k] == ns;
    }
  }

  /** A subtree of n nodes consumes exactly the counter values start .. start+n-1,
      in post-order, the element itself taking the last; a conversion that
      throws has consumed at least one and at most n values. */
  lemma {:induction false} BuildElementNumbered(e: XElement, start: nat)
    ensures match BuildElement(e, start)
            case Built(o, next) =>
              next == start + Size(o) && Size(o) == XSize(e) && Numbered(o, start)
            case Threw(next) => start < next <= start + XSize(e)
    decreases Element(e)
  {
    BuildNodesNumbered(e.nodes, start);
  }

  lemma {:induction false} BuildNodesNumbered(ns: seq<XNode>, start: nat)
    ensures match BuildNodes(ns, start)
            case Built(objs, next) =>
              next == start + SizeKids(objs) && SizeKids(objs) == XSizeNodes(ns) && NumberedKids(objs, start)
            case Threw(next) => start < next <= start + XSizeNodes(ns)
    decreases ns
  {
    if ns != [] {
      var init := ns[..|ns| - 1];
      BuildNodesNumbered(init, start);
      match BuildNodes(init, start)
      case Threw(n) =>
      case Built(objs, n) =>
        match ns[|ns| - 1]
        case Element(c) =>
          BuildElementNumbered(c, n);
          match BuildElement(c, n) {
            case Threw(m) =>
            case Built(o, m) =>
              assert (objs + [o])[..|objs|] == objs;
          }
        case TextNode(v) =>
          assert (objs + [TextObj(D5(n), v)])[..|objs|] == objs;
        case OtherNode =>
    }
  }

  /** The string content of a converted element is the element's Value. */
  lemma {:induction false} BuildElementText(e: XElement, start: nat)
    requires BuildElement(e, start).Built?
    ensures TextValue(BuildElement(e, start).value) == ElementValue(e)
    decreases Element(e)
  {
    BuildNodesText(e.nodes, start);
  }

  lemma {:induction false} BuildNodesText(ns: seq<XNode>, start: nat)
    requires BuildNodes(ns, start).Built?
    ensures TextValueKids(BuildNodes(ns, start).value) == NodesValue(ns)
    decreases ns
  {
    if ns != [] {
      var init := ns[..|ns| - 1];
      assert BuildNodes(init, start).Built?;
      BuildNodesText(init, start);
      var objs, n := BuildNodes(init, start).value, BuildNodes(init, start).next;
      match ns[|ns| - 1]
      case Element(c) =>
        BuildElementText(c, n);
        assert (objs + [BuildElement(c, n).value])[..|objs|] == objs;
      case TextNode(v) =>
        assert (objs + [TextObj(D5(n), v)])[..|objs|] == objs;
      case OtherNode =>
    }
  }

  /** Text nodes are converted to editable "text" objects with string content,
      elements to objects with an array of children. */
  predicate ShapedAsBuilt(o: JObj)
    decreases o
  {
    && o.id.Some?
    && match o.content
       case Str(_) => o.typ == "text" && o.editable && o.attrs == []
       case Kids(ks) => forall i :: 0 <= i < |ks| ==> ShapedAsBuilt(ks[i])
  }

  lemma {:induction false} BuildElementShape(e: XElement, start: nat)
    requires BuildElement(e, start).Built?
    ensures var o := BuildElement(e, start).value;
      && ShapedAsBuilt(o) && o.typ == e.name && o.attrs == e.attrs
      && o.content.Kids?
    decreases Element(e)
  {
    BuildNodesShape(e.nodes, start);
  }

  lemma {:induction false} BuildNodesShape(ns: seq<XNode>, start: nat)
    requires BuildNodes(ns, start).Built?
    ensures var objs := BuildNodes(ns, start).value;
      && |objs| <= |ns|
      && (forall i :: 0 <= i < |objs| ==> ShapedAsBuilt(objs[i]))
    decreases ns
  {
    if ns != [] {
      var init := ns[..|ns| - 1];
      BuildNodesShape(init, start);
      var n := BuildNodes(init, start).next;
      match ns[|ns| - 1]
      case Element(c) => BuildElementShape(c, n);
      case TextNode(v) =>
      case OtherNode =>
    }
  }

  /** An element has a child element exactly when one of its converted
      children carries an array. */
  lemma {:induction false} BuildNodesChildElements(ns: seq<XNode>, start: nat)
    requires BuildNodes(ns, start).Built?
    ensures AnyElement(ns) <==> AnyArrayChild(BuildNodes(ns, start).value)
    decreases ns
  {
    if ns != [] {
      var init := ns[..|ns| - 1];
      BuildNodesChildElements(init, start);
      var objs, n := BuildNodes(init, start).value, BuildNodes(init, start).next;
      var all := BuildNodes(ns, start).value;
      match ns[|ns| - 1]
      case Element(c) =>
        BuildElementShape(c, n);
        assert all == objs + [BuildElement(c, n).value];
        assert all[..|all| - 1] == objs;
      case TextNode(v) =>
        assert all == objs + [TextObj(D5(n), v)];
        assert all[..|all| - 1] == objs;
      case OtherNode =>
    }
  }

  /** Editability read off the converted tree: an element object is editable
      exactly when its lower-cased type is not one of img, video, meta,
      script, style, br, hr, none of its children carries an array, and its
      text is not all whitespace. */
  lemma BuiltEditability(e: XElement, start: nat)
    requires BuildElement(e, start).Built?
    ensures var o := BuildElement(e, start).value;
      o.editable <==>
        && ToLower(o.typ) !in NonEditableTags
        && !AnyArrayChild(o.content.kids)
        && !IsNullOrWhiteSpace(TextValue(o))
  {
    BuildElementShape(e, start);
    BuildElementText(e, start);
    BuildNodesChildElements(e.nodes, start);
  }

  // ---------------------------------------------------------------------
  // ConvertHtmlToJson
  // ---------------------------------------------------------------------

  /** The object returned when anything in the conversion throws: no id,
      not editable, the original input (before preprocessing) as content. */
  function Fallback(html: string): JObj {
    JObj(None, "rawHtml", [], false, Str(html))
  }

  /** The converted tree and the counter value afterwards. */
  function HtmlToJson(html: string, parse: string -> XParse, counter: nat): (JObj, nat)
  {
    match parse(Wrap(PreprocessHtmlForXml(html)))
    case ParseFailed => (Fallback(html), counter)
    case Parsed(root) =>
      match BuildElement(root, counter)
      case Built(o, next) => (o, next)
      case Threw(next) => (Fallback(html), next)
  }

  /** Conversion never fails outward: it yields either the fallback object
      holding the untouched input, or a tree numbered in post-order from the
      current counter whose ids are all distinct and whose parents' ids exceed
      their descendants'. The counter only ever moves forward. */
  lemma HtmlToJsonOutcome(html: string, parse: string -> XParse, counter: nat)
    ensures var (o, next) := HtmlToJson(html, parse, counter);
      && counter <= next
      && (|| (o == Fallback(html))
          || (&& next == counter + Size(o) && Numbered(o, counter)
              && UniqueIds(o) && ParentIdsExceed(o) && o.id == Some(D5(next - 1))))
  {
    match parse(Wrap(PreprocessHtmlForXml(html)))
    case ParseFailed =>
    case Parsed(root) =>
      BuildElementNumbered(root, counter);
      match BuildElement(root, counter)
      case Built(o, next) =>
        NumberedUnique(o, counter);
        NumberedParentExceeds(o, counter);
      case Threw(next) =>
  }

  /** The parser object. Its id counter starts at 1 and is never reset, so
      every conversion on the same instance continues the numbering. */
  class HtmlParser {
    var idCounter: nat

    constructor ()
      ensures idCounter == 1
    {
      idCounter := 1;
    }

    method ConvertHtmlToJson(html: string, parse: string -> XParse) returns (r: JObj)
      modifies this
      ensures (r, idCounter) == HtmlToJson(html, parse, old(idCounter))
    {
      var preprocessed := PreprocessHtmlForXml(html);
      var wrapped := Wrap(preprocessed);
      var document := parse(wrapped);
      if document.ParseFailed? {
        return Fallback(html);
      }
      var converted := ConvertNodeToJson(document.root);
      if converted.None? {
        return Fallback(html);
      }
      r := converted.value;
    }

    method ConvertNodeToJson(element: XElement) returns (r: Option<JObj>)
      modifies this
      ensures r.Some? ==> BuildElement(element, old(idCounter)) == Built(r.value, idCounter)
      ensures r.None? ==> BuildElement(element, old(idCounter)) == Threw(idCounter)
      decreases Element(element)
    {
      var isEditable := IsEditableElement(element);
      var contentList: seq<JObj> := [];
      var i := 0;
      while i < |element.nodes|
        invariant 0 <= i <= |element.nodes|
        invariant BuildNodes(element.nodes[..i], old(idCounter)) == Built(contentList, idCounter)
      {
        assert element.nodes[..i + 1][..i] == element.nodes[..i];
        match element.nodes[i] {
          case Element(child) =>
            var c := ConvertNodeToJson(child);
            if c.None? {
              ThrowPropagates(element.nodes, i + 1, old(idCounter));
              return None;
            }
            contentList := contentList + [c.value];
          case TextNode(value) =>
            contentList := contentList + [TextObj(D5(idCounter), value)];
            idCounter := idCounter + 1;
          case OtherNode =>
        }
        i := i + 1;
      }
      assert element.nodes[..i] == element.nodes;
      var id := D5(idCounter);
      idCounter := idCounter + 1;
      if HasDuplicateKeys(element.attrs) {
        return None;
      }
      r := Some(JObj(Some(id), element.name, element.attrs, isEditable, Kids(contentList)));
    }
  }
}
