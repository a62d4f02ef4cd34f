/**
  JsonToHtml: render a tree back to markup. A "text" object writes its
  string; any other object writes `<type name="value"...>`, its children or
  its string, then `</type>`. Only a top-level "root" object is stripped,
  and only that path passes the result through Regex.Unescape, which is a
  parameter here that gives `None` where Regex.Unescape throws (an
  unrecognised escape, a trailing backslash). `None` stands for the
  exception the source throws: that one, or the one thrown when a "text"
  object carries an array, or a top-level root carries a string.
 */
module Renderer {
  import opened Text
  import opened JsonTree

  /** ` name="value"` for each attribute, in stored order, nothing escaped. */
  function AttrsMarkup(attrs: seq<Attr>): string
  {
    if attrs == [] then []
    else AttrsMarkup(attrs[..|attrs| - 1]) + AttrMarkup(attrs[|attrs| - 1])
  }

  function AttrMarkup(a: Attr): string { " " + a.0 + "=\"" + a.1 + "\"" }

  function OpenTag(o: JObj): string { "<" + o.typ + AttrsMarkup(o.attrs) + ">" }

  function CloseTag(o: JObj): string { "</" + o.typ + ">" }

  /** What ConvertJsonToHtmlRecursive appends for one object. */
  function RenderNode(o: JObj): Option<string>
    decreases o
  {
    if o.typ == "text" then
      match o.content
      case Str(s) => Some(s)
      case Kids(_) => None
    else
      match o.content
      case Str(s) => Some(OpenTag(o) + s + CloseTag(o))
      case Kids(ks) =>
        match RenderKids(ks)
        case Some(inner) => Some(OpenTag(o) + inner + CloseTag(o))
        case None => None
  }

  function RenderKids(ks: seq<JObj>): Option<string>
    decreases ks
  {
    if ks == [] then Some([])
    else
      match RenderKids(ks[..|ks| - 1])
      case None => None
      case Some(init) =>
        match RenderNode(ks[|ks| - 1])
        case Some(last) => Some(init + last)
        case None => None
  }

  /** ConvertJsonToHtml. */
  function JsonToHtml(o: JObj, unescape: string -> Option<string>): Option<string>
  {
    if o.typ == "root" then
      match o.content
      case Kids(ks) =>
        (match RenderKids(ks)
         case Some(inner) => unescape(inner)
         case None => None)
      case Str(_) => None
    else RenderNode(o)
  }

  /** A child that throws ends the whole rendering. */
  lemma {:induction false} RenderKidsFailurePropagates(ks: seq<JObj>, k: nat)
    requires k <= |ks| && RenderKids(ks[..k]).None?
    ensures RenderKids(ks).None?
    decreases |ks| - k
  {
    if k < |ks| {
      assert ks[..k + 1][..k] == ks[..k];
      RenderKidsFailurePropagates(ks, k + 1);
    } else {
      assert ks[..k] == ks;
    }
  }

  /** ConvertJsonToHtmlRecursive: append the rendering of `o` to the builder
      `sb` and return the builder's contents, or `None` when it throws. */
  method ConvertJsonToHtmlRecursive(o: JObj, sb: string) returns (r: Option<string>)
    ensures r.Some? <==> RenderNode(o).Some?
    ensures r.Some? ==> r.value == sb + RenderNode(o).value
    decreases o
  {
    if o.typ == "text" {
      match o.content {
        case Str(s) => r := Some(sb + s);
        case Kids(_) => r := None;
      }
      return;
    }
    var b := AppendOpenTag(o, sb);
    match o.content {
      case Str(s) =>
        b := b + s + "</" + o.typ + ">";
        assert b == sb + (OpenTag(o) + s + CloseTag(o));
        r := Some(b);
      case Kids(ks) =>
        var c := AppendChildren(ks, b);
        if c.None? {
          return None;
        }
        b := c.value + "</" + o.typ + ">";
        assert b == sb + (OpenTag(o) + RenderKids(ks).value + CloseTag(o));
        r := Some(b);
    }
  }

  /** Append `<type name="value"...>` to the builder. */
  method AppendOpenTag(o: JObj, sb: string) returns (b: string)
    ensures b == sb + OpenTag(o)
  {
    b := sb + "<" + o.typ;
    var i := 0;
    while i < |o.attrs|
      invariant 0 <= i <= |o.attrs|
      invariant b == sb + "<" + o.typ + AttrsMarkup(o.attrs[..i])
    {
      assert o.attrs[..i + 1][..i] == o.attrs[..i];
      b := b + " " + o.attrs[i].0 + "=\"" + o.attrs[i].1 + "\"";
      i := i + 1;
    }
    assert o.attrs[..i] == o.attrs;
    b := b + ">";
  }

  /** The loop over the children: each one is appended in turn, and the
      first that throws ends it. */
  method AppendChildren(ks: seq<JObj>, sb: string) returns (r: Option<string>)
    ensures r.Some? <==> RenderKids(ks).Some?
    ensures r.Some? ==> r.value == sb + RenderKids(ks).value
    decreases ks
  {
    var b := sb;
    var j := 0;
    while j < |ks|
      invariant 0 <= j <= |ks|
      invariant RenderKids(ks[..j]).Some? && b == sb + RenderKids(ks[..j]).value
    {
      assert ks[..j + 1][..j] == ks[..j];
      var c := ConvertJsonToHtmlRecursive(ks[j], b);
      if c.None? {
        RenderKidsFailurePropagates(ks, j + 1);
        return None;
      }
      b := c.value;
      j := j + 1;
    }
    assert ks[..j] == ks;
    r := Some(b);
  }

  /** ConvertJsonToHtml: a top-level root renders only its children, through
      `unescape`, which may throw; anything else renders as a whole,
      unescaped. */
  method ConvertJsonToHtml(o: JObj, unescape: string -> Option<string>) returns (r: Option<string>)
    ensures r == JsonToHtml(o, unescape)
  {
    if o.typ == "root" {
      match o.content {
        case Str(_) =>
          return None;
        case Kids(ks) =>
          var html := AppendChildren(ks, "");
          if html.None? {
            return None;
          }
          assert html.value == RenderKids(ks).value;
          return unescape(html.value);
      }
    }
    r := ConvertJsonToHtmlRecursive(o, "");
    assert r.Some? ==> r.value == RenderNode(o).value;
  }
}
