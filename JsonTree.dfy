/**
  The JSON-shaped tree that every stage exchanges: an object with an optional
  `id`, a `type`, its `attributes` in stored order, `isEditable`, and
  `content` that is either an array of child objects or a string.
  A text node is an object of type "text" with string content; the
  fallback object "rawHtml" carries no id.
 */
module JsonTree {
  import opened Text

  type Attr = (string, string)

  datatype Content = Kids(kids: seq<JObj>) | Str(text: string)

  datatype JObj = JObj(id: Option<string>, typ: string, attrs: seq<Attr>, editable: bool, content: Content)

  /** `##id##`: how an editable object's id is written into the text that
      goes out for editing, and how it is recognised when the text comes back. */
  function MarkerText(id: string): string
  {
    "##" + id + "##"
  }

  /** Number of objects in the subtree: elements and text nodes alike. */
  function Size(o: JObj): nat
    decreases o
  {
    match o.content
    case Str(_) => 1
    case Kids(ks) => SizeKids(ks) + 1
  }

  function SizeKids(ks: seq<JObj>): nat
    decreases ks
  {
    if ks == [] then 0 else SizeKids(ks[..|ks| - 1]) + Size(ks[|ks| - 1])
  }

  /** Some child carries an array as its content (an element, on a converted tree). */
  predicate AnyArrayChild(ks: seq<JObj>) {
    ks != [] && (AnyArrayChild(ks[..|ks| - 1]) || ks[|ks| - 1].content.Kids?)
  }

  /** Every id carried by the subtree. */
  function IdSet(o: JObj): set<string>
    decreases o
  {
    (if o.id.Some? then {o.id.value} else {}) +
    match o.content
    case Str(_) => {}
    case Kids(ks) => IdSetKids(ks)
  }

  function IdSetKids(ks: seq<JObj>): set<string>
    decreases ks
  {
    if ks == [] then {} else IdSetKids(ks[..|ks| - 1]) + IdSet(ks[|ks| - 1])
  }

  /** Concatenated string content of the subtree (XElement.Value on the output side). */
  function TextValue(o: JObj): string
    decreases o
  {
    match o.content
    case Str(s) => s
    case Kids(ks) => TextValueKids(ks)
  }

  function TextValueKids(ks: seq<JObj>): string
    decreases ks
  {
    if ks == [] then [] else TextValueKids(ks[..|ks| - 1]) + TextValue(ks[|ks| - 1])
  }

  /** The ids of the subtree are D5(a) .. D5(a + Size(o) - 1), handed out in
      post-order: each child's subtree takes the next consecutive block and
      the object itself takes the last value. */
  predicate Numbered(o: JObj, a: nat)
    decreases o
  {
    && o.id == Some(D5(a + Size(o) - 1))
    && match o.content
       case Str(_) => true
       case Kids(ks) => NumberedKids(ks, a)
  }

  predicate NumberedKids(ks: seq<JObj>, a: nat)
    decreases ks
  {
    ks == [] || (NumberedKids(ks[..|ks| - 1], a) && Numbered(ks[|ks| - 1], a + SizeKids(ks[..|ks| - 1])))
  }

  /** No id occurs twice in the subtree. */
  predicate UniqueIds(o: JObj)
    decreases o
  {
    match o.content
    case Str(_) => true
    case Kids(ks) => (o.id.Some? ==> o.id.value !in IdSetKids(ks)) && UniqueIdsKids(ks)
  }

  predicate UniqueIdsKids(ks: seq<JObj>)
    decreases ks
  {
    ks == [] ||
    (UniqueIdsKids(ks[..|ks| - 1]) && UniqueIds(ks[|ks| - 1]) && IdSetKids(ks[..|ks| - 1]) !! IdSet(ks[|ks| - 1]))
  }

  /** Every object's id is a digit string whose value exceeds that of every
      id below it. */
  predicate ParentIdsExceed(o: JObj)
    decreases o
  {
    && o.id.Some? && AllDigits(o.id.value)
    && match o.content
       case Str(_) => true
       case Kids(ks) =>
         && (forall d :: d in IdSetKids(ks) ==> AllDigits(d) && DigitsValue(d) < DigitsValue(o.id.value))
         && ParentIdsExceedKids(ks)
  }

  predicate ParentIdsExceedKids(ks: seq<JObj>)
    decreases ks
  {
    ks == [] || (ParentIdsExceedKids(ks[..|ks| - 1]) && ParentIdsExceed(ks[|ks| - 1]))
  }

  /** The ids D5(a) .. D5(b - 1). */
  function D5Range(a: nat, b: nat): set<string>
  {
    set n: nat | a <= n < b :: D5(n)
  }

  lemma D5RangeMember(d: string, a: nat, b: nat)
    requires d in D5Range(a, b)
    ensures AllDigits(d) && a <= DigitsValue(d) < b
  {
    var n: nat :| a <= n < b && d == D5(n);
    FormatDecimalValue(n, 5);
  }

  lemma D5RangesDisjoint(a: nat, m: nat, b: nat)
    ensures D5Range(a, m) !! D5Range(m, b)
  {
    forall d | d in D5Range(a, m) && d in D5Range(m, b)
      ensures false
    {
      D5RangeMember(d, a, m);
      D5RangeMember(d, m, b);
    }
  }

  lemma D5RangeSplit(a: nat, m: nat, b: nat)
    requires a <= m <= b
    ensures D5Range(a, m) + D5Range(m, b) == D5Range(a, b)
  {
  }

  /** A post-order numbered subtree holds exactly the block of ids it was given. */
  lemma {:induction false} NumberedIdSet(o: JObj, a: nat)
    requires Numbered(o, a)
    ensures IdSet(o) == D5Range(a, a + Size(o))
    decreases o
  {
    match o.content
    case Str(_) =>
      assert D5Range(a, a + 1) == {D5(a)};
    case Kids(ks) =>
      NumberedKidsIdSet(ks, a);
      D5RangeSplit(a, a + SizeKids(ks), a + Size(o));
      assert D5Range(a + SizeKids(ks), a + Size(o)) == {D5(a + SizeKids(ks))};
  }

  lemma {:induction false} NumberedKidsIdSet(ks: seq<JObj>, a: nat)
    requires NumberedKids(ks, a)
    ensures IdSetKids(ks) == D5Range(a, a + SizeKids(ks))
    decreases ks
  {
    if ks != [] {
      var init := ks[..|ks| - 1];
      NumberedKidsIdSet(init, a);
      NumberedIdSet(ks[|ks| - 1], a + SizeKids(init));
      D5RangeSplit(a, a + SizeKids(init), a + SizeKids(ks));
    }
  }

  /** Post-order numbering makes every id in the tree distinct. */
  lemma {:induction false} NumberedUnique(o: JObj, a: nat)
    requires Numbered(o, a)
    ensures UniqueIds(o)
    decreases o
  {
    match o.content
    case Str(_) =>
    case Kids(ks) =>
      NumberedKidsUnique(ks, a);
      NumberedKidsIdSet(ks, a);
      D5RangesDisjoint(a, a + SizeKids(ks), a + Size(o));
      assert o.id.value in D5Range(a + SizeKids(ks), a + Size(o));
  }

  lemma {:induction false} NumberedKidsUnique(ks: seq<JObj>, a: nat)
    requires NumberedKids(ks, a)
    ensures UniqueIdsKids(ks)
    decreases ks
  {
    if ks != [] {
      var init := ks[..|ks| - 1];
      var m := a + SizeKids(init);
      NumberedKidsUnique(init, a);
      NumberedUnique(ks[|ks| - 1], m);
      NumberedKidsIdSet(init, a);
      NumberedIdSet(ks[|ks| - 1], m);
      D5RangesDisjoint(a, m, m + Size(ks[|ks| - 1]));
    }
  }

  /** Post-order numbering puts every object's id above all of its descendants'. */
  lemma {:induction false} NumberedParentExceeds(o: JObj, a: nat)
    requires Numbered(o, a)
    ensures ParentIdsExceed(o)
    decreases o
  {
    FormatDecimalValue(a + Size(o) - 1, 5);
    match o.content
    case Str(_) =>
    case Kids(ks) =>
      NumberedKidsParentExceeds(ks, a);
      NumberedKidsIdSet(ks, a);
      forall d | d in IdSetKids(ks)
        ensures AllDigits(d) && DigitsValue(d) < DigitsValue(o.id.value)
      {
        D5RangeMember(d, a, a + SizeKids(ks));
      }
  }

  lemma {:induction false} NumberedKidsParentExceeds(ks: seq<JObj>, a: nat)
    requires NumberedKids(ks, a)
    ensures ParentIdsExceedKids(ks)
    decreases ks
  {
    if ks != [] {
      NumberedKidsParentExceeds(ks[..|ks| - 1], a);
      NumberedParentExceeds(ks[|ks| - 1], a + SizeKids(ks[..|ks| - 1]));
    }
  }
}
