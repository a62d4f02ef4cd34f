/**
  UpdateJsonWithEditedContent: write the parsed edits back into the tree.
  An object whose id has a non-empty entry in the edits gets that entry as
  its string content (unless it is the top-level object); an object whose
  content is an array has each child updated in turn. An object whose
  array was just replaced by a string is not descended into, so the
  children of an edited element disappear.

  The source clones each child before updating it and stores the result
  back in its slot; no other reference to the child exists, so the update
  is described on values.
 */
module Updater {
  import opened Text
  import opened JsonTree

  /** The object's own content is replaced. */
  predicate Edited(o: JObj, edits: map<string, string>, isRoot: bool) {
    !isRoot && o.id.Some? && o.id.value in edits && edits[o.id.value] != []
  }

  /** UpdateJsonRecursive, as a function of the tree. Id, type, attributes
      and editability are never touched; the top-level object keeps the
      kind of its content. */
  function Updated(o: JObj, edits: map<string, string>, isRoot: bool): (r: JObj)
    ensures r.id == o.id && r.typ == o.typ && r.attrs == o.attrs && r.editable == o.editable
    ensures isRoot ==> (r.content.Kids? <==> o.content.Kids?)
    decreases o
  {
    if Edited(o, edits, isRoot) then o.(content := Str(edits[o.id.value]))
    else
      match o.content
      case Str(_) => o
      case Kids(ks) => o.(content := Kids(UpdatedKids(ks, edits)))
  }

  function UpdatedKids(ks: seq<JObj>, edits: map<string, string>): (r: seq<JObj>)
    ensures |r| == |ks|
    decreases ks
  {
    if ks == [] then []
    else UpdatedKids(ks[..|ks| - 1], edits) + [Updated(ks[|ks| - 1], edits, false)]
  }

  /** Each child is updated on its own, as a non-root object. */
  lemma {:induction false} UpdatedKidsAt(ks: seq<JObj>, edits: map<string, string>, i: nat)
    requires i < |ks|
    ensures UpdatedKids(ks, edits)[i] == Updated(ks[i], edits, false)
  {
    if i < |ks| - 1 {
      UpdatedKidsAt(ks[..|ks| - 1], edits, i);
    }
  }

  /** UpdateJsonRecursive. */
  method UpdateJsonRecursive(o: JObj, editedChunks: map<string, string>, isRoot: bool) returns (r: JObj)
    ensures r == Updated(o, editedChunks, isRoot)
    decreases o, 1
  {
    r := o;
    if r.id.Some? {
      var id := r.id.value;
      if id in editedChunks && !isRoot {
        var newContent := editedChunks[id];
        if newContent != "" {
          r := r.(content := Str(newContent));
        }
      }
    }
    match r.content {
      case Str(_) =>
      case Kids(contentArray) =>
        assert r == o;
        var arr := UpdateChildren(contentArray, editedChunks);
        r := r.(content := Kids(arr));
    }
  }

  /** The loop of UpdateJsonRecursive over an array content: each element is
      replaced, in place, by its own update as a non-root object. */
  method UpdateChildren(contentArray: seq<JObj>, editedChunks: map<string, string>) returns (arr: seq<JObj>)
    ensures arr == UpdatedKids(contentArray, editedChunks)
    decreases contentArray, 0
  {
    var i := 0;
    arr := contentArray;
    while i < |arr|
      invariant 0 <= i <= |arr| == |contentArray|
      invariant arr[..i] == UpdatedKids(contentArray[..i], editedChunks)
      invariant arr[i..] == contentArray[i..]
    {
      UnvisitedAt(arr, contentArray, i);
      var updated := UpdateJsonRecursive(arr[i], editedChunks, false);
      UpdateChildStep(contentArray, editedChunks, i, arr, updated);
      arr := arr[i := updated];
      i := i + 1;
    }
    assert arr == arr[..i] && contentArray[..i] == contentArray;
  }

  lemma UnvisitedAt(arr: seq<JObj>, ks: seq<JObj>, i: nat)
    requires i < |arr| == |ks| && arr[i..] == ks[i..]
    ensures arr[i] == ks[i]
  {
    assert arr[i] == arr[i..][0];
  }

  /** Replacing element `i` by its update extends the updated prefix by one. */
  lemma UpdateChildStep(ks: seq<JObj>, edits: map<string, string>, i: nat, arr: seq<JObj>, updated: JObj)
    requires i < |arr| == |ks|
    requires arr[..i] == UpdatedKids(ks[..i], edits)
    requires arr[i..] == ks[i..]
    requires updated == Updated(ks[i], edits, false)
    ensures arr[i := updated][..i + 1] == UpdatedKids(ks[..i + 1], edits)
    ensures arr[i := updated][i + 1..] == ks[i + 1..]
  {
    var arr' := arr[i := updated];
    assert ks[..i + 1][..i] == ks[..i];
    assert arr'[..i + 1] == arr[..i] + [updated];
    assert arr'[i + 1..] == arr[i + 1..];
    assert arr[i + 1..] == arr[i..][1..];
  }

  /** UpdateJsonWithEditedContent: the update with the top-level object
      marked as the root, so that it is never replaced itself. */
  method UpdateJsonWithEditedContent(tree: JObj, editedChunks: map<string, string>) returns (r: JObj)
    ensures r == Updated(tree, editedChunks, true)
    ensures tree.content.Str? ==> r == tree
  {
    r := UpdateJsonRecursive(tree, editedChunks, true);
  }

  // ---------------------------------------------------------------------
  // Properties
  // ---------------------------------------------------------------------

  /** Every object already carries what the edits say for it. */
  predicate Consistent(o: JObj, edits: map<string, string>, isRoot: bool)
    decreases o
  {
    if Edited(o, edits, isRoot) then o.content == Str(edits[o.id.value])
    else
      match o.content
      case Str(_) => true
      case Kids(ks) => ConsistentKids(ks, edits)
  }

  predicate ConsistentKids(ks: seq<JObj>, edits: map<string, string>)
    decreases ks
  {
    ks == [] || (ConsistentKids(ks[..|ks| - 1], edits) && Consistent(ks[|ks| - 1], edits, false))
  }

  /** The update changes nothing exactly when the tree already agrees with
      the edits. */
  lemma {:induction false} UpdateFixedPoint(o: JObj, edits: map<string, string>, isRoot: bool)
    ensures Updated(o, edits, isRoot) == o <==> Consistent(o, edits, isRoot)
    decreases o
  {
    if !Edited(o, edits, isRoot) {
      match o.content
      case Str(_) =>
      case Kids(ks) =>
        UpdateFixedPointKids(ks, edits);
        assert Updated(o, edits, isRoot) == o <==> UpdatedKids(ks, edits) == ks;
    }
  }

  lemma {:induction false} UpdateFixedPointKids(ks: seq<JObj>, edits: map<string, string>)
    ensures UpdatedKids(ks, edits) == ks <==> ConsistentKids(ks, edits)
    decreases ks
  {
    if ks != [] {
      var init, last := ks[..|ks| - 1], ks[|ks| - 1];
      UpdateFixedPointKids(init, edits);
      UpdateFixedPoint(last, edits, false);
      assert ks == init + [last];
      if UpdatedKids(ks, edits) == ks {
        assert UpdatedKids(ks, edits)[..|ks| - 1] == UpdatedKids(init, edits);
      }
    }
  }

  /** The updated tree agrees with the edits. */
  lemma {:induction false} UpdatedConsistent(o: JObj, edits: map<string, string>, isRoot: bool)
    ensures Consistent(Updated(o, edits, isRoot), edits, isRoot)
    decreases o
  {
    if !Edited(o, edits, isRoot) {
      match o.content
      case Str(_) =>
      case Kids(ks) =>
        UpdatedKidsConsistent(ks, edits);
    }
  }

  lemma {:induction false} UpdatedKidsConsistent(ks: seq<JObj>, edits: map<string, string>)
    ensures ConsistentKids(UpdatedKids(ks, edits), edits)
    decreases ks
  {
    if ks != [] {
      var r := UpdatedKids(ks, edits);
      UpdatedKidsConsistent(ks[..|ks| - 1], edits);
      UpdatedConsistent(ks[|ks| - 1], edits, false);
      assert r[..|r| - 1] == UpdatedKids(ks[..|ks| - 1], edits);
    }
  }

  /** Applying the same edits twice is the same as applying them once. */
  lemma UpdateIdempotent(o: JObj, edits: map<string, string>, isRoot: bool)
    ensures Updated(Updated(o, edits, isRoot), edits, isRoot) == Updated(o, edits, isRoot)
  {
    UpdatedConsistent(o, edits, isRoot);
    UpdateFixedPoint(Updated(o, edits, isRoot), edits, isRoot);
  }

  /** An empty edit is the same as no edit for that id. */
  lemma {:induction false} EmptyEditIgnored(o: JObj, edits: map<string, string>, id: string, isRoot: bool)
    ensures Updated(o, edits[id := ""], isRoot) == Updated(o, edits - {id}, isRoot)
    decreases o
  {
    assert Edited(o, edits[id := ""], isRoot) == Edited(o, edits - {id}, isRoot);
    match o.content
    case Str(_) =>
    case Kids(ks) =>
      EmptyEditIgnoredKids(ks, edits, id);
  }

  lemma {:induction false} EmptyEditIgnoredKids(ks: seq<JObj>, edits: map<string, string>, id: string)
    ensures UpdatedKids(ks, edits[id := ""]) == UpdatedKids(ks, edits - {id})
    decreases ks
  {
    if ks != [] {
      EmptyEditIgnoredKids(ks[..|ks| - 1], edits, id);
      EmptyEditIgnored(ks[|ks| - 1], edits, id, false);
    }
  }

  // ---------------------------------------------------------------------
  // Ids the edits do not mention
  // ---------------------------------------------------------------------

  /** Edits for ids the tree does not carry change nothing. */
  lemma UnknownIdsChangeNothing(o: JObj, edits: map<string, string>, isRoot: bool)
    requires forall k :: k in IdSet(o) ==> k !in edits
    ensures Updated(o, edits, isRoot) == o
  {
    UnknownIdsConsistent(o, edits, isRoot);
    UpdateFixedPoint(o, edits, isRoot);
  }

  lemma {:induction false} UnknownIdsConsistent(o: JObj, edits: map<string, string>, isRoot: bool)
    requires IdSet(o) !! edits.Keys
    ensures Consistent(o, edits, isRoot)
    decreases o
  {
    match o.content
    case Str(_) =>
    case Kids(ks) =>
      UnknownIdsConsistentKids(ks, edits);
  }

  lemma {:induction false} UnknownIdsConsistentKids(ks: seq<JObj>, edits: map<string, string>)
    requires IdSetKids(ks) !! edits.Keys
    ensures ConsistentKids(ks, edits)
    decreases ks
  {
    if ks != [] {
      UnknownIdsConsistentKids(ks[..|ks| - 1], edits);
      UnknownIdsConsistent(ks[|ks| - 1], edits, false);
    }
  }

  // ---------------------------------------------------------------------
  // One edit
  // ---------------------------------------------------------------------

  /** The tree with the content of every non-root object carrying `id`
      blanked out: what an edit of `id` may not change. */
  function Masked(o: JObj, id: string, isRoot: bool): JObj
    decreases o
  {
    if !isRoot && o.id == Some(id) then o.(content := Str([]))
    else
      match o.content
      case Str(_) => o
      case Kids(ks) => o.(content := Kids(MaskedKids(ks, id)))
  }

  function MaskedKids(ks: seq<JObj>, id: string): seq<JObj>
    decreases ks
  {
    if ks == [] then [] else MaskedKids(ks[..|ks| - 1], id) + [Masked(ks[|ks| - 1], id, false)]
  }

  /** Editing one id changes nothing but the content of the objects that
      carry it (in a tree with distinct ids, the one object). */
  lemma {:induction false} EditTouchesOnlyItsObject(o: JObj, id: string, v: string, isRoot: bool)
    ensures Masked(Updated(o, map[id := v], isRoot), id, isRoot) == Masked(o, id, isRoot)
    decreases o
  {
    if !Edited(o, map[id := v], isRoot) {
      match o.content
      case Str(_) =>
      case Kids(ks) =>
        EditTouchesOnlyItsObjectKids(ks, id, v);
    }
  }

  lemma {:induction false} EditTouchesOnlyItsObjectKids(ks: seq<JObj>, id: string, v: string)
    ensures MaskedKids(UpdatedKids(ks, map[id := v]), id) == MaskedKids(ks, id)
    decreases ks
  {
    if ks != [] {
      var r := UpdatedKids(ks, map[id := v]);
      EditTouchesOnlyItsObjectKids(ks[..|ks| - 1], id, v);
      EditTouchesOnlyItsObject(ks[|ks| - 1], id, v, false);
      assert r[..|r| - 1] == UpdatedKids(ks[..|ks| - 1], map[id := v]);
    }
  }

  /** Some object of the tree carries `id` with content `c`. */
  predicate Carries(o: JObj, id: string, c: Content)
    decreases o
  {
    (o.id == Some(id) && o.content == c) ||
    match o.content
    case Str(_) => false
    case Kids(ks) => CarriesKids(ks, id, c)
  }

  predicate CarriesKids(ks: seq<JObj>, id: string, c: Content)
    decreases ks
  {
    ks != [] && (CarriesKids(ks[..|ks| - 1], id, c) || Carries(ks[|ks| - 1], id, c))
  }

  /** A non-empty edit of an id that some non-root object carries reaches
      it: afterwards an object with that id holds the edited string. */
  lemma {:induction false} EditReachesItsObject(o: JObj, id: string, v: string, isRoot: bool)
    requires v != [] && id in IdSet(o) && !(isRoot && o.id == Some(id))
    ensures Carries(Updated(o, map[id := v], isRoot), id, Str(v))
    decreases o
  {
    if !Edited(o, map[id := v], isRoot) {
      match o.content
      case Str(_) =>
      case Kids(ks) =>
        EditReachesItsObjectKids(ks, id, v);
    }
  }

  lemma {:induction false} EditReachesItsObjectKids(ks: seq<JObj>, id: string, v: string)
    requires v != [] && id in IdSetKids(ks)
    ensures CarriesKids(UpdatedKids(ks, map[id := v]), id, Str(v))
    decreases ks
  {
    var r := UpdatedKids(ks, map[id := v]);
    var init, last := ks[..|ks| - 1], ks[|ks| - 1];
    assert r[..|r| - 1] == UpdatedKids(init, map[id := v]);
    if id in IdSetKids(init) {
      EditReachesItsObjectKids(init, id, v);
    } else {
      EditReachesItsObject(last, id, v, false);
    }
  }
}
