/**
  ProcessJsonData: walk the tree depth-first and write, for every editable
  object with an id, a marker `##id##`, followed by its string content;
  array content is always descended, string content is written only for
  editable objects. The text goes into a buffer that is cut into a chunk,
  labelled `##NNN##` with a running index from 100, as soon as an append
  of content brings it to 4000 UTF-16 units or more; what is left at the
  end becomes the last chunk.

  The walk is described as a sequence of `Piece`s (the appends, in order),
  and the cutting as a left fold `Feed` over them.
 */
module Chunker {
  import opened Text
  import opened JsonTree

  const ChunkThreshold: nat := 4000
  const FirstChunkIndex: nat := 100

  /** One append to the buffer: an id marker, or an editable object's content. */
  datatype Piece = Marker(id: string) | Content(text: string)

  function PieceText(p: Piece): string
  {
    match p
    case Marker(id) => MarkerText(id)
    case Content(t) => t
  }

  /** The marker an object writes before its content, if any. */
  function MarkerPieces(o: JObj): seq<Piece>
  {
    if o.editable && o.id.Some? then [Marker(o.id.value)] else []
  }

  /** The appends ProcessJsonRecursive makes for one object, in order. */
  function Pieces(o: JObj): seq<Piece>
    decreases o
  {
    MarkerPieces(o) +
    match o.content
    case Kids(ks) => PiecesKids(ks)
    case Str(s) => if o.editable then [Content(s)] else []
  }

  function PiecesKids(ks: seq<JObj>): seq<Piece>
    decreases ks
  {
    if ks == [] then [] else PiecesKids(ks[..|ks| - 1]) + Pieces(ks[|ks| - 1])
  }

  /** The text the walk writes, as if no chunk were ever cut. */
  function Flat(ps: seq<Piece>): string
  {
    if ps == [] then [] else Flat(ps[..|ps| - 1]) + PieceText(ps[|ps| - 1])
  }

  /** Chunk bodies already cut, and the buffer. */
  datatype Acc = Acc(bodies: seq<string>, buf: string)

  /** One append. Only content appends are followed by the length check. */
  function Step(acc: Acc, p: Piece): Acc
  {
    match p
    case Marker(_) => Acc(acc.bodies, acc.buf + PieceText(p))
    case Content(t) =>
      var b := acc.buf + t;
      if Utf16Length(b) >= ChunkThreshold then Acc(acc.bodies + [b], "") else Acc(acc.bodies, b)
  }

  function Feed(acc: Acc, ps: seq<Piece>): Acc
  {
    if ps == [] then acc else Step(Feed(acc, ps[..|ps| - 1]), ps[|ps| - 1])
  }

  /** `##NNN##`, the index written with at least three digits. */
  function ChunkHeader(index: nat): string
  {
    "##" + FormatDecimal(index, 3) + "##"
  }

  /** Each body behind its header, indices consecutive from `index`. */
  function Labelled(bodies: seq<string>, index: nat): (r: seq<string>)
    ensures |r| == |bodies|
  {
    if bodies == [] then []
    else Labelled(bodies[..|bodies| - 1], index) + [ChunkHeader(index + |bodies| - 1) + bodies[|bodies| - 1]]
  }

  /** The chunk bodies of a whole walk: the cut ones, then the rest of the
      buffer when it is not empty. */
  function ChunkBodies(o: JObj): seq<string>
  {
    var acc := Feed(Acc([], ""), Pieces(o));
    if Utf16Length(acc.buf) > 0 then acc.bodies + [acc.buf] else acc.bodies
  }

  /** ProcessJsonData's result. */
  function ChunkJson(o: JObj): seq<string>
  {
    Labelled(ChunkBodies(o), FirstChunkIndex)
  }

  // ---------------------------------------------------------------------
  // The fold
  // ---------------------------------------------------------------------

  lemma {:induction false} FeedAppend(acc: Acc, a: seq<Piece>, b: seq<Piece>)
    ensures Feed(acc, a + b) == Feed(Feed(acc, a), b)
  {
    if b != [] {
      assert (a + b)[..|a + b| - 1] == a + b[..|b| - 1];
      FeedAppend(acc, a, b[..|b| - 1]);
    } else {
      assert a + b == a;
    }
  }

  /** Bodies already cut are never touched again. */
  lemma {:induction false} FeedKeepsBodies(bodies: seq<string>, buf: string, ps: seq<Piece>)
    ensures Feed(Acc(bodies, buf), ps)
         == Acc(bodies + Feed(Acc([], buf), ps).bodies, Feed(Acc([], buf), ps).buf)
  {
    if ps != [] {
      FeedKeepsBodies(bodies, buf, ps[..|ps| - 1]);
    }
  }

  /** The k-th chunk is the k-th body behind the header numbered index + k. */
  lemma {:induction false} LabelledAt(bodies: seq<string>, index: nat, k: nat)
    requires k < |bodies|
    ensures Labelled(bodies, index)[k] == ChunkHeader(index + k) + bodies[k]
  {
    if k < |bodies| - 1 {
      LabelledAt(bodies[..|bodies| - 1], index, k);
    }
  }

  lemma LabelledSnoc(bodies: seq<string>, b: string, index: nat)
    ensures Labelled(bodies + [b], index) == Labelled(bodies, index) + [ChunkHeader(index + |bodies|) + b]
  {
    assert (bodies + [b])[..|bodies|] == bodies;
  }

  lemma {:induction false} LabelledAppend(a: seq<string>, b: seq<string>, index: nat)
    ensures Labelled(a + b, index) == Labelled(a, index) + Labelled(b, index + |a|)
  {
    if b != [] {
      assert (a + b)[..|a + b| - 1] == a + b[..|b| - 1];
      LabelledAppend(a, b[..|b| - 1], index);
    } else {
      assert a + b == a;
    }
  }

  /** One append loses and reorders nothing. */
  lemma StepPreservesText(a: Acc, p: Piece)
    ensures Concat(Step(a, p).bodies) + Step(a, p).buf == Concat(a.bodies) + a.buf + PieceText(p)
  {
    var b := a.buf + PieceText(p);
    if p.Content? && Utf16Length(b) >= ChunkThreshold {
      ConcatAppend(a.bodies, [b]);
      assert Concat([b]) == b by {
        assert [b][..0] == [];
      }
    }
  }

  /** Cutting loses and reorders nothing: the bodies and the buffer spell the
      uncut text. */
  lemma {:induction false} FeedPreservesText(acc: Acc, ps: seq<Piece>)
    ensures Concat(Feed(acc, ps).bodies) + Feed(acc, ps).buf == Concat(acc.bodies) + acc.buf + Flat(ps)
  {
    if ps != [] {
      var init := ps[..|ps| - 1];
      var p := ps[|ps| - 1];
      var pre := Concat(acc.bodies) + acc.buf;
      FeedPreservesText(acc, init);
      StepPreservesText(Feed(acc, init), p);
      assert Flat(ps) == Flat(init) + PieceText(p);
      assert pre + Flat(ps) == (pre + Flat(init)) + PieceText(p);
    }
  }

  /** Every body that is cut holds at least the threshold. */
  lemma {:induction false} FeedBodiesLong(acc: Acc, ps: seq<Piece>)
    requires forall k :: 0 <= k < |acc.bodies| ==> Utf16Length(acc.bodies[k]) >= ChunkThreshold
    ensures forall k :: 0 <= k < |Feed(acc, ps).bodies| ==> Utf16Length(Feed(acc, ps).bodies[k]) >= ChunkThreshold
  {
    if ps != [] {
      FeedBodiesLong(acc, ps[..|ps| - 1]);
    }
  }

  /** While the text stays below the threshold, nothing is cut. */
  lemma {:induction false} FeedBelowThreshold(acc: Acc, ps: seq<Piece>)
    requires Utf16Length(acc.buf + Flat(ps)) < ChunkThreshold
    ensures Feed(acc, ps) == Acc(acc.bodies, acc.buf + Flat(ps))
  {
    if ps != [] {
      var init := ps[..|ps| - 1];
      var p := ps[|ps| - 1];
      assert acc.buf + Flat(ps) == (acc.buf + Flat(init)) + PieceText(p);
      Utf16LengthAppend(acc.buf + Flat(init), PieceText(p));
      FeedBelowThreshold(acc, init);
    } else {
      assert acc.buf + Flat(ps) == acc.buf;
    }
  }

  // ---------------------------------------------------------------------
  // What ProcessJsonData promises
  // ---------------------------------------------------------------------

  /** Stripping the headers and joining the chunks gives the uncut text. */
  lemma ChunkBodiesConcat(o: JObj)
    ensures Concat(ChunkBodies(o)) == Flat(Pieces(o))
  {
    var acc := Feed(Acc([], ""), Pieces(o));
    FeedPreservesText(Acc([], ""), Pieces(o));
    assert Concat([]) + "" + Flat(Pieces(o)) == Flat(Pieces(o));
    if Utf16Length(acc.buf) > 0 {
      ConcatAppend(acc.bodies, [acc.buf]);
      assert Concat([acc.buf]) == acc.buf by {
        assert [acc.buf][..0] == [];
      }
    }
  }

  /** No chunk body is empty, and every body but the last holds at least
      4000 UTF-16 units (a body may exceed it: a content append is never split). */
  lemma ChunkBodiesSizes(o: JObj)
    ensures forall k :: 0 <= k < |ChunkBodies(o)| ==> ChunkBodies(o)[k] != []
    ensures forall k :: 0 <= k < |ChunkBodies(o)| - 1 ==> Utf16Length(ChunkBodies(o)[k]) >= ChunkThreshold
  {
    var acc := Feed(Acc([], ""), Pieces(o));
    FeedBodiesLong(Acc([], ""), Pieces(o));
    forall k | 0 <= k < |ChunkBodies(o)|
      ensures ChunkBodies(o)[k] != []
    {
      if k < |acc.bodies| {
        Utf16LengthBounds(acc.bodies[k]);
      } else {
        Utf16LengthBounds(acc.buf);
      }
    }
  }

  /** A walk whose whole text stays below 4000 units gives at most one
      chunk, `##100##` followed by that text. */
  lemma SmallTreeSingleChunk(o: JObj)
    requires Utf16Length(Flat(Pieces(o))) < ChunkThreshold
    ensures Flat(Pieces(o)) == [] ==> ChunkJson(o) == []
    ensures Flat(Pieces(o)) != [] ==> ChunkJson(o) == ["##100##" + Flat(Pieces(o))]
  {
    var text := Flat(Pieces(o));
    assert "" + text == text;
    FeedBelowThreshold(Acc([], ""), Pieces(o));
    Utf16LengthBounds(text);
    if text != [] {
      assert ChunkBodies(o) == [text];
      FirstChunkHeader();
    }
  }

  lemma FirstChunkHeader()
    ensures ChunkHeader(FirstChunkIndex) == "##100##"
  {
    assert Digits(1) == "1";
    assert Digits(10) == "10";
    assert Digits(100) == "100";
  }

  /** The ids of the editable objects that carry one. */
  function EditableIds(o: JObj): set<string>
    decreases o
  {
    (if o.editable && o.id.Some? then {o.id.value} else {}) +
    match o.content
    case Kids(ks) => EditableIdsKids(ks)
    case Str(_) => {}
  }

  function EditableIdsKids(ks: seq<JObj>): set<string>
    decreases ks
  {
    if ks == [] then {} else EditableIdsKids(ks[..|ks| - 1]) + EditableIds(ks[|ks| - 1])
  }

  function MarkerIds(ps: seq<Piece>): set<string>
  {
    if ps == [] then {}
    else MarkerIds(ps[..|ps| - 1]) + (if ps[|ps| - 1].Marker? then {ps[|ps| - 1].id} else {})
  }

  lemma {:induction false} MarkerIdsAppend(a: seq<Piece>, b: seq<Piece>)
    ensures MarkerIds(a + b) == MarkerIds(a) + MarkerIds(b)
  {
    if b != [] {
      assert (a + b)[..|a + b| - 1] == a + b[..|b| - 1];
      MarkerIdsAppend(a, b[..|b| - 1]);
    } else {
      assert a + b == a;
    }
  }

  /** A marker is written exactly for each editable object that has an id. */
  lemma {:induction false} MarkersAreEditableIds(o: JObj)
    ensures MarkerIds(Pieces(o)) == EditableIds(o)
    decreases o
  {
    var rest := match o.content
      case Kids(ks) => PiecesKids(ks)
      case Str(s) => if o.editable then [Content(s)] else [];
    MarkerIdsAppend(MarkerPieces(o), rest);
    assert MarkerIds(MarkerPieces(o)) == (if o.editable && o.id.Some? then {o.id.value} else {}) by {
      if o.editable && o.id.Some? {
        assert [Marker(o.id.value)][..0] == [];
      }
    }
    match o.content
    case Kids(ks) =>
      MarkersAreEditableIdsKids(ks);
    case Str(s) =>
      if o.editable {
        assert [Content(s)][..0] == [];
      }
  }

  lemma {:induction false} MarkersAreEditableIdsKids(ks: seq<JObj>)
    ensures MarkerIds(PiecesKids(ks)) == EditableIdsKids(ks)
    decreases ks
  {
    if ks != [] {
      MarkersAreEditableIdsKids(ks[..|ks| - 1]);
      MarkersAreEditableIds(ks[|ks| - 1]);
      MarkerIdsAppend(PiecesKids(ks[..|ks| - 1]), Pieces(ks[|ks| - 1]));
    }
  }

  // ---------------------------------------------------------------------
  // The walk
  // ---------------------------------------------------------------------

  /** The walk continues after a prefix of the pieces has been fed. */
  lemma FeedThenPieces(a0: Acc, xs: seq<Piece>, ps: seq<Piece>)
    ensures var mid := Feed(a0, xs);
            var step := Feed(Acc([], mid.buf), ps);
            Feed(a0, xs + ps) == Acc(mid.bodies + step.bodies, step.buf)
  {
    FeedAppend(a0, xs, ps);
    FeedKeepsBodies(Feed(a0, xs).bodies, Feed(a0, xs).buf, ps);
  }

  lemma PiecesKidsSnoc(ks: seq<JObj>, i: nat)
    requires i < |ks|
    ensures PiecesKids(ks[..i + 1]) == PiecesKids(ks[..i]) + Pieces(ks[i])
  {
    assert ks[..i + 1][..i] == ks[..i];
  }

  lemma LabelledSplit(before: seq<string>, a: seq<string>, b: seq<string>, index: nat)
    ensures before + Labelled(a, index) + Labelled(b, index + |a|) == before + Labelled(a + b, index)
  {
    LabelledAppend(a, b, index);
    var la, lb := Labelled(a, index), Labelled(b, index + |a|);
    assert before + la + lb == before + (la + lb);
  }

  /** The content append of an editable string object. */
  lemma WalkContent(a0: Acc, head: seq<Piece>, s: string)
    ensures Feed(a0, head + [Content(s)]) == Step(Feed(a0, head), Content(s))
  {
    assert (head + [Content(s)])[..|head|] == head;
  }

  /** The marker of an editable object with an id goes into the buffer
      before anything else. */
  lemma WalkMarker(o: JObj, buf: string)
    ensures Feed(Acc([], buf), MarkerPieces(o))
         == Acc([], if o.editable && o.id.Some? then buf + MarkerText(o.id.value) else buf)
  {
    var head := MarkerPieces(o);
    if o.editable && o.id.Some? {
      assert head[..0] == [];
    }
  }

  /** An object with string content: its marker, then the content if the
      object is editable. */
  lemma WalkString(o: JObj, buf: string, s: string)
    requires o.content == Str(s)
    ensures var ah := Feed(Acc([], buf), MarkerPieces(o));
            Walk(o, buf) == if o.editable then Step(ah, Content(s)) else ah
  {
    if o.editable {
      WalkContent(Acc([], buf), MarkerPieces(o), s);
    } else {
      assert MarkerPieces(o) + [] == MarkerPieces(o);
    }
  }

  /** The pieces of one object fed to a buffer that holds `buf`. */
  function Walk(o: JObj, buf: string): Acc
  {
    Feed(Acc([], buf), Pieces(o))
  }

  /** An object with array content: its marker, then its children in order. */
  lemma WalkKids(o: JObj, buf: string, ks: seq<JObj>)
    requires o.content == Kids(ks)
    ensures Walk(o, buf) == Feed(Feed(Acc([], buf), MarkerPieces(o)), PiecesKids(ks))
  {
    FeedAppend(Acc([], buf), MarkerPieces(o), PiecesKids(ks));
  }

  /** ProcessJsonRecursive. The buffer, the list and the index, which the
      source shares by reference, are passed in and handed back: the walk
      extends the buffer, appends labelled chunks to the list and advances
      the index by one per chunk, exactly as feeding the object's pieces to
      the buffer would. */
  method ProcessJsonRecursive(o: JObj, currentChunk: string, processedList: seq<string>, chunkIndex: nat)
    returns (chunk: string, list: seq<string>, index: nat)
    ensures chunk == Walk(o, currentChunk).buf
    ensures list == processedList + Labelled(Walk(o, currentChunk).bodies, chunkIndex)
    ensures index == chunkIndex + |Walk(o, currentChunk).bodies|
    decreases o, 1
  {
    chunk, list, index := currentChunk, processedList, chunkIndex;
    if o.editable && o.id.Some? {
      chunk := chunk + MarkerText(o.id.value);
    }
    WalkMarker(o, currentChunk);
    assert [] + Labelled([], chunkIndex) == [];
    match o.content {
      case Kids(ks) =>
        WalkKids(o, currentChunk, ks);
        chunk, list, index := ProcessChildren(ks, chunk, list, index);
      case Str(s) =>
        WalkString(o, currentChunk, s);
        if o.editable {
          chunk, list, index := AppendContent(s, chunk, list, index);
        }
    }
  }

  /** Append a content string to the buffer and, once the buffer holds 4000
      UTF-16 units or more, cut it into the next labelled chunk. */
  method AppendContent(text: string, currentChunk: string, processedList: seq<string>, chunkIndex: nat)
    returns (chunk: string, list: seq<string>, index: nat)
    ensures chunk == Step(Acc([], currentChunk), Content(text)).buf
    ensures list == processedList + Labelled(Step(Acc([], currentChunk), Content(text)).bodies, chunkIndex)
    ensures index == chunkIndex + |Step(Acc([], currentChunk), Content(text)).bodies|
  {
    chunk, list, index := currentChunk + text, processedList, chunkIndex;
    if Utf16Length(chunk) >= ChunkThreshold {
      LabelledSnoc([], chunk, chunkIndex);
      list := list + [ChunkHeader(index) + chunk];
      chunk := "";
      index := index + 1;
    } else {
      assert processedList + Labelled([], chunkIndex) == processedList;
    }
  }

  /** The loop of ProcessJsonRecursive over an array content: each child in
      turn, on the buffer, list and index the previous one left. */
  method ProcessChildren(ks: seq<JObj>, currentChunk: string, processedList: seq<string>, chunkIndex: nat)
    returns (chunk: string, list: seq<string>, index: nat)
    ensures chunk == Feed(Acc([], currentChunk), PiecesKids(ks)).buf
    ensures list == processedList + Labelled(Feed(Acc([], currentChunk), PiecesKids(ks)).bodies, chunkIndex)
    ensures index == chunkIndex + |Feed(Acc([], currentChunk), PiecesKids(ks)).bodies|
    decreases ks, 0
  {
    chunk, list, index := currentChunk, processedList, chunkIndex;
    var i := 0;
    ChildrenStart(ks, currentChunk, processedList, chunkIndex);
    while i < |ks|
      invariant 0 <= i <= |ks|
      invariant ChildrenDone(ks, i, currentChunk, processedList, chunkIndex, chunk, list, index)
    {
      var chunk', list', index' := ProcessJsonRecursive(ks[i], chunk, list, index);
      ChildDone(ks, i, currentChunk, processedList, chunkIndex, chunk, list, index, chunk', list', index');
      chunk, list, index := chunk', list', index';
      i := i + 1;
    }
    assert ks[..i] == ks;
  }

  /** The buffer, list and index that stand for `acc` once chunks are
      labelled from `chunkIndex` behind `processedList`. */
  ghost predicate StateIs(acc: Acc, processedList: seq<string>, chunkIndex: nat,
                          chunk: string, list: seq<string>, index: nat)
  {
    chunk == acc.buf && list == processedList + Labelled(acc.bodies, chunkIndex)
    && index == chunkIndex + |acc.bodies|
  }

  /** The loop state of ProcessChildren after the first `i` children. */
  ghost predicate ChildrenDone(ks: seq<JObj>, i: nat, currentChunk: string, processedList: seq<string>,
                               chunkIndex: nat, chunk: string, list: seq<string>, index: nat)
    requires i <= |ks|
  {
    StateIs(Feed(Acc([], currentChunk), PiecesKids(ks[..i])), processedList, chunkIndex, chunk, list, index)
  }

  lemma ChildrenStart(ks: seq<JObj>, currentChunk: string, processedList: seq<string>, chunkIndex: nat)
    ensures ChildrenDone(ks, 0, currentChunk, processedList, chunkIndex, currentChunk, processedList, chunkIndex)
  {
    assert ks[..0] == [];
    assert processedList + Labelled([], chunkIndex) == processedList;
  }

  /** The fold after child `i` is the fold before it followed by the
      child's own walk on the buffer left behind. */
  lemma FeedChild(ks: seq<JObj>, i: nat, currentChunk: string)
    requires i < |ks|
    ensures var mid := Feed(Acc([], currentChunk), PiecesKids(ks[..i]));
            var step := Walk(ks[i], mid.buf);
            Feed(Acc([], currentChunk), PiecesKids(ks[..i + 1])) == Acc(mid.bodies + step.bodies, step.buf)
  {
    PiecesKidsSnoc(ks, i);
    FeedThenPieces(Acc([], currentChunk), PiecesKids(ks[..i]), Pieces(ks[i]));
  }

  /** Labelling the chunks of one walk behind those already labelled. */
  lemma StateStep(mid: Acc, step: Acc, processedList: seq<string>, chunkIndex: nat,
                  list: seq<string>, index: nat, list': seq<string>, index': nat)
    requires StateIs(mid, processedList, chunkIndex, mid.buf, list, index)
    requires list' == list + Labelled(step.bodies, index)
    requires index' == index + |step.bodies|
    ensures StateIs(Acc(mid.bodies + step.bodies, step.buf), processedList, chunkIndex, step.buf, list', index')
  {
    LabelledSplit(processedList, mid.bodies, step.bodies, chunkIndex);
  }

  /** Walking child `i` on the state the elder siblings left gives the state
      after child `i`. */
  lemma ChildDone(ks: seq<JObj>, i: nat, currentChunk: string, processedList: seq<string>, chunkIndex: nat,
                  chunk: string, list: seq<string>, index: nat,
                  chunk': string, list': seq<string>, index': nat)
    requires i < |ks|
    requires ChildrenDone(ks, i, currentChunk, processedList, chunkIndex, chunk, list, index)
    requires chunk' == Walk(ks[i], chunk).buf
    requires list' == list + Labelled(Walk(ks[i], chunk).bodies, index)
    requires index' == index + |Walk(ks[i], chunk).bodies|
    ensures ChildrenDone(ks, i + 1, currentChunk, processedList, chunkIndex, chunk', list', index')
  {
    var mid := Feed(Acc([], currentChunk), PiecesKids(ks[..i]));
    FeedChild(ks, i, currentChunk);
    StateStep(mid, Walk(ks[i], chunk), processedList, chunkIndex, list, index, list', index');
  }

  /** ProcessJsonData: the chunks of the whole tree, from index 100. */
  method ProcessJsonData(o: JObj) returns (processedList: seq<string>)
    ensures processedList == ChunkJson(o)
  {
    var currentChunk, chunkIndex;
    currentChunk, processedList, chunkIndex := ProcessJsonRecursive(o, "", [], FirstChunkIndex);
    ghost var acc := Feed(Acc([], ""), Pieces(o));
    assert [] + Labelled(acc.bodies, FirstChunkIndex) == Labelled(acc.bodies, FirstChunkIndex);
    if Utf16Length(currentChunk) > 0 {
      LabelledSnoc(acc.bodies, acc.buf, FirstChunkIndex);
      processedList := processedList + [ChunkHeader(chunkIndex) + currentChunk];
    }
  }
}
