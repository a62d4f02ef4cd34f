/**
  ParseEditedContent: read the edited text back into a map from id to new
  content. After every "# #" is turned into "##", the text is scanned
  left to right for the pattern

      ##\s*(?<id>\d{5})\s*##\s*(?<content>.*?)(?=(\s*##|\s*$))

  which is written out here as a scanner over positions of the string.
  None of the greedy `\s*` runs can give anything back to help a match
  (what follows each of them is never whitespace), so every part of a
  match is determined: the lazy content ends at the first position where
  the lookahead holds, and the match fails at that start if a line feed
  (which `.` does not match) comes first. A failed start moves the scan on
  by one; a match moves it to the match's end. The map keeps, for each id,
  the content of its last match.
 */
module EditParser {
  import opened Text
  import opened JsonTree

  /** The end of the run of whitespace (`\s*`, greedy) that starts at `j`. */
  function WsEnd(s: string, j: nat): (k: nat)
    requires j <= |s|
    ensures j <= k <= |s|
    ensures k < |s| ==> !IsWhiteSpace(s[k])
    decreases |s| - j
  {
    if j < |s| && IsWhiteSpace(s[j]) then WsEnd(s, j + 1) else j
  }

  predicate HashHashAt(s: string, k: nat) {
    k + 2 <= |s| && s[k] == '#' && s[k + 1] == '#'
  }

  /** The lookahead `(?=(\s*##|\s*$))` at position `j`. Since `\s` takes
      in the line feed, `$` before a final line feed adds nothing. */
  predicate LookaheadAt(s: string, j: nat)
    requires j <= |s|
  {
    var k := WsEnd(s, j);
    k == |s| || HashHashAt(s, k)
  }

  /** Where the lazy `.*?` that starts at `j` stops: the first position at
      which the lookahead holds, unless a line feed comes first. */
  function ContentEnd(s: string, j: nat): (r: Option<nat>)
    requires j <= |s|
    ensures r.Some? ==> j <= r.value <= |s| && LookaheadAt(s, r.value)
    ensures r.None? ==> exists i :: j <= i < |s| && s[i] == '\n' && !LookaheadAt(s, i)
    decreases |s| - j
  {
    if LookaheadAt(s, j) then Some(j)
    else if s[j] == '\n' then None
    else ContentEnd(s, j + 1)
  }

  datatype Match = Match(id: string, content: string, end: nat)

  /** The pattern, tried at position `p`. */
  function MatchAt(s: string, p: nat): (r: Option<Match>)
    requires p <= |s|
    ensures r.Some? ==> p + 9 <= r.value.end <= |s|
    ensures r.Some? ==> |r.value.id| == 5 && AllDigits(r.value.id)
  {
    if !HashHashAt(s, p) then None
    else
      var a := WsEnd(s, p + 2);
      if !(a + 5 <= |s| && AllDigits(s[a..a + 5])) then None
      else
        var b := WsEnd(s, a + 5);
        if !HashHashAt(s, b) then None
        else
          var c := WsEnd(s, b + 2);
          match ContentEnd(s, c)
          case None => None
          case Some(e) => Some(Match(s[a..a + 5], s[c..e], e))
  }

  /** Regex.Matches from position `p`: (id, content) of each match, in order. */
  function MatchesFrom(s: string, p: nat): seq<(string, string)>
    requires p <= |s|
    decreases |s| - p
  {
    if p == |s| then []
    else
      match MatchAt(s, p)
      case Some(m) => [(m.id, m.content)] + MatchesFrom(s, m.end)
      case None => MatchesFrom(s, p + 1)
  }

  /** A dictionary filled in order with `chunks[id] = content`. */
  function LastWins(ms: seq<(string, string)>): map<string, string>
  {
    if ms == [] then map[]
    else LastWins(ms[..|ms| - 1])[ms[|ms| - 1].0 := ms[|ms| - 1].1]
  }

  /** The text the pattern is run on. */
  function Normalize(s: string): string
  {
    ReplaceAll(s, "# #", "##")
  }

  /** ParseEditedContent's result. */
  function ParseEdited(s: string): map<string, string>
  {
    LastWins(MatchesFrom(Normalize(s), 0))
  }

  /** ParseEditedContent. */
  method ParseEditedContent(editedContent: string) returns (chunks: map<string, string>)
    ensures chunks == ParseEdited(editedContent)
  {
    var finalEditedContent := ReplaceAll(editedContent, "# #", "##");
    var matches := MatchesFrom(finalEditedContent, 0);
    chunks := map[];
    for i := 0 to |matches|
      invariant chunks == LastWins(matches[..i])
    {
      assert matches[..i + 1][..i] == matches[..i];
      chunks := chunks[matches[i].0 := matches[i].1];
    }
    assert matches[..|matches|] == matches;
  }

  // ---------------------------------------------------------------------
  // What comes out
  // ---------------------------------------------------------------------

  /** A value the pattern can capture: one line, no "##" inside, and no
      whitespace at either end. */
  predicate Captured(v: string) {
    OneLine(v) && NoHashHash(v) && Trimmed(v)
  }

  predicate OneLine(v: string) {
    forall i :: 0 <= i < |v| ==> v[i] != '\n'
  }

  predicate NoHashHash(v: string) {
    forall i :: 0 <= i < |v| - 1 ==> !(v[i] == '#' && v[i + 1] == '#')
  }

  predicate Trimmed(v: string) {
    v != [] ==> !IsWhiteSpace(v[0]) && !IsWhiteSpace(v[|v| - 1])
  }

  /** Before the lazy content stops, the lookahead fails and no line feed
      comes. */
  lemma {:induction false} NoLookaheadInside(s: string, c: nat, e: nat, i: nat)
    requires c <= |s| && ContentEnd(s, c) == Some(e)
    requires c <= i < e
    ensures !LookaheadAt(s, i) && s[i] != '\n'
    decreases |s| - c
  {
    if c < i {
      NoLookaheadInside(s, c + 1, e, i);
    }
  }

  /** Where the lookahead fails, "##" does not start. */
  lemma NoHashHashWithoutLookahead(s: string, i: nat)
    requires i + 1 < |s| && !LookaheadAt(s, i)
    ensures !(s[i] == '#' && s[i + 1] == '#')
  {
    if s[i] == '#' {
      assert WsEnd(s, i) == i;
    }
  }

  /** Lazy content holds no line feed. */
  lemma ContentOneLine(s: string, c: nat, e: nat)
    requires c <= |s| && ContentEnd(s, c) == Some(e)
    ensures OneLine(s[c..e])
  {
    var v := s[c..e];
    forall i | 0 <= i < |v|
      ensures v[i] != '\n'
    {
      assert v[i] == s[c + i];
      NoLookaheadInside(s, c, e, c + i);
    }
  }

  /** Lazy content holds no "##". */
  lemma ContentNoHashHash(s: string, c: nat, e: nat)
    requires c <= |s| && ContentEnd(s, c) == Some(e)
    ensures NoHashHash(s[c..e])
  {
    var v := s[c..e];
    forall i | 0 <= i < |v| - 1
      ensures !(v[i] == '#' && v[i + 1] == '#')
    {
      assert v[i] == s[c + i] && v[i + 1] == s[c + i + 1];
      NoLookaheadInside(s, c, e, c + i);
      NoHashHashWithoutLookahead(s, c + i);
    }
  }

  /** A stretch with no whitespace at either end is trimmed. */
  lemma EdgesTrimmed(s: string, c: nat, e: nat)
    requires c <= e <= |s|
    requires c < e ==> !IsWhiteSpace(s[c]) && !IsWhiteSpace(s[e - 1])
    ensures Trimmed(s[c..e])
  {
    if c < e {
      var v := s[c..e];
      assert v[0] == s[c] && v[|v| - 1] == s[e - 1];
    }
  }

  /** Lazy content never ends on whitespace. */
  lemma ContentLastChar(s: string, c: nat, e: nat)
    requires c <= |s| && ContentEnd(s, c) == Some(e) && c < e
    ensures !IsWhiteSpace(s[e - 1])
  {
    NoLookaheadInside(s, c, e, e - 1);
    LastContentChar(s, e);
  }

  /** Lazy content that starts after a whitespace run holds neither a line
      feed nor "##", and has no whitespace at either end. */
  lemma ContentCaptured(s: string, c: nat, e: nat)
    requires c <= |s| && ContentEnd(s, c) == Some(e)
    requires c < |s| ==> !IsWhiteSpace(s[c])
    ensures Captured(s[c..e])
  {
    ContentOneLine(s, c, e);
    ContentNoHashHash(s, c, e);
    if c < e {
      ContentLastChar(s, c, e);
    }
    EdgesTrimmed(s, c, e);
  }

  /** The lazy content never ends on whitespace: the lookahead would
      already have held one position earlier. */
  lemma LastContentChar(s: string, e: nat)
    requires 0 < e <= |s| && LookaheadAt(s, e) && !LookaheadAt(s, e - 1)
    ensures !IsWhiteSpace(s[e - 1])
  {
    assert WsEnd(s, e - 1) != WsEnd(s, e);
  }

  /** Where the content of a match starts: after the second "##" and the
      whitespace run behind it. */
  function ContentStart(s: string, p: nat): (c: nat)
    requires p + 2 <= |s|
    ensures c <= |s|
  {
    var a := WsEnd(s, p + 2);
    if a + 5 <= |s| then
      var b := WsEnd(s, a + 5);
      if b + 2 <= |s| then WsEnd(s, b + 2) else |s|
    else |s|
  }

  /** A match's content is the lazy content from ContentStart, which does
      not start on whitespace. */
  lemma MatchContent(s: string, p: nat)
    requires p <= |s| && MatchAt(s, p).Some?
    ensures p + 2 <= |s|
    ensures ContentStart(s, p) < |s| ==> !IsWhiteSpace(s[ContentStart(s, p)])
    ensures ContentEnd(s, ContentStart(s, p)) == Some(MatchAt(s, p).value.end)
    ensures MatchAt(s, p).value.content == s[ContentStart(s, p)..MatchAt(s, p).value.end]
  {
  }

  /** The captured content can be trimmed of nothing, and holds neither a
      line feed nor "##". */
  lemma MatchContentCaptured(s: string, p: nat)
    requires p <= |s| && MatchAt(s, p).Some?
    ensures Captured(MatchAt(s, p).value.content)
  {
    MatchContent(s, p);
    ContentCaptured(s, ContentStart(s, p), MatchAt(s, p).value.end);
  }

  /** Every match has a five-digit id and a captured value. */
  lemma {:induction false} MatchesFromWellFormed(s: string, p: nat)
    requires p <= |s|
    ensures forall k :: 0 <= k < |MatchesFrom(s, p)| ==>
              |MatchesFrom(s, p)[k].0| == 5 && AllDigits(MatchesFrom(s, p)[k].0) && Captured(MatchesFrom(s, p)[k].1)
    decreases |s| - p
  {
    if p < |s| {
      match MatchAt(s, p)
      case Some(m) =>
        MatchContentCaptured(s, p);
        MatchesFromWellFormed(s, m.end);
      case None =>
        MatchesFromWellFormed(s, p + 1);
    }
  }

  /** The dictionary holds exactly the ids that were matched, each with the
      content of its last match. */
  lemma {:induction false} LastWinsLast(ms: seq<(string, string)>, id: string)
    ensures id in LastWins(ms) <==> exists i :: 0 <= i < |ms| && ms[i].0 == id
    ensures id in LastWins(ms) ==>
              exists i :: 0 <= i < |ms| && ms[i] == (id, LastWins(ms)[id])
                          && forall j :: i < j < |ms| ==> ms[j].0 != id
  {
    if ms != [] {
      var init := ms[..|ms| - 1];
      LastWinsLast(init, id);
      if ms[|ms| - 1].0 == id {
        assert ms[|ms| - 1] == (id, LastWins(ms)[id]);
      } else if id in LastWins(init) {
        var i :| 0 <= i < |init| && init[i] == (id, LastWins(init)[id])
                 && forall j :: i < j < |init| ==> init[j].0 != id;
        assert ms[i] == init[i];
      } else {
        forall i | 0 <= i < |ms|
          ensures ms[i].0 != id
        {
          if i < |init| {
            assert ms[i] == init[i];
          }
        }
      }
    }
  }

  /** Every parsed id has five digits and every parsed value is captured. */
  lemma ParseEditedWellFormed(s: string)
    ensures forall id :: id in ParseEdited(s) ==>
              |id| == 5 && AllDigits(id) && Captured(ParseEdited(s)[id])
  {
    var ms := MatchesFrom(Normalize(s), 0);
    MatchesFromWellFormed(Normalize(s), 0);
    forall id | id in ParseEdited(s)
      ensures |id| == 5 && AllDigits(id) && Captured(ParseEdited(s)[id])
    {
      LastWinsLast(ms, id);
    }
  }

  // ---------------------------------------------------------------------
  // What goes through unchanged
  // ---------------------------------------------------------------------

  predicate NoHashSpaceHash(s: string) {
    forall i :: 0 <= i && i + 2 < |s| ==> !(s[i] == '#' && s[i + 1] == ' ' && s[i + 2] == '#')
  }

  /** A value that comes back exactly as it was written out: it can be
      captured, does not end in '#' (which would merge with the next
      marker), and holds no "# #" (which the normalisation would rewrite). */
  predicate Clean(c: string) {
    Captured(c) && (c != [] ==> c[|c| - 1] != '#') && NoHashSpaceHash(c)
  }

  /** Text without "# #" is left alone by the normalisation. */
  lemma NormalizeIdentity(s: string)
    requires NoHashSpaceHash(s)
    ensures Normalize(s) == s
  {
    assert s + [] == s;
    forall i | 0 <= i < |s|
      ensures !StartsWith((s + [])[i..], "# #")
    {
      if i + 3 <= |s| {
        assert s[i..][..3] == [s[i], s[i + 1], s[i + 2]];
      }
    }
    ReplaceAllSkips(s, [], "# #", "##");
  }

  /** A whitespace run from `i` stops at or before the first
      non-whitespace character at or after it. */
  lemma {:induction false} WsEndBefore(s: string, i: nat, m: nat)
    requires i <= m < |s| && !IsWhiteSpace(s[m])
    ensures WsEnd(s, i) <= m
    decreases m - i
  {
    if i < m && IsWhiteSpace(s[i]) {
      WsEndBefore(s, i + 1, m);
    }
  }

  /** The lazy content stops exactly at `e` when the lookahead holds there
      and nowhere before, and no line feed comes first. */
  lemma {:induction false} ContentEndAt(s: string, j: nat, e: nat)
    requires j <= e <= |s| && LookaheadAt(s, e)
    requires forall i :: j <= i < e ==> s[i] != '\n' && !LookaheadAt(s, i)
    ensures ContentEnd(s, j) == Some(e)
    decreases e - j
  {
    if j < e {
      assert s[j] != '\n' && !LookaheadAt(s, j);
      ContentEndAt(s, j + 1, e);
    }
  }

  /** Inside a clean value that is followed by "##" or the end, the
      lookahead never holds. */
  lemma NoLookaheadInClean(s: string, j: nat, q: nat, i: nat)
    requires j <= i < q <= |s| && Clean(s[j..q])
    ensures !LookaheadAt(s, i)
  {
    var c := s[j..q];
    assert c[|c| - 1] == s[q - 1];
    WsEndBefore(s, i, q - 1);
    var k := WsEnd(s, i);
    if k + 1 < q {
      assert c[k - j] == s[k] && c[k - j + 1] == s[k + 1];
    } else {
      assert s[k] == c[|c| - 1];
    }
  }

  /** A clean value after which the lookahead holds is exactly what the
      lazy content takes. */
  lemma CleanContentEnd(s: string, j: nat, q: nat)
    requires j <= q <= |s| && Clean(s[j..q]) && LookaheadAt(s, q)
    ensures ContentEnd(s, j) == Some(q)
  {
    var c := s[j..q];
    forall i | j <= i < q
      ensures s[i] != '\n' && !LookaheadAt(s, i)
    {
      assert s[i] == c[i - j];
      NoLookaheadInClean(s, j, q, i);
    }
    ContentEndAt(s, j, q);
  }

  /** The characters of a marker followed by a value. */
  lemma MarkerChars(s: string, p: nat, id: string, c: string)
    requires |id| == 5
    requires p + 9 + |c| <= |s| && s[p..p + 9 + |c|] == MarkerText(id) + c
    ensures s[p] == '#' && s[p + 1] == '#' && s[p + 7] == '#' && s[p + 8] == '#'
    ensures s[p + 2..p + 7] == id && s[p + 9..p + 9 + |c|] == c
  {
    var w := s[p..p + 9 + |c|];
    assert w == "##" + id + "##" + c;
    assert s[p] == w[0] && s[p + 1] == w[1] && s[p + 7] == w[7] && s[p + 8] == w[8];
    forall t | 0 <= t < 5
      ensures s[p + 2..p + 7][t] == id[t]
    {
      assert s[p + 2 + t] == w[2 + t];
    }
    forall t | 0 <= t < |c|
      ensures s[p + 9..p + 9 + |c|][t] == c[t]
    {
      assert s[p + 9 + t] == w[9 + t];
    }
  }

  /** A marker with a five-digit id followed by a clean value, after which
      the lookahead holds, is matched with exactly that id and value. An
      empty value must be followed by "##" or the end, or the whitespace
      run after the marker would take in what follows. */
  lemma MarkerMatch(s: string, p: nat, id: string, c: string)
    requires |id| == 5 && AllDigits(id) && Clean(c)
    requires p + 9 + |c| <= |s| && s[p..p + 9 + |c|] == MarkerText(id) + c
    requires LookaheadAt(s, p + 9 + |c|)
    requires c == [] ==> p + 9 == |s| || HashHashAt(s, p + 9)
    ensures MatchAt(s, p) == Some(Match(id, c, p + 9 + |c|))
  {
    var q := p + 9 + |c|;
    MarkerChars(s, p, id, c);
    assert s[p + 2] == id[0];
    assert WsEnd(s, p + 2) == p + 2;
    assert WsEnd(s, p + 7) == p + 7;
    if c != [] {
      assert s[p + 9] == c[0];
    }
    assert WsEnd(s, p + 9) == p + 9;
    CleanContentEnd(s, p + 9, q);
  }

  /** The text written out for a list of (id, value) pairs. */
  function SegText(ss: seq<(string, string)>): string
  {
    if ss == [] then [] else MarkerText(ss[0].0) + ss[0].1 + SegText(ss[1..])
  }

  lemma {:induction false} SegTextAppend(a: seq<(string, string)>, b: seq<(string, string)>)
    ensures SegText(a + b) == SegText(a) + SegText(b)
  {
    if a != [] {
      assert (a + b)[1..] == a[1..] + b;
      SegTextAppend(a[1..], b);
    } else {
      assert a + b == b;
    }
  }

  /** Pairs with five-digit ids and clean values. */
  predicate Transportable(ss: seq<(string, string)>) {
    forall k :: 0 <= k < |ss| ==> |ss[k].0| == 5 && AllDigits(ss[k].0) && Clean(ss[k].1)
  }

  lemma SliceSplit(s: string, p: nat, x: string, y: string)
    requires p <= |s| && s[p..] == x + y
    ensures p + |x| <= |s| && s[p..p + |x|] == x && s[p + |x|..] == y
  {
    assert s[p..p + |x|] == s[p..][..|x|];
    assert s[p + |x|..] == s[p..][|x|..];
  }

  lemma TransportableTail(ss: seq<(string, string)>)
    requires ss != [] && Transportable(ss)
    ensures Transportable(ss[1..])
  {
    forall k | 0 <= k < |ss[1..]|
      ensures |ss[1..][k].0| == 5 && AllDigits(ss[1..][k].0) && Clean(ss[1..][k].1)
    {
      assert ss[1..][k] == ss[k + 1];
    }
  }

  /** The text of a list of pairs is empty or starts with "##". */
  lemma SegTextStart(ss: seq<(string, string)>)
    ensures SegText(ss) == [] || (|SegText(ss)| >= 2 && SegText(ss)[0] == '#' && SegText(ss)[1] == '#')
  {
  }

  /** A match at `p` is the first element, and the scan resumes at its end. */
  lemma MatchesFromStep(s: string, p: nat, id: string, c: string, e: nat)
    requires p < |s| && MatchAt(s, p) == Some(Match(id, c, e)) && e <= |s|
    ensures MatchesFrom(s, p) == [(id, c)] + MatchesFrom(s, e)
  {
  }

  /** A marker and its clean value followed by "##" or the end match. */
  lemma MarkerMatchBeforeMarker(s: string, p: nat, id: string, c: string)
    requires |id| == 5 && AllDigits(id) && Clean(c)
    requires p + 9 + |c| <= |s| && s[p..p + 9 + |c|] == MarkerText(id) + c
    requires p + 9 + |c| == |s| || HashHashAt(s, p + 9 + |c|)
    ensures MatchAt(s, p) == Some(Match(id, c, p + 9 + |c|))
  {
    assert WsEnd(s, p + 9 + |c|) == p + 9 + |c|;
    MarkerMatch(s, p, id, c);
  }

  /** The text of pairs starts with "##" unless it is empty. */
  lemma SegTextBoundary(s: string, q: nat, ss: seq<(string, string)>)
    requires q <= |s| && s[q..] == SegText(ss)
    ensures q == |s| || HashHashAt(s, q)
  {
    SegTextStart(ss);
    if q < |s| {
      assert s[q] == s[q..][0] && s[q + 1] == s[q..][1];
    }
  }

  /** The text of pairs splits into the first marker with its value and
      the text of the remaining pairs. */
  lemma SegTextHead(s: string, p: nat, ss: seq<(string, string)>)
    requires p <= |s| && s[p..] == SegText(ss) && ss != [] && |ss[0].0| == 5
    ensures p + 9 + |ss[0].1| <= |s|
    ensures s[p..p + 9 + |ss[0].1|] == MarkerText(ss[0].0) + ss[0].1
    ensures s[p + 9 + |ss[0].1|..] == SegText(ss[1..])
  {
    assert SegText(ss) == MarkerText(ss[0].0) + ss[0].1 + SegText(ss[1..]);
    SliceSplit(s, p, MarkerText(ss[0].0) + ss[0].1, SegText(ss[1..]));
  }

  /** From `p` on, the text is a run of markers with five-digit ids, each
      followed by its clean value, up to the end. */
  predicate MarkerRun(s: string, p: nat, ss: seq<(string, string)>)
    requires p <= |s|
    decreases ss
  {
    if ss == [] then p == |s|
    else
      var q := p + 9 + |ss[0].1|;
      && |ss[0].0| == 5 && AllDigits(ss[0].0) && Clean(ss[0].1)
      && q <= |s| && s[p..q] == MarkerText(ss[0].0) + ss[0].1
      && (q == |s| || HashHashAt(s, q))
      && MarkerRun(s, q, ss[1..])
  }

  /** The text of pairs with five-digit ids and clean values is such a run. */
  lemma {:induction false} SegTextMarkerRun(s: string, p: nat, ss: seq<(string, string)>)
    requires p <= |s| && s[p..] == SegText(ss) && Transportable(ss)
    ensures MarkerRun(s, p, ss)
    decreases ss
  {
    if ss != [] {
      var q := p + 9 + |ss[0].1|;
      TransportableTail(ss);
      SegTextHead(s, p, ss);
      SegTextBoundary(s, q, ss[1..]);
      SegTextMarkerRun(s, q, ss[1..]);
    } else {
      assert |s[p..]| == 0;
    }
  }

  /** A run goes on after its first marker and value. */
  lemma MarkerRunTail(s: string, p: nat, ss: seq<(string, string)>)
    requires p <= |s| && ss != [] && MarkerRun(s, p, ss)
    ensures p + 9 + |ss[0].1| <= |s| && MarkerRun(s, p + 9 + |ss[0].1|, ss[1..])
  {
  }

  /** A marker with its clean value, followed by "##" or the end, is the
      first thing the scan finds from there. */
  lemma MarkerRunHead(s: string, p: nat, ss: seq<(string, string)>,
                      id: string, c: string, rest: seq<(string, string)>)
    requires ss == [(id, c)] + rest
    requires |id| == 5 && AllDigits(id) && Clean(c)
    requires p + 9 + |c| <= |s| && s[p..p + 9 + |c|] == MarkerText(id) + c
    requires p + 9 + |c| == |s| || HashHashAt(s, p + 9 + |c|)
    requires MatchesFrom(s, p + 9 + |c|) == rest
    ensures MatchesFrom(s, p) == ss
  {
    MarkerMatchBeforeMarker(s, p, id, c);
    MatchesFromStep(s, p, id, c, p + 9 + |c|);
  }

  lemma PairsHeadTail(ss: seq<(string, string)>)
    requires ss != []
    ensures ss == [(ss[0].0, ss[0].1)] + ss[1..]
  {
  }

  /** Scanning a run of markers finds exactly its pairs. */
  lemma {:induction false} MarkerRunScan(s: string, p: nat, ss: seq<(string, string)>)
    requires p <= |s| && MarkerRun(s, p, ss)
    ensures MatchesFrom(s, p) == ss
    decreases ss
  {
    if ss != [] {
      MarkerRunTail(s, p, ss);
      MarkerRunScan(s, p + 9 + |ss[0].1|, ss[1..]);
      PairsHeadTail(ss);
      MarkerRunHead(s, p, ss, ss[0].0, ss[0].1, ss[1..]);
    }
  }

  /** Scanning the text of such pairs finds exactly those pairs. */
  lemma ParseSegText(s: string, p: nat, ss: seq<(string, string)>)
    requires p <= |s| && s[p..] == SegText(ss) && Transportable(ss)
    ensures MatchesFrom(s, p) == ss
  {
    SegTextMarkerRun(s, p, ss);
    MarkerRunScan(s, p, ss);
  }

  /** Two pieces without "# #" whose seam has no space on either side
      make a text without "# #". */
  lemma NoHashSpaceHashJoin(a: string, b: string)
    requires NoHashSpaceHash(a) && NoHashSpaceHash(b)
    requires a != [] ==> a[|a| - 1] != ' '
    requires b != [] ==> b[0] != ' '
    ensures NoHashSpaceHash(a + b)
  {
    var s := a + b;
    forall i | 0 <= i && i + 2 < |s|
      ensures !(s[i] == '#' && s[i + 1] == ' ' && s[i + 2] == '#')
    {
      if i + 2 < |a| {
        assert s[i] == a[i] && s[i + 1] == a[i + 1] && s[i + 2] == a[i + 2];
      } else if i >= |a| {
        assert s[i] == b[i - |a|] && s[i + 1] == b[i - |a| + 1] && s[i + 2] == b[i - |a| + 2];
      } else if i + 2 == |a| {
        assert s[i + 1] == a[|a| - 1];
      } else {
        assert s[i + 1] == b[0];
      }
    }
  }

  /** A marker holds no space. */
  lemma MarkerNoSpace(id: string)
    requires AllDigits(id)
    ensures NoHashSpaceHash(MarkerText(id))
    ensures MarkerText(id)[0] == '#' && MarkerText(id)[|MarkerText(id)| - 1] == '#'
  {
    var m := MarkerText(id);
    forall i | 0 <= i < |m|
      ensures m[i] != ' '
    {
      if 2 <= i < 2 + |id| {
        assert m[i] == id[i - 2];
      }
    }
  }

  /** The text of transportable pairs holds no "# #" and does not end in a
      space. */
  lemma {:induction false} SegTextNoHashSpaceHash(ss: seq<(string, string)>)
    requires Transportable(ss)
    ensures NoHashSpaceHash(SegText(ss))
    ensures SegText(ss) != [] ==> SegText(ss)[|SegText(ss)| - 1] != ' '
    decreases ss
  {
    if ss != [] {
      var id, c := ss[0].0, ss[0].1;
      var m := MarkerText(id);
      var rest := SegText(ss[1..]);
      TransportableTail(ss);
      SegTextNoHashSpaceHash(ss[1..]);
      SegTextStart(ss[1..]);
      MarkerNoSpace(id);
      NoHashSpaceHashJoin(m, c);
      var left := m + c;
      assert left[|left| - 1] != ' ' by {
        if c != [] {
          assert left[|left| - 1] == c[|c| - 1];
        } else {
          assert left == m;
        }
      }
      NoHashSpaceHashJoin(left, rest);
      assert SegText(ss) == left + rest;
      if rest != [] {
        assert SegText(ss)[|SegText(ss)| - 1] == rest[|rest| - 1];
      }
    }
  }

  /** Reading back the text of transportable pairs gives, for each id, the
      value of its last pair: what was written out comes back unchanged. */
  lemma ParseEditedSegText(ss: seq<(string, string)>)
    requires Transportable(ss)
    ensures ParseEdited(SegText(ss)) == LastWins(ss)
  {
    SegTextNoHashSpaceHash(ss);
    NormalizeIdentity(SegText(ss));
    ParseSegText(SegText(ss), 0, ss);
  }

  /** A text with a '#' in none of its positions from `q` on has no match
      there. */
  lemma {:induction false} NoMatchesWithoutHash(s: string, q: nat)
    requires q <= |s| && forall i :: q <= i < |s| ==> s[i] != '#'
    ensures MatchesFrom(s, q) == []
    decreases |s| - q
  {
    if q < |s| {
      assert !HashHashAt(s, q);
      NoMatchesWithoutHash(s, q + 1);
    }
  }

  /** A whitespace run that reaches the end. */
  lemma {:induction false} WsEndAllWhite(s: string, q: nat)
    requires q <= |s| && forall i :: q <= i < |s| ==> IsWhiteSpace(s[i])
    ensures WsEnd(s, q) == |s|
    decreases |s| - q
  {
    if q < |s| {
      WsEndAllWhite(s, q + 1);
    }
  }

  /** Appending text without '#' adds no "# #". */
  lemma NoHashSpaceHashNoHash(a: string, b: string)
    requires NoHashSpaceHash(a) && forall i :: 0 <= i < |b| ==> b[i] != '#'
    ensures NoHashSpaceHash(a + b)
  {
    var s := a + b;
    forall i | 0 <= i && i + 2 < |s|
      ensures !(s[i] == '#' && s[i + 1] == ' ' && s[i + 2] == '#')
    {
      if i + 2 < |a| {
        assert s[i] == a[i] && s[i + 1] == a[i + 1] && s[i + 2] == a[i + 2];
      } else {
        assert s[i + 2] == b[i + 2 - |a|];
      }
    }
  }

  /** A marker with its clean value followed only by whitespace is matched
      up to the start of the whitespace. */
  lemma TrailingMatch(s: string, id: string, c: string)
    requires |id| == 5 && AllDigits(id) && Clean(c) && c != []
    requires 9 + |c| <= |s| && s[0..9 + |c|] == MarkerText(id) + c
    requires forall i :: 9 + |c| <= i < |s| ==> IsWhiteSpace(s[i])
    ensures MatchAt(s, 0) == Some(Match(id, c, 9 + |c|))
  {
    WsEndAllWhite(s, 9 + |c|);
    MarkerMatch(s, 0, id, c);
  }

  /** ... and that match is the only one. */
  lemma TrailingScan(s: string, id: string, c: string)
    requires |id| == 5 && AllDigits(id) && Clean(c) && c != []
    requires 9 + |c| <= |s| && s[0..9 + |c|] == MarkerText(id) + c
    requires forall i :: 9 + |c| <= i < |s| ==> IsWhiteSpace(s[i]) && s[i] != '#'
    ensures MatchesFrom(s, 0) == [(id, c)]
  {
    TrailingMatch(s, id, c);
    MatchesFromStep(s, 0, id, c, 9 + |c|);
    NoMatchesWithoutHash(s, 9 + |c|);
  }

  /** A marker with its clean value followed by whitespace holds no "# #". */
  lemma TrailingNormalized(id: string, c: string, w: string)
    requires |id| == 5 && AllDigits(id) && Clean(c)
    requires forall i :: 0 <= i < |w| ==> IsWhiteSpace(w[i])
    ensures Normalize(MarkerText(id) + c + w) == MarkerText(id) + c + w
  {
    assert SegText([(id, c)]) == MarkerText(id) + c by {
      assert [(id, c)][1..] == [];
    }
    assert Transportable([(id, c)]);
    SegTextNoHashSpaceHash([(id, c)]);
    forall i | 0 <= i < |w|
      ensures w[i] != '#'
    {
      assert IsWhiteSpace(w[i]);
    }
    NoHashSpaceHashNoHash(MarkerText(id) + c, w);
    NormalizeIdentity(MarkerText(id) + c + w);
  }

  /** Whitespace after a value is not part of what comes back: a text that
      ends in whitespace is read back without it. */
  lemma TrailingWhitespaceDropped(id: string, c: string, w: string)
    requires |id| == 5 && AllDigits(id) && Clean(c) && c != []
    requires w != [] && forall i :: 0 <= i < |w| ==> IsWhiteSpace(w[i])
    ensures ParseEdited(MarkerText(id) + c + w) == map[id := c]
  {
    var s := MarkerText(id) + c + w;
    var q := 9 + |c|;
    TrailingNormalized(id, c, w);
    assert s[0..q] == MarkerText(id) + c;
    forall i | q <= i < |s|
      ensures IsWhiteSpace(s[i]) && s[i] != '#'
    {
      assert s[i] == w[i - q];
    }
    TrailingScan(s, id, c);
    assert LastWins([(id, c)]) == LastWins([(id, c)][..0])[id := c];
  }
}
