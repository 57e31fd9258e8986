/** Applying LSP text edits one by one, last position first, against one simultaneous splice. */
module TextEdits {
  import opened Numbers

  datatype Position = Position(line: int, character: int)
  datatype Edit = Edit(start: Position, end: Position, newText: string)

  predicate Before(a: Position, b: Position) {
    a.line < b.line || (a.line == b.line && a.character < b.character)
  }

  // ---------------------------------------------------------------- lines and offsets

  /** Offsets at which a line starts, looking at the first n characters. */
  function Starts(text: string, n: nat): (r: seq<int>)
    requires n <= |text|
    ensures r != [] && forall i :: 0 <= i < |r| ==> 0 <= r[i] <= n
  {
    if n == 0 then [0] else Starts(text, n - 1) + (if text[n - 1] == '\n' then [n] else [])
  }

  function LineStarts(text: string): seq<int> { Starts(text, |text|) }

  method LineOffsets(text: string) returns (offsets: seq<int>)
    ensures offsets == LineStarts(text)
  {
    offsets := [0];
    for index := 0 to |text|
      invariant offsets == Starts(text, index)
    {
      if text[index] == '\n' {
        offsets := offsets + [index + 1];
      }
    }
  }

  /** The offset of a position, clamped into its line. */
  function PositionToOffset(lineOffsets: seq<int>, text: string, line: int, character: int): int {
    if lineOffsets == [] then 0 else
    var clamped := Max(0, Min(line, |lineOffsets| - 1));
    var lineStart := lineOffsets[clamped];
    var lineEnd := if clamped + 1 < |lineOffsets| then Max(lineStart, lineOffsets[clamped + 1] - 1) else |text|;
    Max(lineStart, Min(lineStart + Max(0, character), lineEnd))
  }

  function Offset(text: string, pos: Position): (p: int)
    ensures 0 <= p <= |text|
  {
    PositionToOffset(LineStarts(text), text, pos.line, pos.character)
  }

  /** The position of an offset: how many lines start at or before it, and how far into the last of them it is. */
  function PositionOf(text: string, p: nat): Position
    requires p <= |text|
  {
    var s := Starts(text, p);
    Position(|s| - 1, p - s[|s| - 1])
  }

  /** The line exists and is at least that long. */
  predicate InRange(text: string, pos: Position) {
    var s := LineStarts(text);
    && 0 <= pos.line < |s| && 0 <= pos.character
    && s[pos.line] + pos.character <= (if pos.line + 1 < |s| then s[pos.line + 1] - 1 else |text|)
  }

  lemma {:induction false} StartsGrow(text: string, p: nat, n: nat)
    requires p <= n <= |text|
    ensures Starts(text, p) <= Starts(text, n)
    ensures forall i :: |Starts(text, p)| <= i < |Starts(text, n)| ==> Starts(text, n)[i] > p
  {
    if p < n { StartsGrow(text, p, n - 1); }
  }

  lemma {:induction false} StartsLocal(text: string, other: string, p: nat)
    requires p <= |text| && p <= |other| && text[..p] == other[..p]
    ensures Starts(text, p) == Starts(other, p)
  {
    if p > 0 {
      assert text[..p - 1] == text[..p][..p - 1] && other[..p - 1] == other[..p][..p - 1];
      assert text[p - 1] == text[..p][p - 1] && other[p - 1] == other[..p][p - 1];
      StartsLocal(text, other, p - 1);
    }
  }

  /** An offset's own position leads back to it. */
  lemma OffsetOfPosition(text: string, p: nat)
    requires p <= |text|
    ensures Offset(text, PositionOf(text, p)) == p
  {
    StartsGrow(text, p, |text|);
  }

  /** An in-range position is the position of its offset. */
  lemma PositionOfOffset(text: string, pos: Position)
    requires InRange(text, pos)
    ensures PositionOf(text, Offset(text, pos)) == pos
  {
    var p := Offset(text, pos);
    StartsGrow(text, p, |text|);
    var all, upTo := LineStarts(text), Starts(text, p);
    assert forall i :: 0 <= i < |upTo| ==> upTo[i] == all[i] && all[i] <= p;
    assert all[pos.line] <= p;
    assert |upTo| > pos.line;
    assert pos.line + 1 < |all| ==> all[pos.line + 1] > p;
  }

  /** A position at or before which nothing changed keeps its offset in the changed text. */
  lemma OffsetIsLocal(text: string, other: string, pos: Position)
    requires InRange(text, pos)
    requires Offset(text, pos) <= |other| && text[..Offset(text, pos)] == other[..Offset(text, pos)]
    ensures Offset(other, pos) == Offset(text, pos)
  {
    PositionOfOffset(text, pos);
    StartsLocal(text, other, Offset(text, pos));
    OffsetOfPosition(other, Offset(text, pos));
  }

  lemma PositionsFollowOffsets(text: string, a: Position, b: Position)
    requires InRange(text, a) && InRange(text, b)
    ensures Before(a, b) <==> Offset(text, a) < Offset(text, b)
  {
    PositionOfOffset(text, a);
    PositionOfOffset(text, b);
    if Offset(text, a) <= Offset(text, b) {
      StartsGrow(text, Offset(text, a), Offset(text, b));
    } else {
      StartsGrow(text, Offset(text, b), Offset(text, a));
    }
  }

  /** Line starts are the text's beginning and the offsets just past its newlines, in order. */
  lemma {:induction false} StartsExactly(text: string, n: nat)
    requires n <= |text|
    ensures forall o: int :: o in Starts(text, n) <==> o == 0 || (0 < o <= n && text[o - 1] == '\n')
    ensures forall i, j :: 0 <= i < j < |Starts(text, n)| ==> Starts(text, n)[i] < Starts(text, n)[j]
  {
    if n > 0 { StartsExactly(text, n - 1); }
  }

  function LineLength(text: string, line: nat): int
    requires line < |LineStarts(text)|
  {
    var s := LineStarts(text);
    (if line + 1 < |s| then s[line + 1] - 1 else |text|) - s[line]
  }

  /** A position outside the text means the nearest line, and on it the nearest character. */
  lemma OutsideIsNearest(text: string, pos: Position)
    ensures var near := PositionOf(text, Offset(text, pos));
            && near.line == Max(0, Min(pos.line, |LineStarts(text)| - 1))
            && near.character == Max(0, Min(pos.character, LineLength(text, near.line)))
  {
    var s := LineStarts(text);
    var line := Max(0, Min(pos.line, |s| - 1));
    StartsExactly(text, |text|);
    assert line + 1 < |s| ==> s[line] < s[line + 1];
    var near := Position(line, Max(0, Min(pos.character, LineLength(text, line))));
    assert Offset(text, pos) == s[line] + near.character == Offset(text, near);
    PositionOfOffset(text, near);
  }

  // ---------------------------------------------------------------- sorting

  function Insert(x: Edit, s: seq<Edit>): (r: seq<Edit>)
    ensures multiset(r) == multiset(s) + multiset{x}
    ensures |r| == |s| + 1
  {
    if s == [] || !Before(s[0].start, x.start) then assert [x] + s == [x] + s; [x] + s
    else assert s == [s[0]] + s[1..]; [s[0]] + Insert(x, s[1..])
  }

  /** Stable sort by start position, earliest first. */
  function Sorted(s: seq<Edit>): (r: seq<Edit>)
    ensures multiset(r) == multiset(s)
    ensures |r| == |s|
  {
    if s == [] then [] else assert s == [s[0]] + s[1..]; Insert(s[0], Sorted(s[1..]))
  }

  function Reverse(s: seq<Edit>): (r: seq<Edit>)
    ensures |r| == |s|
    ensures forall i :: 0 <= i < |s| ==> r[i] == s[|s| - 1 - i]
  {
    if s == [] then [] else Reverse(s[1..]) + [s[0]]
  }

  /** Stable sort by start position, latest first: edits that start together stay in list order. */
  function SortedLatestFirst(s: seq<Edit>): seq<Edit> { Reverse(Sorted(Reverse(s))) }

  // ---------------------------------------------------------------- the loop

  function ApplyOne(text: string, e: Edit): string {
    text[..Offset(text, e.start)] + e.newText + text[Offset(text, e.end)..]
  }

  function ApplyInOrder(text: string, edits: seq<Edit>): string
    decreases |edits|
  {
    if edits == [] then text
    else ApplyOne(ApplyInOrder(text, edits[..|edits| - 1]), edits[|edits| - 1])
  }

  function Loop(text: string, edits: seq<Edit>): string { ApplyInOrder(text, SortedLatestFirst(edits)) }

  method ApplyTextEdits(text: string, edits: seq<Edit>) returns (normalized: string)
    ensures normalized == Loop(text, edits)
    ensures Legal(text, edits) && DistinctStarts(edits) ==> normalized == Simultaneous(text, edits)
  {
    normalized := text;
    var lineOffsets := LineOffsets(normalized);
    var order := SortedLatestFirst(edits);
    for i := 0 to |order|
      invariant normalized == ApplyInOrder(text, order[..i])
      invariant lineOffsets == LineStarts(normalized)
    {
      var edit := order[i];
      assert order[..i + 1][..i] == order[..i];
      var startOffset := PositionToOffset(lineOffsets, normalized, edit.start.line, edit.start.character);
      var endOffset := PositionToOffset(lineOffsets, normalized, edit.end.line, edit.end.character);
      assert startOffset == Offset(normalized, edit.start) && endOffset == Offset(normalized, edit.end);
      normalized := normalized[..startOffset] + edit.newText + normalized[endOffset..];
      lineOffsets := LineOffsets(normalized);
    }
    assert order[..|order|] == order;
    if Legal(text, edits) && DistinctStarts(edits) { DistinctStartsSuffice(text, edits); }
  }

  // ---------------------------------------------------------------- the simultaneous splice

  /** The text from an offset on with all edits, in list order, made at once: every range is a range of the
      original text. */
  function Splice(original: string, from: int, edits: seq<Edit>): string
    requires 0 <= from <= |original|
    decreases |edits|
  {
    if edits == [] then original[from..] else
    var s := Max(from, Offset(original, edits[0].start));
    original[from..s] + edits[0].newText + Splice(original, Max(s, Offset(original, edits[0].end)), edits[1..])
  }

  /** What LSP asks for: insertions at one position appear in list order. */
  function Simultaneous(text: string, edits: seq<Edit>): string { Splice(text, 0, Sorted(edits)) }

  predicate Sound(text: string, e: Edit) {
    InRange(text, e.start) && InRange(text, e.end) && Offset(text, e.start) <= Offset(text, e.end)
  }

  predicate Insertion(text: string, e: Edit) { Offset(text, e.start) == Offset(text, e.end) }

  /** Two ranges, in list order, do not overlap, and if they start together the first is an insertion (the second,
      when the list is read backwards). */
  predicate Mergeable(text: string, a: Edit, b: Edit, back: bool) {
    && (Offset(text, a.end) <= Offset(text, b.start) || Offset(text, b.end) <= Offset(text, a.start))
    && (a.start == b.start ==> Insertion(text, if back then b else a))
  }

  /** x, listed first, merges with every edit of a list. */
  predicate Clear(text: string, x: Edit, edits: seq<Edit>, back: bool) {
    edits != [] ==> Mergeable(text, x, edits[0], back) && Clear(text, x, edits[1..], back)
  }

  predicate Pairwise(text: string, edits: seq<Edit>, back: bool) {
    edits != [] ==> Sound(text, edits[0]) && Clear(text, edits[0], edits[1..], back) && Pairwise(text, edits[1..], back)
  }

  /** What LSP allows: ranges of the text that do not overlap; at one start position any number of insertions, and
      after them in the list at most one replacement. */
  predicate Legal(text: string, edits: seq<Edit>) { Pairwise(text, edits, false) }

  predicate DistinctStarts(edits: seq<Edit>) {
    forall i, j :: 0 <= i < j < |edits| ==> edits[i].start != edits[j].start
  }

  predicate NoneBefore(edits: seq<Edit>, p: Position) {
    edits != [] ==> !Before(edits[0].start, p) && NoneBefore(edits[1..], p)
  }

  predicate Ascending(edits: seq<Edit>) {
    edits != [] ==> NoneBefore(edits[1..], edits[0].start) && Ascending(edits[1..])
  }

  /** Ranges of the original text that follow one another from an offset on. */
  predicate Chain(text: string, from: int, edits: seq<Edit>)
    decreases |edits|
  {
    edits != [] ==>
      && Sound(text, edits[0])
      && from <= Offset(text, edits[0].start)
      && Chain(text, Offset(text, edits[0].end), edits[1..])
  }

  lemma {:induction false} InsertKeepsClear(text: string, x: Edit, y: Edit, s: seq<Edit>, back: bool)
    requires Clear(text, x, s, back) && Mergeable(text, x, y, back)
    ensures Clear(text, x, Insert(y, s), back)
  {
    if s == [] || !Before(s[0].start, y.start) {
      assert ([y] + s)[1..] == s;
    } else {
      InsertKeepsClear(text, x, y, s[1..], back);
      assert Insert(y, s)[1..] == Insert(y, s[1..]);
    }
  }

  lemma {:induction false} InsertKeepsNoneBefore(p: Position, y: Edit, s: seq<Edit>)
    requires NoneBefore(s, p) && !Before(y.start, p)
    ensures NoneBefore(Insert(y, s), p)
  {
    if s == [] || !Before(s[0].start, y.start) {
      assert ([y] + s)[1..] == s;
    } else {
      InsertKeepsNoneBefore(p, y, s[1..]);
      assert Insert(y, s)[1..] == Insert(y, s[1..]);
    }
  }

  lemma {:induction false} NoneBeforeEarlier(s: seq<Edit>, p: Position, q: Position)
    requires NoneBefore(s, p) && !Before(p, q)
    ensures NoneBefore(s, q)
  {
    if s != [] { NoneBeforeEarlier(s[1..], p, q); }
  }

  lemma {:induction false} InsertKeeps(text: string, x: Edit, s: seq<Edit>, back: bool)
    requires Pairwise(text, s, back) && Sound(text, x) && Clear(text, x, s, back) && Ascending(s)
    ensures Pairwise(text, Insert(x, s), back) && Ascending(Insert(x, s))
  {
    if s == [] || !Before(s[0].start, x.start) {
      assert ([x] + s)[1..] == s;
      if s != [] { NoneBeforeEarlier(s[1..], s[0].start, x.start); }
    } else {
      InsertKeeps(text, x, s[1..], back);
      InsertKeepsClear(text, s[0], x, s[1..], back);
      InsertKeepsNoneBefore(s[0].start, x, s[1..]);
      assert Insert(x, s)[1..] == Insert(x, s[1..]);
    }
  }

  lemma {:induction false} SortKeepsClear(text: string, x: Edit, s: seq<Edit>, back: bool)
    requires Clear(text, x, s, back)
    ensures Clear(text, x, Sorted(s), back)
  {
    if s != [] {
      SortKeepsClear(text, x, s[1..], back);
      InsertKeepsClear(text, x, s[0], Sorted(s[1..]), back);
    }
  }

  /** A stable sort only swaps edits that start apart, so the order of edits that start together is kept. */
  lemma {:induction false} SortedKeeps(text: string, s: seq<Edit>, back: bool)
    requires Pairwise(text, s, back)
    ensures Pairwise(text, Sorted(s), back) && Ascending(Sorted(s))
  {
    if s != [] {
      SortedKeeps(text, s[1..], back);
      SortKeepsClear(text, s[0], s[1..], back);
      InsertKeeps(text, s[0], Sorted(s[1..]), back);
    }
  }

  lemma {:induction false} ClearAppends(text: string, x: Edit, s: seq<Edit>, y: Edit, back: bool)
    requires Clear(text, x, s, back) && Mergeable(text, x, y, back)
    ensures Clear(text, x, s + [y], back)
  {
    if s == [] {
      assert (s + [y])[1..] == [];
    } else {
      assert (s + [y])[1..] == s[1..] + [y];
      ClearAppends(text, x, s[1..], y, back);
    }
  }

  lemma {:induction false} PairwiseAppends(text: string, s: seq<Edit>, x: Edit, back: bool)
    requires Pairwise(text, s, back) && Sound(text, x) && Clear(text, x, s, !back)
    ensures Pairwise(text, s + [x], back)
  {
    if s == [] {
      assert (s + [x])[1..] == [];
    } else {
      assert (s + [x])[1..] == s[1..] + [x];
      PairwiseAppends(text, s[1..], x, back);
      ClearAppends(text, s[0], s[1..], x, back);
    }
  }

  lemma {:induction false} ReverseKeepsClear(text: string, x: Edit, s: seq<Edit>, back: bool)
    requires Clear(text, x, s, back)
    ensures Clear(text, x, Reverse(s), back)
  {
    if s != [] {
      ReverseKeepsClear(text, x, s[1..], back);
      ClearAppends(text, x, Reverse(s[1..]), s[0], back);
    }
  }

  lemma {:induction false} ReverseTurns(text: string, s: seq<Edit>, back: bool)
    requires Pairwise(text, s, back)
    ensures Pairwise(text, Reverse(s), !back)
  {
    if s != [] {
      ReverseTurns(text, s[1..], back);
      ReverseKeepsClear(text, s[0], s[1..], back);
      PairwiseAppends(text, Reverse(s[1..]), s[0], !back);
    }
  }

  /** No replacement starts where an earlier listed edit does. */
  predicate OnlyInsertionsTie(text: string, edits: seq<Edit>) {
    forall i, j :: 0 <= i < j < |edits| && edits[i].start == edits[j].start ==> Insertion(text, edits[j])
  }

  lemma {:induction false} TiedInsertionsTurn(text: string, edits: seq<Edit>)
    requires Legal(text, edits) && OnlyInsertionsTie(text, edits)
    ensures Pairwise(text, edits, true)
  {
    if edits != [] {
      TiedInsertionsTurn(text, edits[1..]);
      ClearTurns(text, edits[0], edits[1..]);
    }
  }

  lemma {:induction false} ClearTurns(text: string, x: Edit, edits: seq<Edit>)
    requires Clear(text, x, edits, false)
    requires forall i :: 0 <= i < |edits| && edits[i].start == x.start ==> Insertion(text, edits[i])
    ensures Clear(text, x, edits, true)
  {
    if edits != [] { ClearTurns(text, x, edits[1..]); }
  }

  /** Of two legal ranges, the one that is listed later and does not start earlier lies behind the other. */
  lemma LaterLiesBehind(text: string, a: Edit, b: Edit)
    requires Sound(text, a) && Sound(text, b) && Mergeable(text, a, b, false) && !Before(b.start, a.start)
    ensures Offset(text, a.end) <= Offset(text, b.start)
  {
    PositionsFollowOffsets(text, b.start, a.start);
    PositionOfOffset(text, a.start);
    PositionOfOffset(text, b.start);
  }

  /** Edits from an offset on that follow one another: a sorted legal list is a chain. */
  lemma {:induction false} AscendingChains(text: string, from: int, edits: seq<Edit>)
    requires Pairwise(text, edits, false) && Ascending(edits)
    requires edits != [] ==> from <= Offset(text, edits[0].start)
    ensures Chain(text, from, edits)
    decreases |edits|
  {
    if |edits| > 1 {
      assert Pairwise(text, edits[1..], false);
      LaterLiesBehind(text, edits[0], edits[1]);
    }
    if edits != [] {
      AscendingChains(text, Offset(text, edits[0].end), edits[1..]);
    }
  }

  lemma ApplyToChanged(text: string, e: Edit, tail: string)
    requires Sound(text, e)
    ensures ApplyOne(text[..Offset(text, e.end)] + tail, e) == text[..Offset(text, e.start)] + e.newText + tail
  {
    var s, t := Offset(text, e.start), Offset(text, e.end);
    var current := text[..t] + tail;
    assert current[..t] == text[..t] && current[t..] == tail && current[..s] == text[..s];
    OffsetIsLocal(text, current, e.start);
    OffsetIsLocal(text, current, e.end);
  }

  lemma ApplyLast(text: string, edits: seq<Edit>, e: Edit)
    ensures ApplyInOrder(text, edits + [e]) == ApplyOne(ApplyInOrder(text, edits), e)
  {
    assert (edits + [e])[..|edits|] == edits;
  }

  lemma UnfoldSplice(text: string, from: int, edits: seq<Edit>)
    requires 0 <= from <= |text| && edits != [] && Chain(text, from, edits)
    ensures var s, t := Offset(text, edits[0].start), Offset(text, edits[0].end);
            && from <= s <= t
            && Splice(text, from, edits) == text[from..s] + edits[0].newText + Splice(text, t, edits[1..])
  {
  }

  /** A list's edits made one by one, the last one first. */
  function BackToFront(text: string, edits: seq<Edit>): string {
    if edits == [] then text else ApplyOne(BackToFront(text, edits[1..]), edits[0])
  }

  lemma {:induction false} LoopGoesBackToFront(text: string, edits: seq<Edit>)
    ensures ApplyInOrder(text, Reverse(edits)) == BackToFront(text, edits)
  {
    if edits != [] {
      LoopGoesBackToFront(text, edits[1..]);
      ApplyLast(text, Reverse(edits[1..]), edits[0]);
    }
  }

  lemma JoinAtStart(text: string, from: nat, s: nat, u: string, tail: string)
    requires from <= s <= |text|
    ensures text[..s] + u + tail == text[..from] + (text[from..s] + u + tail)
  {
    assert text[..s] == text[..from] + text[from..s];
  }

  /** Working through a chain from its end, each range still lies where it lay in the original text. */
  lemma {:induction false} BackwardsIsSplice(text: string, from: int, edits: seq<Edit>)
    requires 0 <= from <= |text| && Chain(text, from, edits)
    ensures BackToFront(text, edits) == text[..from] + Splice(text, from, edits)
    decreases |edits|
  {
    if edits == [] {
      assert text[..from] + text[from..] == text;
    } else {
      var e, rest := edits[0], edits[1..];
      var s, t := Offset(text, e.start), Offset(text, e.end);
      UnfoldSplice(text, from, edits);
      BackwardsIsSplice(text, t, rest);
      ApplyToChanged(text, e, Splice(text, t, rest));
      JoinAtStart(text, from, s, e.newText, Splice(text, t, rest));
    }
  }

  lemma SortedChains(text: string, edits: seq<Edit>)
    requires Legal(text, edits)
    ensures Chain(text, 0, Sorted(edits)) && Ascending(Sorted(edits))
  {
    SortedKeeps(text, edits, false);
    AscendingChains(text, 0, Sorted(edits));
  }

  /** With legal edits of which only insertions start together the loop is one splice, in which insertions at one
      position come in reverse list order. */
  lemma LoopIsSplice(text: string, edits: seq<Edit>)
    requires Legal(text, edits) && OnlyInsertionsTie(text, edits)
    ensures Loop(text, edits) == Splice(text, 0, Sorted(Reverse(edits)))
    ensures Chain(text, 0, Sorted(Reverse(edits))) && Chain(text, 0, Sorted(edits))
    ensures Ascending(Sorted(Reverse(edits))) && Ascending(Sorted(edits))
  {
    SortedChains(text, edits);
    TiedInsertionsTurn(text, edits);
    ReverseTurns(text, edits, true);
    SortedChains(text, Reverse(edits));
    LoopGoesBackToFront(text, Sorted(Reverse(edits)));
    BackwardsIsSplice(text, 0, Sorted(Reverse(edits)));
  }

  // ---------------------------------------------------------------- distinct starts

  lemma {:induction false} InsertsCommute(a: Edit, b: Edit, s: seq<Edit>)
    requires a.start != b.start
    ensures Insert(a, Insert(b, s)) == Insert(b, Insert(a, s))
  {
    if s != [] && Before(s[0].start, a.start) && Before(s[0].start, b.start) {
      InsertsCommute(a, b, s[1..]);
      assert Insert(a, s)[1..] == Insert(a, s[1..]) && Insert(b, s)[1..] == Insert(b, s[1..]);
    } else {
      assert ([a] + s)[1..] == s && ([b] + s)[1..] == s;
    }
  }

  lemma {:induction false} SortedAppend(s: seq<Edit>, x: Edit)
    requires forall e :: e in s ==> e.start != x.start
    ensures Sorted(s + [x]) == Insert(x, Sorted(s))
  {
    if s == [] {
      assert ([x])[1..] == [];
      assert s + [x] == [x];
    } else {
      assert (s + [x])[1..] == s[1..] + [x];
      SortedAppend(s[1..], x);
      InsertsCommute(s[0], x, Sorted(s[1..]));
    }
  }

  lemma {:induction false} SortForgetsDirection(s: seq<Edit>)
    requires DistinctStarts(s)
    ensures Sorted(Reverse(s)) == Sorted(s)
  {
    if s != [] {
      SortForgetsDirection(s[1..]);
      forall e | e in Reverse(s[1..]) ensures e.start != s[0].start {
        var i :| 0 <= i < |s[1..]| && Reverse(s[1..])[i] == e;
        assert s[1..][|s[1..]| - 1 - i] == e;
      }
      SortedAppend(Reverse(s[1..]), s[0]);
    }
  }

  /** The main result: for every text and every set of legal edits with distinct starts, applying them last
      first, line offsets recomputed after each, is the simultaneous splice. */
  lemma DistinctStartsSuffice(text: string, edits: seq<Edit>)
    requires Legal(text, edits) && DistinctStarts(edits)
    ensures Loop(text, edits) == Simultaneous(text, edits)
  {
    LoopIsSplice(text, edits);
    SortForgetsDirection(edits);
  }

  // ---------------------------------------------------------------- ... and are needed

  /** The same ranges with other replacement texts. */
  function Retext(edits: seq<Edit>, texts: seq<string>): (r: seq<Edit>)
    requires |edits| == |texts|
    ensures |r| == |edits|
  {
    seq(|edits|, i requires 0 <= i < |edits| => edits[i].(newText := texts[i]))
  }

  /** Edits that start at p, in list order. */
  function StartingAt(edits: seq<Edit>, p: Position): seq<Edit> {
    if edits == [] then [] else (if edits[0].start == p then [edits[0]] else []) + StartingAt(edits[1..], p)
  }

  predicate NoDuplicates(s: seq<Edit>) {
    s != [] ==> s[0] !in s[1..] && NoDuplicates(s[1..])
  }

  lemma {:induction false} StartingAtInsert(x: Edit, s: seq<Edit>, p: Position)
    ensures StartingAt(Insert(x, s), p) == (if x.start == p then [x] else []) + StartingAt(s, p)
  {
    if s == [] || !Before(s[0].start, x.start) {
      assert ([x] + s)[1..] == s;
    } else {
      assert Insert(x, s)[1..] == Insert(x, s[1..]);
      StartingAtInsert(x, s[1..], p);
    }
  }

  lemma {:induction false} SortIsStable(s: seq<Edit>, p: Position)
    ensures StartingAt(Sorted(s), p) == StartingAt(s, p)
  {
    if s != [] {
      SortIsStable(s[1..], p);
      StartingAtInsert(s[0], Sorted(s[1..]), p);
    }
  }

  lemma {:induction false} StartingAtConcat(a: seq<Edit>, b: seq<Edit>, p: Position)
    ensures StartingAt(a + b, p) == StartingAt(a, p) + StartingAt(b, p)
  {
    if a == [] {
      assert a + b == b;
    } else {
      assert (a + b)[1..] == a[1..] + b;
      StartingAtConcat(a[1..], b, p);
    }
  }

  lemma {:induction false} StartingAtReverse(s: seq<Edit>, p: Position)
    ensures StartingAt(Reverse(s), p) == Reverse(StartingAt(s, p))
  {
    if s != [] {
      StartingAtReverse(s[1..], p);
      StartingAtConcat(Reverse(s[1..]), [s[0]], p);
      assert [s[0]][1..] == [];
    }
  }

  lemma {:induction false} StartingAtKeepsDistinct(s: seq<Edit>, p: Position)
    requires NoDuplicates(s)
    ensures NoDuplicates(StartingAt(s, p)) && forall e :: e in StartingAt(s, p) ==> e in s
  {
    if s != [] {
      StartingAtKeepsDistinct(s[1..], p);
      if s[0].start == p {
        assert StartingAt(s, p)[1..] == StartingAt(s[1..], p);
      } else {
        assert StartingAt(s, p) == StartingAt(s[1..], p);
      }
    }
  }

  lemma {:induction false} TiesAreFound(s: seq<Edit>, i: nat, j: nat)
    requires i <= j < |s| && s[i].start == s[j].start
    ensures |StartingAt(s, s[j].start)| >= if i < j then 2 else 1
  {
    if i > 0 {
      TiesAreFound(s[1..], i - 1, j - 1);
    } else if j > 0 {
      TiesAreFound(s[1..], j - 1, j - 1);
    }
  }

  lemma TieSplitsOrders(s: seq<Edit>, i: nat, j: nat)
    requires i < j < |s| && s[i].start == s[j].start && NoDuplicates(s)
    ensures Sorted(Reverse(s)) != Sorted(s)
  {
    var p := s[j].start;
    var ties := StartingAt(s, p);
    TiesAreFound(s, i, j);
    SortIsStable(s, p);
    SortIsStable(Reverse(s), p);
    StartingAtReverse(s, p);
    StartingAtKeepsDistinct(s, p);
    assert Reverse(ties)[0] == ties[1..][|ties| - 2];
  }

  lemma {:induction false} NoneBeforeMember(s: seq<Edit>, p: Position, e: Edit)
    requires NoneBefore(s, p) && e in s
    ensures !Before(e.start, p)
  {
    if e != s[0] { NoneBeforeMember(s[1..], p, e); }
  }

  lemma HeadIsEarliest(s: seq<Edit>, e: Edit)
    requires Ascending(s) && e in s
    ensures !Before(e.start, s[0].start)
  {
    if e != s[0] { NoneBeforeMember(s[1..], s[0].start, e); }
  }

  lemma SameMembers(a: seq<Edit>, b: seq<Edit>, e: Edit)
    requires multiset(a) == multiset(b)
    ensures e in a <==> e in b
  {
    assert e in multiset(a) <==> e in multiset(b);
  }

  lemma TailMultiset(s: seq<Edit>)
    requires s != []
    ensures multiset(s[1..]) == multiset(s) - multiset{s[0]}
  {
    assert s == [s[0]] + s[1..];
    assert multiset([s[0]] + s[1..]) == multiset{s[0]} + multiset(s[1..]);
  }

  lemma MembersLeft(a: seq<Edit>, b: seq<Edit>)
    requires multiset(a) == multiset(b) && a != b
    ensures a != [] && b != []
    ensures a[0] == b[0] ==> multiset(a[1..]) == multiset(b[1..]) && a[1..] != b[1..]
  {
    assert |multiset(a)| == |a| && |multiset(b)| == |b|;
    TailMultiset(a);
    TailMultiset(b);
    SameHeadAndTail(a, b);
  }

  lemma SameHeadAndTail(a: seq<Edit>, b: seq<Edit>)
    requires a != [] && b != [] && a != b
    ensures a[0] == b[0] ==> a[1..] != b[1..]
  {
    assert a == [a[0]] + a[1..] && b == [b[0]] + b[1..];
  }

  /** Splices that share a head differ if the rest does, or if their first replacement texts do. */
  lemma SpliceHeads(head: string, u: string, v: string, x: string, y: string)
    requires if u == v then x != y else |u| == |v|
    ensures head + u + x != head + v + y
  {
    assert (head + u + x)[|head|..|head| + |u|] == u;
    assert (head + v + y)[|head|..|head| + |v|] == v;
    assert (head + u + x)[|head| + |u|..] == x;
    assert (head + v + y)[|head| + |v|..] == y;
  }

  /** Replacement texts of one length that tell the edits apart. */
  ghost predicate Telling(edits: seq<Edit>, n: nat) {
    && (forall e :: e in edits ==> |e.newText| == n)
    && (forall e, f :: e in edits && f in edits && e.newText == f.newText ==> e == f)
  }

  lemma TailIsTelling(edits: seq<Edit>, n: nat)
    requires edits != [] && Telling(edits, n)
    ensures Telling(edits[1..], n)
  {
  }

  lemma {:induction false} OrdersGiveDifferentTexts(text: string, from: int, a: seq<Edit>, b: seq<Edit>, n: nat)
    requires 0 <= from <= |text| && Chain(text, from, a) && Chain(text, from, b) && Ascending(a) && Ascending(b)
    requires multiset(a) == multiset(b) && a != b && Telling(a, n)
    ensures Splice(text, from, a) != Splice(text, from, b)
    decreases |a|
  {
    MembersLeft(a, b);
    SameMembers(a, b, a[0]);
    SameMembers(a, b, b[0]);
    HeadIsEarliest(a, b[0]);
    HeadIsEarliest(b, a[0]);
    assert a[0].start == b[0].start;
    UnfoldSplice(text, from, a);
    UnfoldSplice(text, from, b);
    var x, y := Splice(text, Offset(text, a[0].end), a[1..]), Splice(text, Offset(text, b[0].end), b[1..]);
    if a[0] == b[0] {
      TailIsTelling(a, n);
      OrdersGiveDifferentTexts(text, Offset(text, a[0].end), a[1..], b[1..], n);
    }
    SpliceHeads(text[from..Offset(text, a[0].start)], a[0].newText, b[0].newText, x, y);
  }

  /** n texts of length n, all different. */
  function Marked(n: nat, k: nat): string { seq(n, i => if i == k then 'x' else 'y') }

  function MarkedTexts(n: nat): (r: seq<string>)
    ensures |r| == n
  {
    seq(n, k requires 0 <= k < n => Marked(n, k))
  }

  lemma {:induction false} RetextKeepsClear(text: string, x: Edit, newText: string, edits: seq<Edit>,
                                            texts: seq<string>)
    requires Clear(text, x, edits, false) && |edits| == |texts|
    ensures Clear(text, x.(newText := newText), Retext(edits, texts), false)
  {
    if edits != [] {
      RetextKeepsClear(text, x, newText, edits[1..], texts[1..]);
      assert Retext(edits, texts)[1..] == Retext(edits[1..], texts[1..]);
    }
  }

  lemma {:induction false} RetextKeepsLegal(text: string, edits: seq<Edit>, texts: seq<string>)
    requires Legal(text, edits) && |edits| == |texts|
    ensures Legal(text, Retext(edits, texts))
  {
    if edits != [] {
      RetextKeepsLegal(text, edits[1..], texts[1..]);
      RetextKeepsClear(text, edits[0], texts[0], edits[1..], texts[1..]);
      assert Retext(edits, texts)[1..] == Retext(edits[1..], texts[1..]);
    }
  }

  lemma {:induction false} DistinctByIndex(s: seq<Edit>)
    requires forall i, j :: 0 <= i < j < |s| ==> s[i] != s[j]
    ensures NoDuplicates(s)
  {
    if s != [] { DistinctByIndex(s[1..]); }
  }

  lemma MarkedIsTelling(edits: seq<Edit>)
    ensures var marked := Retext(edits, MarkedTexts(|edits|));
            NoDuplicates(marked) && Telling(marked, |edits|)
  {
    var n := |edits|;
    var marked := Retext(edits, MarkedTexts(n));
    forall i, j | 0 <= i < n && 0 <= j < n && i != j
      ensures marked[i].newText != marked[j].newText
    {
      assert Marked(n, i)[i] != Marked(n, j)[i];
    }
    DistinctByIndex(marked);
  }

  lemma {:induction false} ReverseKeepsMultiset(s: seq<Edit>)
    ensures multiset(Reverse(s)) == multiset(s)
  {
    if s != [] {
      ReverseKeepsMultiset(s[1..]);
      assert s == [s[0]] + s[1..];
    }
  }

  lemma TellingIsUnordered(a: seq<Edit>, b: seq<Edit>, n: nat)
    requires multiset(a) == multiset(b) && Telling(b, n)
    ensures Telling(a, n)
  {
    forall e ensures e in a <==> e in b { SameMembers(a, b, e); }
  }

  lemma MarkedTieDiffers(text: string, edits: seq<Edit>, i: nat, j: nat)
    requires Legal(text, edits) && OnlyInsertionsTie(text, edits) && i < j < |edits| && edits[i].start == edits[j].start
    ensures var marked := Retext(edits, MarkedTexts(|edits|)); Loop(text, marked) != Simultaneous(text, marked)
  {
    var marked := Retext(edits, MarkedTexts(|edits|));
    RetextKeepsLegal(text, edits, MarkedTexts(|edits|));
    MarkedIsTelling(edits);
    LoopIsSplice(text, marked);
    TieSplitsOrders(marked, i, j);
    ReverseKeepsMultiset(marked);
    TellingIsUnordered(Sorted(Reverse(marked)), marked, |edits|);
    OrdersGiveDifferentTexts(text, 0, Sorted(Reverse(marked)), Sorted(marked), |edits|);
  }

  // ---------------------------------------------------------------- ... also where a replacement joins insertions

  /** How much longer the edits make the text. */
  function Gain(text: string, edits: seq<Edit>): int {
    if edits == [] then 0
    else |edits[0].newText| - (Offset(text, edits[0].end) - Offset(text, edits[0].start)) + Gain(text, edits[1..])
  }

  lemma {:induction false} GainOfInsert(text: string, x: Edit, s: seq<Edit>)
    ensures Gain(text, Insert(x, s)) == Gain(text, [x]) + Gain(text, s)
  {
    assert [x][1..] == [];
    if s == [] || !Before(s[0].start, x.start) {
      assert ([x] + s)[1..] == s;
    } else {
      GainOfInsert(text, x, s[1..]);
      assert Insert(x, s)[1..] == Insert(x, s[1..]);
    }
  }

  lemma {:induction false} GainOfSorted(text: string, s: seq<Edit>)
    ensures Gain(text, Sorted(s)) == Gain(text, s)
  {
    if s != [] {
      GainOfSorted(text, s[1..]);
      GainOfInsert(text, s[0], Sorted(s[1..]));
      assert [s[0]][1..] == [];
    }
  }

  lemma {:induction false} GainOfConcat(text: string, a: seq<Edit>, b: seq<Edit>)
    ensures Gain(text, a + b) == Gain(text, a) + Gain(text, b)
  {
    if a == [] {
      assert a + b == b;
    } else {
      assert (a + b)[1..] == a[1..] + b;
      GainOfConcat(text, a[1..], b);
    }
  }

  lemma {:induction false} GainOfReverse(text: string, s: seq<Edit>)
    ensures Gain(text, Reverse(s)) == Gain(text, s)
  {
    if s != [] {
      GainOfReverse(text, s[1..]);
      GainOfConcat(text, Reverse(s[1..]), [s[0]]);
      assert [s[0]][1..] == [];
    }
  }

  lemma {:induction false} SpliceLength(text: string, from: int, edits: seq<Edit>)
    requires 0 <= from <= |text| && Chain(text, from, edits)
    ensures |Splice(text, from, edits)| == |text| - from + Gain(text, edits)
    decreases |edits|
  {
    if edits != [] {
      UnfoldSplice(text, from, edits);
      SpliceLength(text, Offset(text, edits[0].end), edits[1..]);
    }
  }

  lemma {:induction false} BackToFrontConcat(text: string, a: seq<Edit>, b: seq<Edit>)
    ensures BackToFront(text, a + b) == BackToFront(BackToFront(text, b), a)
  {
    if a == [] {
      assert a + b == b;
    } else {
      assert (a + b)[1..] == a[1..] + b;
      BackToFrontConcat(text, a[1..], b);
    }
  }

  lemma {:induction false} ClearMember(text: string, x: Edit, s: seq<Edit>, back: bool, e: Edit)
    requires Clear(text, x, s, back) && e in s
    ensures Mergeable(text, x, e, back)
  {
    if e != s[0] { ClearMember(text, x, s[1..], back, e); }
  }

  lemma {:induction false} OrderedPair(text: string, l: seq<Edit>, a: nat, b: nat)
    requires Pairwise(text, l, true) && Ascending(l) && a < b < |l|
    ensures Mergeable(text, l[a], l[b], true) && !Before(l[b].start, l[a].start)
  {
    if a > 0 {
      OrderedPair(text, l[1..], a - 1, b - 1);
    } else {
      assert l[b] == l[1..][b - 1];
      ClearMember(text, l[0], l[1..], true, l[b]);
      NoneBeforeMember(l[1..], l[0].start, l[b]);
    }
  }

  lemma {:induction false} SuffixKeeps(text: string, l: seq<Edit>, m: nat)
    requires Pairwise(text, l, true) && Ascending(l) && m <= |l|
    ensures Pairwise(text, l[m..], true) && Ascending(l[m..])
  {
    if m > 0 {
      assert l[1..][m - 1..] == l[m..];
      SuffixKeeps(text, l[1..], m - 1);
    } else {
      assert l[0..] == l;
    }
  }

  lemma {:induction false} PrefixKeeps(text: string, l: seq<Edit>, m: nat)
    requires Pairwise(text, l, true) && Ascending(l) && m <= |l|
    ensures Pairwise(text, l[..m], true) && Ascending(l[..m])
  {
    if m > 0 {
      assert l[..m][1..] == l[1..][..m - 1];
      PrefixKeeps(text, l[1..], m - 1);
      PrefixKeepsClear(text, l[0], l[1..], m - 1);
    }
  }

  lemma {:induction false} PrefixKeepsClear(text: string, x: Edit, s: seq<Edit>, m: nat)
    requires Clear(text, x, s, true) && NoneBefore(s, x.start) && m <= |s|
    ensures Clear(text, x, s[..m], true) && NoneBefore(s[..m], x.start)
  {
    if m > 0 {
      assert s[..m][1..] == s[1..][..m - 1];
      PrefixKeepsClear(text, x, s[1..], m - 1);
    }
  }

  predicate Effective(text: string, e: Edit) { !Insertion(text, e) || e.newText != "" }

  /** Only insertions at p have a text. */
  predicate Tame(text: string, p: Position, e: Edit) {
    if e.start == p then Insertion(text, e) else e.newText == ""
  }

  lemma {:induction false} SoundMember(text: string, l: seq<Edit>, back: bool, e: Edit)
    requires Pairwise(text, l, back) && e in l
    ensures Sound(text, e)
  {
    if e != l[0] { SoundMember(text, l[1..], back, e); }
  }

  lemma EffectiveLiesBehind(text: string, p: Position, l: seq<Edit>, f: Edit)
    requires l != [] && Pairwise(text, l, true) && Ascending(l) && f in l[1..]
    requires Tame(text, p, l[0]) && Tame(text, p, f) && Effective(text, f)
    ensures Offset(text, l[0].end) <= Offset(text, f.start)
  {
    ClearMember(text, l[0], l[1..], true, f);
    NoneBeforeMember(l[1..], l[0].start, f);
    SoundMember(text, l[1..], true, f);
    PositionsFollowOffsets(text, f.start, l[0].start);
    PositionsFollowOffsets(text, l[0].start, f.start);
  }

  /** An insertion of nothing changes nothing, wherever it lands. */
  lemma IdleEdit(text: string, current: string, e: Edit)
    requires Sound(text, e) && !Effective(text, e)
    ensures ApplyOne(current, e) == current
  {
    PositionOfOffset(text, e.start);
    PositionOfOffset(text, e.end);
  }

  /** Making tame edits in a text that starts like the original leaves everything before their starts alone. */
  lemma {:induction false} TameEdits(text: string, base: string, s: nat, p: Position, l: seq<Edit>, q: nat)
    requires q <= s <= |text| && s <= |base| && base[..s] == text[..s]
    requires Pairwise(text, l, true) && Ascending(l) && forall e :: e in l ==> Tame(text, p, e)
    requires forall e :: e in l && Effective(text, e) ==> q <= Offset(text, e.start) && Offset(text, e.end) <= s
    ensures |BackToFront(base, l)| == |base| + Gain(text, l)
    ensures q <= |BackToFront(base, l)| && BackToFront(base, l)[..q] == text[..q]
    decreases |l|
  {
    if l == [] {
      assert base[..q] == base[..s][..q] && text[..q] == text[..s][..q];
    } else {
      var e := l[0];
      if Effective(text, e) {
        var a, b := Offset(text, e.start), Offset(text, e.end);
        forall f | f in l[1..] && Effective(text, f) ensures b <= Offset(text, f.start) {
          EffectiveLiesBehind(text, p, l, f);
        }
        TameEdits(text, base, s, p, l[1..], b);
        OneTameEdit(text, BackToFront(base, l[1..]), e, q);
      } else {
        TameEdits(text, base, s, p, l[1..], q);
        IdleEdit(text, BackToFront(base, l[1..]), e);
      }
    }
  }

  lemma OneTameEdit(text: string, current: string, e: Edit, q: nat)
    requires Sound(text, e) && q <= Offset(text, e.start)
    requires Offset(text, e.end) <= |current| && current[..Offset(text, e.end)] == text[..Offset(text, e.end)]
    ensures |ApplyOne(current, e)| == |current| + |e.newText| - (Offset(text, e.end) - Offset(text, e.start))
    ensures q <= |ApplyOne(current, e)| && ApplyOne(current, e)[..q] == text[..q]
    ensures ApplyOne(current, e) == text[..Offset(text, e.start)] + e.newText + current[Offset(text, e.end)..]
  {
    var a, b := Offset(text, e.start), Offset(text, e.end);
    var tail := current[b..];
    assert current == text[..b] + tail;
    ApplyToChanged(text, e, tail);
    assert text[..a][..q] == text[..q];
  }

  function Same(c: char, k: nat): (r: string)
    ensures |r| == k
  {
    seq(k, _ => c)
  }

  lemma OneMoreInsertion(text: string, current: string, e: Edit, t: nat, c: char, k: nat, tail: string)
    requires Sound(text, e) && Insertion(text, e) && e.newText == [c] && Offset(text, e.start) <= t <= |text|
    requires current == text[..Offset(text, e.start)] + Same(c, k) + text[Offset(text, e.start)..t] + tail
    ensures ApplyOne(current, e)
         == text[..Offset(text, e.start)] + Same(c, k + 1) + text[Offset(text, e.start)..t] + tail
  {
    var s := Offset(text, e.start);
    var rest := Same(c, k) + text[s..t] + tail;
    assert current == text[..s] + rest;
    ApplyToChanged(text, e, rest);
    assert [c] + Same(c, k) == Same(c, k + 1);
    assert [c] + rest == Same(c, k + 1) + text[s..t] + tail;
  }

  /** The insertions at p, and what lies behind them, all made: k characters appear at p. */
  lemma {:induction false} InsertionsAppear(text: string, p: Position, t: nat, l: seq<Edit>, c: char)
    returns (k: nat, tail: string)
    requires InRange(text, p) && Offset(text, p) <= t <= |text|
    requires Pairwise(text, l, true) && Ascending(l) && NoneBefore(l, p)
    requires forall e :: e in l ==>
               Tame(text, p, e) && (if e.start == p then e.newText == [c] else t <= Offset(text, e.start))
    ensures BackToFront(text, l) == text[..Offset(text, p)] + Same(c, k) + text[Offset(text, p)..t] + tail
    ensures l != [] && l[0].start == p ==> k > 0
  {
    if l != [] && l[0].start == p {
      k, tail := InsertionsAppear(text, p, t, l[1..], c);
      OneMoreInsertion(text, BackToFront(text, l[1..]), l[0], t, c, k, tail);
      k := k + 1;
    } else {
      tail := NothingAppears(text, p, t, l, c);
      k := 0;
    }
  }

  lemma NothingAppears(text: string, p: Position, t: nat, l: seq<Edit>, c: char) returns (tail: string)
    requires InRange(text, p) && Offset(text, p) <= t <= |text| && (l != [] ==> l[0].start != p)
    requires Pairwise(text, l, true) && Ascending(l) && NoneBefore(l, p)
    requires forall e :: e in l ==> Tame(text, p, e) && (e.start != p ==> t <= Offset(text, e.start))
    ensures BackToFront(text, l) == text[..Offset(text, p)] + Same(c, 0) + text[Offset(text, p)..t] + tail
  {
    AllStartLater(l, p);
    TameEdits(text, text, |text|, p, l, t);
    var edited := BackToFront(text, l);
    tail := edited[t..];
    assert edited == edited[..t] + tail;
    SplitAt(text, Offset(text, p), t, c);
  }

  lemma SplitAt(text: string, s: nat, t: nat, c: char)
    requires s <= t <= |text|
    ensures text[..t] == text[..s] + Same(c, 0) + text[s..t]
  {
  }

  lemma AllStartLater(l: seq<Edit>, p: Position)
    requires Ascending(l) && NoneBefore(l, p) && (l != [] ==> l[0].start != p)
    ensures forall e :: e in l ==> e.start != p
  {
    forall e | e in l ensures e.start != p {
      HeadIsEarliest(l, e);
      NoneBeforeMember(l, p, l[0]);
    }
  }

  function Advance(pos: Position, ch: char): Position {
    if ch == '\n' then Position(pos.line + 1, 0) else Position(pos.line, pos.character + 1)
  }

  lemma PositionSteps(text: string, q: nat)
    requires q < |text|
    ensures PositionOf(text, q + 1) == Advance(PositionOf(text, q), text[q])
  {
  }

  lemma {:induction false} PastInserted(current: string, s: nat, c: char, k: nat)
    requires c != '\n' && s + k <= |current| && current[s..s + k] == Same(c, k)
    ensures PositionOf(current, s + k) == Position(PositionOf(current, s).line, PositionOf(current, s).character + k)
  {
    if k > 0 {
      assert current[s..s + k - 1] == current[s..s + k][..k - 1] == Same(c, k - 1);
      assert current[s + k - 1] == current[s..s + k][k - 1];
      PastInserted(current, s, c, k - 1);
      PositionSteps(current, s + k - 1);
    }
  }

  lemma ShorterSlices(a: string, b: string, i: nat, j: nat, n: nat)
    requires 0 < n && i + n <= |a| && j + n <= |b| && a[i..i + n] == b[j..j + n]
    ensures a[i..i + n - 1] == b[j..j + n - 1] && a[i + n - 1] == b[j + n - 1]
  {
    var x, y := a[i..i + n - 1], b[j..j + n - 1];
    forall k | 0 <= k < n - 1 ensures x[k] == y[k] {
      assert a[i..i + n][k] == b[j..j + n][k];
    }
    assert x == y;
    assert a[i..i + n][n - 1] == b[j..j + n][n - 1];
  }

  /** Behind an insertion within a line only that line's positions move. */
  lemma {:induction false} OnlyThatLineMoves(text: string, current: string, s: nat, k: nat, q: nat)
    requires s <= q <= |text| && q + k <= |current| && text[s..q] == current[s + k..q + k]
    requires PositionOf(current, s + k) == Position(PositionOf(text, s).line, PositionOf(text, s).character + k)
    ensures PositionOf(text, q).line >= PositionOf(text, s).line
    ensures PositionOf(current, q + k)
         == Position(PositionOf(text, q).line,
                     PositionOf(text, q).character
                        + if PositionOf(text, q).line == PositionOf(text, s).line then k else 0)
  {
    if s < q {
      ShorterSlices(text, current, s, s + k, q - s);
      OnlyThatLineMoves(text, current, s, k, q - 1);
      PositionSteps(text, q - 1);
      PositionSteps(current, q - 1 + k);
    }
  }

  /** The character to insert so that a replacement starting there goes wrong: a newline ends its line before it,
      anything else moves a later line's end away from it. */
  function Spoiler(e: Edit): char { if e.start.line == e.end.line then '\n' else 'x' }

  lemma MissesOnLine(text: string, current: string, e: Edit)
    requires Sound(text, e) && !Insertion(text, e) && e.start.line == e.end.line
    requires Offset(text, e.start) < |current| && current[Offset(text, e.start)] == '\n'
    requires current[..Offset(text, e.start)] == text[..Offset(text, e.start)]
    ensures Offset(current, e.end) == Offset(text, e.start)
  {
    var s := Offset(text, e.start);
    PositionOfOffset(text, e.start);
    PositionsFollowOffsets(text, e.start, e.end);
    StartsLocal(text, current, s);
    var upTo := Starts(current, s);
    assert Starts(current, s + 1) == upTo + [s + 1];
    StartsGrow(current, s + 1, |current|);
    assert LineStarts(current)[e.end.line] == upTo[e.end.line] == s - e.start.character;
    assert LineStarts(current)[e.end.line + 1] == s + 1;
  }

  lemma MissesBelow(text: string, current: string, e: Edit, c: char, k: nat)
    requires Sound(text, e) && !Insertion(text, e) && e.start.line != e.end.line && c != '\n'
    requires Offset(text, e.end) + k <= |current| && current[..Offset(text, e.start)] == text[..Offset(text, e.start)]
    requires current[Offset(text, e.start)..Offset(text, e.start) + k] == Same(c, k)
    requires current[Offset(text, e.start) + k..Offset(text, e.end) + k]
          == text[Offset(text, e.start)..Offset(text, e.end)]
    ensures Offset(current, e.end) == Offset(text, e.end) + k
  {
    var s, t := Offset(text, e.start), Offset(text, e.end);
    PositionOfOffset(text, e.start);
    PositionOfOffset(text, e.end);
    StartsLocal(text, current, s);
    PastInserted(current, s, c, k);
    OnlyThatLineMoves(text, current, s, k, t);
    OffsetOfPosition(current, t + k);
  }

  lemma ReplacementMisses(text: string, current: string, e: Edit, k: nat, tail: string)
    requires Sound(text, e) && !Insertion(text, e) && k > 0
    requires current == text[..Offset(text, e.start)] + Same(Spoiler(e), k)
                      + text[Offset(text, e.start)..Offset(text, e.end)] + tail
    ensures Offset(current, e.start) == Offset(text, e.start)
    ensures Offset(current, e.end) == if Spoiler(e) == '\n' then Offset(text, e.start) else Offset(text, e.end) + k
  {
    var s, t, c := Offset(text, e.start), Offset(text, e.end), Spoiler(e);
    assert current[..s] == text[..s];
    OffsetIsLocal(text, current, e.start);
    if c == '\n' {
      assert current[s] == Same(c, k)[0];
      MissesOnLine(text, current, e);
    } else {
      assert current[s..s + k] == Same(c, k);
      assert current[s + k..t + k] == text[s..t];
      MissesBelow(text, current, e, c, k);
    }
  }

  /** The same ranges, with c where an edit starts at p and no text elsewhere. */
  function Spoiled(edits: seq<Edit>, p: Position, c: char): (texts: seq<string>)
    ensures |texts| == |edits|
  {
    seq(|edits|, i requires 0 <= i < |edits| => if edits[i].start == p then [c] else "")
  }

  lemma SimultaneousLength(text: string, edits: seq<Edit>)
    requires Legal(text, edits)
    ensures |Simultaneous(text, edits)| == |text| + Gain(text, edits)
  {
    SortedChains(text, edits);
    SpliceLength(text, 0, Sorted(edits));
    GainOfSorted(text, edits);
  }

  lemma BeforeReplacement(text: string, l: seq<Edit>, m: nat, e: Edit)
    requires Pairwise(text, l, true) && Ascending(l) && m < |l| && !Insertion(text, l[m]) && e in l[..m]
    ensures e.start != l[m].start && Offset(text, e.end) <= Offset(text, l[m].start)
  {
    var k :| 0 <= k < m && l[k] == e;
    OrderedPair(text, l, k, m);
    SoundMember(text, l, true, e);
    SoundMember(text, l, true, l[m]);
    PositionsFollowOffsets(text, e.start, l[m].start);
  }

  lemma BehindReplacement(text: string, l: seq<Edit>, m: nat, e: Edit)
    requires Pairwise(text, l, true) && Ascending(l) && m < |l| && e in l[m + 1..]
    ensures if e.start == l[m].start then Insertion(text, e) else Offset(text, l[m].end) <= Offset(text, e.start)
    ensures !Before(e.start, l[m].start)
  {
    var k :| m < k < |l| && l[k] == e;
    OrderedPair(text, l, m, k);
    SoundMember(text, l, true, e);
    SoundMember(text, l, true, l[m]);
    PositionsFollowOffsets(text, l[m].start, e.start);
  }

  /** Around a replacement that other edits start with: before it nothing ties with it, behind it come insertions
      at the same place and then edits past its end. */
  lemma AroundReplacement(text: string, l: seq<Edit>, m: nat)
    requires Pairwise(text, l, true) && Ascending(l) && m < |l| && !Insertion(text, l[m])
    ensures forall e :: e in l[..m] ==> e.start != l[m].start && Offset(text, e.end) <= Offset(text, l[m].start)
    ensures forall e :: e in l[m + 1..] ==>
              if e.start == l[m].start then Insertion(text, e) else Offset(text, l[m].end) <= Offset(text, e.start)
    ensures NoneBefore(l[m + 1..], l[m].start)
  {
    forall e | e in l[..m] ensures e.start != l[m].start && Offset(text, e.end) <= Offset(text, l[m].start) {
      BeforeReplacement(text, l, m, e);
    }
    forall e | e in l[m + 1..]
      ensures !Before(e.start, l[m].start)
      ensures if e.start == l[m].start then Insertion(text, e) else Offset(text, l[m].end) <= Offset(text, e.start)
    {
      BehindReplacement(text, l, m, e);
    }
    NoneBeforeAll(l[m + 1..], l[m].start);
  }

  lemma {:induction false} NoneBeforeAll(s: seq<Edit>, p: Position)
    requires forall e :: e in s ==> !Before(e.start, p)
    ensures NoneBefore(s, p)
  {
    if s != [] { NoneBeforeAll(s[1..], p); }
  }

  /** The replacement removes another number of characters than its range has. */
  lemma ReplacementSpoils(text: string, current: string, e: Edit, k: nat, tail: string)
    requires Sound(text, e) && !Insertion(text, e) && k > 0
    requires current == text[..Offset(text, e.start)] + Same(Spoiler(e), k)
                      + text[Offset(text, e.start)..Offset(text, e.end)] + tail
    ensures |ApplyOne(current, e)| != |current| + Gain(text, [e])
    ensures Offset(text, e.start) <= |ApplyOne(current, e)|
    ensures ApplyOne(current, e)[..Offset(text, e.start)] == text[..Offset(text, e.start)]
  {
    ReplacementMisses(text, current, e, k, tail);
    assert [e][1..] == [];
    assert current[..Offset(text, e.start)] == text[..Offset(text, e.start)];
  }

  /** Edits made after the replacement e: none starts with it, none has a text. */
  predicate Ahead(text: string, before: seq<Edit>, e: Edit) {
    && Pairwise(text, before, true) && Ascending(before)
    && (forall f :: f in before ==>
          f.newText == "" && f.start != e.start && Offset(text, f.end) <= Offset(text, e.start))
  }

  /** Edits made before it: insertions that start with it, and textless edits past its end. */
  predicate Behind(text: string, e: Edit, behind: seq<Edit>) {
    && Pairwise(text, behind, true) && Ascending(behind)
    && behind != [] && behind[0].start == e.start && NoneBefore(behind, e.start)
    && (forall f :: f in behind ==>
          if f.start == e.start then Insertion(text, f) && f.newText == [Spoiler(e)]
          else f.newText == "" && Offset(text, e.end) <= Offset(text, f.start))
  }

  lemma BehindSpoiled(text: string, e: Edit, behind: seq<Edit>)
    requires Sound(text, e) && !Insertion(text, e) && Behind(text, e, behind)
    ensures |BackToFront(text, [e] + behind)| != |text| + Gain(text, [e] + behind)
    ensures Offset(text, e.start) <= |BackToFront(text, [e] + behind)|
    ensures BackToFront(text, [e] + behind)[..Offset(text, e.start)] == text[..Offset(text, e.start)]
  {
    TameEdits(text, text, |text|, e.start, behind, 0);
    var k, tail := InsertionsAppear(text, e.start, Offset(text, e.end), behind, Spoiler(e));
    ReplacementSpoils(text, BackToFront(text, behind), e, k, tail);
    assert ([e] + behind)[1..] == behind;
    GainOfConcat(text, [e], behind);
  }

  lemma SpoiledLength(text: string, before: seq<Edit>, e: Edit, behind: seq<Edit>)
    requires Sound(text, e) && !Insertion(text, e) && Ahead(text, before, e) && Behind(text, e, behind)
    ensures |BackToFront(text, before + ([e] + behind))| != |text| + Gain(text, before + ([e] + behind))
  {
    BehindSpoiled(text, e, behind);
    TameEdits(text, BackToFront(text, [e] + behind), Offset(text, e.start), e.start, before, 0);
    BackToFrontConcat(text, before, [e] + behind);
    GainOfConcat(text, before, [e] + behind);
  }

  /** Exactly the edits that start at p have a text, and it is c. */
  predicate TextsAt(l: seq<Edit>, p: Position, c: char) {
    forall e :: e in l ==> e.newText == if e.start == p then [c] else ""
  }

  lemma SliceTexts(l: seq<Edit>, lo: nat, hi: nat, p: Position, c: char)
    requires lo <= hi <= |l| && TextsAt(l, p, c)
    ensures TextsAt(l[lo..hi], p, c)
  {
    forall e | e in l[lo..hi] ensures e in l {
      var k :| lo <= k < hi && l[k] == e;
    }
  }

  lemma TieIsNext(text: string, l: seq<Edit>, m: nat, k: nat)
    requires Pairwise(text, l, true) && Ascending(l) && m < |l| && k < |l| && l[k].start == l[m].start
    requires !Insertion(text, l[m]) && Insertion(text, l[k])
    ensures l[m + 1..] != [] && l[m + 1..][0].start == l[m].start
  {
    if k < m {
      assert l[..m][k] in l[..m];
      BeforeReplacement(text, l, m, l[k]);
    } else {
      assert l[m + 1..][k - m - 1] in l[m + 1..];
      SuffixKeeps(text, l, m + 1);
      HeadIsEarliest(l[m + 1..], l[k]);
      BehindReplacement(text, l, m, l[m + 1..][0]);
    }
  }

  lemma SpoilsAhead(text: string, l: seq<Edit>, m: nat)
    requires Pairwise(text, l, true) && Ascending(l) && m < |l| && !Insertion(text, l[m])
    requires TextsAt(l, l[m].start, Spoiler(l[m]))
    ensures Ahead(text, l[..m], l[m])
  {
    PrefixKeeps(text, l, m);
    AroundReplacement(text, l, m);
    SliceTexts(l, 0, m, l[m].start, Spoiler(l[m]));
    assert l[0..m] == l[..m];
  }

  /** In the loop's order the last listed edit of a tie comes before the others. */
  lemma SpoilsBehind(text: string, l: seq<Edit>, m: nat)
    requires Pairwise(text, l, true) && Ascending(l) && m < |l| && !Insertion(text, l[m])
    requires l[m + 1..] != [] && l[m + 1..][0].start == l[m].start
    requires TextsAt(l, l[m].start, Spoiler(l[m]))
    ensures Behind(text, l[m], l[m + 1..])
  {
    SuffixKeeps(text, l, m + 1);
    AroundReplacement(text, l, m);
    SliceTexts(l, m + 1, |l|, l[m].start, Spoiler(l[m]));
    assert l[m + 1..|l|] == l[m + 1..];
  }

  lemma Reassembled(l: seq<Edit>, m: nat)
    requires m < |l|
    ensures l == l[..m] + ([l[m]] + l[m + 1..])
  {
  }

  lemma LoopSpoils(text: string, l: seq<Edit>, m: nat, k: nat)
    requires Pairwise(text, l, true) && Ascending(l) && m < |l| && !Insertion(text, l[m])
    requires k < |l| && l[k].start == l[m].start && Insertion(text, l[k])
    requires TextsAt(l, l[m].start, Spoiler(l[m]))
    ensures |BackToFront(text, l)| != |text| + Gain(text, l)
  {
    SoundMember(text, l, true, l[m]);
    TieIsNext(text, l, m, k);
    SpoilsAhead(text, l, m);
    SpoilsBehind(text, l, m);
    SpoiledLength(text, l[..m], l[m], l[m + 1..]);
    Reassembled(l, m);
  }

  lemma {:induction false} EarlierTieInserts(text: string, edits: seq<Edit>, i: nat, j: nat)
    requires Pairwise(text, edits, false) && i < j < |edits| && edits[i].start == edits[j].start
    ensures Insertion(text, edits[i])
  {
    if i > 0 {
      EarlierTieInserts(text, edits[1..], i - 1, j - 1);
    } else {
      assert edits[j] == edits[1..][j - 1];
      ClearMember(text, edits[0], edits[1..], false, edits[j]);
    }
  }

  lemma LoopOrder(text: string, edits: seq<Edit>)
    requires Legal(text, edits)
    ensures var l := Sorted(Reverse(edits));
            && Pairwise(text, l, true) && Ascending(l) && multiset(l) == multiset(edits)
            && Loop(text, edits) == BackToFront(text, l) && Gain(text, l) == Gain(text, edits)
  {
    var l := Sorted(Reverse(edits));
    ReverseTurns(text, edits, false);
    SortedKeeps(text, Reverse(edits), true);
    ReverseKeepsMultiset(edits);
    LoopGoesBackToFront(text, l);
    GainOfSorted(text, Reverse(edits));
    GainOfReverse(text, edits);
  }

  lemma Where(a: seq<Edit>, b: seq<Edit>, i: nat) returns (k: nat)
    requires multiset(a) == multiset(b) && i < |b|
    ensures k < |a| && a[k] == b[i]
  {
    SameMembers(a, b, b[i]);
    assert b[i] in a;
    k :| 0 <= k < |a| && a[k] == b[i];
  }

  lemma TextsMoveAlong(a: seq<Edit>, b: seq<Edit>, p: Position, c: char)
    requires multiset(a) == multiset(b) && TextsAt(b, p, c)
    ensures TextsAt(a, p, c)
  {
    forall e | e in a ensures e in b { SameMembers(a, b, e); }
  }

  lemma SpoiledTieDiffers(text: string, edits: seq<Edit>, i: nat, j: nat)
    requires Legal(text, edits) && i < j < |edits| && edits[i].start == edits[j].start && !Insertion(text, edits[j])
    requires TextsAt(edits, edits[j].start, Spoiler(edits[j]))
    ensures Loop(text, edits) != Simultaneous(text, edits)
  {
    var l := Sorted(Reverse(edits));
    SimultaneousLength(text, edits);
    LoopOrder(text, edits);
    EarlierTieInserts(text, edits, i, j);
    var m := Where(l, edits, j);
    var k := Where(l, edits, i);
    TextsMoveAlong(l, edits, edits[j].start, Spoiler(edits[j]));
    LoopSpoils(text, l, m, k);
  }

  lemma ReplacementTieDiffers(text: string, edits: seq<Edit>, i: nat, j: nat)
    requires Legal(text, edits) && i < j < |edits| && edits[i].start == edits[j].start && !Insertion(text, edits[j])
    ensures var spoiled := Retext(edits, Spoiled(edits, edits[j].start, Spoiler(edits[j])));
            Loop(text, spoiled) != Simultaneous(text, spoiled)
  {
    var texts := Spoiled(edits, edits[j].start, Spoiler(edits[j]));
    RetextKeepsLegal(text, edits, texts);
    assert TextsAt(Retext(edits, texts), edits[j].start, Spoiler(edits[j]));
    SpoiledTieDiffers(text, Retext(edits, texts), i, j);
  }

  /** Exactly: legal edits are applied as LSP asks, whatever their replacement texts, if and only if no two of
      them start at the same position. */
  lemma DistinctStartsAreExact(text: string, edits: seq<Edit>)
    requires Legal(text, edits)
    ensures (forall texts: seq<string> | |texts| == |edits| ::
               Loop(text, Retext(edits, texts)) == Simultaneous(text, Retext(edits, texts)))
       <==> DistinctStarts(edits)
  {
    if DistinctStarts(edits) {
      forall texts: seq<string> | |texts| == |edits|
        ensures Loop(text, Retext(edits, texts)) == Simultaneous(text, Retext(edits, texts))
      {
        RetextKeepsLegal(text, edits, texts);
        DistinctStartsSuffice(text, Retext(edits, texts));
      }
    } else if OnlyInsertionsTie(text, edits) {
      var i, j :| 0 <= i < j < |edits| && edits[i].start == edits[j].start;
      MarkedTieDiffers(text, edits, i, j);
    } else {
      var i, j :| 0 <= i < j < |edits| && edits[i].start == edits[j].start && !Insertion(text, edits[j]);
      ReplacementTieDiffers(text, edits, i, j);
    }
  }

  // ---------------------------------------------------------------- a replacement where an insertion is made

  lemma Singles(x: Edit)
    ensures Sorted([x]) == [x] && Reverse([x]) == [x]
  {
    assert [x][1..] == [];
  }

  lemma PairOrder(x: Edit, y: Edit)
    requires x.start == y.start
    ensures Sorted([x, y]) == [x, y] && Reverse([x, y]) == [y, x]
  {
    Singles(y);
    assert [x, y][1..] == [y];
  }

  lemma PairLoop(text: string, x: Edit, y: Edit)
    requires x.start == y.start
    ensures Loop(text, [x, y]) == ApplyOne(ApplyOne(text, x), y)
  {
    PairOrder(x, y);
    PairOrder(y, x);
    assert SortedLatestFirst([x, y]) == [x, y];
    assert [x, y][..1] == [x] && [x][..0] == [];
    assert ApplyInOrder(text, [x]) == ApplyOne(text, x);
  }

  lemma OneCharacterOn(text: string, p: nat)
    requires p < |text| && text[p] != '\n'
    ensures PositionOf(text, p + 1) == Position(PositionOf(text, p).line, PositionOf(text, p).character + 1)
    ensures Offset(text, PositionOf(text, p)) == p && Offset(text, PositionOf(text, p + 1)) == p + 1
  {
    OffsetOfPosition(text, p);
    OffsetOfPosition(text, p + 1);
  }

  /** A replacement that starts where an earlier-listed insertion is made replaces the inserted text instead of
      its own range. LSP allows this pair, and asks for the insertion followed by the replacement. */
  lemma ReplacementEatsInsertion(text: string, p: nat, c: char, newText: string)
    requires p < |text| && text[p] != '\n' && c != '\n'
    ensures var here, next := PositionOf(text, p), PositionOf(text, p + 1);
            var edits := [Edit(here, here, [c]), Edit(here, next, newText)];
            && Loop(text, edits) == text[..p] + newText + text[p..]
            && Simultaneous(text, edits) == text[..p] + [c] + newText + text[p + 1..]
  {
    var here, next := PositionOf(text, p), PositionOf(text, p + 1);
    var ins, rep := Edit(here, here, [c]), Edit(here, next, newText);
    OneCharacterOn(text, p);
    PairLoop(text, ins, rep);
    ReplacedAfterInsertion(text, p, c, newText);
    PairOrder(ins, rep);
    PairSplice(text, ins, rep);
  }

  lemma InsertedPositions(text: string, inserted: string, p: nat, c: char)
    requires p < |text| && text[p] != '\n' && c != '\n' && inserted == text[..p] + [c] + text[p..]
    ensures Offset(inserted, PositionOf(text, p)) == p && Offset(inserted, PositionOf(text, p + 1)) == p + 1
  {
    assert inserted[..p] == text[..p] && inserted[p] == c;
    StartsLocal(text, inserted, p);
    OneCharacterOn(text, p);
    OneCharacterOn(inserted, p);
  }

  lemma ReplacedAfterInsertion(text: string, p: nat, c: char, newText: string)
    requires p < |text| && text[p] != '\n' && c != '\n'
    ensures var here, next := PositionOf(text, p), PositionOf(text, p + 1);
            ApplyOne(ApplyOne(text, Edit(here, here, [c])), Edit(here, next, newText))
              == text[..p] + newText + text[p..]
  {
    var inserted := text[..p] + [c] + text[p..];
    OneCharacterOn(text, p);
    InsertedPositions(text, inserted, p, c);
    assert inserted[..p] == text[..p] && inserted[p + 1..] == text[p..];
  }

  lemma PairSplice(text: string, x: Edit, y: Edit)
    requires Offset(text, x.start) == Offset(text, x.end) == Offset(text, y.start) <= Offset(text, y.end)
    ensures Splice(text, 0, [x, y])
         == text[..Offset(text, x.start)] + x.newText + y.newText + text[Offset(text, y.end)..]
  {
    var p, q := Offset(text, x.start), Offset(text, y.end);
    assert [x, y][1..] == [y] && [y][1..] == [];
    assert Splice(text, q, []) == text[q..];
    assert Splice(text, p, [y]) == text[p..p] + y.newText + text[q..];
    assert text[p..p] + y.newText == y.newText && text[0..p] == text[..p];
  }
}
