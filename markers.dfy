/** The block-marker scheme: the compiler wraps every text span it emits in
    `[block:i]` on both sides, `i` being the zero-based position of the input
    block that produced it, and the viewer splits compiled text at every
    `[block:<digits>]` occurrence, tagging each marker piece with its index. */
module Markers {
  import opened Strings

  const BlockPrefix: string := "[block:"

  /** `"[block:{}]".format(i)`. */
  function BlockRef(i: nat): string {
    BlockPrefix + NatToString(i) + "]"
  }

  /** A text span as the compiler buffers it: `[block:i]text[block:i]`. */
  function Wrap(i: nat, text: string): string {
    BlockRef(i) + text + BlockRef(i)
  }

  /** A marker found at the start of a string: the index it carries and how
      many characters it spans. */
  datatype Marker = Marker(index: nat, length: nat)

  /** Whether `s` starts with a match of `\[block:\d+\]`, and which. */
  function MarkerAt(s: string): Option<Marker> {
    if |s| < 9 || s[..7] != BlockPrefix then None
    else
      var d := DigitRun(s[7..]);
      if d == 0 || 7 + d >= |s| || s[7 + d] != ']' then None
      else Some(Marker(ParseDecimal(s[7..7 + d]), 8 + d))
  }

  /** Whether a marker starts at position `j` of `s`. */
  function MarkerFrom(s: string, j: nat): Option<Marker>
    requires j <= |s|
  {
    MarkerAt(s[j..])
  }

  /** No marker starts anywhere in `t`. */
  ghost predicate NoMarker(t: string) {
    forall j :: 0 <= j <= |t| ==> MarkerFrom(t, j).None?
  }

  /** A marker is at least `[block:0]` long, fits in the string and holds no
      `[` after its first character. */
  lemma MarkerShape(s: string)
    requires MarkerAt(s).Some?
    ensures var m := MarkerAt(s).value;
      9 <= m.length <= |s| && s[0] == '['
      && forall k :: 1 <= k < m.length ==> s[k] != '['
  {
    var d := DigitRun(s[7..]);
    assert s[..7] == BlockPrefix;
    forall k | 1 <= k < 8 + d
      ensures s[k] != '['
    {
      if k < 7 {
        assert s[k] == BlockPrefix[k];
      } else if k < 7 + d {
        assert IsDigit(s[7..][k - 7]);
      }
    }
  }

  /** Whether a marker starts at `s` depends only on the characters it spans. */
  lemma MarkerLocal(s: string, t: string)
    requires MarkerAt(s).Some?
    requires MarkerAt(s).value.length <= |t|
    requires forall k :: 0 <= k < MarkerAt(s).value.length ==> s[k] == t[k]
    ensures MarkerAt(t) == MarkerAt(s)
  {
    var d := DigitRun(s[7..]);
    assert s[..7] == t[..7];
    assert s[7 + d] == ']';
    DigitRunIs(t[7..], d);
    assert s[7..7 + d] == t[7..7 + d];
  }

  /** A run of `k` digits followed by a non-digit is the digit run. */
  lemma {:induction false} DigitRunIs(u: string, k: nat)
    requires k < |u| && !IsDigit(u[k])
    requires forall j :: 0 <= j < k ==> IsDigit(u[j])
    ensures DigitRun(u) == k
    decreases k
  {
    if k > 0 {
      DigitRunIs(u[1..], k - 1);
    }
  }

  /** `[block:i]` is a marker carrying `i`, whatever follows it. */
  lemma MarkerAtBlockRef(i: nat, rest: string)
    ensures MarkerAt(BlockRef(i) + rest) == Some(Marker(i, |BlockRef(i)|))
  {
    var s := BlockRef(i) + rest;
    var digits := NatToString(i);
    assert s[..7] == BlockPrefix;
    assert s[7..][..|digits|] == digits;
    assert s[7 + |digits|] == ']';
    DigitRunIs(s[7..], |digits|);
    var d := |digits|;
    assert s[7..7 + d] == digits;
    ParseNatToString(i);
  }

  /** A span of the split: a plain piece of text, or a marker with its index. */
  datatype Span = Plain(text: string) | Link(index: nat, text: string)

  function Concat(spans: seq<Span>): string {
    if |spans| == 0 then "" else spans[0].text + Concat(spans[1..])
  }

  lemma {:induction false} ConcatAppend(a: seq<Span>, b: seq<Span>)
    ensures Concat(a + b) == Concat(a) + Concat(b)
  {
    if |a| == 0 {
      assert a + b == b;
    } else {
      assert (a + b)[1..] == a[1..] + b;
      ConcatAppend(a[1..], b);
    }
  }

  /** The first marker at or after `from`. */
  datatype Hit = Hit(pos: nat, marker: Marker)

  function FindMarker(s: string, from: nat): (r: Option<Hit>)
    ensures r.Some? ==> (from <= r.value.pos < |s|
      && MarkerFrom(s, r.value.pos) == Some(r.value.marker)
      && forall j :: from <= j < r.value.pos ==> MarkerFrom(s, j).None?)
    ensures r.None? ==> forall j :: from <= j <= |s| ==> MarkerFrom(s, j).None?
    decreases |s| - from
  {
    if from >= |s| then None
    else if MarkerFrom(s, from).Some? then Some(Hit(from, MarkerFrom(s, from).value))
    else FindMarker(s, from + 1)
  }

  /** `re.split(r'(\[block:\d+\])', text)`, each marker piece tagged with its
      index (what `parse_block_links` keeps of each piece once the display
      component around it is dropped). */
  function Split(s: string): (r: seq<Span>)
    ensures |r| % 2 == 1
    ensures forall k :: 0 <= k < |r| ==> (r[k].Plain? <==> k % 2 == 0)
    decreases |s|
  {
    match FindMarker(s, 0)
    case None => [Plain(s)]
    case Some(h) =>
      var end := h.pos + h.marker.length;
      MarkerShape(s[h.pos..]);
      var rest := Split(s[end..]);
      AlternatingCons(Plain(s[..h.pos]), Link(h.marker.index, s[h.pos..end]), rest);
      [Plain(s[..h.pos]), Link(h.marker.index, s[h.pos..end])] + rest
  }

  /** A plain piece and a marker piece in front of an alternating list keep
      it alternating. */
  lemma AlternatingCons(a: Span, b: Span, tail: seq<Span>)
    requires a.Plain? && b.Link?
    requires |tail| % 2 == 1 && forall k :: 0 <= k < |tail| ==> (tail[k].Plain? <==> k % 2 == 0)
    ensures var r := [a, b] + tail;
      |r| % 2 == 1 && forall k :: 0 <= k < |r| ==> (r[k].Plain? <==> k % 2 == 0)
  {
    var r := [a, b] + tail;
    forall k | 2 <= k < |r|
      ensures r[k] == tail[k - 2]
    {
    }
  }

  /** The pieces of the split, concatenated, give back the text. */
  lemma {:induction false} SplitConcat(s: string)
    ensures Concat(Split(s)) == s
    decreases |s|
  {
    match FindMarker(s, 0)
    case None =>
    case Some(h) =>
      var end := h.pos + h.marker.length;
      MarkerShape(s[h.pos..]);
      ConcatHead(s[..h.pos], h.marker.index, s[h.pos..end], Split(s[end..]));
      SplitConcat(s[end..]);
      ThreeParts(s, h.pos, end);
  }

  lemma ConcatHead(a: string, i: nat, b: string, rest: seq<Span>)
    ensures Concat([Plain(a), Link(i, b)] + rest) == a + b + Concat(rest)
  {
    var h := [Plain(a), Link(i, b)];
    ConcatAppend(h, rest);
    assert h[1..][1..] == [];
  }

  lemma ThreeParts(s: string, i: nat, j: nat)
    requires i <= j <= |s|
    ensures s == s[..i] + s[i..j] + s[j..]
  {
  }

  /** Plain and marker pieces alternate, starting and ending with a (possibly
      empty) plain piece; every marker piece is exactly one `[block:n]` and is
      tagged with `n`; no plain piece holds a marker. */
  ghost predicate WellFormedSplit(r: seq<Span>) {
    && |r| % 2 == 1
    && (forall k :: 0 <= k < |r| ==> (r[k].Plain? <==> k % 2 == 0))
    && (forall k :: 0 <= k < |r| && r[k].Link? ==>
          MarkerAt(r[k].text) == Some(Marker(r[k].index, |r[k].text|)))
    && (forall k :: 0 <= k < |r| && r[k].Plain? ==> NoMarker(r[k].text))
  }

  lemma {:induction false} SplitWellFormed(s: string)
    ensures WellFormedSplit(Split(s))
    decreases |s|
  {
    match FindMarker(s, 0)
    case None =>
    case Some(h) =>
      var end := h.pos + h.marker.length;
      FirstPieces(s, h);
      SplitWellFormed(s[end..]);
      WellFormedCons(s[..h.pos], h.marker.index, s[h.pos..end], Split(s[end..]));
  }

  /** The text before the first marker holds none, and the marker piece is
      exactly one marker. */
  lemma FirstPieces(s: string, h: Hit)
    requires FindMarker(s, 0) == Some(h)
    ensures h.pos + h.marker.length <= |s|
    ensures NoMarker(s[..h.pos])
    ensures MarkerAt(s[h.pos..h.pos + h.marker.length]) == Some(h.marker)
  {
    MarkerPiece(s, h.pos, h.marker);
    PlainBeforeFirstMarker(s, h.pos);
  }

  /** The marker starting at `pos`, cut out of the text, is still that marker. */
  lemma MarkerPiece(s: string, pos: nat, m: Marker)
    requires pos <= |s| && MarkerFrom(s, pos) == Some(m)
    ensures pos + m.length <= |s|
    ensures MarkerAt(s[pos..pos + m.length]) == Some(m)
  {
    var t := s[pos..];
    MarkerShape(t);
    MarkerPrefix(t, s[pos..pos + m.length]);
  }

  /** A marker keeps its meaning when cut out of the surrounding text. */
  lemma MarkerPrefix(t: string, u: string)
    requires MarkerAt(t).Some?
    requires u == t[..MarkerAt(t).value.length]
    ensures MarkerAt(u) == MarkerAt(t)
  {
    MarkerShape(t);
    MarkerLocal(t, u);
  }

  lemma WellFormedCons(p: string, n: nat, m: string, tail: seq<Span>)
    requires NoMarker(p)
    requires MarkerAt(m).Some? && MarkerAt(m).value == Marker(n, |m|)
    requires WellFormedSplit(tail)
    ensures WellFormedSplit([Plain(p), Link(n, m)] + tail)
  {
    var r := [Plain(p), Link(n, m)] + tail;
    forall k | 2 <= k < |r|
      ensures r[k] == tail[k - 2]
    {
    }
  }

  /** Text before the first marker holds no marker. */
  lemma PlainBeforeFirstMarker(s: string, pos: nat)
    requires pos <= |s|
    requires forall j :: 0 <= j < pos ==> MarkerFrom(s, j).None?
    ensures NoMarker(s[..pos])
  {
    forall j | 0 <= j <= pos
      ensures MarkerFrom(s[..pos], j).None?
    {
      if MarkerFrom(s[..pos], j).Some? {
        MarkerInPrefix(s, pos, j);
        assert false;
      }
    }
  }

  /** A marker inside a prefix of `s` is a marker of `s` at the same place. */
  lemma MarkerInPrefix(s: string, pos: nat, j: nat)
    requires j <= pos <= |s| && MarkerFrom(s[..pos], j).Some?
    ensures MarkerFrom(s, j) == MarkerFrom(s[..pos], j)
  {
    MarkerShape(s[..pos][j..]);
    MarkerLocal(s[..pos][j..], s[j..]);
  }

  /** Splitting text that starts with marker-free text and then a marker
      yields that text, the marker with its index, and the split of the rest. */
  lemma SplitAtMarker(p: string, i: nat, rest: string)
    requires NoMarker(p)
    ensures Split(p + BlockRef(i) + rest) == [Plain(p), Link(i, BlockRef(i))] + Split(rest)
  {
    var b := BlockRef(i);
    var s := p + b + rest;
    forall j | 0 <= j < |p|
      ensures MarkerFrom(s, j).None?
    {
      assert s == p + (b + rest);
      NoMarkerStraddle(p, j, b + rest);
    }
    assert s[|p|..] == b + rest;
    MarkerAtBlockRef(i, rest);
    assert MarkerFrom(s, |p|) == MarkerAt(b + rest);
    FirstMarkerIs(s, |p|, Marker(i, |b|));
    assert s[..|p|] == p;
    assert s[|p|..|p| + |b|] == b;
    assert s[|p| + |b|..] == rest;
  }

  /** A marker at `q` with none before it is the one the scan finds. */
  lemma FirstMarkerIs(s: string, q: nat, m: Marker)
    requires q < |s|
    requires forall j :: 0 <= j < q ==> MarkerFrom(s, j).None?
    requires MarkerFrom(s, q) == Some(m)
    ensures FindMarker(s, 0) == Some(Hit(q, m))
  {
    FirstMarkerFrom(s, 0, q, m);
  }

  lemma {:induction false} FirstMarkerFrom(s: string, from: nat, q: nat, m: Marker)
    requires from <= q < |s|
    requires forall j :: from <= j < q ==> MarkerFrom(s, j).None?
    requires MarkerFrom(s, q) == Some(m)
    ensures FindMarker(s, from) == Some(Hit(q, m))
    decreases q - from
  {
    if from < q {
      FirstMarkerFrom(s, from + 1, q, m);
    }
  }

  /** In marker-free `p` followed by text starting with `[`, no marker starts
      inside `p`. */
  lemma NoMarkerStraddle(p: string, j: nat, q: string)
    requires NoMarker(p) && j < |p|
    requires |q| > 0 && q[0] == '['
    ensures MarkerFrom(p + q, j).None?
  {
    var s := (p + q)[j..];
    assert MarkerFrom(p, j) == MarkerAt(p[j..]);
    if MarkerAt(s).Some? {
      MarkerShape(s);
      var L := MarkerAt(s).value.length;
      assert s[|p| - j] == '[';
      MarkerLocal(s, p[j..]);
    }
  }

  /** Text without markers splits into one plain piece. */
  lemma SplitNoMarker(t: string)
    requires NoMarker(t)
    ensures Split(t) == [Plain(t)]
  {
    assert FindMarker(t, 0).None?;
  }

  /** A buffered item: the block position and the text wrapped with its marker. */
  datatype Item = Item(block: nat, text: string)

  function Render(items: seq<Item>): (r: seq<string>)
    ensures |r| == |items|
    ensures forall k :: 0 <= k < |items| ==> r[k] == Wrap(items[k].block, items[k].text)
  {
    if |items| == 0 then [] else [Wrap(items[0].block, items[0].text)] + Render(items[1..])
  }

  ghost predicate ItemsMarkerFree(items: seq<Item>) {
    forall k :: 0 <= k < |items| ==> NoMarker(items[k].text)
  }

  /** What the split of `pre` followed by the joined, wrapped items should be:
      `pre`, then per item its marker, its text and its marker again, then the
      separating space (an empty piece after the last item). */
  function Decoded(pre: string, items: seq<Item>): seq<Span>
    decreases |items|
  {
    if |items| == 0 then [Plain(pre)]
    else
      var x := items[0];
      [Plain(pre), Link(x.block, BlockRef(x.block)), Plain(x.text), Link(x.block, BlockRef(x.block))]
      + Decoded(if |items| == 1 then "" else " ", items[1..])
  }

  /** Round trip of the compiler's text through the splitter: every wrapped
      span decodes to the marker of the block that produced it, and the text
      between the two markers is exactly the span's text. */
  lemma {:induction false} SplitJoined(pre: string, items: seq<Item>)
    requires NoMarker(pre)
    requires ItemsMarkerFree(items)
    ensures Split(pre + Join(Render(items), " ")) == Decoded(pre, items)
    decreases |items|
  {
    if |items| == 0 {
      assert pre + Join(Render(items), " ") == pre;
      SplitNoMarker(pre);
    } else {
      var tail := if |items| == 1 then "" else " ";
      NoMarkerShort(tail);
      SplitJoined(tail, items[1..]);
      SplitJoinedStep(pre, items);
    }
  }

  /** One item of `SplitJoined`, given the split of what follows it. */
  lemma SplitJoinedStep(pre: string, items: seq<Item>)
    requires NoMarker(pre) && |items| > 0 && NoMarker(items[0].text)
    requires var tail := if |items| == 1 then "" else " ";
      Split(tail + Join(Render(items[1..]), " ")) == Decoded(tail, items[1..])
    ensures Split(pre + Join(Render(items), " ")) == Decoded(pre, items)
  {
    var x := items[0];
    var tail := if |items| == 1 then "" else " ";
    var after := tail + Join(Render(items[1..]), " ");
    JoinedHead(pre, items);
    SplitWrapped(pre, x.block, x.text, after);
    DecodedHead(pre, items);
  }

  lemma JoinedHead(pre: string, items: seq<Item>)
    requires |items| > 0
    ensures pre + Join(Render(items), " ") ==
      pre + Wrap(items[0].block, items[0].text)
      + ((if |items| == 1 then "" else " ") + Join(Render(items[1..]), " "))
  {
    JoinRenderHead(items);
    Regroup(pre, Wrap(items[0].block, items[0].text), if |items| == 1 then "" else " ", Join(Render(items[1..]), " "));
  }

  lemma Regroup(a: string, b: string, c: string, d: string)
    ensures a + (b + c + d) == a + b + (c + d)
  {
  }

  /** Splitting marker-free text, then a wrapped span, then anything. */
  lemma SplitWrapped(pre: string, i: nat, text: string, after: string)
    requires NoMarker(pre) && NoMarker(text)
    ensures Split(pre + Wrap(i, text) + after)
      == [Plain(pre), Link(i, BlockRef(i))] + ([Plain(text), Link(i, BlockRef(i))] + Split(after))
  {
    var b := BlockRef(i);
    var s1 := text + b + after;
    assert pre + Wrap(i, text) + after == pre + b + s1;
    SplitAtMarker(pre, i, s1);
    assert Split(pre + b + s1) == [Plain(pre), Link(i, b)] + Split(s1);
    SplitAtMarker(text, i, after);
    assert Split(s1) == [Plain(text), Link(i, b)] + Split(after);
  }

  lemma JoinRenderHead(items: seq<Item>)
    requires |items| > 0
    ensures Join(Render(items), " ") ==
      Wrap(items[0].block, items[0].text)
      + (if |items| == 1 then "" else " ") + Join(Render(items[1..]), " ")
  {
    assert Render(items)[1..] == Render(items[1..]);
  }

  lemma DecodedHead(pre: string, items: seq<Item>)
    requires |items| > 0
    ensures Decoded(pre, items) ==
      [Plain(pre), Link(items[0].block, BlockRef(items[0].block))]
      + ([Plain(items[0].text), Link(items[0].block, BlockRef(items[0].block))]
         + Decoded(if |items| == 1 then "" else " ", items[1..]))
  {
  }

  /** Strings shorter than `[block:0]` hold no marker. */
  lemma NoMarkerShort(t: string)
    requires |t| < 9
    ensures NoMarker(t)
  {
  }

  /** The index a span contributes to `LinkIndices`: its own when it is a
      marker piece. */
  function LinkOf(sp: Span): seq<nat> {
    if sp.Link? then [sp.index] else []
  }

  /** The indices of the marker pieces, in order. */
  function LinkIndices(spans: seq<Span>): seq<nat> {
    if |spans| == 0 then [] else LinkOf(spans[0]) + LinkIndices(spans[1..])
  }

  function Positions(items: seq<Item>): seq<nat> {
    if |items| == 0 then [] else [items[0].block] + Positions(items[1..])
  }

  /** Each position twice: the opening and the closing marker of its span. */
  function Doubled(xs: seq<nat>): seq<nat> {
    if |xs| == 0 then [] else [xs[0], xs[0]] + Doubled(xs[1..])
  }

  lemma {:induction false} DoubledAppend(a: seq<nat>, b: seq<nat>)
    ensures Doubled(a + b) == Doubled(a) + Doubled(b)
  {
    if |a| == 0 {
      assert a + b == b;
    } else {
      assert (a + b)[1..] == a[1..] + b;
      DoubledAppend(a[1..], b);
    }
  }

  lemma {:induction false} PositionsAppend(a: seq<Item>, b: seq<Item>)
    ensures Positions(a + b) == Positions(a) + Positions(b)
  {
    if |a| == 0 {
      assert a + b == b;
    } else {
      assert (a + b)[1..] == a[1..] + b;
      PositionsAppend(a[1..], b);
    }
  }

  lemma {:induction false} LinkIndicesAppend(a: seq<Span>, b: seq<Span>)
    ensures LinkIndices(a + b) == LinkIndices(a) + LinkIndices(b)
  {
    if |a| == 0 {
      assert a + b == b;
    } else {
      assert (a + b)[1..] == a[1..] + b;
      assert (a + b)[0] == a[0];
      LinkIndicesAppend(a[1..], b);
      AppendAssoc(LinkOf(a[0]), LinkIndices(a[1..]), LinkIndices(b));
    }
  }

  lemma AppendAssoc(x: seq<nat>, y: seq<nat>, z: seq<nat>)
    ensures x + (y + z) == (x + y) + z
  {
  }

  /** The markers found in the decoded text name each item's block twice, in
      the order the items were buffered. */
  lemma {:induction false} DecodedLinks(pre: string, items: seq<Item>)
    ensures LinkIndices(Decoded(pre, items)) == Doubled(Positions(items))
    decreases |items|
  {
    if |items| > 0 {
      var x := items[0];
      var b := BlockRef(x.block);
      var head := [Plain(pre), Link(x.block, b), Plain(x.text), Link(x.block, b)];
      var tail := if |items| == 1 then "" else " ";
      LinkIndicesAppend(head, Decoded(tail, items[1..]));
      DecodedLinks(tail, items[1..]);
      LinksOfWrapped(pre, x.block, b, x.text);
      assert Positions(items)[1..] == Positions(items[1..]);
    }
  }

  lemma LinksOfWrapped(pre: string, i: nat, b: string, t: string)
    ensures LinkIndices([Plain(pre), Link(i, b), Plain(t), Link(i, b)]) == [i, i]
  {
    var h := [Plain(pre), Link(i, b), Plain(t), Link(i, b)];
    assert h[1..][1..][1..] == [Link(i, b)];
    assert LinkIndices(h[1..][1..][1..]) == [i] + LinkIndices([]);
    assert LinkIndices(h[1..][1..]) == [i];
    assert LinkIndices(h[1..]) == [i] + [i];
  }

  /** Decoding the joined, wrapped buffer recovers the buffered blocks'
      positions, each twice, in buffer order. */
  lemma JoinedLinks(items: seq<Item>)
    requires ItemsMarkerFree(items)
    ensures LinkIndices(Split(Join(Render(items), " "))) == Doubled(Positions(items))
  {
    NoMarkerShort("");
    SplitJoined("", items);
    assert "" + Join(Render(items), " ") == Join(Render(items), " ");
    DecodedLinks("", items);
  }
}
