/** What the compiler's text buffer and `content` list hold, stated per block
    rather than per step: the item each block contributes, the items still
    waiting since the last `Section header`, the section state the headers
    set, and the entries flushed at each header. The shape of these (runs,
    order, nothing lost) is proved once over abstract per-block
    contributions; `HeadingStep`, `BufferStep` and `ContentStep` prove that
    each step keeps to them. */
module TextModel {
  import opened Strings
  import opened Markers
  import opened CompilerSpec
  import opened ResourceModel

  /** A text block's item: its stripped text, unless that is empty. */
  function TextItem(i: nat, text: string): seq<Item> {
    if text != "" then [Item(i, text)] else []
  }

  /** What block `i` puts in the buffer: nothing for a header, the
      resource's reference for a `Picture` or `Table`, nothing for a
      `Caption` once some resource exists, and otherwise its stripped text
      when that is not empty. */
  function ItemOf(blocks: seq<Block>, i: nat): (r: seq<Item>)
    requires i < |blocks|
    ensures |r| <= 1 && (r != [] ==> r[0].block == i)
  {
    var text := Strip(blocks[i].text);
    match blocks[i].kind
    case SectionHeader => []
    case Picture => [Item(i, ImageRef(CountKind(blocks, i, Picture) + 1))]
    case Table => [Item(i, TableRef(CountKind(blocks, i, Table) + 1))]
    case Caption => if ResourcePositions(blocks, i) == [] then TextItem(i, text) else []
    case Other(_) => TextItem(i, text)
  }

  // Runs of items over abstract per-block data: `c[i]` is what block `i`
  // contributes, `h[i]` whether it is a header, `hs[i]` the section state in
  // force when block `i` is read.

  /** The items of the first `n` blocks, in block order. */
  function Concat(c: seq<seq<Item>>, n: nat): seq<Item>
    requires n <= |c|
  {
    if n == 0 then [] else Concat(c, n - 1) + c[n - 1]
  }

  /** The items of the first `n` blocks since the last header. */
  function Waiting(c: seq<seq<Item>>, h: seq<bool>, n: nat): seq<Item>
    requires n <= |c| && |h| == |c|
  {
    if n == 0 then []
    else if h[n - 1] then []
    else Waiting(c, h, n - 1) + c[n - 1]
  }

  /** The runs closed by the headers among the first `n` blocks: each header
      closes the run before it, unless that run is empty. */
  function Runs(c: seq<seq<Item>>, h: seq<bool>, n: nat): seq<seq<Item>>
    requires n <= |c| && |h| == |c|
  {
    if n == 0 then []
    else if h[n - 1] && Waiting(c, h, n - 1) != [] then
      Runs(c, h, n - 1) + [Waiting(c, h, n - 1)]
    else Runs(c, h, n - 1)
  }

  /** One entry per closed run, with the section state in force at the
      header that closed it and the run wrapped and joined by spaces. */
  function EntriesOf(c: seq<seq<Item>>, h: seq<bool>, hs: seq<Heading>, n: nat): seq<Entry>
    requires n <= |c| && |h| == |c| && |hs| == |c|
  {
    if n == 0 then []
    else if h[n - 1] && Waiting(c, h, n - 1) != [] then
      EntriesOf(c, h, hs, n - 1) + [Entry(hs[n - 1], Join(Render(Waiting(c, h, n - 1)), " "))]
    else EntriesOf(c, h, hs, n - 1)
  }

  /** Headers contribute no item. */
  predicate Silent(c: seq<seq<Item>>, h: seq<bool>)
    requires |h| == |c|
  {
    forall i :: 0 <= i < |c| && h[i] ==> c[i] == []
  }

  /** Block `i` contributes at most one item, at position `i`. */
  predicate Placed(c: seq<seq<Item>>) {
    forall i :: 0 <= i < |c| ==> Positions(c[i]) == [] || Positions(c[i]) == [i]
  }

  /** Flattens runs of items back into one sequence. */
  function Flatten(xss: seq<seq<Item>>): seq<Item> {
    if |xss| == 0 then [] else Flatten(xss[..|xss| - 1]) + xss[|xss| - 1]
  }

  /** Nothing is lost or repeated: the closed runs followed by the items
      still waiting are all items, in block order. */
  lemma {:induction false} RunsConserve(c: seq<seq<Item>>, h: seq<bool>, n: nat)
    requires n <= |c| && |h| == |c| && Silent(c, h)
    ensures Flatten(Runs(c, h, n)) + Waiting(c, h, n) == Concat(c, n)
  {
    if n > 0 {
      var m := n - 1;
      RunsConserve(c, h, m);
      var f := Flatten(Runs(c, h, m));
      var p := Waiting(c, h, m);
      if h[m] {
        if p != [] {
          var s := Runs(c, h, m) + [p];
          assert s[..|s| - 1] == Runs(c, h, m);
        }
        assert Concat(c, n) == Concat(c, m) + [];
      } else {
        assert f + (p + c[m]) == (f + p) + c[m];
      }
    }
  }

  /** Entries and runs correspond one to one. */
  ghost predicate Matches(e: seq<Entry>, s: seq<seq<Item>>) {
    && |e| == |s|
    && (forall k :: 0 <= k < |s| ==> s[k] != [] && e[k].text == Join(Render(s[k]), " "))
  }

  lemma {:induction false} MatchesSnoc(e: seq<Entry>, s: seq<seq<Item>>, x: Entry, p: seq<Item>)
    requires Matches(e, s) && p != [] && x.text == Join(Render(p), " ")
    ensures Matches(e + [x], s + [p])
  {
    var e', s' := e + [x], s + [p];
    forall k | 0 <= k < |s'|
      ensures s'[k] != [] && e'[k].text == Join(Render(s'[k]), " ")
    {
      if k < |s| {
        assert s'[k] == s[k] && e'[k] == e[k];
      }
    }
  }

  /** Every closed run is non-empty, and each entry's text is its run,
      wrapped and joined by single spaces. */
  lemma {:induction false} EntriesMatchRuns(c: seq<seq<Item>>, h: seq<bool>, hs: seq<Heading>, n: nat)
    requires n <= |c| && |h| == |c| && |hs| == |c|
    ensures Matches(EntriesOf(c, h, hs, n), Runs(c, h, n))
  {
    if n > 0 {
      var m := n - 1;
      EntriesMatchRuns(c, h, hs, m);
      if h[m] && Waiting(c, h, m) != [] {
        var p := Waiting(c, h, m);
        MatchesSnoc(EntriesOf(c, h, hs, m), Runs(c, h, m), Entry(hs[m], Join(Render(p), " ")), p);
      }
    }
  }

  predicate Increasing(xs: seq<nat>) {
    forall j, l :: 0 <= j < l < |xs| ==> xs[j] < xs[l]
  }

  /** Strictly increasing, and every element below `n`. */
  predicate OrderedBelow(xs: seq<nat>, n: nat) {
    Increasing(xs) && forall j :: 0 <= j < |xs| ==> xs[j] < n
  }

  /** The items come in strictly increasing block order, and only from the
      blocks read. */
  lemma {:induction false} ConcatOrdered(c: seq<seq<Item>>, n: nat)
    requires n <= |c| && Placed(c)
    ensures OrderedBelow(Positions(Concat(c, n)), n)
  {
    if n > 0 {
      var m := n - 1;
      ConcatOrdered(c, m);
      PositionsAppend(Concat(c, m), c[m]);
      IncreasingSnoc(Positions(Concat(c, m)), Positions(c[m]), m);
    }
  }

  lemma {:induction false} IncreasingSnoc(ps: seq<nat>, q: seq<nat>, m: nat)
    requires OrderedBelow(ps, m)
    requires q == [] || q == [m]
    ensures OrderedBelow(ps + q, m + 1)
  {
  }

  // The same runs for the blocks themselves.

  function Contributions(blocks: seq<Block>): (c: seq<seq<Item>>)
    ensures |c| == |blocks|
    ensures forall i :: 0 <= i < |blocks| ==> c[i] == ItemOf(blocks, i)
  {
    seq(|blocks|, i requires 0 <= i < |blocks| => ItemOf(blocks, i))
  }

  predicate IsHeader(blocks: seq<Block>, i: nat)
    requires i < |blocks|
  {
    blocks[i].kind == SectionHeader
  }

  function Headers(blocks: seq<Block>): (h: seq<bool>)
    ensures |h| == |blocks|
    ensures forall i :: 0 <= i < |blocks| ==> h[i] == IsHeader(blocks, i)
  {
    seq(|blocks|, i requires 0 <= i < |blocks| => IsHeader(blocks, i))
  }

  /** The section state after the first `n` blocks: only headers change it. */
  function HeadingAfter(blocks: seq<Block>, mapping: map<string, string>, n: nat): Heading
    requires n <= |blocks|
  {
    if n == 0 then InitialHeading
    else if IsHeader(blocks, n - 1) then
      EnterHeading(HeadingAfter(blocks, mapping, n - 1), mapping, n - 1, Strip(blocks[n - 1].text))
    else HeadingAfter(blocks, mapping, n - 1)
  }

  function Headings(blocks: seq<Block>, mapping: map<string, string>): (hs: seq<Heading>)
    ensures |hs| == |blocks|
    ensures forall i :: 0 <= i < |blocks| ==> hs[i] == HeadingAfter(blocks, mapping, i)
  {
    seq(|blocks|, i requires 0 <= i < |blocks| => HeadingAfter(blocks, mapping, i))
  }

  function AllItems(blocks: seq<Block>, n: nat): seq<Item>
    requires n <= |blocks|
  {
    Concat(Contributions(blocks), n)
  }

  function Pending(blocks: seq<Block>, n: nat): seq<Item>
    requires n <= |blocks|
  {
    Waiting(Contributions(blocks), Headers(blocks), n)
  }

  function Segments(blocks: seq<Block>, n: nat): seq<seq<Item>>
    requires n <= |blocks|
  {
    Runs(Contributions(blocks), Headers(blocks), n)
  }

  function Entries(blocks: seq<Block>, mapping: map<string, string>, n: nat): seq<Entry>
    requires n <= |blocks|
  {
    EntriesOf(Contributions(blocks), Headers(blocks), Headings(blocks, mapping), n)
  }

  lemma {:induction false} HeadersSilent(blocks: seq<Block>)
    ensures Silent(Contributions(blocks), Headers(blocks))
  {
  }

  lemma {:induction false} ContributionsPlaced(blocks: seq<Block>)
    ensures Placed(Contributions(blocks))
  {
    var c := Contributions(blocks);
    forall i | 0 <= i < |c|
      ensures Positions(c[i]) == [] || Positions(c[i]) == [i]
    {
      ItemPosition(blocks, i);
    }
  }

  lemma {:induction false} ItemPosition(blocks: seq<Block>, m: nat)
    requires m < |blocks|
    ensures Positions(ItemOf(blocks, m)) == [] || Positions(ItemOf(blocks, m)) == [m]
  {
    var i := ItemOf(blocks, m);
    if i != [] {
      assert i == [Item(m, i[0].text)];
    }
  }

  /** The items of the blocks read come in strictly increasing block order. */
  lemma {:induction false} AllItemsOrdered(blocks: seq<Block>, n: nat)
    requires n <= |blocks|
    ensures OrderedBelow(Positions(AllItems(blocks, n)), n)
  {
    ContributionsPlaced(blocks);
    ConcatOrdered(Contributions(blocks), n);
  }

  /** The flushed runs followed by the buffer are all items read. */
  lemma {:induction false} ItemsConserved(blocks: seq<Block>, n: nat)
    requires n <= |blocks|
    ensures Flatten(Segments(blocks, n)) + Pending(blocks, n) == AllItems(blocks, n)
  {
    HeadersSilent(blocks);
    RunsConserve(Contributions(blocks), Headers(blocks), n);
  }

  /** Each entry is a non-empty run, wrapped and joined by spaces. */
  lemma {:induction false} EntriesAreSegments(blocks: seq<Block>, mapping: map<string, string>, n: nat)
    requires n <= |blocks|
    ensures Matches(Entries(blocks, mapping, n), Segments(blocks, n))
  {
    EntriesMatchRuns(Contributions(blocks), Headers(blocks), Headings(blocks, mapping), n);
  }

  /** The part of the compiler's state that concerns text. */
  ghost predicate TextInvariant(blocks: seq<Block>, mapping: map<string, string>, n: nat, st: State)
    requires n <= |blocks|
  {
    && st.heading == HeadingAfter(blocks, mapping, n)
    && st.buffer == Render(Pending(blocks, n))
    && st.content == Entries(blocks, mapping, n)
  }

  lemma {:induction false} RenderAppend(a: seq<Item>, b: seq<Item>)
    ensures Render(a + b) == Render(a) + Render(b)
  {
    if |a| > 0 {
      assert (a + b)[1..] == a[1..] + b;
      RenderAppend(a[1..], b);
    }
  }

  lemma {:induction false} HeadingStep(blocks: seq<Block>, mapping: map<string, string>, m: nat, st: State)
    requires m < |blocks| && Valid(st) && CountersAgree(blocks, m, st)
    requires st.heading == HeadingAfter(blocks, mapping, m)
    ensures Step(st, mapping, m, blocks[m]).heading == HeadingAfter(blocks, mapping, m + 1)
  {
    if IsHeader(blocks, m) {
      assert Step(st, mapping, m, blocks[m]) == EnterHeader(st, mapping, m, Strip(blocks[m].text));
    } else {
      GrowText(blocks, mapping, m, st);
      QuietBlock(blocks, mapping, m);
    }
  }

  lemma {:induction false} BufferStep(blocks: seq<Block>, mapping: map<string, string>, m: nat, st: State)
    requires m < |blocks| && Valid(st) && CountersAgree(blocks, m, st)
    requires st.buffer == Render(Pending(blocks, m))
    ensures Step(st, mapping, m, blocks[m]).buffer == Render(Pending(blocks, m + 1))
  {
    if IsHeader(blocks, m) {
      assert Step(st, mapping, m, blocks[m]) == EnterHeader(st, mapping, m, Strip(blocks[m].text));
      HeaderEmpties(blocks, m);
    } else {
      GrowText(blocks, mapping, m, st);
      PendingGrows(blocks, m);
      RenderAppend(Pending(blocks, m), ItemOf(blocks, m));
    }
  }

  lemma {:induction false} ContentStep(blocks: seq<Block>, mapping: map<string, string>, m: nat, st: State)
    requires m < |blocks| && Valid(st) && CountersAgree(blocks, m, st)
    requires st.heading == HeadingAfter(blocks, mapping, m)
    requires st.buffer == Render(Pending(blocks, m))
    requires st.content == Entries(blocks, mapping, m)
    ensures Step(st, mapping, m, blocks[m]).content == Entries(blocks, mapping, m + 1)
  {
    if IsHeader(blocks, m) {
      var r := EnterHeader(st, mapping, m, Strip(blocks[m].text));
      assert Step(st, mapping, m, blocks[m]) == r;
      HeaderFlushes(blocks, mapping, m, st, r);
    } else {
      GrowText(blocks, mapping, m, st);
      QuietBlock(blocks, mapping, m);
    }
  }

  /** A block other than a header adds its own item to the buffer and leaves
      the section state and `content` alone. */
  lemma {:induction false} GrowText(blocks: seq<Block>, mapping: map<string, string>, m: nat, st: State)
    requires m < |blocks| && Valid(st) && CountersAgree(blocks, m, st)
    requires blocks[m].kind != SectionHeader
    ensures var r := Step(st, mapping, m, blocks[m]);
      && r.heading == st.heading && r.content == st.content
      && r.buffer == st.buffer + Render(ItemOf(blocks, m))
  {
    var b := blocks[m];
    var text := Strip(b.text);
    var items := ItemOf(blocks, m);
    match b.kind
    case Picture =>
      assert items == [Item(m, ImageRef(st.imageCounter))];
    case Table =>
      assert items == [Item(m, TableRef(st.tableCounter))];
    case Caption =>
      if st.lastResource.Some? {
        assert items == [];
      } else {
        assert items == TextItem(m, text);
      }
    case Other(_) =>
      assert items == TextItem(m, text);
  }

  lemma {:induction false} PendingGrows(blocks: seq<Block>, m: nat)
    requires m < |blocks| && !IsHeader(blocks, m)
    ensures Pending(blocks, m + 1) == Pending(blocks, m) + ItemOf(blocks, m)
  {
    var c, h := Contributions(blocks), Headers(blocks);
    assert Waiting(c, h, m + 1) == Waiting(c, h, m) + c[m];
  }

  /** A block other than a header leaves the section state and the entries. */
  lemma {:induction false} QuietBlock(blocks: seq<Block>, mapping: map<string, string>, m: nat)
    requires m < |blocks| && !IsHeader(blocks, m)
    ensures HeadingAfter(blocks, mapping, m + 1) == HeadingAfter(blocks, mapping, m)
    ensures Entries(blocks, mapping, m + 1) == Entries(blocks, mapping, m)
  {
    var c, h, hs := Contributions(blocks), Headers(blocks), Headings(blocks, mapping);
    assert !h[m];
  }

  /** After a header nothing is waiting. */
  lemma {:induction false} HeaderEmpties(blocks: seq<Block>, m: nat)
    requires m < |blocks| && IsHeader(blocks, m)
    ensures Render(Pending(blocks, m + 1)) == []
  {
    var c, h := Contributions(blocks), Headers(blocks);
    assert h[m];
    assert Render([]) == [];
  }

  /** A header closes the run before it, when that run holds something,
      into an entry with the section state before the header. */
  lemma {:induction false} HeaderFlushes(blocks: seq<Block>, mapping: map<string, string>, m: nat, st: State, r: State)
    requires m < |blocks| && Valid(st) && IsHeader(blocks, m)
    requires st.heading == HeadingAfter(blocks, mapping, m)
    requires st.buffer == Render(Pending(blocks, m))
    requires st.content == Entries(blocks, mapping, m)
    requires r == EnterHeader(st, mapping, m, Strip(blocks[m].text))
    ensures r.content == Entries(blocks, mapping, m + 1)
  {
    var c, h, hs := Contributions(blocks), Headers(blocks), Headings(blocks, mapping);
    assert |st.buffer| == |Waiting(c, h, m)|;
    assert hs[m] == st.heading;
    assert h[m];
  }
}
