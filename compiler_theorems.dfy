/** What the document `compile_parsed_content` returns promises, proved from
    its definition by blocks: the content list is never empty, every entry
    is a run of wrapped text in block order with no item lost, the viewer's
    marker split recovers each span's block, every `Picture` and `Table`
    becomes one numbered resource, and a resource's description is the
    first caption after it, unless another resource comes first. */
module CompilerTheorems {
  import opened Strings
  import opened Markers
  import opened CompilerSpec
  import opened ResourceModel
  import opened TextModel
  import opened CompilerResult

  // Content.

  /** A wrapped span is never empty. */
  lemma {:induction false} JoinedNonEmpty(s: seq<Item>)
    requires s != []
    ensures Join(Render(s), " ") != ""
  {
    assert |Render(s)[0]| >= |BlockRef(s[0].block)| > 0;
  }

  /** Flattening runs and then one more run. */
  lemma {:induction false} FlattenSnoc(xss: seq<seq<Item>>, p: seq<Item>)
    ensures Flatten(xss + [p]) == Flatten(xss) + p
  {
    var s := xss + [p];
    assert s[..|s| - 1] == xss;
  }

  /** Runs none of which is empty flatten to nothing only when there are none. */
  lemma {:induction false} FlattenEmpty(xss: seq<seq<Item>>)
    requires forall k :: 0 <= k < |xss| ==> xss[k] != []
    ensures Flatten(xss) == [] <==> xss == []
  {
    if xss != [] {
      assert |Flatten(xss)| >= |xss[|xss| - 1]| > 0;
    }
  }

  /** The entries returned (before the default entry is added) correspond one
      to one with the runs of items that end up in them, and those runs,
      read in order, are exactly the items of all blocks, in increasing
      block order. */
  lemma {:induction false} FlushedAreRuns(blocks: seq<Block>, mapping: map<string, string>)
    ensures Matches(Flushed(blocks, mapping), FinalSegments(blocks))
    ensures Flatten(FinalSegments(blocks)) == AllItems(blocks, |blocks|)
    ensures OrderedBelow(Positions(AllItems(blocks, |blocks|)), |blocks|)
  {
    var n := |blocks|;
    var p := Pending(blocks, n);
    EntriesAreSegments(blocks, mapping, n);
    ItemsConserved(blocks, n);
    AllItemsOrdered(blocks, n);
    if p != [] {
      MatchesSnoc(Entries(blocks, mapping, n), Segments(blocks, n),
                  Entry(FinalHeading(blocks, mapping), Join(Render(p), " ")), p);
      FlattenSnoc(Segments(blocks, n), p);
    } else {
      assert FinalSegments(blocks) == Segments(blocks, n);
      assert Flatten(Segments(blocks, n)) + p == Flatten(Segments(blocks, n));
    }
  }

  /** No flushed entry has empty text: `flush_current_text` only appends for
      a non-empty buffer, and every buffered span carries its markers. */
  lemma {:induction false} FlushedTextsNonEmpty(blocks: seq<Block>, mapping: map<string, string>)
    ensures forall k :: 0 <= k < |Flushed(blocks, mapping)| ==> Flushed(blocks, mapping)[k].text != ""
  {
    FlushedAreRuns(blocks, mapping);
    var f, s := Flushed(blocks, mapping), FinalSegments(blocks);
    forall k | 0 <= k < |f| ensures f[k].text != "" {
      JoinedNonEmpty(s[k]);
    }
  }

  /** Nothing is flushed exactly when no block contributes an item: no
      non-empty text, no caption before the first resource, no resource. */
  lemma {:induction false} FlushedIffItems(blocks: seq<Block>, mapping: map<string, string>)
    ensures Flushed(blocks, mapping) == [] <==> AllItems(blocks, |blocks|) == []
  {
    FlushedAreRuns(blocks, mapping);
    FlattenEmpty(FinalSegments(blocks));
  }

  /** The post-pass: `content` always holds at least one entry, and it is the
      single default entry, empty text under the final section state,
      exactly when no block contributed anything. */
  lemma {:induction false} ContentNeverEmpty(blocks: seq<Block>, mapping: map<string, string>)
    ensures |ExpectedContent(blocks, mapping)| >= 1
    ensures ExpectedContent(blocks, mapping) == [Entry(FinalHeading(blocks, mapping), "")] <==>
      AllItems(blocks, |blocks|) == []
  {
    FlushedIffItems(blocks, mapping);
    FlushedTextsNonEmpty(blocks, mapping);
    var f := Flushed(blocks, mapping);
    if f != [] {
      assert f[0].text != "";
    }
  }

  // Markers.

  /** No block's stripped text contains a `[block:<digits>]` marker. */
  ghost predicate TextsMarkerFree(blocks: seq<Block>) {
    forall i :: 0 <= i < |blocks| ==> NoMarker(Strip(blocks[i].text))
  }

  /** A string with `[` only at its start and not continuing with `b` holds
      no marker. */
  lemma {:induction false} OpeningOnlyNoMarker(t: string)
    requires |t| > 1 && t[1] != 'b'
    requires forall j :: 0 < j < |t| ==> t[j] != '['
    ensures NoMarker(t)
  {
    forall j | 0 <= j <= |t| ensures MarkerFrom(t, j).None? {
      var u := t[j..];
      if |u| >= 9 {
        assert u[..7][0] == t[j] && u[..7][1] == t[j + 1];
        assert BlockPrefix[0] == '[' && BlockPrefix[1] == 'b';
      }
    }
  }

  /** Resource references, `[image:n]` and `[table:n]`, hold no marker. */
  lemma {:induction false} RefNoMarker(t: ContentType, k: nat)
    ensures NoMarker(RefOf(t, k))
  {
    var digits := NatToString(k);
    var r := RefOf(t, k);
    var head := if t == ImageContent then "[image:" else "[table:";
    assert r == head + digits + "]";
    forall j | 0 < j < |r| ensures r[j] != '[' {
      if j < 7 {
        assert r[j] == head[j];
      } else if j < 7 + |digits| {
        assert r[j] == digits[j - 7];
        assert IsDigit(digits[j - 7]);
      }
    }
    OpeningOnlyNoMarker(r);
  }

  /** A block's item is free of markers when its text is. */
  lemma {:induction false} ItemMarkerFree(blocks: seq<Block>, m: nat)
    requires m < |blocks| && NoMarker(Strip(blocks[m].text))
    ensures ItemsMarkerFree(ItemOf(blocks, m))
  {
    match blocks[m].kind
    case Picture => RefNoMarker(ImageContent, CountKind(blocks, m, Picture) + 1);
    case Table => RefNoMarker(TableContent, CountKind(blocks, m, Table) + 1);
    case SectionHeader =>
    case Caption =>
    case Other(_) =>
  }

  lemma {:induction false} MarkerFreeAppend(a: seq<Item>, b: seq<Item>)
    requires ItemsMarkerFree(a) && ItemsMarkerFree(b)
    ensures ItemsMarkerFree(a + b)
  {
    forall j | 0 <= j < |a + b| ensures NoMarker((a + b)[j].text) {
      if j >= |a| {
        assert (a + b)[j] == b[j - |a|];
      }
    }
  }

  /** The items of blocks each free of markers are free of markers. */
  lemma {:induction false} ConcatMarkerFree(c: seq<seq<Item>>, n: nat)
    requires n <= |c| && forall i :: 0 <= i < |c| ==> ItemsMarkerFree(c[i])
    ensures ItemsMarkerFree(TextModel.Concat(c, n))
  {
    if n > 0 {
      ConcatMarkerFree(c, n - 1);
      MarkerFreeAppend(TextModel.Concat(c, n - 1), c[n - 1]);
    }
  }

  /** Every item of the blocks is free of markers when their texts are. */
  lemma {:induction false} AllItemsMarkerFree(blocks: seq<Block>, n: nat)
    requires n <= |blocks| && TextsMarkerFree(blocks)
    ensures ItemsMarkerFree(AllItems(blocks, n))
  {
    var c := Contributions(blocks);
    forall i | 0 <= i < |c| ensures ItemsMarkerFree(c[i]) {
      ItemMarkerFree(blocks, i);
    }
    ConcatMarkerFree(c, n);
  }

  /** Each run is part of the flattened runs. */
  lemma {:induction false} FlattenContains(xss: seq<seq<Item>>, k: nat)
    requires k < |xss|
    ensures forall x :: x in xss[k] ==> x in Flatten(xss)
  {
    var init := xss[..|xss| - 1];
    assert Flatten(xss) == Flatten(init) + xss[|xss| - 1];
    if k < |xss| - 1 {
      FlattenContains(init, k);
      assert init[k] == xss[k];
    }
  }

  /** The viewer's marker split of a returned entry recovers, link by link,
      the blocks its spans came from: two links per span, in block order,
      carrying the spans' own block positions. */
  lemma {:induction false} EntryLinksRoundTrip(blocks: seq<Block>, mapping: map<string, string>, k: nat)
    requires TextsMarkerFree(blocks)
    requires k < |Flushed(blocks, mapping)|
    ensures k < |FinalSegments(blocks)|
    ensures LinkIndices(Split(Flushed(blocks, mapping)[k].text)) == Doubled(Positions(FinalSegments(blocks)[k]))
  {
    FlushedAreRuns(blocks, mapping);
    var s := FinalSegments(blocks);
    AllItemsMarkerFree(blocks, |blocks|);
    FlattenContains(s, k);
    forall j | 0 <= j < |s[k]| ensures NoMarker(s[k][j].text) {
      assert s[k][j] in Flatten(s);
      var all := AllItems(blocks, |blocks|);
      var q :| 0 <= q < |all| && all[q] == s[k][j];
    }
    JoinedLinks(s[k]);
  }

  // Resources.

  /** The resources follow the `Picture` and `Table` blocks one to one, in
      block order. */
  lemma {:induction false} ResourcePerBlock(blocks: seq<Block>)
    ensures var rs, ps := ExpectedResources(blocks, |blocks|), ResourcePositions(blocks, |blocks|);
      && |rs| == |ps|
      && (forall j, l :: 0 <= j < l < |ps| ==> ps[j] < ps[l])
      && (forall p :: 0 <= p < |blocks| ==> (p in ps <==> IsResourceKind(blocks[p].kind)))
  {
    ResourcePositionsComplete(blocks, |blocks|);
  }

  /** The resource of the `k`-th `Picture` or `Table` block: its reference is
      `[image:n]` or `[table:n]` with `n` one more than the blocks of its kind
      before it, its content is the block's stripped text and its content
      type follows the block's kind. */
  lemma {:induction false} ResourceNumbered(blocks: seq<Block>, k: nat)
    requires k < |ExpectedResources(blocks, |blocks|)|
    ensures var r, p := ExpectedResources(blocks, |blocks|)[k], ResourcePositions(blocks, |blocks|)[k];
      && r.contentBlock == p
      && r.content == Strip(blocks[p].text)
      && (blocks[p].kind == Picture ==>
            r.contentType == ImageContent && r.reference == ImageRef(CountKind(blocks, p, Picture) + 1))
      && (blocks[p].kind == Table ==>
            r.contentType == TableContent && r.reference == TableRef(CountKind(blocks, p, Table) + 1))
  {
    var n := |blocks|;
    var p := ResourcePositions(blocks, n)[k];
    var r := Materialize(blocks, p, CaptionOf(CaptionScan(blocks, n, p + 1)));
    assert ExpectedResources(blocks, n)[k] == r;
    assert r.contentBlock == p && r.content == Strip(blocks[p].text);
    assert r.contentType == ContentTypeOf(blocks[p].kind);
    assert r.reference == RefOf(r.contentType, CountKind(blocks, p, blocks[p].kind) + 1);
  }

  /** A scan that finds no caption leaves every caption after `j` behind a
      resource. */
  lemma {:induction false} ScanNotFound(blocks: seq<Block>, n: nat, j: nat)
    requires j <= n <= |blocks| && !CaptionScan(blocks, n, j).Found?
    ensures forall q :: j <= q < n && blocks[q].kind == Caption ==>
      exists q' :: j <= q' < q && IsResourceKind(blocks[q'].kind)
    decreases n - j
  {
    if j < n && ScanAt(blocks[j].kind, j).Exhausted? {
      ScanNotFound(blocks, n, j + 1);
    }
  }

  /** A resource left undescribed has no caption after it before the next
      resource. */
  lemma {:induction false} UncaptionedUntilNext(blocks: seq<Block>, k: nat)
    requires k < |ResourcePositions(blocks, |blocks|)|
    requires !CaptionScan(blocks, |blocks|, ResourcePositions(blocks, |blocks|)[k] + 1).Found?
    ensures var ps := ResourcePositions(blocks, |blocks|);
      forall q :: ps[k] < q < |blocks| && blocks[q].kind == Caption ==> k + 1 < |ps| && ps[k + 1] < q
  {
    var n := |blocks|;
    var ps := ResourcePositions(blocks, n);
    var j := ps[k] + 1;
    ScanNotFound(blocks, n, j);
    ResourcePositionsComplete(blocks, n);
    forall q | ps[k] < q < n && blocks[q].kind == Caption ensures k + 1 < |ps| && ps[k + 1] < q {
      var q' :| j <= q' < q && IsResourceKind(blocks[q'].kind);
      assert q' in ps;
      var l :| 0 <= l < |ps| && ps[l] == q';
      assert k < l;
      assert ps[k + 1] <= ps[l];
    }
  }

  /** A described resource's description is its caption block's stripped
      text between that block's markers: the first `Caption` after the
      resource, with no other `Caption`, `Picture` or `Table` in between. */
  lemma {:induction false} DescriptionIsFirstCaption(blocks: seq<Block>, k: nat)
    requires k < |ExpectedResources(blocks, |blocks|)|
    requires ExpectedResources(blocks, |blocks|)[k].descriptionBlock.Some?
    ensures var r, p := ExpectedResources(blocks, |blocks|)[k], ResourcePositions(blocks, |blocks|)[k];
      var d := r.descriptionBlock.value;
      && p < d < |blocks| && blocks[d].kind == Caption
      && r.description == Wrap(d, Strip(blocks[d].text))
      && (forall q :: p < q < d ==> blocks[q].kind != Caption && !IsResourceKind(blocks[q].kind))
  {
    var n := |blocks|;
    var p := ResourcePositions(blocks, n)[k];
    assert ExpectedResources(blocks, n)[k] == Materialize(blocks, p, CaptionOf(CaptionScan(blocks, n, p + 1)));
    CaptionScanMeaning(blocks, n, p + 1);
  }

  /** An undescribed resource has no `Caption` after it before the next
      resource. */
  lemma {:induction false} UndescribedHasNoCaption(blocks: seq<Block>, k: nat)
    requires k < |ExpectedResources(blocks, |blocks|)|
    requires ExpectedResources(blocks, |blocks|)[k].descriptionBlock.None?
    ensures var r, ps := ExpectedResources(blocks, |blocks|)[k], ResourcePositions(blocks, |blocks|);
      && r.description == ""
      && (forall q :: ps[k] < q < |blocks| && blocks[q].kind == Caption ==> k + 1 < |ps| && ps[k + 1] < q)
  {
    var n := |blocks|;
    var p := ResourcePositions(blocks, n)[k];
    assert ExpectedResources(blocks, n)[k] == Materialize(blocks, p, CaptionOf(CaptionScan(blocks, n, p + 1)));
    UncaptionedUntilNext(blocks, k);
  }

  /** A resource's caption comes before any later resource. */
  lemma {:induction false} CaptionBeforeNextResource(blocks: seq<Block>, k: nat, l: nat)
    requires k < l < |ExpectedResources(blocks, |blocks|)|
    ensures var rs, ps := ExpectedResources(blocks, |blocks|), ResourcePositions(blocks, |blocks|);
      rs[k].descriptionBlock.Some? ==> rs[k].descriptionBlock.value < ps[l]
  {
    var n := |blocks|;
    var rs, ps := ExpectedResources(blocks, n), ResourcePositions(blocks, n);
    if rs[k].descriptionBlock.Some? {
      DescriptionIsFirstCaption(blocks, k);
      ResourcePositionsComplete(blocks, n);
      assert ps[k] < ps[l] && IsResourceKind(blocks[ps[l]].kind);
    }
  }

  /** A caption describes at most one resource. */
  lemma {:induction false} CaptionsDescribeOnce(blocks: seq<Block>, k: nat, l: nat)
    requires k < l < |ExpectedResources(blocks, |blocks|)|
    ensures var rs := ExpectedResources(blocks, |blocks|);
      rs[k].descriptionBlock.Some? ==> rs[k].descriptionBlock != rs[l].descriptionBlock
  {
    var n := |blocks|;
    var rs, ps := ExpectedResources(blocks, n), ResourcePositions(blocks, n);
    CaptionBeforeNextResource(blocks, k, l);
    assert rs[l] == Materialize(blocks, ps[l], CaptionOf(CaptionScan(blocks, n, ps[l] + 1)));
  }

  // Scenario: a picture followed by its caption.

  /** The caption describes the picture's resource, `[image:1]`, between
      block 1's markers. */
  lemma {:induction false} PictureWithCaptionResources()
    ensures ExpectedResources([Block(Picture, "imgdata"), Block(Caption, "Fig 1")], 2)
      == [Resource("[image:1]", "imgdata", ImageContent, Wrap(1, "Fig 1"), 0, Some(1))]
  {
    var blocks := [Block(Picture, "imgdata"), Block(Caption, "Fig 1")];
    assert Strip("imgdata") == "imgdata";
    assert Strip("Fig 1") == "Fig 1";
    assert ResourcePositions(blocks, 2) == [0];
    assert CaptionScan(blocks, 2, 1) == Found(1);
    assert CountKind(blocks, 0, Picture) == 0;
    assert ImageRef(1) == "[image:1]";
    assert ExpectedResources(blocks, 2)[0] == Materialize(blocks, 0, Some(1));
  }

  /** In that document the picture's link waits in the buffer to the end,
      and no header closes a run before it. */
  lemma {:induction false} PictureWithCaptionRuns()
    ensures var blocks := [Block(Picture, "imgdata"), Block(Caption, "Fig 1")];
      && Pending(blocks, 2) == [Item(0, "[image:1]")]
      && Entries(blocks, map[], 2) == []
  {
    var blocks := [Block(Picture, "imgdata"), Block(Caption, "Fig 1")];
    assert CountKind(blocks, 0, Picture) == 0;
    assert ImageRef(1) == "[image:1]";
    assert ResourcePositions(blocks, 1) == [0];
    var c := Contributions(blocks);
    assert c[0] == [Item(0, "[image:1]")] && c[1] == [];
    assert Pending(blocks, 1) == [Item(0, "[image:1]")];
    assert Segments(blocks, 2) == [];
  }

  /** The only entry holds the picture's link between block 0's markers: the
      caption's text does not reach the content. */
  lemma {:induction false} PictureWithCaptionContent()
    ensures ExpectedContent([Block(Picture, "imgdata"), Block(Caption, "Fig 1")], map[])
      == [Entry(InitialHeading, Wrap(0, "[image:1]"))]
  {
    var blocks := [Block(Picture, "imgdata"), Block(Caption, "Fig 1")];
    PictureWithCaptionRuns();
    assert FinalHeading(blocks, map[]) == InitialHeading;
    var x := Wrap(0, "[image:1]");
    assert Render([Item(0, "[image:1]")]) == [x];
    assert Join([x], " ") == x;
    assert Flushed(blocks, map[]) == [Entry(InitialHeading, x)];
  }
}
