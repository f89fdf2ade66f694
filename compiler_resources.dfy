/** What the compiler's `resources` list holds, stated per block rather than
    per step: one resource per `Picture`/`Table` block, numbered among the
    blocks of its kind, and described by the first `Caption` that follows it
    before the next resource. `StepResources` proves each step keeps to it. */
module ResourceModel {
  import opened Strings
  import opened Markers
  import opened CompilerSpec

  predicate IsResourceKind(k: BlockKind) {
    k == Picture || k == Table
  }

  function ContentTypeOf(k: BlockKind): ContentType
    requires IsResourceKind(k)
  {
    if k == Picture then ImageContent else TableContent
  }

  /** The number of blocks of kind `k` among the first `n`. */
  function CountKind(blocks: seq<Block>, n: nat, k: BlockKind): (c: nat)
    requires n <= |blocks|
    ensures c <= n
  {
    if n == 0 then 0
    else CountKind(blocks, n - 1, k) + (if blocks[n - 1].kind == k then 1 else 0)
  }

  /** The positions of the `Picture` and `Table` blocks among the first `n`,
      in increasing order. */
  function ResourcePositions(blocks: seq<Block>, n: nat): (r: seq<nat>)
    requires n <= |blocks|
    ensures forall j :: 0 <= j < |r| ==> r[j] < n && IsResourceKind(blocks[r[j]].kind)
  {
    if n == 0 then []
    else ResourcePositions(blocks, n - 1) + (if IsResourceKind(blocks[n - 1].kind) then [n - 1] else [])
  }

  /** One more block adds its own position when it is a resource. */
  lemma {:induction false} PositionsStep(blocks: seq<Block>, m: nat)
    requires m < |blocks|
    ensures ResourcePositions(blocks, m + 1) ==
      ResourcePositions(blocks, m) + (if IsResourceKind(blocks[m].kind) then [m] else [])
  {
  }

  /** The positions are increasing and miss no resource block. */
  lemma {:induction false} ResourcePositionsComplete(blocks: seq<Block>, n: nat)
    requires n <= |blocks|
    ensures var r := ResourcePositions(blocks, n);
      && (forall j, l :: 0 <= j < l < |r| ==> r[j] < r[l])
      && (forall p :: 0 <= p < n && IsResourceKind(blocks[p].kind) ==> p in r)
  {
    if n > 0 {
      ResourcePositionsComplete(blocks, n - 1);
    }
  }

  /** The outcome of looking for a resource's caption. */
  datatype Scan = Found(at: nat) | Blocked | Exhausted

  /** How one block ends a scan that has not ended yet. */
  function ScanAt(k: BlockKind, i: nat): Scan {
    if IsResourceKind(k) then Blocked
    else if k == Caption then Found(i)
    else Exhausted
  }

  /** A scan over one more block: only a scan that had not ended changes. */
  function ScanNext(s: Scan, k: BlockKind, i: nat): Scan {
    if s.Exhausted? then ScanAt(k, i) else s
  }

  /** Scans blocks `j .. n-1` for the first `Caption` before any further
      `Picture` or `Table`. */
  function CaptionScan(blocks: seq<Block>, n: nat, j: nat): (r: Scan)
    requires j <= n <= |blocks|
    ensures r.Found? ==> j <= r.at < n
    decreases n - j
  {
    if j == n then Exhausted
    else if ScanAt(blocks[j].kind, j).Exhausted? then CaptionScan(blocks, n, j + 1)
    else ScanAt(blocks[j].kind, j)
  }

  /** A scan finds the first caption after `j` that no resource precedes,
      is blocked when a resource comes first, and is exhausted exactly when
      blocks `j .. n-1` hold neither. */
  lemma {:induction false} CaptionScanMeaning(blocks: seq<Block>, n: nat, j: nat)
    requires j <= n <= |blocks|
    ensures var r := CaptionScan(blocks, n, j);
      && (r.Found? ==> j <= r.at < n && blocks[r.at].kind == Caption)
      && (r.Found? ==> Quiet(blocks, j, r.at))
      && (r.Blocked? ==> exists q :: j <= q < n && IsResourceKind(blocks[q].kind) && Quiet(blocks, j, q))
      && (r.Exhausted? <==> Quiet(blocks, j, n))
    decreases n - j
  {
    if j < n {
      CaptionScanMeaning(blocks, n, j + 1);
      var r := CaptionScan(blocks, n, j);
      if IsResourceKind(blocks[j].kind) {
        assert Quiet(blocks, j, j);
      } else if blocks[j].kind != Caption && r.Blocked? {
        var q :| j + 1 <= q < n && IsResourceKind(blocks[q].kind) && Quiet(blocks, j + 1, q);
        assert Quiet(blocks, j, q);
      }
    }
  }

  /** Blocks `j .. q-1` hold neither a `Caption` nor a resource. */
  predicate Quiet(blocks: seq<Block>, j: nat, q: nat)
    requires j <= q <= |blocks|
  {
    forall q' :: j <= q' < q ==> blocks[q'].kind != Caption && !IsResourceKind(blocks[q'].kind)
  }

  /** The caption block a scan settles on, if any. */
  function CaptionOf(s: Scan): Option<nat> {
    if s.Found? then Some(s.at) else None
  }

  /** The blocks a resource is made from: a resource block and possibly a
      caption block. */
  predicate IsResourceKey(blocks: seq<Block>, p: nat, d: Option<nat>) {
    p < |blocks| && IsResourceKind(blocks[p].kind) && (d.Some? ==> d.value < |blocks|)
  }

  /** The resource a `Picture` or `Table` block at `p` stands for, numbered
      among the earlier blocks of its kind and described by the caption
      block `d`, wrapped in that block's markers, when there is one. */
  function Materialize(blocks: seq<Block>, p: nat, d: Option<nat>): Resource
    requires IsResourceKey(blocks, p, d)
  {
    var t := ContentTypeOf(blocks[p].kind);
    var description := if d.Some? then Wrap(d.value, Strip(blocks[d.value].text)) else "";
    Resource(RefOf(t, CountKind(blocks, p, blocks[p].kind) + 1), Strip(blocks[p].text), t, description, p, d)
  }

  /** A resource is undescribed exactly when it has no caption block. */
  lemma {:induction false} MaterializeDescribed(blocks: seq<Block>, p: nat, d: Option<nat>)
    requires IsResourceKey(blocks, p, d)
    ensures Materialize(blocks, p, d).description == "" <==> d.None?
  {
    if d.Some? {
      assert |BlockRef(d.value)| > 0;
    }
  }

  /** The resource the block at `p` stands for once `n` blocks are read. */
  function ExpectedResource(blocks: seq<Block>, n: nat, p: nat): Resource
    requires p < n <= |blocks| && IsResourceKind(blocks[p].kind)
  {
    Materialize(blocks, p, CaptionOf(CaptionScan(blocks, n, p + 1)))
  }

  /** The resources list once `n` blocks are read. */
  function ExpectedResources(blocks: seq<Block>, n: nat): (r: seq<Resource>)
    requires n <= |blocks|
    ensures |r| == |ResourcePositions(blocks, n)|
  {
    var ps := ResourcePositions(blocks, n);
    seq(|ps|, k requires 0 <= k < |ps| => ExpectedResource(blocks, n, ps[k]))
  }

  /** Reading one more block only changes a scan that had not ended yet. */
  lemma {:induction false} ScanExtend(blocks: seq<Block>, n: nat, j: nat)
    requires j <= n < |blocks|
    ensures CaptionScan(blocks, n + 1, j) == ScanNext(CaptionScan(blocks, n, j), blocks[n].kind, n)
    decreases n - j
  {
    if j < n && ScanAt(blocks[j].kind, j).Exhausted? {
      ScanExtend(blocks, n, j + 1);
    }
  }

  /** The counters count the pictures and tables read so far, and the
      back-reference is the last resource, if any. */
  ghost predicate CountersAgree(blocks: seq<Block>, n: nat, st: State)
    requires n <= |blocks|
  {
    var ps := ResourcePositions(blocks, n);
    && st.imageCounter == CountKind(blocks, n, Picture) + 1
    && st.tableCounter == CountKind(blocks, n, Table) + 1
    && st.lastResource == (if ps == [] then None else Some(|ps| - 1))
  }

  /** One resource per resource block, in order, each with the caption block
      its scan found. */
  ghost predicate KeysAgree(blocks: seq<Block>, n: nat, rs: seq<Resource>)
    requires n <= |blocks|
  {
    var ps := ResourcePositions(blocks, n);
    && |rs| == |ps|
    && (forall k :: 0 <= k < |ps| ==>
          rs[k].contentBlock == ps[k] && rs[k].descriptionBlock == CaptionOf(CaptionScan(blocks, n, ps[k] + 1)))
  }

  /** Every resource is the one its blocks make. */
  ghost predicate Materialized(blocks: seq<Block>, rs: seq<Resource>) {
    forall k :: 0 <= k < |rs| ==>
      && IsResourceKey(blocks, rs[k].contentBlock, rs[k].descriptionBlock)
      && rs[k] == Materialize(blocks, rs[k].contentBlock, rs[k].descriptionBlock)
  }

  /** Only the last resource can still take a caption, and nothing has
      blocked its scan. */
  ghost predicate ScansSettled(blocks: seq<Block>, n: nat)
    requires n <= |blocks|
  {
    var ps := ResourcePositions(blocks, n);
    && (forall j :: 0 <= j < |ps| - 1 ==> !CaptionScan(blocks, n, ps[j] + 1).Exhausted?)
    && (ps != [] ==> !CaptionScan(blocks, n, ps[|ps| - 1] + 1).Blocked?)
  }

  /** The part of the compiler's state that concerns resources. */
  ghost predicate ResourcesInvariant(blocks: seq<Block>, n: nat, st: State)
    requires n <= |blocks|
  {
    && CountersAgree(blocks, n, st)
    && KeysAgree(blocks, n, st.resources)
    && Materialized(blocks, st.resources)
    && ScansSettled(blocks, n)
  }

  /** With the keys right and every resource materialized, the resources
      are the expected ones. */
  lemma {:induction false} InvariantGivesExpected(blocks: seq<Block>, n: nat, rs: seq<Resource>)
    requires n <= |blocks| && KeysAgree(blocks, n, rs) && Materialized(blocks, rs)
    ensures rs == ExpectedResources(blocks, n)
  {
    var ps := ResourcePositions(blocks, n);
    forall k | 0 <= k < |ps| ensures rs[k] == ExpectedResource(blocks, n, ps[k]) {
    }
  }

  lemma {:induction false} InitialResources(blocks: seq<Block>)
    ensures ResourcesInvariant(blocks, 0, Initial())
  {
    var st := Initial();
    assert st.resources == [] && st.imageCounter == 1 && st.tableCounter == 1 && st.lastResource == None;
    assert ResourcePositions(blocks, 0) == [];
  }

  /** One block keeps the invariant, whatever its kind. */
  lemma {:induction false} StepResources(blocks: seq<Block>, mapping: map<string, string>, m: nat, st: State)
    requires m < |blocks| && Valid(st) && ResourcesInvariant(blocks, m, st)
    ensures ResourcesInvariant(blocks, m + 1, Step(st, mapping, m, blocks[m]))
  {
    var b := blocks[m];
    var r := Step(st, mapping, m, b);
    if IsResourceKind(b.kind) {
      var t := ContentTypeOf(b.kind);
      assert r == AddResource(st, m, Strip(b.text), t);
      AddFrame(st, m, Strip(b.text), t);
      AddStep(blocks, m, st, r);
    } else if b.kind == Caption && st.lastResource.Some? {
      CaptionStep(blocks, m, st);
    } else {
      PassiveFrame(st, mapping, m, b);
      PassiveStep(blocks, m, st, r);
    }
  }

  /** What a block other than a resource, and other than a caption with a
      resource to describe, leaves alone. */
  lemma {:induction false} PassiveFrame(st: State, mapping: map<string, string>, m: nat, b: Block)
    requires Valid(st) && !IsResourceKind(b.kind)
    requires b.kind == Caption ==> st.lastResource.None?
    ensures var r := Step(st, mapping, m, b);
      && r.resources == st.resources && r.lastResource == st.lastResource
      && r.imageCounter == st.imageCounter && r.tableCounter == st.tableCounter
  {
  }

  /** What `AddResource` changes besides the buffer. */
  lemma {:induction false} AddFrame(st: State, m: nat, text: string, t: ContentType)
    ensures var r := AddResource(st, m, text, t);
      var counter := if t == ImageContent then st.imageCounter else st.tableCounter;
      && r.resources == st.resources + [Resource(RefOf(t, counter), text, t, "", m, None)]
      && r.lastResource == Some(|st.resources|)
      && r.imageCounter == (if t == ImageContent then counter + 1 else st.imageCounter)
      && r.tableCounter == (if t == TableContent then counter + 1 else st.tableCounter)
  {
  }

  /** A block that leaves resources, counters and back-reference alone keeps
      the invariant, provided it is not a resource and, when it is a caption,
      no resource has been read. */
  lemma {:induction false} PassiveStep(blocks: seq<Block>, m: nat, st: State, r: State)
    requires m < |blocks| && ResourcesInvariant(blocks, m, st)
    requires !IsResourceKind(blocks[m].kind)
    requires blocks[m].kind == Caption ==> st.lastResource.None?
    requires r.resources == st.resources && r.lastResource == st.lastResource
    requires r.imageCounter == st.imageCounter && r.tableCounter == st.tableCounter
    ensures ResourcesInvariant(blocks, m + 1, r)
  {
    KeysPassive(blocks, m, st.resources);
    SettledPassive(blocks, m);
    CountersPassive(blocks, m, st, r);
  }

  lemma {:induction false} CountersPassive(blocks: seq<Block>, m: nat, st: State, r: State)
    requires m < |blocks| && CountersAgree(blocks, m, st) && !IsResourceKind(blocks[m].kind)
    requires r.lastResource == st.lastResource
    requires r.imageCounter == st.imageCounter && r.tableCounter == st.tableCounter
    ensures CountersAgree(blocks, m + 1, r)
  {
    PositionsStep(blocks, m);
  }

  lemma {:induction false} KeysPassive(blocks: seq<Block>, m: nat, rs: seq<Resource>)
    requires m < |blocks| && KeysAgree(blocks, m, rs)
    requires !IsResourceKind(blocks[m].kind)
    requires blocks[m].kind == Caption ==> ResourcePositions(blocks, m) == []
    ensures KeysAgree(blocks, m + 1, rs)
  {
    var ps := ResourcePositions(blocks, m);
    PositionsStep(blocks, m);
    forall k | 0 <= k < |ps|
      ensures CaptionScan(blocks, m + 1, ps[k] + 1) == CaptionScan(blocks, m, ps[k] + 1)
    {
      ScanExtend(blocks, m, ps[k] + 1);
    }
  }

  lemma {:induction false} SettledPassive(blocks: seq<Block>, m: nat)
    requires m < |blocks| && ScansSettled(blocks, m)
    requires !IsResourceKind(blocks[m].kind)
    requires blocks[m].kind == Caption ==> ResourcePositions(blocks, m) == []
    ensures ScansSettled(blocks, m + 1)
  {
    var ps := ResourcePositions(blocks, m);
    PositionsStep(blocks, m);
    forall k | 0 <= k < |ps|
      ensures CaptionScan(blocks, m + 1, ps[k] + 1) == CaptionScan(blocks, m, ps[k] + 1)
    {
      ScanExtend(blocks, m, ps[k] + 1);
    }
  }

  /** A `Picture` or `Table` block keeps the invariant. */
  lemma {:induction false} AddStep(blocks: seq<Block>, m: nat, st: State, r: State)
    requires m < |blocks| && ResourcesInvariant(blocks, m, st)
    requires IsResourceKind(blocks[m].kind)
    requires var t := ContentTypeOf(blocks[m].kind);
      var counter := if t == ImageContent then st.imageCounter else st.tableCounter;
      && r.resources == st.resources + [Resource(RefOf(t, counter), Strip(blocks[m].text), t, "", m, None)]
      && r.lastResource == Some(|st.resources|)
      && r.imageCounter == (if t == ImageContent then counter + 1 else st.imageCounter)
      && r.tableCounter == (if t == TableContent then counter + 1 else st.tableCounter)
    ensures ResourcesInvariant(blocks, m + 1, r)
  {
    var t := ContentTypeOf(blocks[m].kind);
    var counter := if t == ImageContent then st.imageCounter else st.tableCounter;
    assert counter == CountKind(blocks, m, blocks[m].kind) + 1;
    var x := Resource(RefOf(t, counter), Strip(blocks[m].text), t, "", m, None);
    assert x == Materialize(blocks, m, None);
    KeysAdd(blocks, m, st.resources, x);
    MaterializedAdd(blocks, st.resources, x);
    SettledAdd(blocks, m);
    CountersAdd(blocks, m, st, r);
  }

  lemma {:induction false} MaterializedAdd(blocks: seq<Block>, rs: seq<Resource>, x: Resource)
    requires Materialized(blocks, rs)
    requires IsResourceKey(blocks, x.contentBlock, x.descriptionBlock)
    requires x == Materialize(blocks, x.contentBlock, x.descriptionBlock)
    ensures Materialized(blocks, rs + [x])
  {
  }

  lemma {:induction false} CountersAdd(blocks: seq<Block>, m: nat, st: State, r: State)
    requires m < |blocks| && CountersAgree(blocks, m, st) && IsResourceKind(blocks[m].kind)
    requires |st.resources| == |ResourcePositions(blocks, m)|
    requires var t := ContentTypeOf(blocks[m].kind);
      var counter := if t == ImageContent then st.imageCounter else st.tableCounter;
      && r.lastResource == Some(|st.resources|)
      && r.imageCounter == (if t == ImageContent then counter + 1 else st.imageCounter)
      && r.tableCounter == (if t == TableContent then counter + 1 else st.tableCounter)
    ensures CountersAgree(blocks, m + 1, r)
  {
    PositionsStep(blocks, m);
  }

  lemma {:induction false} KeysAdd(blocks: seq<Block>, m: nat, rs: seq<Resource>, x: Resource)
    requires m < |blocks| && KeysAgree(blocks, m, rs)
    requires IsResourceKind(blocks[m].kind)
    requires x.contentBlock == m && x.descriptionBlock == None
    ensures KeysAgree(blocks, m + 1, rs + [x])
  {
    var ps := ResourcePositions(blocks, m);
    PositionsStep(blocks, m);
    forall k | 0 <= k < |ps|
      ensures CaptionOf(CaptionScan(blocks, m + 1, ps[k] + 1)) == CaptionOf(CaptionScan(blocks, m, ps[k] + 1))
    {
      ScanExtend(blocks, m, ps[k] + 1);
    }
    assert CaptionScan(blocks, m + 1, m + 1) == Exhausted;
  }

  lemma {:induction false} SettledAdd(blocks: seq<Block>, m: nat)
    requires m < |blocks| && ScansSettled(blocks, m)
    requires IsResourceKind(blocks[m].kind)
    ensures ScansSettled(blocks, m + 1)
  {
    var ps := ResourcePositions(blocks, m);
    PositionsStep(blocks, m);
    forall k | 0 <= k < |ps|
      ensures !CaptionScan(blocks, m + 1, ps[k] + 1).Exhausted?
    {
      ScanExtend(blocks, m, ps[k] + 1);
    }
    assert CaptionScan(blocks, m + 1, m + 1) == Exhausted;
  }

  /** A `Caption` block read after some resource keeps the invariant: it
      describes the last resource when that one is still undescribed. */
  lemma {:induction false} CaptionStep(blocks: seq<Block>, m: nat, st: State)
    requires m < |blocks| && ResourcesInvariant(blocks, m, st)
    requires blocks[m].kind == Caption && st.lastResource.Some?
    ensures ResourcesInvariant(blocks, m + 1, Describe(st, st.lastResource.value, m, Strip(blocks[m].text)))
  {
    var k := st.lastResource.value;
    var text := Strip(blocks[m].text);
    var rs := DescribeIn(st.resources, k, m, text);
    assert k == |st.resources| - 1;
    KeysCaption(blocks, m, st.resources, k);
    MaterializedCaption(blocks, m, st.resources, k);
    SettledCaption(blocks, m);
    CountersCaption(blocks, m, st, st.(resources := rs));
  }

  lemma {:induction false} CountersCaption(blocks: seq<Block>, m: nat, st: State, r: State)
    requires m < |blocks| && CountersAgree(blocks, m, st) && blocks[m].kind == Caption
    requires r.imageCounter == st.imageCounter && r.tableCounter == st.tableCounter
    requires r.lastResource == st.lastResource
    ensures CountersAgree(blocks, m + 1, r)
  {
    PositionsStep(blocks, m);
  }

  /** The caption goes to the last resource exactly when its scan has not
      ended, which is exactly when it is undescribed. */
  lemma {:induction false} KeysCaption(blocks: seq<Block>, m: nat, rs: seq<Resource>, last: nat)
    requires m < |blocks| && KeysAgree(blocks, m, rs) && ScansSettled(blocks, m) && Materialized(blocks, rs)
    requires blocks[m].kind == Caption && last + 1 == |rs|
    ensures KeysAgree(blocks, m + 1, DescribeIn(rs, last, m, Strip(blocks[m].text)))
  {
    var x := rs[last];
    MaterializeDescribed(blocks, x.contentBlock, x.descriptionBlock);
    var r := DescribeIn(rs, last, m, Strip(blocks[m].text));
    KeysCaptionLast(blocks, m, rs, r);
  }

  lemma {:induction false} KeysCaptionLast(blocks: seq<Block>, m: nat, rs: seq<Resource>, r: seq<Resource>)
    requires m < |blocks| && KeysAgree(blocks, m, rs) && ScansSettled(blocks, m)
    requires blocks[m].kind == Caption && rs != [] && |r| == |rs|
    requires forall k :: 0 <= k < |rs| - 1 ==> r[k] == rs[k]
    requires r[|rs| - 1].contentBlock == rs[|rs| - 1].contentBlock
    requires r[|rs| - 1].descriptionBlock ==
      if rs[|rs| - 1].descriptionBlock.None? then Some(m) else rs[|rs| - 1].descriptionBlock
    ensures KeysAgree(blocks, m + 1, r)
  {
    var ps := ResourcePositions(blocks, m);
    PositionsStep(blocks, m);
    forall k | 0 <= k < |ps|
      ensures r[k].contentBlock == ps[k] && r[k].descriptionBlock == CaptionOf(CaptionScan(blocks, m + 1, ps[k] + 1))
    {
      KeyAfterCaption(blocks, m, ps[k] + 1, rs[k].descriptionBlock, r[k].descriptionBlock, k == |ps| - 1);
    }
  }

  /** The caption block of one resource, whose scan starts at `j`, after a
      `Caption` block: the last resource takes it when its scan had not
      ended, and every other scan has ended already. */
  lemma {:induction false} KeyAfterCaption(blocks: seq<Block>, m: nat, j: nat, before: Option<nat>, after: Option<nat>, isLast: bool)
    requires j <= m < |blocks| && blocks[m].kind == Caption
    requires before == CaptionOf(CaptionScan(blocks, m, j))
    requires isLast ==> !CaptionScan(blocks, m, j).Blocked? && after == (if before.None? then Some(m) else before)
    requires !isLast ==> !CaptionScan(blocks, m, j).Exhausted? && after == before
    ensures after == CaptionOf(CaptionScan(blocks, m + 1, j))
  {
    ScanExtend(blocks, m, j);
  }

  /** The described resource is the one its resource block and the caption
      block make. */
  lemma {:induction false} MaterializedCaption(blocks: seq<Block>, m: nat, rs: seq<Resource>, last: nat)
    requires m < |blocks| && Materialized(blocks, rs) && last < |rs|
    ensures Materialized(blocks, DescribeIn(rs, last, m, Strip(blocks[m].text)))
  {
    var x := rs[last];
    if x.description == "" {
      var y := x.(description := Wrap(m, Strip(blocks[m].text)), descriptionBlock := Some(m));
      assert y == Materialize(blocks, x.contentBlock, Some(m));
    }
  }

  lemma {:induction false} SettledCaption(blocks: seq<Block>, m: nat)
    requires m < |blocks| && ScansSettled(blocks, m)
    requires blocks[m].kind == Caption
    ensures ScansSettled(blocks, m + 1)
  {
    var ps := ResourcePositions(blocks, m);
    PositionsStep(blocks, m);
    forall k | 0 <= k < |ps|
      ensures CaptionScan(blocks, m + 1, ps[k] + 1) == ScanNext(CaptionScan(blocks, m, ps[k] + 1), Caption, m)
    {
      ScanExtend(blocks, m, ps[k] + 1);
    }
  }
}
