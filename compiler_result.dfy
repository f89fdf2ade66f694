/** What `compile_parsed_content` returns, defined from the blocks alone:
    the entries the headers flushed, one more for the text still waiting at
    the end, the default entry when there is none, and the expected
    resources. `StepPreserves` is the induction step the compiler's loop
    uses to reach it. */
module CompilerResult {
  import opened Strings
  import opened Markers
  import opened CompilerSpec
  import opened ResourceModel
  import opened TextModel

  /** Everything the compiler's locals satisfy after the first `n` blocks. */
  ghost predicate Invariant(blocks: seq<Block>, mapping: map<string, string>, n: nat, st: State)
    requires n <= |blocks|
  {
    && Valid(st)
    && TextInvariant(blocks, mapping, n, st)
    && ResourcesInvariant(blocks, n, st)
  }

  lemma {:induction false} InitialInvariant(blocks: seq<Block>, mapping: map<string, string>)
    ensures Invariant(blocks, mapping, 0, Initial())
  {
    InitialResources(blocks);
    assert Render([]) == [];
  }

  /** One block, whatever its kind, keeps the invariant. */
  lemma {:induction false} StepPreserves(blocks: seq<Block>, mapping: map<string, string>, m: nat, st: State, r: State)
    requires m < |blocks| && Invariant(blocks, mapping, m, st)
    requires r == Step(st, mapping, m, blocks[m])
    ensures Invariant(blocks, mapping, m + 1, r)
  {
    HeadingStep(blocks, mapping, m, st);
    BufferStep(blocks, mapping, m, st);
    ContentStep(blocks, mapping, m, st);
    StepResources(blocks, mapping, m, st);
  }

  /** The section state once all blocks are read. */
  function FinalHeading(blocks: seq<Block>, mapping: map<string, string>): Heading {
    HeadingAfter(blocks, mapping, |blocks|)
  }

  /** The runs of text that end up in entries: those the headers closed,
      then the one still waiting at the end, unless it is empty. */
  function FinalSegments(blocks: seq<Block>): seq<seq<Item>> {
    var p := Pending(blocks, |blocks|);
    Segments(blocks, |blocks|) + (if p == [] then [] else [p])
  }

  /** The entries the headers flushed, then the one the final flush adds. */
  function Flushed(blocks: seq<Block>, mapping: map<string, string>): seq<Entry> {
    var p := Pending(blocks, |blocks|);
    Entries(blocks, mapping, |blocks|)
      + (if p == [] then [] else [Entry(FinalHeading(blocks, mapping), Join(Render(p), " "))])
  }

  /** The returned `content`: the flushed entries, or the single default
      entry when nothing was flushed. */
  function ExpectedContent(blocks: seq<Block>, mapping: map<string, string>): seq<Entry> {
    var f := Flushed(blocks, mapping);
    if f == [] then [Entry(FinalHeading(blocks, mapping), "")] else f
  }

  /** The returned document. */
  function Expected(blocks: seq<Block>, mapping: map<string, string>): Document {
    Document(ExpectedContent(blocks, mapping), ExpectedResources(blocks, |blocks|))
  }

  /** Once every block is read, the final flush and the post-pass give the
      expected document. */
  lemma {:induction false} FinishGivesExpected(blocks: seq<Block>, mapping: map<string, string>, st: State)
    requires Invariant(blocks, mapping, |blocks|, st)
    ensures Finish(Flush(st)) == Expected(blocks, mapping)
  {
    var n := |blocks|;
    var p := Pending(blocks, n);
    assert |st.buffer| == |p|;
    assert Flush(st).content == Flushed(blocks, mapping);
    InvariantGivesExpected(blocks, n, st.resources);
  }
}
