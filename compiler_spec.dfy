/** The structure compiler, one block at a time: the data it
    produces, the step taken for one block, the flush of the text buffer and
    the default-entry post-pass. `Compiler.Compile` takes these steps in a
    loop over mutable locals. */
module CompilerSpec {
  import opened Strings
  import opened Markers

  /** The parser's block "type", classified the way the compiler dispatches on it. */
  datatype BlockKind = SectionHeader | Picture | Table | Caption | Other(name: string)

  /** `block.get("type", "")` compared with the four labels the compiler knows. */
  function KindOf(typeName: string): (k: BlockKind)
    ensures k.Other? <==> typeName !in {"Section header", "Picture", "Table", "Caption"}
    ensures k.Other? ==> k.name == typeName
    ensures k == SectionHeader <==> typeName == "Section header"
    ensures k == Picture <==> typeName == "Picture"
    ensures k == Table <==> typeName == "Table"
    ensures k == Caption <==> typeName == "Caption"
  {
    if typeName == "Section header" then SectionHeader
    else if typeName == "Picture" then Picture
    else if typeName == "Table" then Table
    else if typeName == "Caption" then Caption
    else Other(typeName)
  }

  /** A parsed block: its kind and its text (an absent or null text is ""). */
  datatype Block = Block(kind: BlockKind, text: string)

  datatype ContentType = ImageContent | TableContent

  /** A picture or table lifted out of the text flow. */
  datatype Resource = Resource(
    reference: string,
    content: string,
    contentType: ContentType,
    description: string,
    contentBlock: nat,
    descriptionBlock: Option<nat>)

  /** The section state: the current section and subsection names and the
      markers of the headers that set them ("" when none did). */
  datatype Heading = Heading(
    section: string,
    sectionBlock: string,
    subsection: string,
    subsectionBlock: string)

  /** One flushed run of text with the section state it was flushed under. */
  datatype Entry = Entry(heading: Heading, text: string)

  datatype Document = Document(content: seq<Entry>, resources: seq<Resource>)

  const DefaultSection: string := "section_1"
  const DefaultSubsection: string := "subsection_1"
  const InitialHeading: Heading := Heading(DefaultSection, "", DefaultSubsection, "")

  function ImageRef(k: nat): string {
    "[image:" + NatToString(k) + "]"
  }

  function TableRef(k: nat): string {
    "[table:" + NatToString(k) + "]"
  }

  function RefOf(t: ContentType, k: nat): string {
    match t
    case ImageContent => ImageRef(k)
    case TableContent => TableRef(k)
  }

  /** `mapped and mapped.lower() != "none"` for `mapped = mapping.get(header)`:
      the header names a standard section. */
  predicate IsStandardSection(mapping: map<string, string>, header: string)
    ensures IsStandardSection(mapping, header) <==>
      header in mapping && mapping[header] != "" && !SpellsNone(mapping[header])
  {
    if header in mapping then
      LowerIsNone(mapping[header]);
      mapping[header] != "" && Lower(mapping[header]) != "none"
    else false
  }

  /** "none" in any mix of upper and lower case. */
  predicate SpellsNone(v: string) {
    |v| == 4 && v[0] in {'n', 'N'} && v[1] in {'o', 'O'} && v[2] in {'n', 'N'} && v[3] in {'e', 'E'}
  }

  /** `v.lower() == "none"` holds for exactly the sixteen spellings of "none". */
  lemma {:induction false} LowerIsNone(v: string)
    ensures Lower(v) == "none" <==> SpellsNone(v)
  {
    if |v| == 4 {
      assert Lower(v)[0] == LowerChar(v[0]) && Lower(v)[1] == LowerChar(v[1]);
      assert Lower(v)[2] == LowerChar(v[2]) && Lower(v)[3] == LowerChar(v[3]);
    }
  }

  /** The compiler's locals between two blocks. `lastResource` is the index in
      `resources` of the resource the source keeps a reference to. */
  datatype State = State(
    heading: Heading,
    buffer: seq<string>,
    imageCounter: nat,
    tableCounter: nat,
    lastResource: Option<nat>,
    content: seq<Entry>,
    resources: seq<Resource>)

  predicate Valid(st: State) {
    st.lastResource.Some? ==> st.lastResource.value < |st.resources|
  }

  function Initial(): (st: State)
    ensures Valid(st)
  {
    State(InitialHeading, [], 1, 1, None, [], [])
  }

  /** The entry a flush appends: the four section fields and the buffer
      joined by single spaces. */
  function CurrentEntry(st: State): Entry {
    Entry(st.heading, Join(st.buffer, " "))
  }

  /** `flush_current_text`. */
  function Flush(st: State): (r: State)
    requires Valid(st)
    ensures Valid(r)
  {
    if st.buffer == [] then st
    else st.(content := st.content + [CurrentEntry(st)], buffer := [])
  }

  /** The section state after a `Section header` at `idx` with stripped text
      `text`: the mapped standard section, with the subsection reset, or else
      a subsection named by the header. */
  function EnterHeading(h: Heading, mapping: map<string, string>, idx: nat, text: string): Heading {
    if IsStandardSection(mapping, text) then
      Heading(Lower(mapping[text]), BlockRef(idx), DefaultSubsection, "")
    else
      h.(subsection := text, subsectionBlock := BlockRef(idx))
  }

  /** A `Section header`: flush, then move to the new section state. */
  function EnterHeader(st: State, mapping: map<string, string>, idx: nat, text: string): (r: State)
    requires Valid(st)
    ensures Valid(r)
  {
    Flush(st).(heading := EnterHeading(st.heading, mapping, idx, text))
  }

  /** A `Picture` or `Table` at `idx`: a new numbered resource, its link in
      the buffer and the back-reference moved to it. */
  function AddResource(st: State, idx: nat, text: string, t: ContentType): (r: State)
    ensures Valid(r)
  {
    var counter := if t == ImageContent then st.imageCounter else st.tableCounter;
    var res := Resource(RefOf(t, counter), text, t, "", idx, None);
    var st1 := if t == ImageContent then st.(imageCounter := counter + 1)
               else st.(tableCounter := counter + 1);
    st1.(resources := st.resources + [res],
         lastResource := Some(|st.resources|),
         buffer := st.buffer + [Wrap(idx, res.reference)])
  }

  /** The resources after a `Caption` at `idx` while the back-reference
      points at resource `k`: the resource takes the caption, in place, when
      it has no description yet; otherwise the caption is dropped. */
  function DescribeIn(rs: seq<Resource>, k: nat, idx: nat, text: string): (r: seq<Resource>)
    requires k < |rs|
    ensures |r| == |rs|
  {
    if rs[k].description == "" then
      rs[k := rs[k].(description := Wrap(idx, text), descriptionBlock := Some(idx))]
    else rs
  }

  /** A `Caption` at `idx` while the back-reference points at resource `k`. */
  function Describe(st: State, k: nat, idx: nat, text: string): (r: State)
    requires k < |st.resources|
    ensures |r.resources| == |st.resources|
  {
    st.(resources := DescribeIn(st.resources, k, idx, text))
  }

  /** Text of the block at `idx` goes into the buffer, between two markers,
      unless it is empty. */
  function BufferText(st: State, idx: nat, text: string): State {
    if text != "" then st.(buffer := st.buffer + [Wrap(idx, text)]) else st
  }

  /** Processes the block at position `idx`. */
  function Step(st: State, mapping: map<string, string>, idx: nat, b: Block): (r: State)
    requires Valid(st)
    ensures Valid(r)
    ensures |r.resources| == |st.resources| + (if b.kind == Picture || b.kind == Table then 1 else 0)
    ensures b.kind != SectionHeader ==> r.heading == st.heading && r.content == st.content
    ensures b.kind == SectionHeader ==> r.buffer == []
  {
    var text := Strip(b.text);
    match b.kind
    case SectionHeader => EnterHeader(st, mapping, idx, text)
    case Picture => AddResource(st, idx, text, ImageContent)
    case Table => AddResource(st, idx, text, TableContent)
    case Caption =>
      if st.lastResource.Some? then Describe(st, st.lastResource.value, idx, text)
      else BufferText(st, idx, text)
    case Other(_) => BufferText(st, idx, text)
  }

  /** The arm of `Step` a header takes. */
  lemma {:induction false} StepHeader(st: State, mapping: map<string, string>, idx: nat, b: Block)
    requires Valid(st) && b.kind == SectionHeader
    ensures Step(st, mapping, idx, b) == EnterHeader(st, mapping, idx, Strip(b.text))
  {
  }

  /** The arm of `Step` a `Picture` or `Table` takes. */
  lemma {:induction false} StepResource(st: State, mapping: map<string, string>, idx: nat, b: Block, t: ContentType)
    requires Valid(st)
    requires (b.kind == Picture && t == ImageContent) || (b.kind == Table && t == TableContent)
    ensures Step(st, mapping, idx, b) == AddResource(st, idx, Strip(b.text), t)
  {
  }

  /** The arm of `Step` a `Caption` takes once some resource exists. */
  lemma {:induction false} StepCaption(st: State, mapping: map<string, string>, idx: nat, b: Block)
    requires Valid(st) && b.kind == Caption && st.lastResource.Some?
    ensures Step(st, mapping, idx, b) == Describe(st, st.lastResource.value, idx, Strip(b.text))
  {
  }

  /** The arm of `Step` any other block takes. */
  lemma {:induction false} StepText(st: State, mapping: map<string, string>, idx: nat, b: Block)
    requires Valid(st) && (b.kind.Other? || (b.kind == Caption && st.lastResource.None?))
    ensures Step(st, mapping, idx, b) == BufferText(st, idx, Strip(b.text))
  {
  }

  /** The post-pass: a document without any flushed text still gets one
      entry, with the final section state and empty text. */
  function Finish(st: State): (d: Document)
    ensures |d.content| >= 1 && d.resources == st.resources
    ensures st.content != [] ==> d.content == st.content
    ensures st.content == [] ==> d.content == [Entry(st.heading, "")]
  {
    if st.content == [] then
      Document([Entry(st.heading, "")], st.resources)
    else
      Document(st.content, st.resources)
  }
}
