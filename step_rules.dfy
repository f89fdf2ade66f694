/** The compiler's rules for one block, stated field by field: what a
    `Section header`, a `Picture` or `Table`, a `Caption` and any other block
    do to the section state, the buffer, the counters, the back-reference
    and the two output lists, and what they leave alone. */
module StepRules {
  import opened Strings
  import opened Markers
  import opened CompilerSpec

  /** A header whose stripped text maps to a value other than "" and "none"
      (in any case) moves to that section, lower-cased, marked by the
      header's block reference, with the subsection back at its default;
      any other header names the subsection and keeps the section. The
      buffer is flushed first and the header's text is never buffered. */
  lemma {:induction false} HeaderRule(st: State, mapping: map<string, string>, idx: nat, b: Block)
    requires Valid(st) && b.kind == SectionHeader
    ensures var text, r := Strip(b.text), Step(st, mapping, idx, b);
      && (IsStandardSection(mapping, text) ==>
            r.heading == Heading(Lower(mapping[text]), BlockRef(idx), "subsection_1", ""))
      && (!IsStandardSection(mapping, text) ==>
            r.heading == Heading(st.heading.section, st.heading.sectionBlock, text, BlockRef(idx)))
      && r.buffer == []
      && r.content == Flush(st).content
      && r.resources == st.resources && r.lastResource == st.lastResource
      && r.imageCounter == st.imageCounter && r.tableCounter == st.tableCounter
  {
    StepHeader(st, mapping, idx, b);
  }

  /** A flush appends exactly one entry when the buffer holds something and
      none otherwise; the entry carries the four section fields and the
      buffer joined by single spaces, and the buffer is empty afterwards. */
  lemma {:induction false} FlushRule(st: State)
    requires Valid(st)
    ensures var r := Flush(st);
      && r.buffer == []
      && (st.buffer == [] ==> r.content == st.content)
      && (st.buffer != [] ==> r.content == st.content + [Entry(st.heading, Join(st.buffer, " "))])
      && |r.content| == |st.content| + (if st.buffer == [] then 0 else 1)
      && r.heading == st.heading && r.resources == st.resources
  {
  }

  /** Only a header changes `content`: entries are flushed before a header
      and, once more, after the last block. */
  lemma {:induction false} ContentOnlyAtHeaders(st: State, mapping: map<string, string>, idx: nat, b: Block)
    requires Valid(st)
    ensures Step(st, mapping, idx, b).content != st.content ==> b.kind == SectionHeader
    ensures Step(st, mapping, idx, b).heading != st.heading ==> b.kind == SectionHeader
  {
    if b.kind != SectionHeader {
      match b.kind
      case Picture => StepResource(st, mapping, idx, b, ImageContent);
      case Table => StepResource(st, mapping, idx, b, TableContent);
      case Caption =>
        if st.lastResource.Some? {
          StepCaption(st, mapping, idx, b);
        } else {
          StepText(st, mapping, idx, b);
        }
      case Other(_) => StepText(st, mapping, idx, b);
    }
  }

  /** The `n`-th `Picture` (or `Table`) gets the reference `[image:n]` (or
      `[table:n]`) from its own counter, a resource with its stripped text,
      no description and its own position, the back-reference, and its
      link between two markers in the buffer. */
  lemma {:induction false} ResourceRule(st: State, mapping: map<string, string>, idx: nat, b: Block)
    requires Valid(st) && (b.kind == Picture || b.kind == Table)
    ensures var r, isImage := Step(st, mapping, idx, b), b.kind == Picture;
      var ref := if isImage then "[image:" + NatToString(st.imageCounter) + "]"
                 else "[table:" + NatToString(st.tableCounter) + "]";
      && r.resources == st.resources
           + [Resource(ref, Strip(b.text), if isImage then ImageContent else TableContent, "", idx, None)]
      && r.imageCounter == st.imageCounter + (if isImage then 1 else 0)
      && r.tableCounter == st.tableCounter + (if isImage then 0 else 1)
      && r.lastResource == Some(|st.resources|)
      && r.buffer == st.buffer + [Wrap(idx, ref)]
      && r.heading == st.heading && r.content == st.content
  {
    StepResource(st, mapping, idx, b, if b.kind == Picture then ImageContent else TableContent);
  }

  /** A `Caption` with no resource before it is ordinary text; with one, it
      describes that resource in place when it has no description yet and
      is dropped otherwise. */
  lemma {:induction false} CaptionRule(st: State, mapping: map<string, string>, idx: nat, b: Block)
    requires Valid(st) && b.kind == Caption
    ensures var text, r := Strip(b.text), Step(st, mapping, idx, b);
      && (st.lastResource.None? ==>
            r == st.(buffer := st.buffer + (if text != "" then [Wrap(idx, text)] else [])))
      && (st.lastResource.Some? && st.resources[st.lastResource.value].description == "" ==>
            var k := st.lastResource.value;
            r == st.(resources := st.resources[k := st.resources[k].(
                       description := Wrap(idx, text), descriptionBlock := Some(idx))]))
      && (st.lastResource.Some? && st.resources[st.lastResource.value].description != "" ==> r == st)
  {
    if st.lastResource.Some? {
      StepCaption(st, mapping, idx, b);
    } else {
      StepText(st, mapping, idx, b);
    }
  }

  /** A block other than a header, resource or caption buffers its stripped
      text between two markers of its own position, and changes nothing at
      all when that text is empty. */
  lemma {:induction false} TextRule(st: State, mapping: map<string, string>, idx: nat, b: Block)
    requires Valid(st) && b.kind.Other?
    ensures var text, r := Strip(b.text), Step(st, mapping, idx, b);
      && (text == "" ==> r == st)
      && (text != "" ==> r == st.(buffer := st.buffer + [BlockRef(idx) + text + BlockRef(idx)]))
  {
    StepText(st, mapping, idx, b);
  }

  /** Resources are only appended, and the one in-place change is a caption
      filling an empty description: a described resource never changes
      again, so each description is set at most once. */
  lemma {:induction false} ResourcesOnlyGrow(st: State, mapping: map<string, string>, idx: nat, b: Block, k: nat)
    requires Valid(st) && k < |st.resources|
    ensures var r := Step(st, mapping, idx, b);
      && |st.resources| <= |r.resources|
      && (r.resources[k] != st.resources[k] ==>
            && b.kind == Caption && st.lastResource == Some(k) && st.resources[k].description == ""
            && r.resources[k] == st.resources[k].(description := Wrap(idx, Strip(b.text)), descriptionBlock := Some(idx)))
      && (st.resources[k].description != "" ==> r.resources[k] == st.resources[k])
  {
    match b.kind
    case SectionHeader => StepHeader(st, mapping, idx, b);
    case Picture => StepResource(st, mapping, idx, b, ImageContent);
    case Table => StepResource(st, mapping, idx, b, TableContent);
    case Caption =>
      if st.lastResource.Some? {
        StepCaption(st, mapping, idx, b);
      } else {
        StepText(st, mapping, idx, b);
      }
    case Other(_) => StepText(st, mapping, idx, b);
  }
}
