/** `compile_parsed_content` as the source writes it: one pass over the
    blocks updating the section and subsection locals, the text buffer, the
    two counters, the back-reference to the last resource and the two
    output lists, then a final flush and the default-entry post-pass. The
    locals live in a `Locals` object, since `flush_current_text` updates
    them as `nonlocal`s. */
module Compiler {
  import opened Strings
  import opened Markers
  import opened CompilerSpec
  import opened CompilerResult

  /** The mutable locals of one compilation. */
  class Locals {
    var section: string
    var sectionBlock: string
    var subsection: string
    var subsectionBlock: string
    var buffer: seq<string>
    var imageCounter: nat
    var tableCounter: nat
    var lastResource: Option<nat>
    var content: seq<Entry>
    var resources: seq<Resource>

    /** The locals gathered into one state. */
    function Snapshot(): State
      reads this
    {
      State(Heading(section, sectionBlock, subsection, subsectionBlock), buffer, imageCounter, tableCounter,
            lastResource, content, resources)
    }

    /** The defaults in force before the first standard header. */
    constructor ()
      ensures Snapshot() == Initial()
    {
      section, sectionBlock := DefaultSection, "";
      subsection, subsectionBlock := DefaultSubsection, "";
      buffer := [];
      imageCounter, tableCounter := 1, 1;
      lastResource := None;
      content, resources := [], [];
    }

    /** `flush_current_text`: the buffer, joined by single spaces, becomes an
        entry under the current section state, unless it is empty; either
        way the buffer is left empty. */
    method FlushText()
      requires Valid(Snapshot())
      modifies this
      ensures Snapshot() == Flush(old(Snapshot()))
    {
      if buffer != [] {
        var joined := Join(buffer, " ");
        content := content + [Entry(Heading(section, sectionBlock, subsection, subsectionBlock), joined)];
        buffer := [];
      }
    }

    /** A `Section header`: flush, then a standard section named by the
        mapping, with the subsection reset, or else a subsection named by
        the header's stripped text. */
    method EnterSectionHeader(mapping: map<string, string>, idx: nat, text: string)
      requires Valid(Snapshot())
      modifies this
      ensures Snapshot() == EnterHeader(old(Snapshot()), mapping, idx, text)
    {
      var blockRef := BlockRef(idx);
      FlushText();
      if text in mapping && mapping[text] != "" && Lower(mapping[text]) != "none" {
        section, sectionBlock := Lower(mapping[text]), blockRef;
        subsection, subsectionBlock := DefaultSubsection, "";
      } else {
        subsection, subsectionBlock := text, blockRef;
      }
    }

    /** A `Picture` or `Table`: a new numbered resource, the back-reference
        moved to it and its link buffered. */
    method AddResourceBlock(idx: nat, text: string, contentType: ContentType)
      modifies this
      ensures Snapshot() == AddResource(old(Snapshot()), idx, text, contentType)
    {
      var blockRef := BlockRef(idx);
      var reference: string;
      if contentType == ImageContent {
        reference := "[image:" + NatToString(imageCounter) + "]";
        imageCounter := imageCounter + 1;
      } else {
        reference := "[table:" + NatToString(tableCounter) + "]";
        tableCounter := tableCounter + 1;
      }
      resources := resources + [Resource(reference, text, contentType, "", idx, None)];
      lastResource := Some(|resources| - 1);
      buffer := buffer + [blockRef + reference + blockRef];
    }

    /** A `Caption` once some resource exists: it describes that resource,
        in place, unless the resource already has a description. */
    method DescribeLast(idx: nat, text: string)
      requires Valid(Snapshot()) && lastResource.Some?
      modifies this
      ensures Snapshot() == Describe(old(Snapshot()), old(lastResource.value), idx, text)
    {
      var blockRef := BlockRef(idx);
      var k := lastResource.value;
      if resources[k].description == "" {
        resources := resources[k := resources[k].(description := blockRef + text + blockRef, descriptionBlock := Some(idx))];
      }
    }

    /** Any other text: buffered between two markers, unless it is empty. */
    method BufferBlock(idx: nat, text: string)
      modifies this
      ensures Snapshot() == BufferText(old(Snapshot()), idx, text)
    {
      if text != "" {
        var blockRef := BlockRef(idx);
        buffer := buffer + [blockRef + text + blockRef];
      }
    }

    /** The body of the loop for the block `b` at position `idx`. */
    method Process(mapping: map<string, string>, idx: nat, b: Block)
      requires Valid(Snapshot())
      modifies this
      ensures Snapshot() == Step(old(Snapshot()), mapping, idx, b)
    {
      var text := Strip(b.text);
      if b.kind == SectionHeader {
        StepHeader(Snapshot(), mapping, idx, b);
        EnterSectionHeader(mapping, idx, text);
      } else if b.kind == Picture || b.kind == Table {
        var contentType := if b.kind == Picture then ImageContent else TableContent;
        StepResource(Snapshot(), mapping, idx, b, contentType);
        AddResourceBlock(idx, text, contentType);
      } else if b.kind == Caption {
        if lastResource.Some? {
          StepCaption(Snapshot(), mapping, idx, b);
          DescribeLast(idx, text);
        } else {
          StepText(Snapshot(), mapping, idx, b);
          BufferBlock(idx, text);
        }
      } else {
        StepText(Snapshot(), mapping, idx, b);
        BufferBlock(idx, text);
      }
    }
  }

  /** Compiles the parsed blocks into the content entries and the resources. */
  method Compile(blocks: seq<Block>, mapping: map<string, string>) returns (doc: Document)
    ensures doc == Expected(blocks, mapping)
  {
    var locals := new Locals();
    InitialInvariant(blocks, mapping);
    for idx := 0 to |blocks|
      invariant Invariant(blocks, mapping, idx, locals.Snapshot())
    {
      ghost var before := locals.Snapshot();
      locals.Process(mapping, idx, blocks[idx]);
      StepPreserves(blocks, mapping, idx, before, locals.Snapshot());
    }
    ghost var last := locals.Snapshot();
    locals.FlushText();
    if locals.content == [] {
      locals.content := [Entry(Heading(locals.section, locals.sectionBlock, locals.subsection, locals.subsectionBlock), "")];
    }
    doc := Document(locals.content, locals.resources);
    FinishGivesExpected(blocks, mapping, last);
  }
}
