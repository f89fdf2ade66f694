# pdf-structure-visualizer: the structure compiler and its viewer logic, in Dafny

This project models the core of `visualization.py`, a Dash viewer for
papers. The viewer takes the blocks a PDF segmentation stage produced and
shows the paper as nested sections. Four parts of it are modelled:

- **The structure compiler**, `compile_parsed_content` with its nested
  `flush_current_text`. It makes one pass over the blocks.
  - `Section header` blocks flush the text buffer. Then they either switch
    to a standard section named by the header mapping, or name a subsection.
  - Each `Picture` or `Table` becomes a resource numbered `[image:n]` or
    `[table:n]`, and its link goes into the text flow.
  - A `Caption` describes the last resource, in place.
  - Every other text goes into the buffer between two `[block:i]` markers.
  - A final flush and a default-entry post-pass end the run.
- **The marker split** of `parse_block_links`. It splits compiled text at
  every `[block:<digits>]` and tags each marker piece with its index.
- **The index logic of `build_nested_compiled_structure_html`**: grouping
  entries by section in first-occurrence order, the block index a section
  or subsection title links to, and the block index a resource title links
  to.
- **The page step of `update_page`**: first, previous, next and last page,
  and a jump to a block's page.

`compile_parsed_content` is imperative, and so is its model.
`Compiler.Compile` runs the loop over a `Compiler.Locals` object. That
object's fields are the function's mutable locals, since
`flush_current_text` updates them as `nonlocal`s. There is one method per
branch of the loop body. The back-reference `last_resource` is an index
into `resources`, and the caption's in-place change is an update at that
index.

Each method is proved equal to a per-block step function (`CompilerSpec`).
The loop keeps an invariant that describes the locals by the blocks read so
far (`TextModel`, `ResourceModel`, `CompilerResult`). The returned document
is therefore the one `CompilerResult.Expected` defines from the blocks
alone. `CompilerTheorems` proves what that document promises. `StepRules`
states each branch's rule field by field.

The split, the index parsing and the page step are pure, and are written as
functions. The grouping loop is a method.

A `Caption` whose last resource already has a description is dropped: it
is neither buffered nor stored (`visualization.py:134-139`,
`StepRules.CaptionRule`).

## Model

| member | source | states |
|---|---|---|
| `Compiler.Compile` | visualization.py:28-169 | the document returned is exactly `Expected(blocks, mapping)`: the entries flushed at each header and at the end (or the one default entry), and one resource per `Picture`/`Table` described by its first caption |
| `Compiler.Locals.constructor` | visualization.py:49-64 | the locals start at section `section_1`, subsection `subsection_1`, empty markers, empty buffer and lists, both counters at 1, no last resource |
| `Compiler.Locals.FlushText` | visualization.py:66-78 | the new locals are `Flush` of the old: one entry (the four section fields, the buffer joined by spaces) appended only for a non-empty buffer, and the buffer emptied |
| `Compiler.Locals.EnterSectionHeader` | visualization.py:89-106 | the new locals are `EnterHeader` of the old: flush, then the mapped standard section or the header-named subsection |
| `Compiler.Locals.AddResourceBlock` | visualization.py:109-131 | the new locals are `AddResource` of the old: next reference of its kind, resource appended, back-reference moved, link buffered |
| `Compiler.Locals.DescribeLast` | visualization.py:134-139 | the new locals are `Describe` of the old at the back-referenced index: the description is set in place only if it was empty |
| `Compiler.Locals.BufferBlock` | visualization.py:140-148 | the new locals are `BufferText` of the old: the stripped text wrapped in the block's marker is appended unless empty |
| `Compiler.Locals.Process` | visualization.py:81-148 | one loop iteration leaves the locals at `Step` of the old locals for that block |
| `CompilerSpec.KindOf` | visualization.py:89-134 | the labels `Section header`, `Picture`, `Table` and `Caption` give exactly their own kind, each in both directions, and every other type is kept as `Other` with its name |
| `CompilerSpec.IsStandardSection` | visualization.py:91-92 | a header names a standard section exactly when it is mapped to a value that is not empty and is not one of the sixteen upper/lower-case spellings of "none" |
| `CompilerSpec.LowerIsNone` | visualization.py:92 | `v.lower() == "none"` holds exactly for the four-letter strings spelling n, o, n, e in any mix of cases |
| `CompilerSpec.Step` | visualization.py:81-148 | one block adds a resource exactly when it is a `Picture` or `Table`; only a `Section header` moves the section state or adds to `content`, and it leaves the buffer empty |
| `CompilerSpec.Finish` | visualization.py:153-161 | the post-pass leaves at least one entry: flushed entries are kept as they are, an empty list gets the one default entry (final section state, text ""), and resources are untouched |
| `StepRules.HeaderRule` | visualization.py:89-106 | a mapped header (non-empty, not "none" in any case) sets the lower-cased section with marker `[block:idx]` and resets the subsection to `subsection_1`/""; any other header sets the subsection to its stripped text and `[block:idx]` and keeps the section; the buffer is flushed and the header text is never buffered; resources and counters are unchanged |
| `StepRules.FlushRule` | visualization.py:66-78 | a flush empties the buffer and appends exactly one entry, with the section state and the buffer joined by spaces, iff the buffer was non-empty |
| `StepRules.ContentOnlyAtHeaders` | visualization.py:94-103 | only a `Section header` changes `content` or the section state |
| `StepRules.ResourceRule` | visualization.py:109-131 | a `Picture` gets `[image:c]` from the image counter and a `Table` gets `[table:c]` from the table counter, and only that counter advances; the resource has the stripped text, empty description, `content_block` idx and no description block; the back-reference points at it; `[block:idx]ref[block:idx]` is appended to the buffer |
| `StepRules.CaptionRule` | visualization.py:134-143 | with no resource, a non-empty caption is buffered as text; with an undescribed last resource, exactly that resource's description becomes `[block:idx]text[block:idx]` and its description block idx; with a described one, nothing changes |
| `StepRules.TextRule` | visualization.py:146-148 | any other block appends `[block:idx]text[block:idx]` of its stripped text, and changes nothing when that text is empty |
| `StepRules.ResourcesOnlyGrow` | visualization.py:128-139 | resources are only appended; the one change to an existing resource is a caption filling an empty description; a described resource never changes, so a description is set at most once |
| `CompilerResult.InitialInvariant` | visualization.py:49-64 | the initial locals satisfy the loop invariant for zero blocks |
| `CompilerResult.StepPreserves` | visualization.py:81-148 | one block of any kind keeps the loop invariant: section state, buffer and entries as defined from the blocks read, and the resources list as expected |
| `CompilerResult.FinishGivesExpected` | visualization.py:150-169 | after all blocks, the final flush and the post-pass give the expected document |
| `TextModel.ItemOf` | visualization.py:81-148 | each block puts at most one item in the buffer, at its own position |
| `TextModel.HeadingStep` | visualization.py:89-106 | a step moves the section state exactly as the headers read so far define |
| `TextModel.BufferStep` | visualization.py:109-148 | a step leaves the buffer holding the wrapped items since the last header |
| `TextModel.ContentStep` | visualization.py:66-106 | a step leaves `content` holding one entry per non-empty run closed by a header |
| `TextModel.HeaderFlushes` | visualization.py:94-103 | a header flushes the run before it under the section state in force before the header |
| `TextModel.RunsConserve` | visualization.py:66-78 | runs closed by headers, then the items still waiting, are all items in block order: nothing is lost or repeated |
| `TextModel.EntriesMatchRuns` | visualization.py:69-77 | entries and closed runs correspond one to one, each entry the run wrapped and joined by spaces |
| `TextModel.ItemsConserved` | visualization.py:66-78 | for the blocks, the flushed runs followed by the buffer are all items read |
| `TextModel.AllItemsOrdered` | visualization.py:81-148 | buffered items come in strictly increasing block order |
| `ResourceModel.ResourcePositionsComplete` | visualization.py:109-128 | resource positions are increasing and include every `Picture`/`Table` block |
| `ResourceModel.CaptionScanMeaning` | visualization.py:134-139 | the caption search ends on a `Caption` exactly when one comes before any resource and no caption precedes it; it is blocked only by a resource that comes before any caption; it is exhausted exactly when neither follows |
| `ResourceModel.StepResources` | visualization.py:109-139 | one block keeps the resources invariant: counters, keys and contents of every resource as its blocks define them |
| `ResourceModel.InvariantGivesExpected` | visualization.py:128-139 | a resources list satisfying the invariant is the expected one |
| `CompilerTheorems.FlushedAreRuns` | visualization.py:66-78 | the flushed entries match the runs one to one, the runs read in order are every item of every block, in increasing block order |
| `CompilerTheorems.FlushedTextsNonEmpty` | visualization.py:69-77 | no flushed entry has empty text |
| `CompilerTheorems.FlushedIffItems` | visualization.py:66-78 | nothing is flushed iff no block contributes an item |
| `CompilerTheorems.ContentNeverEmpty` | visualization.py:153-161 | the returned content has at least one entry, and is the single default entry (final section state, "") exactly when no block contributed anything |
| `CompilerTheorems.RefNoMarker` | visualization.py:111-115 | the references `[image:n]` and `[table:n]` hold no `[block:n]` marker |
| `CompilerTheorems.AllItemsMarkerFree` | visualization.py:131-148 | when no block text holds a marker, no buffered item does |
| `CompilerTheorems.EntryLinksRoundTrip` | visualization.py:183-199 | when no block's text holds a `[block:n]` marker, splitting a returned entry's text recovers, in order, two links per buffered span carrying that span's block index |
| `CompilerTheorems.ResourcePerBlock` | visualization.py:109-128 | resources correspond one to one, in block order, to the `Picture` and `Table` blocks |
| `CompilerTheorems.ResourceNumbered` | visualization.py:109-127 | the resource of the k-th resource block has `content_block` its position, its stripped text as content, and `[image:n]`/`[table:n]` with n one more than the earlier blocks of its own kind |
| `CompilerTheorems.DescriptionIsFirstCaption` | visualization.py:134-139 | a described resource's description is `[block:d]text[block:d]` of the first `Caption` after it, with no caption or resource between |
| `CompilerTheorems.UndescribedHasNoCaption` | visualization.py:134-139 | an undescribed resource has empty description and no `Caption` after it before the next resource |
| `CompilerTheorems.CaptionBeforeNextResource` | visualization.py:129-139 | a resource's caption block comes before any later resource |
| `CompilerTheorems.CaptionsDescribeOnce` | visualization.py:135-139 | no caption block describes two resources |
| `CompilerTheorems.PictureWithCaptionResources` | visualization.py:109-139 | a picture then its caption give the one resource `[image:1]` described by the caption between block 1's markers |
| `CompilerTheorems.PictureWithCaptionContent` | visualization.py:151-161 | that document's only entry is the picture's link between block 0's markers; the caption text is not in the content |
| `Markers.FindMarker` | visualization.py:184 | the search returns the first position at or after `from` where `[block:<digits>]` starts, or none when there is none |
| `Markers.Split` | visualization.py:184-198 | `re.split` with one capturing group: an odd number of pieces, plain pieces at the even positions and marker pieces at the odd ones |
| `Markers.MarkerAtBlockRef` | visualization.py:83 | `[block:i]` is read back as a marker carrying `i` |
| `Markers.SplitConcat` | visualization.py:184 | the pieces of the split concatenate to the input |
| `Markers.SplitWellFormed` | visualization.py:184-198 | plain and marker pieces alternate; each marker piece is one `[block:n]` tagged with n; no plain piece holds a marker |
| `Markers.SplitNoMarker` | visualization.py:184 | text without a marker splits into itself alone |
| `Markers.SplitJoined` | visualization.py:184-198 | splitting wrapped items joined by spaces gives, per item, its marker, its text and its marker again |
| `Markers.JoinedLinks` | visualization.py:184-198 | the link indices of that split are each item's block index twice, in order |
| `Strings.StripIsTrimmedInfix` | visualization.py:86 | `strip()` removes exactly a leading and a trailing run of whitespace |
| `Strings.StripIdempotent` | visualization.py:86 | stripping twice is stripping once |
| `Strings.Strip` | visualization.py:86 | the stripped text is no longer than the input and neither starts nor ends with whitespace |
| `Strings.Lower` | visualization.py:92 | same length; no ASCII upper-case letter is left; each upper-case letter becomes its lower-case partner and every other character is kept |
| `Strings.Join` | visualization.py:70 | joining no strings gives ""; the result starts with the first string; with two or more strings it is at least as long as the first string and the separator together |
| `Strings.NatToString` | visualization.py:83 | `str(n)` is a non-empty digit string with no leading zero |
| `Strings.ParseNatToString` | visualization.py:189 | reading back `str(n)` gives n |
| `StructureView.GroupBySection` | visualization.py:205-208 | the loop returns the sections in first-occurrence order and, per section, exactly its entries in order |
| `StructureView.SectionOrder` | visualization.py:205-208 | no more sections than entries, and the first section listed is the first entry's section |
| `StructureView.SectionOrderFirstOccurrence` | visualization.py:205-208 | sections are listed in first-occurrence order: wherever an entry of a later-listed section stands, an entry of every earlier-listed section stands before it |
| `StructureView.SectionOrderListed` | visualization.py:206-208 | every listed section is the section of some entry |
| `StructureView.InSection` | visualization.py:205-208 | a group is no longer than the content, and its latest entry is of its own section; `InSectionMeaning` states the full membership |
| `StructureView.SectionOrderDistinct` | visualization.py:206-208 | each section appears once |
| `StructureView.SectionOrderComplete` | visualization.py:206-208 | every entry's section is listed, and every listed section has an entry |
| `StructureView.InSectionMeaning` | visualization.py:206-208 | a section's group holds every entry of that section and only those |
| `StructureView.InSectionInOrder` | visualization.py:206-208 | a section's group is the in-order subsequence of that section's entries: their positions strictly increase, and every position holding an entry of the section is picked |
| `StructureView.PicksInOrderSnoc` | visualization.py:208 | appending an entry extends its own section's subsequence by that entry and keeps every other one |
| `StructureView.GroupHeadIsFirst` | visualization.py:211 | a group's first entry, whose `section_block` the title uses, is the section's first entry |
| `StructureView.FirstNumber` | visualization.py:217 | the first digit run is absent exactly when the marker has no digit |
| `StructureView.MarkerIndex` | visualization.py:213-220 | a title has no link exactly when its marker is empty or holds no digit |
| `StructureView.MarkerIndexOfRef` | visualization.py:213-220 | a title marker `[block:i]` links to block i, an empty marker to nothing |
| `StructureView.HeadingAfterLinks` | visualization.py:96-105 | the section state's markers only name headers already read |
| `StructureView.TitleLinksHitHeaders` | visualization.py:213-235 | every section or subsection title link for the compiled content jumps to a `Section header` block |
| `StructureView.ParseInt` | visualization.py:270 | `int(s)` succeeds exactly when the stripped string is an optional sign followed by one or more decimal digits, and then gives their value with that sign |
| `StructureView.ParseIntOfIntToString` | visualization.py:446 | `int(str(n)) == n` for every integer n, negative ones included |
| `StructureView.ParseIntDigits` | visualization.py:270 | a string of digits reads as its decimal value |
| `StructureView.ParseIntNegative` | visualization.py:270 | a minus sign before digits reads as the negated value |
| `StructureView.ParseIntIgnoresSpace` | visualization.py:270 | whitespace around the number does not change what `int` reads |
| `StructureView.ResourceLink` | visualization.py:265-272 | no link exactly for an absent, "" or 0 `content_block`; an integer other than 0 links to itself; a non-empty string links to what `int` reads once `[block:` characters and then `]` are stripped from its ends, and to block 0 when `int` fails |
| `StructureView.UnreadableLinkIsBlockZero` | visualization.py:271-272 | the string `figure`, which `int` cannot read, links to block 0 |
| `StructureView.ResourceLinkOfRef` | visualization.py:268-270 | a string `content_block` `[block:i]` links to block i |
| `StructureView.ResourceLinkFixed` | visualization.py:265-272 | every integer `content_block`, 0 included, links to itself; strings as written |
| `StructureView.FirstBlockResourceUnlinked` | visualization.py:265 | a picture at block 0 is compiled with `content_block` 0 and its title gets no link |
| `StructureView.ResourceLinksHitBlocks` | visualization.py:265-272 | with the corrected test, every compiled resource links to its own `Picture`/`Table` block |
| `Navigation.UpdatePage` | visualization.py:419-450 | no update exactly when nothing fired or no paper is selected; otherwise the new page is `NewPage` of the trigger and the label reads `Page <new> of <total>` |
| `Navigation.NewPage` | visualization.py:426-446 | first goes to page 1 and last to the total; previous goes to the page before, or page 1 when there is none; next goes to the page after, or the total when there is none; any other component keeps the current page; from a page of the document, every trigger lands on a page of the document when the recorded block pages do |
| `Navigation.ButtonsMoveOnePage` | visualization.py:431-434 | previous and next move one page, and stop at page 1 and the last page |
| `Navigation.PrevUndoesNext` | visualization.py:431-434 | away from the ends, next then previous (or previous then next) returns to the start page |
| `Navigation.JumpsIdempotent` | visualization.py:429-446 | first, last and a block link, applied twice, land where applying them once does |
| `Navigation.BlockLinkPage` | visualization.py:446 | a block link goes to the block's recorded page, looked up under `str(index)`, or stays put when there is none |

## Left out

- The Dash app layout, accordions, `html.Span` and other components, styles, item ids and callback wiring: presentation only. `parse_block_links` is modelled as the list of pieces it wraps.
- Loading papers and JSON files, reading the port from the environment, PyMuPDF page counts and page rendering (`get_pdf_page_count`, `display_page_content`): file, environment and foreign-library I/O.
- Building `block_pages` in `load_paper` is not part of this model. `update_page` receives it as a map from decimal strings to pages.
- Reading the block index out of Dash's `prop_id` string, and the `in triggered_id` tests on the component id: this depends on Dash's serialisation. `Navigation.Trigger` names the component that fired instead.
- The `print` calls in `update_page`.
- `block_link_format` is fixed to its default `"[block:{}]"`, the only format the viewer uses.
- Regular expressions are not used. The `[block:\d+]` scan is written out, and `\d` means the ASCII digits only, not every Unicode decimal digit.
- `str.lower()` is modelled on ASCII letters only. `str.strip()` uses Python's whitespace set.
- `StructureView.ParseInt` does not accept the underscores between digits that Python's `int` allows.
- `StructureView.ParseInt` does not accept non-ASCII digits either.
- Dictionary entries are typed: a block's type and text are strings, with absent or null text read as "", and the mapping maps strings to strings.
- An entry always has its five keys. The viewer's `.get` defaults for missing keys are therefore not modelled.
- A non-string value in the header mapping is left out.
- CompilerTheorems.EntryLinksRoundTrip: assumes no block's text already holds a `[block:n]` marker. Such a text is buffered as it is, and the split then shows it as an extra link, both in the code and in the model.

## Findings

| source | as written | input that shows it | evidently intended | confidence | as-written member | corrected member |
|---|---|---|---|---|---|---|
| visualization.py:265 | `if content_block:` treats `content_block` 0 like an absent one, so no link is made | blocks `[Picture "Figure 1"]`: the compiler emits the resource with `content_block` 0, and its title gets no link | a resource title links to its block whenever `content_block` is present, block 0 included | medium; not executed | `StructureView.FirstBlockResourceUnlinked` | `StructureView.ResourceLinksHitBlocks` |
