/** The logic inside `build_nested_compiled_structure_html` that decides what
    the viewer shows and where its links jump: content entries grouped by
    section in the order sections first occur, the block index read from a
    section or subsection marker, and the block index of a resource's link. */
module StructureView {
  import opened Strings
  import opened Markers
  import opened CompilerSpec
  import opened ResourceModel
  import opened TextModel
  import opened CompilerResult
  import opened CompilerTheorems

  // Grouping by section.

  /** The distinct sections of `content`, in the order they first occur. */
  function SectionOrder(content: seq<Entry>): (r: seq<string>)
    ensures |r| <= |content|
    ensures content != [] ==> r != [] && r[0] == content[0].heading.section
  {
    if content == [] then []
    else
      var init := content[..|content| - 1];
      var prev := SectionOrder(init);
      var s := content[|content| - 1].heading.section;
      assert init != [] ==> init[0] == content[0];
      if s in prev then prev else prev + [s]
  }

  /** The entries of `content` in section `s`, in their order. */
  function InSection(content: seq<Entry>, s: string): (r: seq<Entry>)
    ensures |r| <= |content|
    ensures r != [] ==> r[|r| - 1].heading.section == s
  {
    if content == [] then []
    else
      var last := content[|content| - 1];
      InSection(content[..|content| - 1], s) + (if last.heading.section == s then [last] else [])
  }

  /** The `sections_dict` loop: `setdefault(section, []).append(item)` over the
      entries. A Python dict keeps its keys in insertion order, returned here
      as `order`. */
  method GroupBySection(content: seq<Entry>) returns (order: seq<string>, groups: map<string, seq<Entry>>)
    ensures order == SectionOrder(content)
    ensures forall s :: s in groups <==> s in order
    ensures forall s :: s in groups ==> groups[s] == InSection(content, s)
  {
    order, groups := [], map[];
    for i := 0 to |content|
      invariant order == SectionOrder(content[..i])
      invariant forall s :: s in groups <==> s in order
      invariant forall s :: s in groups ==> groups[s] == InSection(content[..i], s)
    {
      var item := content[i];
      PrefixSnoc(content, i);
      SectionOrderSnoc(content[..i], item);
      var section := item.heading.section;
      ghost var before := groups;
      var group := [];
      if section in groups {
        group := groups[section];
      } else {
        UnlistedSectionEmpty(content[..i], section);
        order := order + [section];
      }
      groups := groups[section := group + [item]];
      GroupsSnoc(content[..i], item, before, groups);
    }
    assert content[..|content|] == content;
  }

  lemma PrefixSnoc(c: seq<Entry>, i: nat)
    requires i < |c|
    ensures c[..i + 1] == c[..i] + [c[i]]
  {
  }

  /** Appending an entry to its section's group keeps every group equal to
      its section's entries. */
  lemma {:induction false} GroupsSnoc(c: seq<Entry>, x: Entry, before: map<string, seq<Entry>>,
                                      after: map<string, seq<Entry>>)
    requires forall s :: s in before ==> before[s] == InSection(c, s)
    requires x.heading.section !in before ==> InSection(c, x.heading.section) == []
    requires after == before[x.heading.section := InSection(c, x.heading.section) + [x]]
    ensures forall s :: s in after ==> after[s] == InSection(c + [x], s)
  {
    forall s | s in after ensures after[s] == InSection(c + [x], s) {
      InSectionSnoc(c, x, s);
    }
  }

  lemma {:induction false} SectionOrderSnoc(c: seq<Entry>, x: Entry)
    ensures var o := SectionOrder(c);
      SectionOrder(c + [x]) == if x.heading.section in o then o else o + [x.heading.section]
  {
    assert (c + [x])[..|c|] == c;
  }

  lemma {:induction false} InSectionSnoc(c: seq<Entry>, x: Entry, s: string)
    ensures InSection(c + [x], s) == InSection(c, s) + (if x.heading.section == s then [x] else [])
  {
    assert (c + [x])[..|c|] == c;
  }

  /** A section not listed has no entry. */
  lemma {:induction false} UnlistedSectionEmpty(c: seq<Entry>, s: string)
    requires s !in SectionOrder(c)
    ensures InSection(c, s) == []
  {
    if c != [] {
      var init := c[..|c| - 1];
      assert SectionOrder(init) <= SectionOrder(c);
      UnlistedSectionEmpty(init, s);
    }
  }

  predicate Distinct(xs: seq<string>) {
    forall i, j :: 0 <= i < j < |xs| ==> xs[i] != xs[j]
  }

  lemma {:induction false} DistinctSnoc(xs: seq<string>, x: string)
    requires Distinct(xs) && x !in xs
    ensures Distinct(xs + [x])
  {
    var ys := xs + [x];
    forall i, j | 0 <= i < j < |ys| ensures ys[i] != ys[j] {
      assert ys[i] == xs[i];
      if j < |xs| {
        assert ys[j] == xs[j];
      } else {
        assert ys[j] == x && xs[i] in xs;
      }
    }
  }

  /** Each section appears once. */
  lemma {:induction false} SectionOrderDistinct(content: seq<Entry>)
    ensures Distinct(SectionOrder(content))
  {
    if content != [] {
      var init := content[..|content| - 1];
      SectionOrderDistinct(init);
      var o, x := SectionOrder(init), content[|content| - 1].heading.section;
      if x !in o {
        DistinctSnoc(o, x);
      }
    }
  }

  /** The sections listed are exactly those of the entries, and each has at
      least one entry. */
  lemma {:induction false} SectionOrderComplete(content: seq<Entry>)
    ensures forall k :: 0 <= k < |content| ==> content[k].heading.section in SectionOrder(content)
    ensures forall s :: s in SectionOrder(content) ==> InSection(content, s) != []
  {
    if content != [] {
      var init := content[..|content| - 1];
      SectionOrderComplete(init);
      forall k | 0 <= k < |content| - 1 ensures content[k].heading.section in SectionOrder(content) {
        assert content[k] == init[k];
      }
    }
  }

  /** A section's group holds exactly the entries of that section: every one
      of them, and only those. */
  lemma {:induction false} InSectionMeaning(content: seq<Entry>, s: string)
    ensures forall e :: e in InSection(content, s) ==> e in content && e.heading.section == s
    ensures forall k :: 0 <= k < |content| && content[k].heading.section == s ==> content[k] in InSection(content, s)
  {
    if content != [] {
      var init := content[..|content| - 1];
      InSectionMeaning(init, s);
      forall k | 0 <= k < |content| - 1 && content[k].heading.section == s
        ensures content[k] in InSection(content, s)
      {
        assert content[k] == init[k];
      }
    }
  }

  /** Every listed section is the section of some entry. */
  lemma {:induction false} SectionOrderListed(content: seq<Entry>)
    ensures var o := SectionOrder(content);
      forall i :: 0 <= i < |o| ==> exists k :: 0 <= k < |content| && content[k].heading.section == o[i]
  {
    var o := SectionOrder(content);
    SectionOrderComplete(content);
    forall i | 0 <= i < |o| ensures exists k :: 0 <= k < |content| && content[k].heading.section == o[i] {
      InSectionMeaning(content, o[i]);
      var e := InSection(content, o[i])[0];
      assert e in InSection(content, o[i]);
      var k :| 0 <= k < |content| && content[k] == e;
    }
  }

  /** Some entry before position `k` is of section `s`. */
  predicate OccursBefore(content: seq<Entry>, s: string, k: nat)
    requires k <= |content|
  {
    exists k' :: 0 <= k' < k && content[k'].heading.section == s
  }

  /** Sections are listed in the order they first occur: wherever an entry
      of a later-listed section stands, an entry of every earlier-listed
      section stands before it. */
  lemma {:induction false} SectionOrderFirstOccurrence(content: seq<Entry>)
    ensures var o := SectionOrder(content);
      forall i, j, k :: 0 <= i < j < |o| && 0 <= k < |content| && content[k].heading.section == o[j] ==>
        OccursBefore(content, o[i], k)
  {
    if content != [] {
      var n := |content| - 1;
      var c, x := content[..n], content[n];
      PrefixSnoc(content, n);
      assert content[..n + 1] == content;
      SectionOrderFirstOccurrence(c);
      SectionOrderSnoc(c, x);
      var o, o2 := SectionOrder(c), SectionOrder(content);
      forall i, j, k | 0 <= i < j < |o2| && 0 <= k < |content| && content[k].heading.section == o2[j]
        ensures OccursBefore(content, o2[i], k)
      {
        FirstOccurrenceStep(c, x, o, o2, i, j, k);
      }
    }
  }

  /** One entry appended: the listed order keeps its first-occurrence
      property at position `k`. */
  lemma {:induction false} FirstOccurrenceStep(c: seq<Entry>, x: Entry, o: seq<string>, o2: seq<string>,
                                               i: nat, j: nat, k: nat)
    requires o == SectionOrder(c)
    requires o2 == if x.heading.section in o then o else o + [x.heading.section]
    requires forall i, j, k :: 0 <= i < j < |o| && 0 <= k < |c| && c[k].heading.section == o[j] ==>
      OccursBefore(c, o[i], k)
    requires i < j < |o2| && k <= |c| && (c + [x])[k].heading.section == o2[j]
    ensures OccursBefore(c + [x], o2[i], k)
  {
    var content := c + [x];
    assert o2[i] == o[i];
    if k < |c| {
      assert content[k] == c[k];
      SectionOrderComplete(c);
      assert j < |o|;
      assert o2[j] == o[j];
      OccursBeforeSnoc(c, x, o[i], k);
    } else {
      SectionOrderListed(c);
      var k' :| 0 <= k' < |c| && c[k'].heading.section == o[i];
      assert content[k'] == c[k'];
    }
  }

  lemma OccursBeforeSnoc(c: seq<Entry>, x: Entry, s: string, k: nat)
    requires k <= |c| && OccursBefore(c, s, k)
    ensures OccursBefore(c + [x], s, k)
  {
    var k' :| 0 <= k' < k && c[k'].heading.section == s;
    assert (c + [x])[k'] == c[k'];
  }

  /** The positions of the entries of section `s`, from first to last. */
  function SectionIndices(content: seq<Entry>, s: string): seq<nat> {
    if content == [] then []
    else
      var n := |content| - 1;
      SectionIndices(content[..n], s) + (if content[n].heading.section == s then [n] else [])
  }

  /** `g` picks the entries of section `s` from `content` at the strictly
      increasing positions `ix`, and every such entry is picked. */
  predicate PicksInOrder(content: seq<Entry>, s: string, ix: seq<nat>, g: seq<Entry>) {
    && |g| == |ix|
    && (forall m :: 0 <= m < |ix| ==>
          ix[m] < |content| && g[m] == content[ix[m]] && content[ix[m]].heading.section == s)
    && (forall m1, m2 :: 0 <= m1 < m2 < |ix| ==> ix[m1] < ix[m2])
    && (forall k :: 0 <= k < |content| && content[k].heading.section == s ==> k in ix)
  }

  /** A section's group is the in-order subsequence of its entries: it picks
      the entries at strictly increasing positions, all of section `s`, and
      every position holding an entry of `s` is picked. */
  lemma {:induction false} InSectionInOrder(content: seq<Entry>, s: string)
    ensures PicksInOrder(content, s, SectionIndices(content, s), InSection(content, s))
  {
    if content != [] {
      var n := |content| - 1;
      var c, x := content[..n], content[n];
      PrefixSnoc(content, n);
      assert content[..n + 1] == content;
      InSectionInOrder(c, s);
      PicksInOrderSnoc(c, x, s, SectionIndices(c, s), InSection(c, s));
    }
  }

  lemma {:induction false} PicksInOrderSnoc(c: seq<Entry>, x: Entry, s: string, ix0: seq<nat>, g0: seq<Entry>)
    requires PicksInOrder(c, s, ix0, g0)
    ensures var hit := x.heading.section == s;
      PicksInOrder(c + [x], s, ix0 + (if hit then [|c|] else []), g0 + (if hit then [x] else []))
  {
    var content := c + [x];
    var hit := x.heading.section == s;
    var ix, g := ix0 + (if hit then [|c|] else []), g0 + (if hit then [x] else []);
    forall m | 0 <= m < |ix|
      ensures ix[m] < |content| && g[m] == content[ix[m]] && content[ix[m]].heading.section == s
    {
      if m < |ix0| {
        assert ix[m] == ix0[m] && g[m] == g0[m] && content[ix0[m]] == c[ix0[m]];
      }
    }
    forall m1, m2 | 0 <= m1 < m2 < |ix| ensures ix[m1] < ix[m2] {
      assert ix[m1] == ix0[m1];
      if m2 < |ix0| {
        assert ix[m2] == ix0[m2];
      }
    }
    forall k | 0 <= k < |content| && content[k].heading.section == s ensures k in ix {
      if k < |c| {
        assert content[k] == c[k];
        assert k in ix0;
      }
    }
  }

  /** A group's first entry, the one whose `section_block` the section's title
      uses, is the section's first entry in `content`. */
  lemma {:induction false} GroupHeadIsFirst(content: seq<Entry>, s: string)
    requires InSection(content, s) != []
    ensures exists k :: (0 <= k < |content| && content[k] == InSection(content, s)[0]
      && forall j :: 0 <= j < k ==> content[j].heading.section != s)
  {
    var n := |content| - 1;
    var init, last := content[..n], content[n];
    PrefixSnoc(content, n);
    assert content[..n + 1] == content;
    InSectionSnoc(init, last, s);
    var k: nat;
    if InSection(init, s) != [] {
      GroupHeadIsFirst(init, s);
      k :| 0 <= k < |init| && init[k] == InSection(init, s)[0]
        && forall j :: 0 <= j < k ==> init[j].heading.section != s;
      assert content[k] == init[k];
    } else {
      InSectionMeaning(init, s);
      k := n;
    }
    forall j | 0 <= j < k ensures content[j].heading.section != s {
      assert content[j] == init[j];
    }
    assert content[k] == InSection(content, s)[0];
  }

  // Block indices of section and subsection titles.

  /** `re.findall(r'\d+', b)[0]` read by `int`: the first run of decimal
      digits, or nothing when there is no digit (the `IndexError` the
      source catches). */
  function FirstNumber(s: string): (r: Option<nat>)
    ensures r.None? <==> forall k :: 0 <= k < |s| ==> !IsDigit(s[k])
    decreases |s|
  {
    if s == [] then None
    else if IsDigit(s[0]) then
      var d := DigitRun(s);
      Some(ParseDecimal(s[..d]))
    else
      var r := FirstNumber(s[1..]);
      assert forall k :: 1 <= k < |s| ==> s[k] == s[1..][k - 1];
      r
  }

  /** The link target of a section or subsection title: none for an empty
      marker, else the first number in it. */
  function MarkerIndex(blockField: string): (r: Option<nat>)
    ensures r.None? <==> blockField == "" || forall k :: 0 <= k < |blockField| ==> !IsDigit(blockField[k])
  {
    if blockField == "" then None else FirstNumber(blockField)
  }

  /** Text without digits, then a run of digits, then a non-digit: the run is
      the first number. */
  lemma {:induction false} FirstNumberAfter(p: string, d: string, rest: string)
    requires forall k :: 0 <= k < |p| ==> !IsDigit(p[k])
    requires d != [] && AllDigits(d)
    requires rest != [] && !IsDigit(rest[0])
    ensures FirstNumber(p + d + rest) == Some(ParseDecimal(d))
    decreases |p|
  {
    var s := p + d + rest;
    if p == [] {
      assert s == d + rest;
      DigitRunIs(s, |d|);
      assert s[..|d|] == d;
    } else {
      assert s[1..] == p[1..] + d + rest;
      FirstNumberAfter(p[1..], d, rest);
    }
  }

  /** A title's marker `[block:i]` links to block `i`, and an empty marker to
      nothing. */
  lemma {:induction false} MarkerIndexOfRef(i: nat)
    ensures MarkerIndex(BlockRef(i)) == Some(i)
    ensures MarkerIndex("") == None
  {
    var digits := NatToString(i);
    assert BlockRef(i) == BlockPrefix + digits + "]";
    FirstNumberAfter(BlockPrefix, digits, "]");
    ParseNatToString(i);
  }

  /** The marker's link, if any, jumps to a `Section header` block. */
  predicate LinksToHeader(blocks: seq<Block>, blockField: string) {
    var m := MarkerIndex(blockField);
    m.Some? ==> m.value < |blocks| && blocks[m.value].kind == SectionHeader
  }

  /** Both title links of a section state jump to `Section header` blocks. */
  predicate HeadingLinksToHeaders(blocks: seq<Block>, h: Heading) {
    LinksToHeader(blocks, h.sectionBlock) && LinksToHeader(blocks, h.subsectionBlock)
  }

  /** The section state's markers only ever name headers already read. */
  lemma {:induction false} HeadingAfterLinks(blocks: seq<Block>, mapping: map<string, string>, n: nat)
    requires n <= |blocks|
    ensures HeadingLinksToHeaders(blocks, HeadingAfter(blocks, mapping, n))
  {
    if n == 0 {
      MarkerIndexOfRef(0);
    } else {
      HeadingAfterLinks(blocks, mapping, n - 1);
      if IsHeader(blocks, n - 1) {
        var h := HeadingAfter(blocks, mapping, n - 1);
        EnterHeadingMarkers(h, mapping, n - 1, Strip(blocks[n - 1].text));
        LinksStep(blocks, h, EnterHeading(h, mapping, n - 1, Strip(blocks[n - 1].text)), n - 1);
      }
    }
  }

  /** Markers kept, cleared or set to a header's own reference still link to
      headers. */
  lemma {:induction false} LinksStep(blocks: seq<Block>, h: Heading, r: Heading, idx: nat)
    requires HeadingLinksToHeaders(blocks, h)
    requires idx < |blocks| && blocks[idx].kind == SectionHeader
    requires r.sectionBlock == h.sectionBlock || r.sectionBlock == BlockRef(idx)
    requires r.subsectionBlock == h.subsectionBlock || r.subsectionBlock == BlockRef(idx) || r.subsectionBlock == ""
    ensures HeadingLinksToHeaders(blocks, r)
  {
    MarkerIndexOfRef(idx);
  }

  /** A header's section state keeps each marker, or sets it to the header's
      own `[block:idx]`, or clears the subsection's. */
  lemma {:induction false} EnterHeadingMarkers(h: Heading, mapping: map<string, string>, idx: nat, text: string)
    ensures var r := EnterHeading(h, mapping, idx, text);
      && (r.sectionBlock == h.sectionBlock || r.sectionBlock == BlockRef(idx))
      && (r.subsectionBlock == h.subsectionBlock || r.subsectionBlock == BlockRef(idx) || r.subsectionBlock == "")
  {
  }

  /** Each flushed entry carries the section state in force at some block. */
  lemma {:induction false} EntryHeadings(c: seq<seq<Item>>, h: seq<bool>, hs: seq<Heading>, n: nat)
    requires n <= |c| && |h| == |c| && |hs| == |c|
    ensures forall k :: 0 <= k < |EntriesOf(c, h, hs, n)| ==> EntriesOf(c, h, hs, n)[k].heading in hs[..n]
  {
    if n > 0 {
      EntryHeadings(c, h, hs, n - 1);
      var e, e0 := EntriesOf(c, h, hs, n), EntriesOf(c, h, hs, n - 1);
      assert hs[..n] == hs[..n - 1] + [hs[n - 1]];
      assert e == e0 || e == e0 + [e[|e| - 1]];
      forall k | 0 <= k < |e| ensures e[k].heading in hs[..n] {
        if k < |e0| {
          assert e[k] == e0[k];
          assert e0[k].heading in hs[..n - 1];
        } else {
          assert e[k].heading == hs[n - 1];
        }
      }
    }
  }

  /** Every section state in force at some block has links to headers. */
  lemma {:induction false} HeadingsLink(blocks: seq<Block>, mapping: map<string, string>)
    ensures forall h :: h in Headings(blocks, mapping) ==> HeadingLinksToHeaders(blocks, h)
  {
    var hs := Headings(blocks, mapping);
    forall h | h in hs ensures HeadingLinksToHeaders(blocks, h) {
      var j :| 0 <= j < |hs| && hs[j] == h;
      HeadingAfterLinks(blocks, mapping, j);
    }
  }

  /** Every entry the headers flushed has title links to headers. */
  lemma {:induction false} EntriesLink(blocks: seq<Block>, mapping: map<string, string>)
    ensures forall e :: e in Entries(blocks, mapping, |blocks|) ==> HeadingLinksToHeaders(blocks, e.heading)
  {
    var n := |blocks|;
    var hs := Headings(blocks, mapping);
    var es := EntriesOf(Contributions(blocks), Headers(blocks), hs, n);
    EntryHeadings(Contributions(blocks), Headers(blocks), hs, n);
    HeadingsLink(blocks, mapping);
    assert hs[..n] == hs;
    forall e | e in es ensures HeadingLinksToHeaders(blocks, e.heading) {
      var k :| 0 <= k < |es| && es[k] == e;
      assert e.heading in hs;
    }
  }

  /** An entry of the returned content is one the headers flushed, or else
      carries the final section state. */
  lemma {:induction false} ContentHeadings(blocks: seq<Block>, mapping: map<string, string>)
    ensures forall e :: e in ExpectedContent(blocks, mapping) ==>
      e in Entries(blocks, mapping, |blocks|) || e.heading == FinalHeading(blocks, mapping)
  {
  }

  /** Every title link the viewer builds for the compiled content, section or
      subsection, jumps to a `Section header` block. */
  lemma {:induction false} TitleLinksHitHeaders(blocks: seq<Block>, mapping: map<string, string>)
    ensures forall e :: e in ExpectedContent(blocks, mapping) ==> HeadingLinksToHeaders(blocks, e.heading)
  {
    ContentHeadings(blocks, mapping);
    EntriesLink(blocks, mapping);
    HeadingAfterLinks(blocks, mapping, |blocks|);
  }

  // Resource links.

  /** A resource's `content_block` as the viewer may find it in the JSON: an
      integer, a string, or absent (read as ""). */
  datatype BlockField = IntField(value: int) | StrField(text: string) | NoField

  /** `s.strip(chars)`: removes characters of `chars` from both ends. */
  function StripCharsLeft(s: string, chars: set<char>): string
    decreases |s|
  {
    if |s| > 0 && s[0] in chars then StripCharsLeft(s[1..], chars) else s
  }

  function StripCharsRight(s: string, chars: set<char>): string
    decreases |s|
  {
    if |s| > 0 && s[|s| - 1] in chars then StripCharsRight(s[..|s| - 1], chars) else s
  }

  function StripChars(s: string, chars: set<char>): string {
    StripCharsRight(StripCharsLeft(s, chars), chars)
  }

  /** What `int` accepts once surrounding whitespace is gone: an optional
      sign followed by one or more decimal digits. */
  predicate IsIntLiteral(t: string) {
    if |t| > 0 && (t[0] == '-' || t[0] == '+') then |t| > 1 && AllDigits(t[1..])
    else |t| > 0 && AllDigits(t)
  }

  /** `int(s)` for a string: surrounding whitespace, an optional sign and
      decimal digits; anything else raises (`None`). */
  function ParseInt(s: string): (r: Option<int>)
    ensures r.Some? <==> IsIntLiteral(Strip(s))
    ensures r.Some? ==> var t := Strip(s);
      if t[0] == '-' then r.value == -(ParseDecimal(t[1..]) as int)
      else if t[0] == '+' then r.value == ParseDecimal(t[1..]) as int
      else r.value == ParseDecimal(t) as int
  {
    var t := Strip(s);
    if |t| > 0 && (t[0] == '-' || t[0] == '+') then
      var d := t[1..];
      if d != [] && AllDigits(d) then
        Some(if t[0] == '-' then -(ParseDecimal(d) as int) else ParseDecimal(d) as int)
      else None
    else if t != [] && AllDigits(t) then
      Some(ParseDecimal(t) as int)
    else None
  }

  /** Printing any integer with `str` and reading it back with `int` gives
      the integer. */
  lemma {:induction false} ParseIntOfIntToString(n: int)
    ensures ParseInt(IntToString(n)) == Some(n)
  {
    var t := IntToString(n);
    if n < 0 {
      ParseIntNegative(NatToString(-n));
      ParseNatToString(-n);
    } else {
      ParseIntDigits(t);
      ParseNatToString(n);
    }
  }

  /** `int` ignores whitespace around the number. */
  lemma ParseIntIgnoresSpace(s: string)
    ensures ParseInt(s) == ParseInt(Strip(s))
  {
    StripIdempotent(s);
  }

  /** The characters of `"[block:"`, as `str.strip` reads its argument. */
  const BlockChars: set<char> := {'[', 'b', 'l', 'o', 'c', 'k', ':'}

  /** `str(content_block).strip("[block:").strip("]")`. */
  function LinkText(t: string): string {
    StripChars(StripChars(t, BlockChars), {']'})
  }

  /** The resource title's link target, as written: no link when
      `content_block` is falsy (absent, "" or 0); an integer as it is; a
      string stripped of `[block:` characters and then of `]`, read by
      `int`, or block 0 when that fails. */
  function ResourceLink(f: BlockField): (r: Option<int>)
    ensures r.None? <==> f.NoField? || f == IntField(0) || f == StrField("")
    ensures f.IntField? && f.value != 0 ==> r == Some(f.value)
    ensures f.StrField? && f.text != "" && ParseInt(LinkText(f.text)).Some? ==> r == ParseInt(LinkText(f.text))
    ensures f.StrField? && f.text != "" && ParseInt(LinkText(f.text)).None? ==> r == Some(0)
  {
    match f
    case NoField => None
    case IntField(v) => if v == 0 then None else Some(v)
    case StrField(t) =>
      if t == "" then None
      else
        var parsed := ParseInt(LinkText(t));
        Some(if parsed.Some? then parsed.value else 0)
  }

  /** A string `content_block` that `int` cannot read, such as `"figure"`,
      falls back to block 0. */
  lemma UnreadableLinkIsBlockZero()
    ensures ResourceLink(StrField("figure")) == Some(0)
  {
    var t := "figure";
    assert StripCharsLeft(t, BlockChars) == t;
    assert StripCharsRight(t, BlockChars) == t;
    assert StripCharsLeft(t, {']'}) == t;
    assert StripCharsRight(t, {']'}) == t;
    StripTrimmed(t);
    assert !IsDigit(t[0]);
  }

  /** Stripping leading characters of a set stops at the first other one. */
  lemma {:induction false} StripCharsLeftPrefix(p: string, s: string, chars: set<char>)
    requires forall k :: 0 <= k < |p| ==> p[k] in chars
    requires s != [] && s[0] !in chars
    ensures StripCharsLeft(p + s, chars) == s
    decreases |p|
  {
    if p != [] {
      assert (p + s)[1..] == p[1..] + s;
      StripCharsLeftPrefix(p[1..], s, chars);
    }
  }

  /** A digit string is read back as its value by `int`. */
  lemma {:induction false} ParseIntDigits(d: string)
    requires d != [] && AllDigits(d)
    ensures ParseInt(d) == Some(ParseDecimal(d) as int)
  {
    StripTrimmed(d);
  }

  /** A minus sign before a digit string is read back as the negated value. */
  lemma {:induction false} ParseIntNegative(d: string)
    requires d != [] && AllDigits(d)
    ensures ParseInt("-" + d) == Some(-(ParseDecimal(d) as int))
  {
    var t := "-" + d;
    assert t[1..] == d;
    assert t[|t| - 1] == d[|d| - 1];
    StripTrimmed(t);
    assert IsIntLiteral(t);
  }

  /** A string `content_block` holding the marker `[block:i]` links to
      block `i`. */
  lemma {:induction false} ResourceLinkOfRef(i: nat)
    ensures ResourceLink(StrField(BlockRef(i))) == Some(i)
  {
    var digits := NatToString(i);
    var t := BlockRef(i);
    assert t == BlockPrefix + (digits + "]");
    assert LinkText(t) == StripChars(StripChars(t, BlockChars), {']'});
    StripCharsLeftPrefix(BlockPrefix, digits + "]", BlockChars);
    var u := digits + "]";
    assert StripCharsRight(u, BlockChars) == u;
    assert StripCharsLeft(u, {']'}) == u;
    assert u[..|u| - 1] == digits;
    assert StripCharsRight(digits, {']'}) == digits;
    ParseIntDigits(digits);
    ParseNatToString(i);
  }

  /** The link target with every present `content_block`, block 0
      included, giving a link. */
  function ResourceLinkFixed(f: BlockField): (r: Option<int>)
    ensures r.None? <==> f.NoField? || f == StrField("")
    ensures f.IntField? ==> r == Some(f.value)
    ensures f.StrField? && f.text != "" ==> r == ResourceLink(f)
  {
    match f
    case IntField(v) => Some(v)
    case _ => ResourceLink(f)
  }

  /** As written, the resource of a `Picture` at block 0, the first block of
      a document, gets no link in the viewer. */
  lemma {:induction false} FirstBlockResourceUnlinked()
    ensures var blocks := [Block(Picture, "Figure 1")];
      var rs := ExpectedResources(blocks, 1);
      && |rs| == 1 && rs[0].contentBlock == 0
      && ResourceLink(IntField(rs[0].contentBlock)).None?
  {
    var blocks := [Block(Picture, "Figure 1")];
    assert ResourcePositions(blocks, 1) == [0];
    ResourceNumbered(blocks, 0);
  }

  /** With the corrected test, every resource the compiler emits links to its
      own `Picture` or `Table` block. */
  lemma {:induction false} ResourceLinksHitBlocks(blocks: seq<Block>, k: nat)
    requires k < |ExpectedResources(blocks, |blocks|)|
    ensures var r := ExpectedResources(blocks, |blocks|)[k];
      var link := ResourceLinkFixed(IntField(r.contentBlock));
      && link.Some? && 0 <= link.value < |blocks|
      && IsResourceKind(blocks[link.value].kind)
      && link.value == ResourcePositions(blocks, |blocks|)[k]
  {
    ResourceNumbered(blocks, k);
  }
}
