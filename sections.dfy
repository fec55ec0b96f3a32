/** The layout section builder of ui/backend/block_json.py: the `Section` accumulator, the
    page/block walk of `process_miner_u_json` over already-parsed pages, and the contents
    string of the records built from its sections. */
module Sections {
  import opened Common
  import opened Strings
  import Chunker

  // ---------------------------------------------------------------------------
  // Boxes

  /** A merged box [xmin, ymin, xmax, ymax]. */
  datatype Box = Box(x0: int, y0: int, x1: int, y1: int)

  /** A box `_update_bbox` accepts: a non-empty list of exactly four coordinates
      [x0, y0, x1, y1]. */
  predicate UsableBox(b: seq<int>) {
    |b| == 4
  }

  function ToBox(b: seq<int>): Box
    requires UsableBox(b)
  {
    Box(b[0], b[1], b[2], b[3])
  }

  /** `outer` encloses `inner`: its top-left corner is above and left of `inner`'s, its
      bottom-right corner below and right of it. */
  predicate Encloses(outer: Box, inner: Box) {
    outer.x0 <= inner.x0 && outer.y0 <= inner.y0 && inner.x1 <= outer.x1 && inner.y1 <= outer.y1
  }

  function Min(a: int, b: int): int { if a <= b then a else b }
  function Max(a: int, b: int): int { if a >= b then a else b }

  /** The merged box after `_update_bbox(bbox)`: an unusable box is ignored, the first usable
      one is copied, and later ones widen the merged box to enclose them. The result is the
      smallest box enclosing the old merged box and the new one. */
  function MergeBox(merged: Option<Box>, bbox: seq<int>): (r: Option<Box>)
    ensures !UsableBox(bbox) ==> r == merged
    ensures UsableBox(bbox) && merged.None? ==> r == Some(ToBox(bbox))
    ensures UsableBox(bbox) ==> r.Some? && Encloses(r.value, ToBox(bbox))
    ensures UsableBox(bbox) && merged.Some? ==> Encloses(r.value, merged.value)
    ensures UsableBox(bbox) && merged.Some? ==> forall outer ::
      Encloses(outer, ToBox(bbox)) && Encloses(outer, merged.value) ==> Encloses(outer, r.value)
  {
    if !UsableBox(bbox) then merged
    else
      match merged
      case None => Some(ToBox(bbox))
      case Some(m) => Some(Box(Min(m.x0, bbox[0]), Min(m.y0, bbox[1]), Max(m.x1, bbox[2]), Max(m.y1, bbox[3])))
  }

  lemma EnclosesTrans(a: Box, b: Box, c: Box)
    requires Encloses(a, b) && Encloses(b, c)
    ensures Encloses(a, c)
  {
  }

  // ---------------------------------------------------------------------------
  // Section

  /** One `{"text", "bbox"}` entry of `content_blocks`. */
  datatype Entry = Entry(text: string, bbox: seq<int>)

  /** The texts of the entries, each behind a backslash, as `add_block` accumulates them. */
  function JoinedTexts(entries: seq<Entry>): string {
    if entries == [] then "" else JoinedTexts(entries[..|entries| - 1]) + "\\" + Last(entries).text
  }

  /** The value of a section's fields. */
  datatype SectionView = SectionView(
    title: string,
    pageIdx: int,
    pageSize: seq<int>,
    contentBlocks: seq<Entry>,
    combinedText: string,
    mergedBbox: Option<Box>)

  /** What the fields of a section always satisfy: the combined text is the entries' texts
      each behind a backslash, no entry has an empty text, and the merged box encloses the
      box of every entry that has a usable one. */
  ghost predicate Coherent(v: SectionView) {
    && v.combinedText == JoinedTexts(v.contentBlocks)
    && (forall e :: e in v.contentBlocks ==> e.text != [])
    && (forall e :: e in v.contentBlocks && UsableBox(e.bbox) ==>
          v.mergedBbox.Some? && Encloses(v.mergedBbox.value, ToBox(e.bbox)))
  }

  /** `Section(title, page_idx, page_size)` as a value. */
  function NewSection(title: string, pageIdx: int, pageSize: seq<int>): SectionView {
    SectionView(title, pageIdx, pageSize, [], "", None)
  }

  /** `_update_bbox` as a function of the fields. */
  function UpdateBboxView(v: SectionView, bbox: seq<int>): SectionView {
    v.(mergedBbox := MergeBox(v.mergedBbox, bbox))
  }

  /** `add_block` as a function of the fields. */
  function AddBlockView(v: SectionView, text: string, bbox: seq<int>): SectionView {
    if text == [] then v
    else
      UpdateBboxView(v.(contentBlocks := v.contentBlocks + [Entry(text, bbox)],
                        combinedText := v.combinedText + ("\\" + text)), bbox)
  }

  /** `to_markdown` as a function of the fields. */
  function Markdown(v: SectionView): string {
    "## " + v.title + Strip(v.combinedText) + "\n"
  }

  /** A new section is coherent. */
  lemma NewSectionCoherent(title: string, pageIdx: int, pageSize: seq<int>)
    ensures Coherent(NewSection(title, pageIdx, pageSize))
  {
  }

  /** Merging a box keeps a section coherent, and the merged box only grows. */
  lemma UpdateBboxCoherent(v: SectionView, bbox: seq<int>)
    requires Coherent(v)
    ensures Coherent(UpdateBboxView(v, bbox))
    ensures v.mergedBbox.Some? ==>
      (UpdateBboxView(v, bbox).mergedBbox.Some?
       && Encloses(UpdateBboxView(v, bbox).mergedBbox.value, v.mergedBbox.value))
  {
    var r := UpdateBboxView(v, bbox);
    forall e | e in r.contentBlocks && UsableBox(e.bbox)
      ensures r.mergedBbox.Some? && Encloses(r.mergedBbox.value, ToBox(e.bbox))
    {
      if UsableBox(bbox) {
        EnclosesTrans(r.mergedBbox.value, v.mergedBbox.value, ToBox(e.bbox));
      }
    }
  }

  /** Adding a block keeps a section coherent; a non-empty text adds exactly one entry,
      whose box the merged box then encloses. */
  lemma {:induction false} AddBlockCoherent(v: SectionView, text: string, bbox: seq<int>)
    requires Coherent(v)
    ensures Coherent(AddBlockView(v, text, bbox))
  {
    if text != [] {
      var w := v.(contentBlocks := v.contentBlocks + [Entry(text, bbox)],
                  combinedText := v.combinedText + ("\\" + text));
      var es := w.contentBlocks;
      assert es[..|es| - 1] == v.contentBlocks;
      assert w.combinedText == JoinedTexts(es);
      var r := UpdateBboxView(w, bbox);
      forall e | e in es && UsableBox(e.bbox)
        ensures r.mergedBbox.Some? && Encloses(r.mergedBbox.value, ToBox(e.bbox))
      {
        if e != Entry(text, bbox) {
          assert e in v.contentBlocks;
          EnclosesTrans(r.mergedBbox.value, v.mergedBbox.value, ToBox(e.bbox));
        }
      }
    }
  }

  /** A section: its title, page and page size, the entries added to it, their texts each
      behind a backslash, and the box enclosing every usable box merged into it. */
  class Section {
    var title: string
    var pageIdx: int
    var pageSize: seq<int>
    var contentBlocks: seq<Entry>
    var combinedText: string
    var mergedBbox: Option<Box>

    function View(): SectionView
      reads this
    {
      SectionView(title, pageIdx, pageSize, contentBlocks, combinedText, mergedBbox)
    }

    ghost predicate Valid()
      reads this
    {
      Coherent(View())
    }

    constructor(titleText: string, pageIdx: int, pageSize: seq<int>)
      ensures Valid()
      ensures View() == NewSection(titleText, pageIdx, pageSize)
    {
      this.title := titleText;
      this.pageIdx := pageIdx;
      this.contentBlocks := [];
      this.combinedText := "";
      this.mergedBbox := None;
      this.pageSize := pageSize;
    }

    /** `add_block`: an empty text changes nothing; otherwise one entry is appended, the
        text is appended behind a backslash and the box is merged. */
    method AddBlock(text: string, bbox: seq<int>)
      requires Valid()
      modifies this
      ensures Valid()
      ensures View() == AddBlockView(old(View()), text, bbox)
      ensures text == [] ==> View() == old(View())
      ensures text != [] ==>
        (contentBlocks == old(contentBlocks) + [Entry(text, bbox)]
         && combinedText == old(combinedText) + "\\" + text)
      ensures title == old(title) && pageIdx == old(pageIdx) && pageSize == old(pageSize)
    {
      AddBlockCoherent(View(), text, bbox);
      if text == [] {
        return;
      }
      contentBlocks := contentBlocks + [Entry(text, bbox)];
      combinedText := combinedText + ("\\" + text);
      UpdateBbox(bbox);
    }

    /** `_update_bbox`: the merged box becomes the smallest box enclosing it and `bbox`,
        and nothing else changes. It neither requires nor ensures `Valid()`: `AddBlock`
        calls it after appending the entry and before the box is merged, when the fields
        are momentarily out of step; `UpdateBboxCoherent` states what it preserves. */
    method UpdateBbox(bbox: seq<int>)
      modifies this
      ensures View() == UpdateBboxView(old(View()), bbox)
      ensures mergedBbox == MergeBox(old(mergedBbox), bbox)
      ensures title == old(title) && pageIdx == old(pageIdx) && pageSize == old(pageSize)
      ensures contentBlocks == old(contentBlocks) && combinedText == old(combinedText)
    {
      if bbox == [] || |bbox| != 4 {
        return;
      }
      if mergedBbox.None? {
        mergedBbox := Some(ToBox(bbox));
      } else {
        var m := mergedBbox.value;
        m := m.(x0 := Min(m.x0, bbox[0]));
        m := m.(y0 := Min(m.y0, bbox[1]));
        m := m.(x1 := Max(m.x1, bbox[2]));
        m := m.(y1 := Max(m.y1, bbox[3]));
        mergedBbox := Some(m);
      }
    }

    /** `to_markdown`: a level-two heading with the title, immediately followed by the
        entries' texts, each behind a backslash, with surrounding whitespace removed, and a
        final newline. */
    function ToMarkdown(): (r: string)
      requires Valid()
      reads this
      ensures r == "## " + title + Strip(JoinedTexts(contentBlocks)) + "\n"
    {
      Markdown(View())
    }
  }

  // ---------------------------------------------------------------------------
  // process_miner_u_json

  /** The block types that go into the current section. */
  const ContentKinds: set<string> :=
    {"text", "footer", "table", "header", "figure_caption", "table_caption", "equation", "cate",
     "blank", "sider", "figure"}

  /** A block's content after the rewriting that precedes dispatch: a LaTeX equation is
      stripped and put between "$$" lines, a figure or figure caption becomes a Markdown
      image whose target is the block's image URL. */
  function RewriteContent(b: Block): string {
    var content :=
      if b.kind == "equation" && b.format == Some("latex") then "$$\n" + Strip(b.content) + "\n$$"
      else b.content;
    if b.kind == "figure_caption" || b.kind == "figure" then "![" + content + "](" + b.imgUrl + ")\n"
    else content
  }

  /** The walk's state: the sections emitted so far and the open section, if any. */
  datatype Builder = Builder(done: seq<SectionView>, current: Option<SectionView>)

  /** The emitted sections followed by the open one. */
  function Emitted(st: Builder): seq<SectionView> {
    st.done + if st.current.Some? then [st.current.value] else []
  }

  /** The section a content block of `page` goes into, and the emitted sections before it:
      the open section, or "Preamble" when there is none; and when that section lies on
      another page, it is emitted and "<title> (cont.)" opens on this page. */
  function OpenFor(st: Builder, page: Page): Builder {
    var cur := if st.current.None? then NewSection("Preamble", page.pageNum, page.pageSize) else st.current.value;
    if page.pageNum != cur.pageIdx then
      Builder(st.done + [cur], Some(NewSection(cur.title + " (cont.)", page.pageNum, page.pageSize)))
    else Builder(st.done, Some(cur))
  }

  /** The handling of one block of `page`: a title closes the open section and opens one
      named by its content; a content block goes into the section `OpenFor` gives; any other
      block changes nothing. */
  function BlockStep(st: Builder, page: Page, b: Block): Builder {
    var content := RewriteContent(b);
    if b.kind == "title" then
      Builder(Emitted(st), Some(UpdateBboxView(NewSection(content, page.pageNum, page.pageSize), b.bbox)))
    else if b.kind in ContentKinds then
      var open := OpenFor(st, page);
      Builder(open.done, Some(AddBlockView(open.current.value, content, b.bbox)))
    else st
  }

  /** The state after the blocks of one page. */
  function PageSteps(st: Builder, page: Page, blocks: seq<Block>): Builder {
    if blocks == [] then st else BlockStep(PageSteps(st, page, blocks[..|blocks| - 1]), page, Last(blocks))
  }

  /** The state after all blocks of the pages. */
  function PagesSteps(pages: seq<Page>): Builder {
    if pages == [] then Builder([], None)
    else PageSteps(PagesSteps(pages[..|pages| - 1]), Last(pages), Last(pages).blocks)
  }

  /** The sections `process_miner_u_json` returns for the pages. */
  function BuildSections(pages: seq<Page>): seq<SectionView> {
    Emitted(PagesSteps(pages))
  }

  /** The fields of the sections. */
  function Views(sections: seq<Section>): seq<SectionView>
    reads sections
  {
    if sections == [] then [] else Views(sections[..|sections| - 1]) + [Last(sections).View()]
  }

  function CurrentView(current: Section?): Option<SectionView>
    reads current
  {
    if current == null then None else Some(current.View())
  }

  lemma ViewsSnoc(sections: seq<Section>, s: Section)
    ensures Views(sections + [s]) == Views(sections) + [s.View()]
  {
    assert (sections + [s])[..|sections|] == sections;
  }

  /** The body of the block loop of `process_miner_u_json`. */
  method ProcessBlock(sections: seq<Section>, current: Section?, page: Page, block: Block, ghost st: Builder)
    returns (sections': seq<Section>, current': Section?)
    requires st == Builder(Views(sections), CurrentView(current))
    requires current != null ==> current.Valid() && current !in sections
    requires forall s :: s in sections ==> s.Valid()
    modifies current
    ensures Builder(Views(sections'), CurrentView(current')) == BlockStep(st, page, block)
    ensures current' != null ==> current'.Valid() && current' !in sections'
    ensures forall s :: s in sections' ==> s.Valid()
    ensures current' != null ==> current' == current || fresh(current')
  {
    if block.kind == "title" {
      sections', current' := OpenTitled(sections, current, page, block, st);
    } else if block.kind in ContentKinds {
      sections', current' := FileContent(sections, current, page, block, st);
    } else {
      sections', current' := sections, current;
    }
  }

  /** A title block: the open section is emitted and a section named by the title opens,
      holding the title's box as its merged box. */
  method OpenTitled(sections: seq<Section>, current: Section?, page: Page, block: Block, ghost st: Builder)
    returns (sections': seq<Section>, current': Section)
    requires block.kind == "title"
    requires st == Builder(Views(sections), CurrentView(current))
    requires current != null ==> current.Valid() && current !in sections
    requires forall s :: s in sections ==> s.Valid()
    ensures Builder(Views(sections'), Some(current'.View())) == BlockStep(st, page, block)
    ensures current'.Valid() && current' !in sections' && fresh(current')
    ensures forall s :: s in sections' ==> s.Valid()
    ensures Views(sections') == Emitted(st)
    ensures current'.title == RewriteContent(block) && current'.pageIdx == page.pageNum
    ensures current'.pageSize == page.pageSize
    ensures current'.contentBlocks == [] && current'.combinedText == ""
    ensures current'.mergedBbox == MergeBox(None, block.bbox)
  {
    sections' := sections;
    if current != null {
      ViewsSnoc(sections', current);
      sections' := sections' + [current];
    }
    var content := RewriteContent(block);
    current' := new Section(content, page.pageNum, page.pageSize);
    NewSectionCoherent(content, page.pageNum, page.pageSize);
    UpdateBboxCoherent(current'.View(), block.bbox);
    current'.UpdateBbox(block.bbox);
  }

  /** A content block: it goes into the section `SectionForPage` opens or keeps. */
  method FileContent(sections: seq<Section>, current: Section?, page: Page, block: Block, ghost st: Builder)
    returns (sections': seq<Section>, current': Section)
    requires block.kind != "title" && block.kind in ContentKinds
    requires st == Builder(Views(sections), CurrentView(current))
    requires current != null ==> current.Valid() && current !in sections
    requires forall s :: s in sections ==> s.Valid()
    modifies current
    ensures Builder(Views(sections'), Some(current'.View())) == BlockStep(st, page, block)
    ensures current'.Valid() && current' !in sections' && (current' == current || fresh(current'))
    ensures forall s :: s in sections' ==> s.Valid()
  {
    sections', current' := SectionForPage(sections, current, page, st);
    current'.AddBlock(RewriteContent(block), block.bbox);
  }

  /** The section a content block goes into: a "Preamble" when none is open, and a
      "<title> (cont.)" after emitting the open one when that lies on another page. */
  method SectionForPage(sections: seq<Section>, current: Section?, page: Page, ghost st: Builder)
    returns (sections': seq<Section>, current': Section)
    requires st == Builder(Views(sections), CurrentView(current))
    requires current != null ==> current.Valid() && current !in sections
    requires forall s :: s in sections ==> s.Valid()
    ensures Builder(Views(sections'), Some(current'.View())) == OpenFor(st, page)
    ensures current'.Valid() && current' !in sections' && (current' == current || fresh(current'))
    ensures forall s :: s in sections' ==> s.Valid()
    ensures current'.pageIdx == page.pageNum
    ensures current == null ==> sections' == sections && current'.View() == NewSection("Preamble", page.pageNum, page.pageSize)
    ensures current != null && current.pageIdx == page.pageNum ==> sections' == sections && current' == current
    ensures current != null && current.pageIdx != page.pageNum ==>
      sections' == sections + [current]
      && current'.View() == NewSection(current.title + " (cont.)", page.pageNum, page.pageSize)
  {
    sections' := sections;
    if current == null {
      current' := new Section("Preamble", page.pageNum, page.pageSize);
    } else {
      current' := current;
    }
    if page.pageNum != current'.pageIdx {
      ViewsSnoc(sections', current');
      sections' := sections' + [current'];
      current' := new Section(current'.title + " (cont.)", page.pageNum, page.pageSize);
    }
  }

  lemma PageStepsStep(st: Builder, page: Page, blocks: seq<Block>, j: int)
    requires 0 <= j < |blocks|
    ensures PageSteps(st, page, blocks[..j + 1]) == BlockStep(PageSteps(st, page, blocks[..j]), page, blocks[j])
  {
    PrefixStep(blocks, j);
  }

  lemma PagesStepsStep(pages: seq<Page>, i: int)
    requires 0 <= i < |pages|
    ensures PagesSteps(pages[..i + 1]) == PageSteps(PagesSteps(pages[..i]), pages[i], pages[i].blocks)
  {
    PrefixStep(pages, i);
  }

  /** `process_miner_u_json` on already-parsed pages: the sections, in the order they were
      opened, are those of `BuildSections`. */
  method ProcessMinerUJson(pages: seq<Page>) returns (sections: seq<Section>)
    ensures Views(sections) == BuildSections(pages)
    ensures forall s :: s in sections ==> s.Valid()
  {
    sections := [];
    var current: Section? := null;
    for i := 0 to |pages|
      invariant Builder(Views(sections), CurrentView(current)) == PagesSteps(pages[..i])
      invariant current != null ==> current.Valid() && current !in sections && fresh(current)
      invariant forall s :: s in sections ==> s.Valid()
    {
      var page := pages[i];
      ghost var before := PagesSteps(pages[..i]);
      for j := 0 to |page.blocks|
        invariant Builder(Views(sections), CurrentView(current)) == PageSteps(before, page, page.blocks[..j])
        invariant current != null ==> current.Valid() && current !in sections && fresh(current)
        invariant forall s :: s in sections ==> s.Valid()
      {
        PageStepsStep(before, page, page.blocks, j);
        sections, current := ProcessBlock(sections, current, page, page.blocks[j], Builder(Views(sections), CurrentView(current)));
      }
      assert page.blocks[..|page.blocks|] == page.blocks;
      PagesStepsStep(pages, i);
    }
    assert pages[..|pages|] == pages;
    if current != null {
      ViewsSnoc(sections, current);
      sections := sections + [current];
    }
  }

  // ---------------------------------------------------------------------------
  // Properties of the walk

  /** Every section of the state, emitted or open, is coherent. */
  ghost predicate AllCoherent(st: Builder) {
    && (forall v :: v in st.done ==> Coherent(v))
    && (st.current.Some? ==> Coherent(st.current.value))
  }

  lemma BlockStepCoherent(st: Builder, page: Page, b: Block)
    requires AllCoherent(st)
    ensures AllCoherent(BlockStep(st, page, b))
  {
    var content := RewriteContent(b);
    if b.kind == "title" {
      NewSectionCoherent(content, page.pageNum, page.pageSize);
      UpdateBboxCoherent(NewSection(content, page.pageNum, page.pageSize), b.bbox);
    } else if b.kind in ContentKinds {
      var cur := if st.current.None? then NewSection("Preamble", page.pageNum, page.pageSize) else st.current.value;
      NewSectionCoherent("Preamble", page.pageNum, page.pageSize);
      NewSectionCoherent(cur.title + " (cont.)", page.pageNum, page.pageSize);
      AddBlockCoherent(cur, content, b.bbox);
      AddBlockCoherent(NewSection(cur.title + " (cont.)", page.pageNum, page.pageSize), content, b.bbox);
    }
  }

  lemma {:induction false} PageStepsCoherent(st: Builder, page: Page, blocks: seq<Block>)
    requires AllCoherent(st)
    ensures AllCoherent(PageSteps(st, page, blocks))
  {
    if blocks != [] {
      PageStepsCoherent(st, page, blocks[..|blocks| - 1]);
      BlockStepCoherent(PageSteps(st, page, blocks[..|blocks| - 1]), page, Last(blocks));
    }
  }

  lemma {:induction false} PagesStepsCoherent(pages: seq<Page>)
    ensures AllCoherent(PagesSteps(pages))
  {
    if pages != [] {
      PagesStepsCoherent(pages[..|pages| - 1]);
      PageStepsCoherent(PagesSteps(pages[..|pages| - 1]), Last(pages), Last(pages).blocks);
    }
  }

  /** Every section `process_miner_u_json` returns is coherent: its combined text is its
      entries' texts each behind a backslash, and its merged box encloses the box of every
      entry with a usable box. */
  lemma BuildSectionsCoherent(pages: seq<Page>)
    ensures forall v :: v in BuildSections(pages) ==> Coherent(v)
  {
    PagesStepsCoherent(pages);
  }

  /** A block that `process_miner_u_json` does not ignore. */
  predicate Dispatched(b: Block) {
    b.kind == "title" || b.kind in ContentKinds
  }

  /** An ignored block leaves the state as it is; a dispatched one leaves a section open;
      an open section stays open; the emitted sections only grow, by the open section. */
  lemma BlockStepShape(st: Builder, page: Page, b: Block)
    ensures !Dispatched(b) ==> BlockStep(st, page, b) == st
    ensures Dispatched(b) || st.current.Some? ==> BlockStep(st, page, b).current.Some?
    ensures BlockStep(st, page, b).done == st.done
      || (st.current.Some? && BlockStep(st, page, b).done == st.done + [st.current.value])
  {
  }

  lemma {:induction false} PageStepsIdle(st: Builder, page: Page, blocks: seq<Block>)
    requires forall b :: b in blocks ==> !Dispatched(b)
    ensures PageSteps(st, page, blocks) == st
  {
    if blocks != [] {
      PageStepsIdle(st, page, blocks[..|blocks| - 1]);
      BlockStepShape(st, page, Last(blocks));
    }
  }

  lemma {:induction false} PageStepsOpen(st: Builder, page: Page, blocks: seq<Block>)
    requires st.current.Some? || exists b :: b in blocks && Dispatched(b)
    ensures PageSteps(st, page, blocks).current.Some?
  {
    if blocks != [] {
      var init := blocks[..|blocks| - 1];
      if st.current.Some? || exists b :: b in init && Dispatched(b) {
        PageStepsOpen(st, page, init);
      }
      BlockStepShape(PageSteps(st, page, init), page, Last(blocks));
    }
  }

  lemma {:induction false} PagesStepsOpen(pages: seq<Page>)
    requires exists p, b :: p in pages && b in p.blocks && Dispatched(b)
    ensures PagesSteps(pages).current.Some?
  {
    var init := pages[..|pages| - 1];
    var p, b :| p in pages && b in p.blocks && Dispatched(b);
    if p in init {
      PagesStepsOpen(init);
    } else {
      assert p == Last(pages);
    }
    PageStepsOpen(PagesSteps(init), Last(pages), Last(pages).blocks);
  }

  /** `process_miner_u_json` returns no section exactly when no page holds a block it
      dispatches: no title and no block of a content type. */
  lemma {:induction false} BuildSectionsEmpty(pages: seq<Page>)
    ensures BuildSections(pages) == [] <==> forall p, b :: p in pages && b in p.blocks ==> !Dispatched(b)
  {
    if forall p, b :: p in pages && b in p.blocks ==> !Dispatched(b) {
      if pages != [] {
        var init := pages[..|pages| - 1];
        assert forall p, b :: p in init && b in p.blocks ==> !Dispatched(b);
        BuildSectionsEmpty(init);
        PageStepsIdle(PagesSteps(init), Last(pages), Last(pages).blocks);
      }
    } else {
      PagesStepsOpen(pages);
    }
  }

  /** `b` is a block of a page numbered `idx`. */
  ghost predicate OnPage(pages: seq<Page>, idx: int, b: Block) {
    exists p :: p in pages && p.pageNum == idx && b in p.blocks
  }

  /** Coordinate `k` of some usable box of a block on page `idx` is `value`. */
  ghost predicate CornerFrom(pages: seq<Page>, idx: int, k: int, value: int) {
    exists b :: OnPage(pages, idx, b) && UsableBox(b.bbox) && 0 <= k < 4 && b.bbox[k] == value
  }

  /** Everything in a section comes from its own page: each entry is the rewritten content
      and the box of a content block of that page, and each coordinate of the merged box is
      the coordinate of a usable box of a block of that page. */
  ghost predicate FromItsPage(pages: seq<Page>, v: SectionView) {
    && (forall e :: e in v.contentBlocks ==>
          exists b :: OnPage(pages, v.pageIdx, b) && b.kind in ContentKinds && e == Entry(RewriteContent(b), b.bbox))
    && (v.mergedBbox.Some? ==>
          && CornerFrom(pages, v.pageIdx, 0, v.mergedBbox.value.x0)
          && CornerFrom(pages, v.pageIdx, 1, v.mergedBbox.value.y0)
          && CornerFrom(pages, v.pageIdx, 2, v.mergedBbox.value.x1)
          && CornerFrom(pages, v.pageIdx, 3, v.mergedBbox.value.y1))
  }

  ghost predicate AllFrom(pages: seq<Page>, st: Builder) {
    && (forall v :: v in st.done ==> FromItsPage(pages, v))
    && (st.current.Some? ==> FromItsPage(pages, st.current.value))
  }

  /** Merging the box of a block of the section's page keeps everything from that page. */
  lemma MergeFrom(pages: seq<Page>, v: SectionView, b: Block)
    requires FromItsPage(pages, v) && OnPage(pages, v.pageIdx, b)
    ensures FromItsPage(pages, UpdateBboxView(v, b.bbox))
  {
    if UsableBox(b.bbox) {
      var r := MergeBox(v.mergedBbox, b.bbox).value;
      assert CornerFrom(pages, v.pageIdx, 0, b.bbox[0]);
      assert CornerFrom(pages, v.pageIdx, 1, b.bbox[1]);
      assert CornerFrom(pages, v.pageIdx, 2, b.bbox[2]);
      assert CornerFrom(pages, v.pageIdx, 3, b.bbox[3]);
    }
  }

  /** Adding a content block of the section's page keeps everything from that page. */
  lemma AddFrom(pages: seq<Page>, v: SectionView, b: Block)
    requires FromItsPage(pages, v) && OnPage(pages, v.pageIdx, b) && b.kind in ContentKinds
    ensures FromItsPage(pages, AddBlockView(v, RewriteContent(b), b.bbox))
  {
    var text := RewriteContent(b);
    if text != [] {
      var w := v.(contentBlocks := v.contentBlocks + [Entry(text, b.bbox)],
                  combinedText := v.combinedText + ("\\" + text));
      assert FromItsPage(pages, w);
      MergeFrom(pages, w, b);
    }
  }

  lemma BlockStepFrom(pages: seq<Page>, st: Builder, page: Page, b: Block)
    requires page in pages && b in page.blocks && AllFrom(pages, st)
    ensures AllFrom(pages, BlockStep(st, page, b))
  {
    assert OnPage(pages, page.pageNum, b);
    var content := RewriteContent(b);
    if b.kind == "title" {
      MergeFrom(pages, NewSection(content, page.pageNum, page.pageSize), b);
    } else if b.kind in ContentKinds {
      var cur := if st.current.None? then NewSection("Preamble", page.pageNum, page.pageSize) else st.current.value;
      if page.pageNum != cur.pageIdx {
        AddFrom(pages, NewSection(cur.title + " (cont.)", page.pageNum, page.pageSize), b);
      } else {
        AddFrom(pages, cur, b);
      }
    }
  }

  lemma OnPageMono(pages: seq<Page>, more: seq<Page>, idx: int, b: Block)
    requires forall p :: p in pages ==> p in more
    requires OnPage(pages, idx, b)
    ensures OnPage(more, idx, b)
  {
    var p :| p in pages && p.pageNum == idx && b in p.blocks;
    assert p in more;
  }

  lemma FromMono(pages: seq<Page>, more: seq<Page>, v: SectionView)
    requires forall p :: p in pages ==> p in more
    requires FromItsPage(pages, v)
    ensures FromItsPage(more, v)
  {
    forall e | e in v.contentBlocks
      ensures exists b :: OnPage(more, v.pageIdx, b) && b.kind in ContentKinds && e == Entry(RewriteContent(b), b.bbox)
    {
      var b :| OnPage(pages, v.pageIdx, b) && b.kind in ContentKinds && e == Entry(RewriteContent(b), b.bbox);
      OnPageMono(pages, more, v.pageIdx, b);
    }
    if v.mergedBbox.Some? {
      var m := v.mergedBbox.value;
      CornerMono(pages, more, v.pageIdx, 0, m.x0);
      CornerMono(pages, more, v.pageIdx, 1, m.y0);
      CornerMono(pages, more, v.pageIdx, 2, m.x1);
      CornerMono(pages, more, v.pageIdx, 3, m.y1);
    }
  }

  lemma CornerMono(pages: seq<Page>, more: seq<Page>, idx: int, k: int, value: int)
    requires forall p :: p in pages ==> p in more
    requires CornerFrom(pages, idx, k, value)
    ensures CornerFrom(more, idx, k, value)
  {
    var b :| OnPage(pages, idx, b) && UsableBox(b.bbox) && 0 <= k < 4 && b.bbox[k] == value;
    OnPageMono(pages, more, idx, b);
  }

  lemma {:induction false} PageStepsFrom(pages: seq<Page>, st: Builder, page: Page, blocks: seq<Block>)
    requires page in pages && (forall b :: b in blocks ==> b in page.blocks) && AllFrom(pages, st)
    ensures AllFrom(pages, PageSteps(st, page, blocks))
  {
    if blocks != [] {
      PageStepsFrom(pages, st, page, blocks[..|blocks| - 1]);
      BlockStepFrom(pages, PageSteps(st, page, blocks[..|blocks| - 1]), page, Last(blocks));
    }
  }

  lemma {:induction false} PagesStepsFrom(pages: seq<Page>)
    ensures AllFrom(pages, PagesSteps(pages))
  {
    if pages != [] {
      var init := pages[..|pages| - 1];
      var st := PagesSteps(init);
      PagesStepsFrom(init);
      forall v | v in st.done ensures FromItsPage(pages, v) {
        FromMono(init, pages, v);
      }
      if st.current.Some? {
        FromMono(init, pages, st.current.value);
      }
      PageStepsFrom(pages, st, Last(pages), Last(pages).blocks);
    }
  }

  /** Sections never straddle pages: every entry of a returned section is a content block
      of the section's own page, and every coordinate of its merged box comes from a box on
      that page. */
  lemma BuildSectionsFromItsPage(pages: seq<Page>)
    ensures forall v :: v in BuildSections(pages) ==> FromItsPage(pages, v)
  {
    PagesStepsFrom(pages);
  }

  lemma PrefixTrans<T>(a: seq<T>, b: seq<T>, c: seq<T>)
    requires a <= b && b <= c
    ensures a <= c
  {
    assert c[..|a|] == c[..|b|][..|a|];
  }

  lemma {:induction false} PageStepsGrow(st: Builder, page: Page, blocks: seq<Block>)
    ensures st.done <= PageSteps(st, page, blocks).done
  {
    if blocks != [] {
      var before := PageSteps(st, page, blocks[..|blocks| - 1]);
      PageStepsGrow(st, page, blocks[..|blocks| - 1]);
      BlockStepShape(before, page, Last(blocks));
      PrefixTrans(st.done, before.done, PageSteps(st, page, blocks).done);
    }
  }

  lemma {:induction false} PagesStepsGrow(pages: seq<Page>, i: int)
    requires 0 <= i <= |pages|
    ensures PagesSteps(pages[..i]).done <= PagesSteps(pages).done
    decreases |pages|
  {
    if i < |pages| {
      var init := pages[..|pages| - 1];
      assert pages[..i] == init[..i];
      PagesStepsGrow(init, i);
      PageStepsGrow(PagesSteps(init), Last(pages), Last(pages).blocks);
      PrefixTrans(PagesSteps(pages[..i]).done, PagesSteps(init).done, PagesSteps(pages).done);
    } else {
      assert pages[..i] == pages;
    }
  }

  /** Sections are returned in the order they are closed, and a closed section is never
      changed: the sections closed after any number of pages lead the final list. */
  lemma EmittedInOrder(pages: seq<Page>, i: int)
    requires 0 <= i <= |pages|
    ensures PagesSteps(pages[..i]).done <= BuildSections(pages)
  {
    PagesStepsGrow(pages, i);
    PrefixTrans(PagesSteps(pages[..i]).done, PagesSteps(pages).done, BuildSections(pages));
  }

  // ---------------------------------------------------------------------------
  // The records built from the sections

  /** `str(merged_bbox)`: "None" before any usable box, otherwise the list of the four
      coordinates. */
  function BoxRepr(m: Option<Box>): string {
    match m
    case None => "None"
    case Some(b) => IntListRepr([b.x0, b.y0, b.x1, b.y1])
  }

  /** The contents of a section's record: page size, page index, merged box, file stem and
      markdown, each behind a backslash. */
  function SectionContents(jsonName: string, v: SectionView): string {
    "\\" + IntListRepr(v.pageSize) + "\\" + IntRepr(v.pageIdx) + "\\" + BoxRepr(v.mergedBbox)
      + "\\" + jsonName + "\\" + Markdown(v)
  }

  /** The record loop over the sections of one layout file: one record per section, in
      order, numbered on from `first`. */
  method SectionChunks(jsonName: string, sections: seq<Section>, first: nat) returns (chunks: seq<ChunkRecord>)
    requires forall s :: s in sections ==> s.Valid()
    ensures |chunks| == |sections|
    ensures forall k :: 0 <= k < |sections| ==>
      chunks[k] == ChunkRecord(first + k, sections[k].title, SectionContents(jsonName, sections[k].View()))
  {
    chunks := [];
    var currentChunkId := first;
    for k := 0 to |sections|
      invariant |chunks| == k && currentChunkId == first + k
      invariant forall m :: 0 <= m < k ==>
        chunks[m] == ChunkRecord(first + m, sections[m].title, SectionContents(jsonName, sections[m].View()))
    {
      var sec := sections[k];
      var contents := "\\" + IntListRepr(sec.pageSize) + "\\" + IntRepr(sec.pageIdx) + "\\"
        + BoxRepr(sec.mergedBbox) + "\\" + jsonName + "\\" + sec.ToMarkdown();
      chunks := chunks + [ChunkRecord(currentChunkId, sec.title, contents)];
      currentChunkId := currentChunkId + 1;
    }
  }

  /** The first backslash-enclosed field of a section record is the page size, so
      `extract_filename` applied to such contents yields the page size's text, not the
      file stem. */
  lemma SectionContentsFirstField(jsonName: string, v: SectionView)
    ensures Chunker.ExtractFilename(SectionContents(jsonName, v)) == Some(IntListRepr(v.pageSize))
  {
    var ps := IntListRepr(v.pageSize);
    var rest := BoxRepr(v.mergedBbox) + "\\" + jsonName + "\\" + Markdown(v);
    assert ps[0] == '[';
    assert SectionContents(jsonName, v) == Chunker.RecordContents(ps, IntRepr(v.pageIdx), rest);
    Chunker.ExtractFilenameOfFormat(ps, IntRepr(v.pageIdx), rest);
  }
}
