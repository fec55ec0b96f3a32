/** Provenance location of ui/backend/document_return.py: given a retrieved Markdown passage
    and the parsed layout pages of a PDF, score every block against the passage by token-set
    Jaccard similarity, keep the blocks at or above a threshold, group neighbouring hits and
    return the page and merged box of the most similar group.

    The word segmenter that cuts a text into tokens is a parameter (`tokenize`), and so is
    Python's `round(x, 3)` (`round3`). Scores are exact reals. */
module Locator {
  import opened Common
  import opened Strings
  import opened Sorting

  /** The defaults of `find_candidate_blocks` and `group_adjacent_blocks`. */
  const Threshold: real := 0.30
  const IdxGap: int := 1
  const YGap: int := 20

  /** One candidate: {"page", "idx", "bbox", "score"}. */
  datatype Hit = Hit(page: int, idx: int, bbox: seq<int>, score: real)

  /** One located region: {"page", "bbox", "confidence"}. */
  datatype Location = Location(page: int, bbox: seq<int>, confidence: real)

  /* ---------------------------------------------------------------- similarity */

  /** Size of the intersection over size of the union, and 0 when both sets are empty. */
  function Jaccard(a: set<string>, b: set<string>): (r: real)
    ensures 0.0 <= r <= 1.0
  {
    var both := a * b;
    var either := a + b;
    assert both <= either;
    SubsetCard(both, either);
    if |either| > 0 then
      FractionBounds(|both| as real, |either| as real);
      (|both| as real) / (|either| as real)
    else 0.0
  }

  lemma FractionBounds(x: real, y: real)
    requires 0.0 <= x <= y && 0.0 < y
    ensures 0.0 <= x / y <= 1.0
  {
  }

  lemma SubsetCard(x: set<string>, y: set<string>)
    requires x <= y
    ensures |x| <= |y|
    ensures |x| == |y| ==> x == y
  {
    assert y == x + (y - x);
    if |x| == |y| {
      assert |y - x| == 0;
    }
  }

  /** `jaccard_similarity`: the similarity of the token sets of the two texts. */
  function Similarity(tokenize: string -> set<string>, a: string, b: string): real {
    Jaccard(tokenize(a), tokenize(b))
  }

  lemma JaccardSymmetric(a: set<string>, b: set<string>)
    ensures Jaccard(a, b) == Jaccard(b, a)
  {
    assert a * b == b * a && a + b == b + a;
  }

  /** Similarity 1 exactly for equal non-empty sets. */
  lemma JaccardOne(a: set<string>, b: set<string>)
    ensures Jaccard(a, b) == 1.0 <==> a == b && a != {}
  {
    var both := a * b;
    var either := a + b;
    SubsetCard(both, either);
    if |either| > 0 && Jaccard(a, b) == 1.0 {
      assert |both| as real == |either| as real;
      assert both == either;
      assert a == either;
    }
    if a == b && a != {} {
      assert both == a && either == a;
    }
  }

  /** Similarity 0 exactly for disjoint sets (two empty sets included). */
  lemma JaccardZero(a: set<string>, b: set<string>)
    ensures Jaccard(a, b) == 0.0 <==> a * b == {}
  {
    var both := a * b;
    var either := a + b;
    if |either| > 0 && Jaccard(a, b) == 0.0 {
      assert |both| as real == 0.0;
    }
    if either == {} {
      assert both <= either;
    }
  }

  /* ---------------------------------------------------------------- candidates */

  function Score(tokenize: string -> set<string>, mdText: string, b: Block): real {
    Similarity(tokenize, mdText, b.content)
  }

  /** The hits one page contributes, in block order. */
  function PageHits(tokenize: string -> set<string>, mdText: string, pageNum: int,
                    blocks: seq<Block>, threshold: real): seq<Hit>
  {
    if blocks == [] then []
    else
      var b := Last(blocks);
      var score := Score(tokenize, mdText, b);
      PageHits(tokenize, mdText, pageNum, blocks[..|blocks| - 1], threshold)
      + if score >= threshold then [Hit(pageNum, b.idx, b.bbox, score)] else []
  }

  /** The hits of all pages, in page order. */
  function Candidates(tokenize: string -> set<string>, mdText: string, pages: seq<Page>,
                      threshold: real): seq<Hit>
  {
    if pages == [] then []
    else
      Candidates(tokenize, mdText, pages[..|pages| - 1], threshold)
      + PageHits(tokenize, mdText, Last(pages).pageNum, Last(pages).blocks, threshold)
  }

  /** `find_candidate_blocks`. */
  method FindCandidateBlocks(tokenize: string -> set<string>, mdText: string, pages: seq<Page>,
                             threshold: real) returns (hits: seq<Hit>)
    ensures hits == Candidates(tokenize, mdText, pages, threshold)
  {
    hits := [];
    for i := 0 to |pages|
      invariant hits == Candidates(tokenize, mdText, pages[..i], threshold)
    {
      var pno := pages[i].pageNum;
      var blocks := pages[i].blocks;
      ghost var done := hits;
      for j := 0 to |blocks|
        invariant hits == done + PageHits(tokenize, mdText, pno, blocks[..j], threshold)
      {
        var blk := blocks[j];
        var score := Similarity(tokenize, mdText, blk.content);
        if score >= threshold {
          hits := hits + [Hit(pno, blk.idx, blk.bbox, score)];
        }
        PageHitsStep(tokenize, mdText, pno, blocks, threshold, j);
      }
      assert blocks[..|blocks|] == blocks;
      CandidatesStep(tokenize, mdText, pages, threshold, i);
    }
    assert pages[..|pages|] == pages;
  }

  lemma PageHitsStep(tokenize: string -> set<string>, mdText: string, pageNum: int,
                     blocks: seq<Block>, threshold: real, j: int)
    requires 0 <= j < |blocks|
    ensures var score := Score(tokenize, mdText, blocks[j]);
      PageHits(tokenize, mdText, pageNum, blocks[..j + 1], threshold)
      == PageHits(tokenize, mdText, pageNum, blocks[..j], threshold)
         + if score >= threshold then [Hit(pageNum, blocks[j].idx, blocks[j].bbox, score)] else []
  {
    PrefixStep(blocks, j);
  }

  lemma CandidatesStep(tokenize: string -> set<string>, mdText: string, pages: seq<Page>,
                       threshold: real, i: int)
    requires 0 <= i < |pages|
    ensures Candidates(tokenize, mdText, pages[..i + 1], threshold)
      == Candidates(tokenize, mdText, pages[..i], threshold)
         + PageHits(tokenize, mdText, pages[i].pageNum, pages[i].blocks, threshold)
  {
    PrefixStep(pages, i);
  }

  /** A page's hits are exactly its blocks scoring at least the threshold. */
  lemma {:induction false} PageHitsIff(tokenize: string -> set<string>, mdText: string, pageNum: int,
                                       blocks: seq<Block>, threshold: real, h: Hit)
    ensures h in PageHits(tokenize, mdText, pageNum, blocks, threshold) <==>
      exists k :: 0 <= k < |blocks| && Score(tokenize, mdText, blocks[k]) >= threshold
        && h == Hit(pageNum, blocks[k].idx, blocks[k].bbox, Score(tokenize, mdText, blocks[k]))
  {
    if blocks != [] {
      var init := blocks[..|blocks| - 1];
      PageHitsIff(tokenize, mdText, pageNum, init, threshold, h);
      assert forall k :: 0 <= k < |init| ==> init[k] == blocks[k];
    }
  }

  /** Hits of earlier blocks precede hits of later blocks. */
  lemma {:induction false} PageHitsAppend(tokenize: string -> set<string>, mdText: string, pageNum: int,
                                          xs: seq<Block>, ys: seq<Block>, threshold: real)
    ensures PageHits(tokenize, mdText, pageNum, xs + ys, threshold)
      == PageHits(tokenize, mdText, pageNum, xs, threshold) + PageHits(tokenize, mdText, pageNum, ys, threshold)
  {
    if ys != [] {
      var init := ys[..|ys| - 1];
      PageHitsAppend(tokenize, mdText, pageNum, xs, init, threshold);
      assert (xs + ys)[..|xs + ys| - 1] == xs + init;
    } else {
      assert xs + ys == xs;
    }
  }

  /** The candidates are the hits of the pages, each page's taken in turn. */
  lemma {:induction false} CandidatesOfPages(tokenize: string -> set<string>, mdText: string, pages: seq<Page>,
                                             threshold: real, h: Hit)
    ensures h in Candidates(tokenize, mdText, pages, threshold) <==>
      exists p :: 0 <= p < |pages| && h in PageHits(tokenize, mdText, pages[p].pageNum, pages[p].blocks, threshold)
  {
    if pages != [] {
      var n := |pages|;
      var init := pages[..n - 1];
      CandidatesOfPages(tokenize, mdText, init, threshold, h);
      var last := PageHits(tokenize, mdText, pages[n - 1].pageNum, pages[n - 1].blocks, threshold);
      assert Candidates(tokenize, mdText, pages, threshold)
        == Candidates(tokenize, mdText, init, threshold) + last;
      if h in Candidates(tokenize, mdText, init, threshold) {
        var p :| 0 <= p < |init| && h in PageHits(tokenize, mdText, init[p].pageNum, init[p].blocks, threshold);
        assert init[p] == pages[p];
      }
      if p :| 0 <= p < n && h in PageHits(tokenize, mdText, pages[p].pageNum, pages[p].blocks, threshold) {
        if p < n - 1 {
          assert init[p] == pages[p];
        }
      }
    }
  }

  /** The candidates are exactly the blocks, of any page, scoring at least the threshold,
      each carrying its page's number and its own index and box. */
  lemma CandidatesIff(tokenize: string -> set<string>, mdText: string, pages: seq<Page>,
                      threshold: real, h: Hit)
    ensures h in Candidates(tokenize, mdText, pages, threshold) <==>
      exists p, k :: 0 <= p < |pages| && 0 <= k < |pages[p].blocks|
        && Score(tokenize, mdText, pages[p].blocks[k]) >= threshold
        && h == Hit(pages[p].pageNum, pages[p].blocks[k].idx, pages[p].blocks[k].bbox,
                    Score(tokenize, mdText, pages[p].blocks[k]))
  {
    CandidatesOfPages(tokenize, mdText, pages, threshold, h);
    forall p | 0 <= p < |pages| {
      PageHitsIff(tokenize, mdText, pages[p].pageNum, pages[p].blocks, threshold, h);
    }
  }

  /** Hits of earlier pages precede hits of later pages. */
  lemma {:induction false} CandidatesAppend(tokenize: string -> set<string>, mdText: string,
                                            xs: seq<Page>, ys: seq<Page>, threshold: real)
    ensures Candidates(tokenize, mdText, xs + ys, threshold)
      == Candidates(tokenize, mdText, xs, threshold) + Candidates(tokenize, mdText, ys, threshold)
  {
    if ys != [] {
      var init := ys[..|ys| - 1];
      CandidatesAppend(tokenize, mdText, xs, init, threshold);
      assert (xs + ys)[..|xs + ys| - 1] == xs + init;
    } else {
      assert xs + ys == xs;
    }
  }

  /** Every candidate scores at least the threshold, and at most 1 as a similarity does. */
  lemma {:induction false} CandidatesScore(tokenize: string -> set<string>, mdText: string, pages: seq<Page>,
                                           threshold: real)
    ensures forall h :: h in Candidates(tokenize, mdText, pages, threshold) ==>
      threshold <= h.score <= 1.0
  {
    forall h | h in Candidates(tokenize, mdText, pages, threshold)
      ensures threshold <= h.score <= 1.0
    {
      CandidatesIff(tokenize, mdText, pages, threshold, h);
      var p, k :| 0 <= p < |pages| && 0 <= k < |pages[p].blocks|
        && Score(tokenize, mdText, pages[p].blocks[k]) >= threshold
        && h == Hit(pages[p].pageNum, pages[p].blocks[k].idx, pages[p].blocks[k].bbox,
                    Score(tokenize, mdText, pages[p].blocks[k]));
    }
  }

  /* ---------------------------------------------------------------- grouping */

  /** The sort key of `group_adjacent_blocks`: (page, idx), compared lexicographically. */
  predicate PageIdxLeq(a: Hit, b: Hit) {
    a.page < b.page || (a.page == b.page && a.idx <= b.idx)
  }

  lemma PageIdxOrder()
    ensures TotalPreorder(PageIdxLeq)
  {
  }

  function Abs(x: int): nat {
    if x < 0 then -x else x
  }

  /** The test can read `bbox[3]` of `prev` and `bbox[1]` of `blk`. */
  predicate Readable(prev: Hit, blk: Hit) {
    |prev.bbox| >= 4 && |blk.bbox| >= 2
  }

  /** `blk` joins the group whose last member is `prev`: same page, and the index gap
      (signed) or the vertical gap (absolute) is small enough. */
  predicate Close(prev: Hit, blk: Hit, idxGap: int, yGap: int)
    requires Readable(prev, blk)
  {
    blk.page == prev.page && (blk.idx - prev.idx <= idxGap || Abs(blk.bbox[1] - prev.bbox[3]) <= yGap)
  }

  /** `blk`, right after `prev`, joins `prev`'s group. */
  predicate Joins(prev: Hit, blk: Hit, idxGap: int, yGap: int) {
    Readable(prev, blk) && Close(prev, blk, idxGap, yGap)
  }

  /** Every comparison of the scan can read the coordinates it needs. */
  predicate Comparable(s: seq<Hit>) {
    forall k :: 0 < k < |s| ==> Readable(s[k - 1], s[k])
  }

  lemma ComparablePrefix(s: seq<Hit>, n: int)
    requires Comparable(s) && 0 <= n <= |s|
    ensures Comparable(s[..n])
  {
    forall k | 0 < k < n ensures Readable(s[..n][k - 1], s[..n][k]) {
      assert Readable(s[k - 1], s[k]);
    }
  }

  /** The closed groups and the open group `cur` of the scan. */
  datatype Scan = Scan(groups: seq<seq<Hit>>, cur: seq<Hit>)

  /** One iteration of the scan of `group_adjacent_blocks`. */
  function GroupStep(st: Scan, blk: Hit, idxGap: int, yGap: int): Scan
    requires st.cur != [] ==> Readable(Last(st.cur), blk)
  {
    if st.cur == [] then Scan(st.groups, [blk])
    else if Close(Last(st.cur), blk, idxGap, yGap) then Scan(st.groups, st.cur + [blk])
    else Scan(st.groups + [st.cur], [blk])
  }

  /** The scan after the hits of `s`, in order. */
  function GroupScan(s: seq<Hit>, idxGap: int, yGap: int): (st: Scan)
    requires Comparable(s)
    ensures s != [] <==> st.cur != []
    ensures s != [] ==> Last(st.cur) == Last(s)
  {
    if s == [] then Scan([], [])
    else
      var init := s[..|s| - 1];
      ComparablePrefix(s, |s| - 1);
      var st := GroupScan(init, idxGap, yGap);
      assert st.cur != [] ==> Readable(s[|s| - 2], s[|s| - 1]);
      GroupStep(st, Last(s), idxGap, yGap)
  }

  /** The groups once the scan is over: the closed ones, then the open one if any. */
  function Closed(st: Scan): seq<seq<Hit>> {
    if st.cur != [] then st.groups + [st.cur] else st.groups
  }

  /** `group_adjacent_blocks`: the groups of the hits sorted by (page, idx). */
  function GroupAdjacent(hits: seq<Hit>, idxGap: int, yGap: int): seq<seq<Hit>>
    requires Comparable(SortBy(hits, PageIdxLeq))
  {
    Closed(GroupScan(SortBy(hits, PageIdxLeq), idxGap, yGap))
  }

  lemma GroupScanStep(s: seq<Hit>, i: int, idxGap: int, yGap: int)
    requires Comparable(s) && 0 <= i < |s|
    ensures Comparable(s[..i]) && Comparable(s[..i + 1])
    ensures var st := GroupScan(s[..i], idxGap, yGap);
      && (st.cur != [] ==> Readable(Last(st.cur), s[i]))
      && GroupScan(s[..i + 1], idxGap, yGap) == GroupStep(st, s[i], idxGap, yGap)
  {
    ComparablePrefix(s, i);
    ComparablePrefix(s, i + 1);
    PrefixStep(s, i);
    if i > 0 {
      assert Readable(s[i - 1], s[i]);
      assert Last(s[..i]) == s[i - 1];
    }
  }

  method GroupAdjacentBlocks(hits: seq<Hit>, idxGap: int, yGap: int) returns (groups: seq<seq<Hit>>)
    requires Comparable(SortBy(hits, PageIdxLeq))
    ensures groups == GroupAdjacent(hits, idxGap, yGap)
  {
    var blocks := SortBy(hits, PageIdxLeq);
    groups := [];
    var cur: seq<Hit> := [];
    for i := 0 to |blocks|
      invariant Comparable(blocks[..i])
      invariant Scan(groups, cur) == GroupScan(blocks[..i], idxGap, yGap)
    {
      GroupScanStep(blocks, i, idxGap, yGap);
      var blk := blocks[i];
      if cur == [] {
        cur := [blk];
      } else {
        var prev := cur[|cur| - 1];
        var samePage := blk.page == prev.page;
        var idxClose := blk.idx - prev.idx <= idxGap;
        var yClose := Abs(blk.bbox[1] - prev.bbox[3]) <= yGap;
        if samePage && (idxClose || yClose) {
          cur := cur + [blk];
        } else {
          groups := groups + [cur];
          cur := [blk];
        }
      }
    }
    assert blocks[..|blocks|] == blocks;
    if cur != [] {
      groups := groups + [cur];
    }
  }

  /** Neighbours in `g` pass the joining test (stated from the end). */
  predicate Chained(g: seq<Hit>, idxGap: int, yGap: int) {
    |g| <= 1 || (Chained(g[..|g| - 1], idxGap, yGap) && Joins(g[|g| - 2], g[|g| - 1], idxGap, yGap))
  }

  /** `g'` starts where the joining test fails against the last member of `g`. */
  predicate Apart(g: seq<Hit>, g': seq<Hit>, idxGap: int, yGap: int) {
    g != [] && g' != [] && Readable(Last(g), g'[0]) && !Close(Last(g), g'[0], idxGap, yGap)
  }

  /** Groups are non-empty and chained, and neighbouring groups are apart (stated from the
      end). */
  predicate WellGrouped(gs: seq<seq<Hit>>, idxGap: int, yGap: int) {
    gs == [] ||
    (&& WellGrouped(gs[..|gs| - 1], idxGap, yGap)
     && Last(gs) != [] && Chained(Last(gs), idxGap, yGap)
     && (|gs| > 1 ==> Apart(gs[|gs| - 2], Last(gs), idxGap, yGap)))
  }

  lemma WellGroupedSnoc(gs: seq<seq<Hit>>, g: seq<Hit>, idxGap: int, yGap: int)
    requires WellGrouped(gs, idxGap, yGap) && g != [] && Chained(g, idxGap, yGap)
    requires gs != [] ==> Apart(Last(gs), g, idxGap, yGap)
    ensures WellGrouped(gs + [g], idxGap, yGap)
  {
    assert (gs + [g])[..|gs|] == gs;
  }

  lemma ChainedSnoc(g: seq<Hit>, blk: Hit, idxGap: int, yGap: int)
    requires Chained(g, idxGap, yGap) && g != [] && Joins(Last(g), blk, idxGap, yGap)
    ensures Chained(g + [blk], idxGap, yGap)
  {
    assert (g + [blk])[..|g|] == g;
  }

  /** A chained group, neighbour by neighbour. */
  lemma {:induction false} ChainedPointwise(g: seq<Hit>, idxGap: int, yGap: int)
    requires Chained(g, idxGap, yGap)
    ensures forall j :: 0 < j < |g| ==> Joins(g[j - 1], g[j], idxGap, yGap)
  {
    if |g| > 1 {
      var init := g[..|g| - 1];
      ChainedPointwise(init, idxGap, yGap);
      assert forall j :: 0 <= j < |init| ==> init[j] == g[j];
    }
  }

  /** Well-grouped groups, group by group. */
  lemma {:induction false} WellGroupedPointwise(gs: seq<seq<Hit>>, idxGap: int, yGap: int)
    requires WellGrouped(gs, idxGap, yGap)
    ensures forall m :: 0 <= m < |gs| ==> gs[m] != [] && Chained(gs[m], idxGap, yGap)
    ensures forall m :: 0 < m < |gs| ==> Apart(gs[m - 1], gs[m], idxGap, yGap)
  {
    if gs != [] {
      var init := gs[..|gs| - 1];
      WellGroupedPointwise(init, idxGap, yGap);
      assert forall m :: 0 <= m < |init| ==> init[m] == gs[m];
    }
  }

  /** What the scan keeps true: closed groups well grouped, the open group chained and
      apart from the last closed one, and no closed group before the first hit. */
  predicate ScanShape(st: Scan, idxGap: int, yGap: int) {
    && WellGrouped(st.groups, idxGap, yGap)
    && Chained(st.cur, idxGap, yGap)
    && (st.cur == [] ==> st.groups == [])
    && (st.groups != [] ==> Apart(Last(st.groups), st.cur, idxGap, yGap))
  }

  /** A hit that joins the open group keeps the shape of the scan. */
  lemma GroupStepJoin(st: Scan, blk: Hit, idxGap: int, yGap: int)
    requires ScanShape(st, idxGap, yGap) && st.cur != [] && Joins(Last(st.cur), blk, idxGap, yGap)
    ensures ScanShape(Scan(st.groups, st.cur + [blk]), idxGap, yGap)
    ensures Flatten(st.groups) + (st.cur + [blk]) == Flatten(st.groups) + st.cur + [blk]
  {
    ChainedSnoc(st.cur, blk, idxGap, yGap);
  }

  /** A hit that fails the joining test closes the open group and keeps the shape of the
      scan. */
  lemma GroupStepSplit(st: Scan, blk: Hit, idxGap: int, yGap: int)
    requires ScanShape(st, idxGap, yGap) && st.cur != []
    requires Readable(Last(st.cur), blk) && !Close(Last(st.cur), blk, idxGap, yGap)
    ensures ScanShape(Scan(st.groups + [st.cur], [blk]), idxGap, yGap)
    ensures Flatten(st.groups + [st.cur]) + [blk] == Flatten(st.groups) + st.cur + [blk]
  {
    WellGroupedSnoc(st.groups, st.cur, idxGap, yGap);
    FlattenSnoc(st.groups, st.cur);
  }

  lemma GroupStepShape(st: Scan, blk: Hit, idxGap: int, yGap: int)
    requires ScanShape(st, idxGap, yGap)
    requires st.cur != [] ==> Readable(Last(st.cur), blk)
    ensures var st' := GroupStep(st, blk, idxGap, yGap);
      && ScanShape(st', idxGap, yGap)
      && Flatten(st'.groups) + st'.cur == Flatten(st.groups) + st.cur + [blk]
  {
    if st.cur == [] {
      assert Flatten(st.groups) == [];
    } else if Close(Last(st.cur), blk, idxGap, yGap) {
      GroupStepJoin(st, blk, idxGap, yGap);
    } else {
      GroupStepSplit(st, blk, idxGap, yGap);
    }
  }

  /** The scan of `s` holds the hits of `s` in order and keeps the shape of a scan. */
  lemma {:induction false} GroupScanShape(s: seq<Hit>, idxGap: int, yGap: int) returns (st: Scan)
    requires Comparable(s)
    ensures st == GroupScan(s, idxGap, yGap)
    ensures ScanShape(st, idxGap, yGap) && Flatten(st.groups) + st.cur == s
  {
    if s == [] {
      st := Scan([], []);
    } else {
      var n := |s|;
      var init := s[..n - 1];
      assert init + [s[n - 1]] == s;
      ComparablePrefix(s, n - 1);
      var st0 := GroupScanShape(init, idxGap, yGap);
      if n > 1 {
        assert Readable(s[n - 2], s[n - 1]);
      }
      GroupStepShape(st0, s[n - 1], idxGap, yGap);
      st := GroupStep(st0, s[n - 1], idxGap, yGap);
    }
  }

  /** The closed groups of the scan of `s`, in order, are exactly `s`, and they are well
      grouped; no hit is lost, duplicated or reordered. */
  lemma ClosedShape(s: seq<Hit>, idxGap: int, yGap: int)
    requires Comparable(s)
    ensures var gs := Closed(GroupScan(s, idxGap, yGap));
      Flatten(gs) == s && WellGrouped(gs, idxGap, yGap) && (s == [] <==> gs == [])
  {
    var st := GroupScanShape(s, idxGap, yGap);
    if st.cur != [] {
      WellGroupedSnoc(st.groups, st.cur, idxGap, yGap);
      FlattenSnoc(st.groups, st.cur);
    }
  }

  /** Every member of a chained group is on its first member's page. */
  lemma {:induction false} OnePage(g: seq<Hit>, idxGap: int, yGap: int, j: int)
    requires Chained(g, idxGap, yGap) && 0 <= j < |g|
    ensures g[j].page == g[0].page
  {
    if j > 0 {
      ChainedPointwise(g, idxGap, yGap);
      assert Joins(g[j - 1], g[j], idxGap, yGap);
      OnePage(g, idxGap, yGap, j - 1);
    }
  }

  /** The groups of `group_adjacent_blocks` are well grouped, and there are none exactly
      when there are no hits. */
  lemma GroupAdjacentShape(hits: seq<Hit>, idxGap: int, yGap: int)
    requires Comparable(SortBy(hits, PageIdxLeq))
    ensures var gs := GroupAdjacent(hits, idxGap, yGap);
      WellGrouped(gs, idxGap, yGap) && (hits == [] <==> gs == [])
  {
    var s := SortBy(hits, PageIdxLeq);
    ClosedShape(s, idxGap, yGap);
    SortPermutes(hits, PageIdxLeq);
    if hits != [] {
      assert hits[0] in multiset(s);
    }
  }

  /** `group_adjacent_blocks` loses, duplicates and reorders nothing: the concatenated
      groups are the input stably sorted by (page, idx), and there are no groups exactly
      when there is no input. */
  lemma GroupAdjacentSorted(hits: seq<Hit>, idxGap: int, yGap: int)
    requires Comparable(SortBy(hits, PageIdxLeq))
    ensures var gs := GroupAdjacent(hits, idxGap, yGap);
      && Flatten(gs) == SortBy(hits, PageIdxLeq)
      && multiset(Flatten(gs)) == multiset(hits)
      && SortedBy(Flatten(gs), PageIdxLeq)
      && (forall k :: Ties(Flatten(gs), k, PageIdxLeq) == Ties(hits, k, PageIdxLeq))
      && (hits == [] <==> gs == [])
  {
    var s := SortBy(hits, PageIdxLeq);
    ClosedShape(s, idxGap, yGap);
    SortPermutes(hits, PageIdxLeq);
    PageIdxOrder();
    SortSorted(hits, PageIdxLeq);
    forall k ensures Ties(s, k, PageIdxLeq) == Ties(hits, k, PageIdxLeq) {
      SortStable(hits, k, PageIdxLeq);
    }
    if hits != [] {
      assert hits[0] in multiset(s);
    }
  }

  /** The groups of `group_adjacent_blocks`: each is non-empty and lies on one page, each
      member after the first passes the joining test against the one before it, and each
      group after the first starts with a hit that fails the test against the previous
      group's last member. */
  lemma GroupAdjacentGroups(hits: seq<Hit>, idxGap: int, yGap: int)
    requires Comparable(SortBy(hits, PageIdxLeq))
    ensures var gs := GroupAdjacent(hits, idxGap, yGap);
      && (forall m :: 0 <= m < |gs| ==> gs[m] != [])
      && (forall m, j :: 0 <= m < |gs| && 0 <= j < |gs[m]| ==> gs[m][j].page == gs[m][0].page)
      && (forall m, j :: 0 <= m < |gs| && 0 < j < |gs[m]| ==> Joins(gs[m][j - 1], gs[m][j], idxGap, yGap))
      && (forall m :: 0 < m < |gs| ==> Apart(gs[m - 1], gs[m], idxGap, yGap))
  {
    var gs := GroupAdjacent(hits, idxGap, yGap);
    GroupAdjacentShape(hits, idxGap, yGap);
    WellGroupedPointwise(gs, idxGap, yGap);
    forall m | 0 <= m < |gs| ensures forall j :: 0 < j < |gs[m]| ==> Joins(gs[m][j - 1], gs[m][j], idxGap, yGap) {
      ChainedPointwise(gs[m], idxGap, yGap);
    }
    forall m, j | 0 <= m < |gs| && 0 <= j < |gs[m]| ensures gs[m][j].page == gs[m][0].page {
      OnePage(gs[m], idxGap, yGap, j);
    }
  }

  /* ---------------------------------------------------------------- boxes */

  /** Every hit has the four coordinates [x0, y0, x1, y1]. */
  predicate Boxed(hs: seq<Hit>) {
    forall h :: h in hs ==> |h.bbox| >= 4
  }

  /** The least coordinate `c` of the hits' boxes. */
  function MinCoord(g: seq<Hit>, c: nat): int
    requires g != [] && c < 4 && Boxed(g)
  {
    var x := Last(g).bbox[c];
    if |g| == 1 then x
    else
      var m := MinCoord(g[..|g| - 1], c);
      if x < m then x else m
  }

  /** The greatest coordinate `c` of the hits' boxes. */
  function MaxCoord(g: seq<Hit>, c: nat): int
    requires g != [] && c < 4 && Boxed(g)
  {
    var x := Last(g).bbox[c];
    if |g| == 1 then x
    else
      var m := MaxCoord(g[..|g| - 1], c);
      if x > m then x else m
  }

  /** `MinCoord` is the coordinate of some member, and no member's is smaller. */
  lemma {:induction false} MinCoordSpec(g: seq<Hit>, c: nat)
    requires g != [] && c < 4 && Boxed(g)
    ensures exists j :: 0 <= j < |g| && MinCoord(g, c) == g[j].bbox[c]
    ensures forall j :: 0 <= j < |g| ==> MinCoord(g, c) <= g[j].bbox[c]
  {
    var n := |g|;
    if n == 1 {
      assert MinCoord(g, c) == g[0].bbox[c];
    } else {
      var init := g[..n - 1];
      MinCoordSpec(init, c);
      assert forall j :: 0 <= j < n - 1 ==> init[j] == g[j];
      if g[n - 1].bbox[c] < MinCoord(init, c) {
        assert MinCoord(g, c) == g[n - 1].bbox[c];
      } else {
        var j :| 0 <= j < n - 1 && MinCoord(init, c) == init[j].bbox[c];
        assert MinCoord(g, c) == g[j].bbox[c];
      }
    }
  }

  /** `MaxCoord` is the coordinate of some member, and no member's is greater. */
  lemma {:induction false} MaxCoordSpec(g: seq<Hit>, c: nat)
    requires g != [] && c < 4 && Boxed(g)
    ensures exists j :: 0 <= j < |g| && MaxCoord(g, c) == g[j].bbox[c]
    ensures forall j :: 0 <= j < |g| ==> g[j].bbox[c] <= MaxCoord(g, c)
  {
    var n := |g|;
    if n == 1 {
      assert MaxCoord(g, c) == g[0].bbox[c];
    } else {
      var init := g[..n - 1];
      MaxCoordSpec(init, c);
      assert forall j :: 0 <= j < n - 1 ==> init[j] == g[j];
      if g[n - 1].bbox[c] > MaxCoord(init, c) {
        assert MaxCoord(g, c) == g[n - 1].bbox[c];
      } else {
        var j :| 0 <= j < n - 1 && MaxCoord(init, c) == init[j].bbox[c];
        assert MaxCoord(g, c) == g[j].bbox[c];
      }
    }
  }

  /** `merge_bboxes`. */
  function MergeBboxes(g: seq<Hit>): (r: seq<int>)
    requires g != [] && Boxed(g)
    ensures |r| == 4
  {
    [MinCoord(g, 0), MinCoord(g, 1), MaxCoord(g, 2), MaxCoord(g, 3)]
  }

  /** The merged box holds every member's box, and each of its coordinates is that of some
      member: it is the smallest such box. */
  lemma MergeBboxesSpec(g: seq<Hit>)
    requires g != [] && Boxed(g)
    ensures var r := MergeBboxes(g);
      && (forall j :: 0 <= j < |g| ==>
            r[0] <= g[j].bbox[0] && r[1] <= g[j].bbox[1] && g[j].bbox[2] <= r[2] && g[j].bbox[3] <= r[3])
      && (forall c :: 0 <= c < 4 ==> exists j :: 0 <= j < |g| && r[c] == g[j].bbox[c])
  {
    var r := MergeBboxes(g);
    MinCoordSpec(g, 0);
    MinCoordSpec(g, 1);
    MaxCoordSpec(g, 2);
    MaxCoordSpec(g, 3);
    forall c | 0 <= c < 4 ensures exists j :: 0 <= j < |g| && r[c] == g[j].bbox[c] {
      if c < 2 {
        assert r[c] == MinCoord(g, c);
      } else {
        assert r[c] == MaxCoord(g, c);
      }
    }
  }

  /* ---------------------------------------------------------------- selection */

  function SumScores(g: seq<Hit>): real {
    if g == [] then 0.0 else SumScores(g[..|g| - 1]) + Last(g).score
  }

  /** The mean score of a non-empty group. */
  function Mean(g: seq<Hit>): real
    requires g != []
  {
    SumScores(g) / (|g| as real)
  }

  lemma {:induction false} SumScoresAtLeast(g: seq<Hit>, t: real)
    requires forall h :: h in g ==> h.score >= t
    ensures SumScores(g) >= (|g| as real) * t
  {
    if g != [] {
      var init := g[..|g| - 1];
      assert forall h :: h in init ==> h in g;
      SumScoresAtLeast(init, t);
      assert (|g| as real) * t == (|init| as real) * t + t;
    }
  }

  /** A group whose members all score at least `t` has a mean of at least `t`. */
  lemma MeanAtLeast(g: seq<Hit>, t: real)
    requires g != [] && forall h :: h in g ==> h.score >= t
    ensures Mean(g) >= t
  {
    SumScoresAtLeast(g, t);
    var n := |g| as real;
    var q := SumScores(g) / n;
    assert q * n == SumScores(g);
    if q < t {
      assert (t - q) * n > 0.0;
    }
  }

  lemma {:induction false} SumScoresAtMost(g: seq<Hit>, t: real)
    requires forall h :: h in g ==> h.score <= t
    ensures SumScores(g) <= (|g| as real) * t
  {
    if g != [] {
      var init := g[..|g| - 1];
      assert forall h :: h in init ==> h in g;
      SumScoresAtMost(init, t);
      assert (|g| as real) * t == (|init| as real) * t + t;
    }
  }

  /** A group whose members all score at most `t` has a mean of at most `t`. */
  lemma MeanAtMost(g: seq<Hit>, t: real)
    requires g != [] && forall h :: h in g ==> h.score <= t
    ensures Mean(g) <= t
  {
    SumScoresAtMost(g, t);
    var n := |g| as real;
    var q := SumScores(g) / n;
    assert q * n == SumScores(g);
    if q > t {
      assert (q - t) * n > 0.0;
    }
  }

  /** The result entry of one group. */
  function Summary(g: seq<Hit>, round3: real -> real): Location
    requires g != [] && Boxed(g)
  {
    Location(g[0].page, MergeBboxes(g), round3(Mean(g)))
  }

  /** Non-empty groups whose members all carry four coordinates. */
  predicate Summarizable(gs: seq<seq<Hit>>) {
    forall m :: 0 <= m < |gs| ==> gs[m] != [] && Boxed(gs[m])
  }

  /** The result entries of the groups, in order. */
  function Summaries(gs: seq<seq<Hit>>, round3: real -> real): seq<Location>
    requires Summarizable(gs)
  {
    if gs == [] then [] else Summaries(gs[..|gs| - 1], round3) + [Summary(Last(gs), round3)]
  }

  lemma {:induction false} SummariesPointwise(gs: seq<seq<Hit>>, round3: real -> real)
    requires Summarizable(gs)
    ensures |Summaries(gs, round3)| == |gs|
    ensures forall m :: 0 <= m < |gs| ==> Summaries(gs, round3)[m] == Summary(gs[m], round3)
  {
    if gs != [] {
      var init := gs[..|gs| - 1];
      SummariesPointwise(init, round3);
      assert forall m :: 0 <= m < |init| ==> init[m] == gs[m];
    }
  }

  lemma SummariesStep(gs: seq<seq<Hit>>, i: int, round3: real -> real)
    requires Summarizable(gs) && 0 <= i < |gs|
    ensures Summarizable(gs[..i]) && Summarizable(gs[..i + 1])
    ensures Summaries(gs[..i + 1], round3) == Summaries(gs[..i], round3) + [Summary(gs[i], round3)]
  {
    PrefixStep(gs, i);
  }

  /** The order of `results.sort(key=confidence, reverse=True)`. */
  predicate MoreConfident(a: Location, b: Location) {
    a.confidence >= b.confidence
  }

  lemma MoreConfidentOrder()
    ensures TotalPreorder(MoreConfident)
  {
  }

  /** Sorting keeps the coordinates of boxed hits, so every comparison can be made. */
  lemma BoxedComparable(hits: seq<Hit>)
    requires Boxed(hits)
    ensures Boxed(SortBy(hits, PageIdxLeq)) && Comparable(SortBy(hits, PageIdxLeq))
  {
    var s := SortBy(hits, PageIdxLeq);
    SortPermutes(hits, PageIdxLeq);
    forall h | h in s ensures |h.bbox| >= 4 {
      assert h in multiset(s);
    }
    forall k | 0 < k < |s| ensures Readable(s[k - 1], s[k]) {
      assert s[k - 1] in s && s[k] in s;
    }
  }

  lemma {:induction false} FlattenMember(gs: seq<seq<Hit>>, m: int, h: Hit)
    requires 0 <= m < |gs| && h in gs[m]
    ensures h in Flatten(gs)
  {
    if m < |gs| - 1 {
      FlattenMember(gs[..|gs| - 1], m, h);
    }
  }

  /** Every member of every group is one of the hits. */
  lemma GroupMember(hits: seq<Hit>, idxGap: int, yGap: int, m: int, h: Hit)
    requires Comparable(SortBy(hits, PageIdxLeq))
    requires 0 <= m < |GroupAdjacent(hits, idxGap, yGap)| && h in GroupAdjacent(hits, idxGap, yGap)[m]
    ensures h in hits
  {
    var s := SortBy(hits, PageIdxLeq);
    ClosedShape(s, idxGap, yGap);
    FlattenMember(GroupAdjacent(hits, idxGap, yGap), m, h);
    SortPermutes(hits, PageIdxLeq);
    assert h in multiset(s);
  }

  /** The groups of boxed hits can be summarized. */
  lemma GroupsBoxed(hits: seq<Hit>, idxGap: int, yGap: int)
    requires Boxed(hits)
    ensures Comparable(SortBy(hits, PageIdxLeq))
    ensures Summarizable(GroupAdjacent(hits, idxGap, yGap))
    ensures hits != [] ==> GroupAdjacent(hits, idxGap, yGap) != []
  {
    BoxedComparable(hits);
    var gs := GroupAdjacent(hits, idxGap, yGap);
    GroupAdjacentShape(hits, idxGap, yGap);
    WellGroupedPointwise(gs, idxGap, yGap);
    forall m | 0 <= m < |gs| ensures gs[m] != [] && Boxed(gs[m]) {
      forall h: Hit | h in gs[m] ensures |h.bbox| >= 4 {
        GroupMember(hits, idxGap, yGap, m, h);
      }
    }
  }

  /** The groups `locate_md_in_pdf` forms from the candidates. */
  function LocateGroups(tokenize: string -> set<string>, mdText: string, pages: seq<Page>): (gs: seq<seq<Hit>>)
    requires Boxed(Candidates(tokenize, mdText, pages, Threshold))
    ensures Summarizable(gs)
    ensures Candidates(tokenize, mdText, pages, Threshold) != [] ==> gs != []
  {
    var candidates := Candidates(tokenize, mdText, pages, Threshold);
    GroupsBoxed(candidates, IdxGap, YGap);
    GroupAdjacent(candidates, IdxGap, YGap)
  }

  lemma SortHeadNonEmpty(rs: seq<Location>)
    requires rs != []
    ensures SortBy(rs, MoreConfident) != []
  {
    MoreConfidentOrder();
    SortHead(rs, MoreConfident);
  }

  /** What `locate_md_in_pdf` returns. */
  function Locate(tokenize: string -> set<string>, round3: real -> real, mdText: string,
                  pages: seq<Page>): Option<Location>
    requires Boxed(Candidates(tokenize, mdText, pages, Threshold))
  {
    if Candidates(tokenize, mdText, pages, Threshold) == [] then None
    else
      var gs := LocateGroups(tokenize, mdText, pages);
      var rs := Summaries(gs, round3);
      SummariesPointwise(gs, round3);
      SortHeadNonEmpty(rs);
      Some(SortBy(rs, MoreConfident)[0])
  }

  /** The loop of `locate_md_in_pdf` that builds one result entry per group. */
  method GroupResults(groups: seq<seq<Hit>>, round3: real -> real) returns (results: seq<Location>)
    requires Summarizable(groups)
    ensures results == Summaries(groups, round3)
  {
    results := [];
    for i := 0 to |groups|
      invariant Summarizable(groups[..i])
      invariant results == Summaries(groups[..i], round3)
    {
      SummariesStep(groups, i, round3);
      var g := groups[i];
      var bbox := MergeBboxes(g);
      var conf := SumScores(g) / (|g| as real);
      results := results + [Location(g[0].page, bbox, round3(conf))];
    }
    assert groups[..|groups|] == groups;
  }

  /** `locate_md_in_pdf`. */
  method LocateMdInPdf(tokenize: string -> set<string>, round3: real -> real, mdHitText: string,
                       pages: seq<Page>) returns (r: Option<Location>)
    requires Boxed(Candidates(tokenize, mdHitText, pages, Threshold))
    ensures r == Locate(tokenize, round3, mdHitText, pages)
  {
    var candidates := FindCandidateBlocks(tokenize, mdHitText, pages, Threshold);
    if candidates == [] {
      return None;
    }
    GroupsBoxed(candidates, IdxGap, YGap);
    var groups := GroupAdjacentBlocks(candidates, IdxGap, YGap);
    assert groups == LocateGroups(tokenize, mdHitText, pages);
    var results := GroupResults(groups, round3);
    SummariesPointwise(groups, round3);
    SortHeadNonEmpty(results);
    results := SortBy(results, MoreConfident);
    r := Some(results[0]);
  }

  /** `locate_md_in_pdf` returns None exactly when no block scores at least the threshold. */
  lemma LocateNone(tokenize: string -> set<string>, round3: real -> real, mdText: string, pages: seq<Page>)
    requires Boxed(Candidates(tokenize, mdText, pages, Threshold))
    ensures Locate(tokenize, round3, mdText, pages) == None <==>
      forall p, k :: 0 <= p < |pages| && 0 <= k < |pages[p].blocks| ==>
        Score(tokenize, mdText, pages[p].blocks[k]) < Threshold
  {
    var c := Candidates(tokenize, mdText, pages, Threshold);
    if c != [] {
      CandidatesIff(tokenize, mdText, pages, Threshold, c[0]);
    } else {
      forall p, k | 0 <= p < |pages| && 0 <= k < |pages[p].blocks|
        ensures Score(tokenize, mdText, pages[p].blocks[k]) < Threshold
      {
        var b := pages[p].blocks[k];
        CandidatesIff(tokenize, mdText, pages, Threshold,
                      Hit(pages[p].pageNum, b.idx, b.bbox, Score(tokenize, mdText, b)));
      }
    }
  }

  /** Every group's mean score, the confidence before rounding, lies between the threshold
      and 1. */
  lemma LocateGroupsMean(tokenize: string -> set<string>, mdText: string, pages: seq<Page>)
    requires Boxed(Candidates(tokenize, mdText, pages, Threshold))
    ensures var groups := LocateGroups(tokenize, mdText, pages);
      forall m :: 0 <= m < |groups| ==> Threshold <= Mean(groups[m]) <= 1.0
  {
    var candidates := Candidates(tokenize, mdText, pages, Threshold);
    var groups := LocateGroups(tokenize, mdText, pages);
    GroupsBoxed(candidates, IdxGap, YGap);
    assert groups == GroupAdjacent(candidates, IdxGap, YGap);
    CandidatesScore(tokenize, mdText, pages, Threshold);
    forall m | 0 <= m < |groups| ensures Threshold <= Mean(groups[m]) <= 1.0 {
      forall h: Hit | h in groups[m] ensures Threshold <= h.score <= 1.0 {
        GroupMember(candidates, IdxGap, YGap, m, h);
      }
      MeanAtLeast(groups[m], Threshold);
      MeanAtMost(groups[m], 1.0);
    }
  }

  /** The located region is that of a group with the greatest rounded mean score, the
      earliest such group in grouping order: its page is the group's first member's page
      and its box the merged box of the group. */
  lemma LocateChoice(tokenize: string -> set<string>, round3: real -> real, mdText: string, pages: seq<Page>)
    requires Boxed(Candidates(tokenize, mdText, pages, Threshold))
    requires Locate(tokenize, round3, mdText, pages).Some?
    ensures var loc := Locate(tokenize, round3, mdText, pages).value;
      var groups := LocateGroups(tokenize, mdText, pages);
      exists m :: 0 <= m < |groups|
        && loc.page == groups[m][0].page
        && loc.bbox == MergeBboxes(groups[m])
        && loc.confidence == round3(Mean(groups[m]))
        && (forall m' :: 0 <= m' < |groups| ==> round3(Mean(groups[m'])) <= loc.confidence)
        && (forall m' :: 0 <= m' < m ==> round3(Mean(groups[m'])) < loc.confidence)
  {
    var groups := LocateGroups(tokenize, mdText, pages);
    var rs := Summaries(groups, round3);
    SummariesPointwise(groups, round3);
    MoreConfidentOrder();
    SortHead(rs, MoreConfident);
    var m :| FirstLeast(rs, MoreConfident, m) && SortBy(rs, MoreConfident)[0] == rs[m];
    assert rs[m] == Summary(groups[m], round3);
    forall m' | 0 <= m' < |groups| ensures round3(Mean(groups[m'])) <= rs[m].confidence {
      assert MoreConfident(rs[m], rs[m']);
    }
  }
}
