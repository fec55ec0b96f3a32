/** Chunk-record construction of servers/myserver/src/myserver.py: the record loops of
    `chunk_md_documents` and `chunk_md_file_documents`, `extract_filename` and the path
    list of `get_citation_file`. The Markdown header splitter is outside the model: its
    output for each file is given as a list of `Doc`s. */
module Chunker {
  import opened Common
  import opened Strings
  import opened Normalizer

  /** One piece of Markdown as the header splitter returns it: the "section" metadata,
      when present, and the body. */
  datatype Doc = Doc(section: Option<string>, pageContent: string)

  /** One Markdown file: the stem of its name and the pieces the splitter cut it into. */
  datatype MdFile = MdFile(stem: string, docs: seq<Doc>)

  /** `doc.metadata.get("section", "")`. */
  function Title(d: Doc): string {
    match d.section
    case Some(t) => t
    case None => ""
  }

  /** `reflow_paragraphs(clean_text(doc.page_content))`. */
  function Body(d: Doc): string {
    Reflow(CleanText(d.pageContent))
  }

  // ---------------------------------------------------------------------------
  // chunk_md_documents

  /** The record loop of `chunk_md_documents`: one record per piece, numbered from 0 in
      split order. */
  method ChunkMdDocuments(docs: seq<Doc>) returns (chunks: seq<ChunkRecord>)
    ensures |chunks| == |docs|
    ensures forall i :: 0 <= i < |docs| ==> chunks[i] == ChunkRecord(i, Title(docs[i]), Body(docs[i]))
  {
    chunks := [];
    var currentChunkId := 0;
    for i := 0 to |docs|
      invariant |chunks| == i && currentChunkId == i
      invariant forall k :: 0 <= k < i ==> chunks[k] == ChunkRecord(k, Title(docs[k]), Body(docs[k]))
    {
      var contents := ReflowParagraphs(CleanText(docs[i].pageContent));
      chunks := chunks + [ChunkRecord(currentChunkId, Title(docs[i]), contents)];
      currentChunkId := currentChunkId + 1;
    }
  }

  // ---------------------------------------------------------------------------
  // chunk_md_file_documents

  /** The contents of a record of `chunk_md_file_documents`: the file stem and the section
      title, each behind a backslash, then a backslash and the cleaned body. */
  function RecordContents(stem: string, section: string, body: string): string {
    "\\" + stem + "\\" + section + "\\" + body
  }

  /** The record of piece `d` of file `stem`, numbered `id`. */
  function DocRecord(stem: string, d: Doc, id: nat): ChunkRecord {
    ChunkRecord(id, Title(d), RecordContents(stem, Title(d), Body(d)))
  }

  /** One record per element of `xs`, made by `rec` and numbered on from `first`. */
  function Numbered<X>(xs: seq<X>, first: nat, rec: (X, nat) -> ChunkRecord): seq<ChunkRecord> {
    if xs == [] then [] else Numbered(xs[..|xs| - 1], first, rec) + [rec(Last(xs), first + |xs| - 1)]
  }

  lemma NumberedStep<X>(xs: seq<X>, j: int, first: nat, rec: (X, nat) -> ChunkRecord)
    requires 0 <= j < |xs|
    ensures Numbered(xs[..j + 1], first, rec) == Numbered(xs[..j], first, rec) + [rec(xs[j], first + j)]
  {
    PrefixStep(xs, j);
  }

  /** The `k`-th record is made from the `k`-th element and numbered `first + k`. */
  lemma {:induction false} NumberedPointwise<X>(xs: seq<X>, first: nat, rec: (X, nat) -> ChunkRecord)
    ensures |Numbered(xs, first, rec)| == |xs|
    ensures forall k :: 0 <= k < |xs| ==> Numbered(xs, first, rec)[k] == rec(xs[k], first + k)
  {
    if xs != [] {
      var init := xs[..|xs| - 1];
      NumberedPointwise(init, first, rec);
      assert forall k :: 0 <= k < |init| ==> init[k] == xs[k];
    }
  }

  /** `DocRecord` for the pieces of file `stem`. */
  function RecordOf(stem: string): (Doc, nat) -> ChunkRecord {
    (d: Doc, id: nat) => DocRecord(stem, d, id)
  }

  /** The records of the pieces of one file, numbered from `first`. */
  function DocRecords(stem: string, docs: seq<Doc>, first: nat): seq<ChunkRecord> {
    Numbered(docs, first, RecordOf(stem))
  }

  /** The number of pieces in all files. */
  function PieceCount(files: seq<MdFile>): nat {
    if files == [] then 0 else PieceCount(files[..|files| - 1]) + |Last(files).docs|
  }

  /** The records of all files, numbered on across files. */
  function FileRecords(files: seq<MdFile>): seq<ChunkRecord> {
    if files == [] then []
    else
      var init := files[..|files| - 1];
      FileRecords(init) + DocRecords(Last(files).stem, Last(files).docs, PieceCount(init))
  }

  /** The inner record loop of `chunk_md_file_documents`: the records of one file, numbered
      on from `first`. */
  method FileChunks(docName: string, docs: seq<Doc>, first: nat) returns (chunks: seq<ChunkRecord>)
    ensures chunks == DocRecords(docName, docs, first)
  {
    chunks := [];
    var currentChunkId := first;
    for j := 0 to |docs|
      invariant chunks == DocRecords(docName, docs[..j], first)
      invariant currentChunkId == first + j
    {
      var section := Title(docs[j]);
      var contents := ReflowParagraphs(CleanText(docs[j].pageContent));
      var record := ChunkRecord(currentChunkId, section, RecordContents(docName, section, contents));
      assert record == DocRecord(docName, docs[j], first + j);
      DocRecordsStep(docName, docs, j, first);
      chunks := chunks + [record];
      currentChunkId := currentChunkId + 1;
    }
    assert docs[..|docs|] == docs;
  }

  lemma DocRecordsStep(stem: string, docs: seq<Doc>, j: int, first: nat)
    requires 0 <= j < |docs|
    ensures DocRecords(stem, docs[..j + 1], first)
      == DocRecords(stem, docs[..j], first) + [DocRecord(stem, docs[j], first + j)]
  {
    NumberedStep(docs, j, first, RecordOf(stem));
  }

  /** The record loops of `chunk_md_file_documents`. */
  method ChunkMdFileDocuments(files: seq<MdFile>) returns (chunks: seq<ChunkRecord>)
    ensures chunks == FileRecords(files)
  {
    chunks := [];
    var currentChunkId := 0;
    for i := 0 to |files|
      invariant chunks == FileRecords(files[..i])
      invariant currentChunkId == PieceCount(files[..i])
    {
      PrefixStep(files, i);
      var fileChunks := FileChunks(files[i].stem, files[i].docs, currentChunkId);
      chunks := chunks + fileChunks;
      currentChunkId := currentChunkId + |files[i].docs|;
      assert |fileChunks| == |files[i].docs| by { DocRecordsPointwise(files[i].stem, files[i].docs, PieceCount(files[..i])); }
    }
    assert files[..|files|] == files;
  }

  /** The `k`-th record of a file is that of its `k`-th piece, numbered `first + k`. */
  lemma DocRecordsPointwise(stem: string, docs: seq<Doc>, first: nat)
    ensures |DocRecords(stem, docs, first)| == |docs|
    ensures forall k :: 0 <= k < |docs| ==> DocRecords(stem, docs, first)[k] == DocRecord(stem, docs[k], first + k)
  {
    NumberedPointwise(docs, first, RecordOf(stem));
  }

  /** `chunk_md_file_documents` numbers its records 0, 1, ..., one per piece of every file. */
  lemma {:induction false} FileRecordsIds(files: seq<MdFile>)
    ensures |FileRecords(files)| == PieceCount(files)
    ensures forall k :: 0 <= k < |FileRecords(files)| ==> FileRecords(files)[k].id == k
  {
    if files != [] {
      var init := files[..|files| - 1];
      FileRecordsIds(init);
      DocRecordsPointwise(Last(files).stem, Last(files).docs, PieceCount(init));
    }
  }

  // ---------------------------------------------------------------------------
  // extract_filename

  /** The pattern `\\([^\\]+)\\` matches `s` from `i` to `j`: backslashes at both ends and
      at least one character, none a backslash, between them. */
  ghost predicate MatchAt(s: string, i: int, j: int) {
    0 <= i && i + 1 < j < |s| && s[i] == '\\' && s[j] == '\\'
    && forall m :: i < m < j ==> s[m] != '\\'
  }

  ghost predicate MatchesAt(s: string, i: int) {
    exists j :: MatchAt(s, i, j)
  }

  /** The first backslash at or after `i`, or `|s|`. */
  function NextBackslash(s: string, i: int): (j: int)
    requires 0 <= i <= |s|
    ensures i <= j <= |s| && (j < |s| ==> s[j] == '\\')
    ensures forall m :: i <= m < j ==> s[m] != '\\'
    decreases |s| - i
  {
    if i == |s| || s[i] == '\\' then i else NextBackslash(s, i + 1)
  }

  /** A match starting at `i` can only end at the first backslash after `i`. */
  lemma MatchEnd(s: string, i: int, j: int)
    requires MatchAt(s, i, j)
    ensures j == NextBackslash(s, i + 1)
  {
  }

  /** `pattern.search(s)` from position `i` on, as the two ends of the match. */
  function SearchFrom(s: string, i: int): (r: Option<(int, int)>)
    requires 0 <= i <= |s|
    ensures r.Some? ==> i <= r.value.0 < r.value.1 < |s|
    decreases |s| - i
  {
    if i == |s| then None
    else if s[i] == '\\' && i + 1 < NextBackslash(s, i + 1) < |s| then Some((i, NextBackslash(s, i + 1)))
    else SearchFrom(s, i + 1)
  }

  lemma NoMatchAt(s: string, i: int)
    requires 0 <= i < |s|
    requires s[i] == '\\' ==> !(i + 1 < NextBackslash(s, i + 1) < |s|)
    ensures !MatchesAt(s, i)
  {
  }

  /** The search finds the leftmost match at or after `i`, and finds none only when there
      is none. */
  lemma {:induction false} SearchFromSpec(s: string, i: int)
    requires 0 <= i <= |s|
    ensures var r := SearchFrom(s, i);
      && (r.Some? ==> i <= r.value.0 && MatchAt(s, r.value.0, r.value.1))
      && (r.Some? ==> forall m :: i <= m < r.value.0 ==> !MatchesAt(s, m))
      && (r.None? ==> forall m :: i <= m < |s| ==> !MatchesAt(s, m))
    decreases |s| - i
  {
    if i < |s| && !(s[i] == '\\' && i + 1 < NextBackslash(s, i + 1) < |s|) {
      NoMatchAt(s, i);
      SearchFromSpec(s, i + 1);
    }
  }

  /** `extract_filename`: the text between the backslashes of the leftmost match, or
      None when nothing matches. */
  function ExtractFilename(s: string): Option<string> {
    match SearchFrom(s, 0)
    case None => None
    case Some((i, j)) => Some(s[i + 1..j])
  }

  /** `extract_filename` gives None exactly when the pattern matches nowhere, and otherwise
      the enclosed text of a match before which no match starts. */
  lemma ExtractFilenameSpec(s: string)
    ensures ExtractFilename(s).None? <==> forall i :: 0 <= i < |s| ==> !MatchesAt(s, i)
    ensures ExtractFilename(s).Some? ==> exists i, j ::
      MatchAt(s, i, j) && ExtractFilename(s).value == s[i + 1..j]
      && forall m :: 0 <= m < i ==> !MatchesAt(s, m)
  {
    SearchFromSpec(s, 0);
    if SearchFrom(s, 0).Some? {
      var (i, j) := SearchFrom(s, 0).value;
      assert MatchesAt(s, i);
    }
  }

  /** There is at most one match starting at a given position, so the text `extract_filename`
      returns is determined by where the leftmost match starts. */
  lemma MatchUnique(s: string, i: int, j: int, j': int)
    requires MatchAt(s, i, j) && MatchAt(s, i, j')
    ensures j == j'
  {
    MatchEnd(s, i, j);
    MatchEnd(s, i, j');
  }

  /** A non-empty name without backslashes, put first between backslashes, is what
      `extract_filename` finds: `extract_filename` inverts the contents format of
      `chunk_md_file_documents`. */
  lemma ExtractFilenameOfFormat(name: string, section: string, body: string)
    requires name != [] && '\\' !in name
    ensures ExtractFilename(RecordContents(name, section, body)) == Some(name)
  {
    var s := RecordContents(name, section, body);
    var j := |name| + 1;
    assert s == "\\" + name + "\\" + (section + "\\" + body);
    assert forall m :: 0 < m < j ==> s[m] == name[m - 1];
    assert MatchAt(s, 0, j);
    var r := SearchFrom(s, 0);
    SearchFromSpec(s, 0);
    assert MatchesAt(s, 0);
    MatchEnd(s, 0, j);
    MatchEnd(s, 0, r.value.1);
    assert s[1..j] == name;
  }

  // ---------------------------------------------------------------------------
  // get_citation_file

  /** `os.path.join(a, b)` on POSIX: an absolute `b` replaces `a`, otherwise one slash
      separates them unless `a` is empty or already ends with one. */
  function PathJoin(a: string, b: string): (r: string)
    ensures |b| <= |r| && r[|r| - |b|..] == b
  {
    if b != [] && b[0] == '/' then b
    else if a == [] || EndsWith(a, '/') then a + b
    else a + "/" + b
  }

  /** `f"{file_name}.pdf"`, where a missing name prints as "None". */
  function PdfName(name: Option<string>): string {
    match name
    case Some(n) => n + ".pdf"
    case None => "None.pdf"
  }

  /** The path `get_citation_file` lists for one retrieved text. */
  function CitationPath(dataDir: string, text: string): string {
    PathJoin(dataDir, PdfName(ExtractFilename(text)))
  }

  /** The paths `get_citation_file` lists for the texts, in order. */
  function CitationPaths(dataDir: string, texts: seq<string>): seq<string> {
    Map(t => CitationPath(dataDir, t), texts)
  }

  /** The loops of `get_citation_file`, with the data directory as a parameter. */
  method GetCitationFile(dataDir: string, retCitationPsg: seq<seq<string>>) returns (resultPsg: seq<string>)
    ensures resultPsg == CitationPaths(dataDir, Flatten(retCitationPsg))
  {
    resultPsg := [];
    for i := 0 to |retCitationPsg|
      invariant resultPsg == CitationPaths(dataDir, Flatten(retCitationPsg[..i]))
    {
      PrefixStep(retCitationPsg, i);
      var docsList := retCitationPsg[i];
      ghost var done := Flatten(retCitationPsg[..i]);
      assert done + docsList[..0] == done;
      for j := 0 to |docsList|
        invariant resultPsg == CitationPaths(dataDir, done + docsList[..j])
      {
        var fileName := ExtractFilename(docsList[j]);
        var filePath := PathJoin(dataDir, PdfName(fileName));
        CitationPathsStep(dataDir, done, docsList, j);
        resultPsg := resultPsg + [filePath];
      }
      assert docsList[..|docsList|] == docsList;
    }
    assert retCitationPsg[..|retCitationPsg|] == retCitationPsg;
  }

  lemma CitationPathsStep(dataDir: string, done: seq<string>, texts: seq<string>, j: int)
    requires 0 <= j < |texts|
    ensures CitationPaths(dataDir, done + texts[..j + 1])
      == CitationPaths(dataDir, done + texts[..j]) + [CitationPath(dataDir, texts[j])]
  {
    assert done + texts[..j + 1] == (done + texts[..j]) + [texts[j]];
    MapSnoc(t => CitationPath(dataDir, t), done + texts[..j], texts[j]);
  }

  /** One path per retrieved text, in order: the `k`-th path belongs to the `k`-th text. */
  lemma CitationPathsPointwise(dataDir: string, texts: seq<string>)
    ensures |CitationPaths(dataDir, texts)| == |texts|
    ensures forall k :: 0 <= k < |texts| ==> CitationPaths(dataDir, texts)[k] == CitationPath(dataDir, texts[k])
  {
    MapPointwise(t => CitationPath(dataDir, t), texts);
  }

  /** Every listed path ends with ".pdf". */
  lemma CitationPathPdf(dataDir: string, text: string)
    ensures var p := CitationPath(dataDir, text); |p| >= 4 && p[|p| - 4..] == ".pdf"
  {
    var name := PdfName(ExtractFilename(text));
    assert |name| >= 4 && name[|name| - 4..] == ".pdf";
    SuffixOfSuffix(PathJoin(dataDir, name), name, 4);
  }

  /** A text without a backslash-enclosed name gives the file "None.pdf". */
  lemma CitationPathNone(dataDir: string, text: string)
    requires forall i :: 0 <= i < |text| ==> !MatchesAt(text, i)
    ensures CitationPath(dataDir, text) == PathJoin(dataDir, "None.pdf")
  {
    ExtractFilenameSpec(text);
  }

  /** A file record's contents give the PDF of its file. */
  lemma CitationOfFileRecord(dataDir: string, stem: string, section: string, body: string)
    requires stem != [] && '\\' !in stem
    ensures CitationPath(dataDir, RecordContents(stem, section, body)) == PathJoin(dataDir, stem + ".pdf")
  {
    ExtractFilenameOfFormat(stem, section, body);
  }
}
