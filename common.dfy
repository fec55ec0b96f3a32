/** Value types shared by the three components: an optional value, the emitted chunk
    record and the page/block layout produced by the PDF layout extractor. */
module Common {

  datatype Option<T> = None | Some(value: T)

  /** One line of an emitted JSONL chunk file: {"id", "title", "contents"}. */
  datatype ChunkRecord = ChunkRecord(id: nat, title: string, contents: string)

  /** One block of the layout JSON, with the defaults of `dict.get` already applied
      (a missing "content" is "", a missing "bbox" is [], a missing "img_url" is ""). */
  datatype Block = Block(
    kind: string,           // "type"
    content: string,        // "content"
    bbox: seq<int>,         // "bbox": [x0, y0, x1, y1] when well formed
    idx: int,               // "idx", the block's index within its page
    format: Option<string>, // "format", present on equations
    imgUrl: string)         // "img_url"

  /** One page of the layout JSON. */
  datatype Page = Page(pageNum: int, pageSize: seq<int>, blocks: seq<Block>)
}
