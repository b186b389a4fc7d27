/** The parser from its buffers to its blocks: cmark_parser_feed, cmark_parser_finish and the lines between them. */
module DocumentFeed {

  import opened BlockLines
  import opened BlockScan
  import opened BlockTree
  import LineSplitter
  import OpenBlocks

  // The open blocks are those of the lines of the text.
  ghost predicate ReadsText(scan: Scanners, text: string, fs: Chain) {
    fs == Run(scan, LineSplitter.Lines(text))
  }

  /** However a document is cut into buffers, the blocks open at its end are those of the run on its lines, unless an empty
      buffer tears a CRLF; buffers that are not empty tear none. */
  method Feed(scan: Scanners, chunks: seq<string>, eof: bool, beyond: char) returns (parser: OpenBlocks.Parser)
    ensures fresh(parser) && parser.Valid() && forall b <- parser.nodes :: fresh(b)
    ensures !LineSplitter.Torn(false, chunks) ==> ReadsText(scan, LineSplitter.Concat(chunks), Frames(parser.current))
    ensures "" !in chunks ==> ReadsText(scan, LineSplitter.Concat(chunks), Frames(parser.current))
  {
    if "" !in chunks {
      LineSplitter.NoEmptyNotTorn(false, chunks);
    }
    var lines := LineSplitter.ProcessChunks(chunks, eof, beyond);
    parser := OpenBlocks.ProcessLines(scan, lines);
  }

  /** A document is cut in any way and read to its end: every block is closed, and the tree is well formed. */
  method Parse(scan: Scanners, chunks: seq<string>, eof: bool, beyond: char) returns (parser: OpenBlocks.Parser)
    ensures fresh(parser) && Family(parser.root, parser.nodes)
    ensures forall b <- parser.nodes :: fresh(b) && !b.open
  {
    parser := Feed(scan, chunks, eof, beyond);
    LineageInTree(parser.root, parser.nodes, parser.current);
    parser.FinalizeDocument();
  }
}
