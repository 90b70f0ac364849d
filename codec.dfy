/**
 * The two commands of main.py on in-memory data: `encode` turns the text of a file into
 * the bytes of the compressed file, `decode` turns those bytes into the text it writes.
 */
module Codec {
  import opened Wrappers
  import opened Dicts
  import opened PyStr
  import opened Utf8
  import opened HuffmanTree
  import opened Frequency
  import opened CodeTable
  import opened Header
  import opened Container
  import opened Bits
  import opened Decoder

  /** The compressed file `write_output` produces for `contents` under `table`. */
  function FileOf(table: Dict<char, string>, contents: string): seq<byte> {
    var bitStr := Codes(contents, table);
    Encode(HeaderText(table, |bitStr|)) + Pack(Bools(bitStr))
  }

  /** A table `generate_table` can produce for `contents`: usable, with a code for each symbol of it. */
  predicate TableFor(table: Dict<char, string>, contents: string) {
    WellFormedTable(table) && forall c :: HasKey(table, c) <==> c in contents
  }

  /**
   * `decode` on the bytes of a file: `find_header_and_size`, then `build_table`, then
   * `write_decoded` from the payload offset. An error before `write_decoded` writes nothing.
   */
  function DecodeSpec(file: seq<byte>): Decoded {
    match FindHeaderAndSize(file)
    case Err(e) => Decoded("", "", Some(e))
    case Ok((header, start, size)) =>
      match TableOf(file, header)
      case Err(e) => Decoded("", "", Some(e))
      case Ok(table) => Decoding(From(file, start), size, table)
  }

  /** `decode(filename, output)` on the file's bytes. */
  method DecodeFile(file: seq<byte>) returns (d: Decoded)
    ensures d == DecodeSpec(file)
  {
    var found := FindHeaderAndSize(file);
    if found.Err? {
      return Decoded("", "", Some(found.error));
    }
    var (header, start, size) := found.value;
    var table := BuildTable(file, header);
    if table.Err? {
      return Decoded("", "", Some(table.error));
    }
    d := WriteDecoded(From(file, start), size, table.value);
  }

  /**
   * `encode(filename, output)` on the file's text. An empty text fails in
   * `generate_tree` with `IndexError`; any other text gives a file that `decode` turns
   * back into exactly that text, with nothing left over and no error.
   */
  method EncodeFile(contents: string) returns (r: Result<seq<byte>>)
    ensures r.Err? <==> contents == []
    ensures r.Err? ==> r.error == IndexError
    ensures r.Ok? ==> exists table :: TableFor(table, contents) && r.value == FileOf(table, contents)
    ensures r.Ok? ==> DecodeSpec(r.value) == Decoded(contents, "", None)
  {
    var nodes, counter := GetFrequency(contents);
    var tree := GenerateTree(nodes);
    if tree.Err? {
      return Err(tree.error);
    }
    var table := GenerateTable(tree.value);
    TreeTableFor(contents, nodes, tree.value, table);
    // The table has a code for every symbol, so neither loop meets a `KeyError`.
    CountsCovered(contents, counter, table);
    var size := EncodedSize(counter, table);
    assert size.Ok?;
    SizeIsBitLength(contents, table);
    var header := GenerateHeader(table, size.value);
    var bitStr := BitString(contents, table);
    assert bitStr.Ok?;
    CodesBinary(contents, table);
    var bits := BitsOf(bitStr.value);
    r := Ok(Encode(header) + Pack(bits.value));
    assert r.value == FileOf(table, contents);
    FileRoundTrip(table, contents);
  }

  /** The table built from the tree of `contents` has a code for exactly the symbols of `contents`. */
  lemma TreeTableFor(contents: string, nodes: seq<Node>, tree: Node, table: Dict<char, string>)
    requires forall c :: ForestSyms(nodes)[c] == if c in contents then 1 else 0
    requires LeafSyms(Some(tree)) == ForestSyms(nodes)
    requires tree.symbol.None?
    requires DistinctLeaves(tree) ==> table == Paths(Some(tree), "")
    ensures TableFor(table, contents)
  {
    TreeTable(tree);
  }

  lemma CountsCovered(contents: string, counter: Dict<char, nat>, table: Dict<char, string>)
    requires counter == CountOf(contents)
    requires TableFor(table, contents)
    ensures CoversCounts(table, counter) && Covers(table, contents)
  {
    CountOfCorrect(contents);
    forall i | 0 <= i < |counter| ensures HasKey(table, counter[i].0) {
      HasKeyIff(counter, counter[i].0);
    }
  }

  /** `decode` on a file whose markers and table are found runs the decoding loop on its payload. */
  lemma DecodeAt(file: seq<byte>, header: int, start: int, size: int, table: Dict<string, string>)
    requires FindHeaderAndSize(file) == Ok((header, start, size))
    requires TableOf(file, header) == Ok(table)
    ensures DecodeSpec(file) == Decoding(From(file, start), size, table)
  {
  }

  /** The payload decodes back to the text. */
  lemma PayloadDecoding(table: Dict<char, string>, contents: string)
    requires WellFormedTable(table) && Covers(table, contents)
    ensures var bitStr := Codes(contents, table);
            Decoding(Pack(Bools(bitStr)), |bitStr|, Swap(table)) == Decoded(contents, "", None)
  {
    var bitStr := Codes(contents, table);
    PackedPrefix(Bools(bitStr));
    FeedCodes(table, contents, "");
    assert "" + contents == contents;
  }

  /** The bytes after the header are the payload. */
  lemma PayloadAt(header: seq<byte>, payload: seq<byte>)
    ensures From(header + payload, |header|) == payload
  {
  }

  /** Decoding the compressed file gives the text back. */
  lemma FileRoundTrip(table: Dict<char, string>, contents: string)
    requires TableFor(table, contents)
    ensures DecodeSpec(FileOf(table, contents)) == Decoded(contents, "", None)
  {
    var bitStr := Codes(contents, table);
    var size := |bitStr|;
    var payload := Pack(Bools(bitStr));
    var file := FileOf(table, contents);
    assert Covers(table, contents);
    HeaderPositions(table, size, payload);
    HeaderTable(table, size, payload);
    PayloadAt(Encode(HeaderText(table, size)), payload);
    DecodeAt(file, |Encode(Records(table))|, |Encode(HeaderText(table, size))|, size, Swap(table));
    PayloadDecoding(table, contents);
  }
}
