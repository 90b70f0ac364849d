# Huffman codec, modelled in Dafny

This project models the Huffman codec in `main.py` of the `huffman-encoding`
repository and proves its properties.

**Encoding** (`encode`):
1. Count the symbols of the input text and sort the leaves by count.
2. Build the prefix tree by merging the two lightest nodes again and again. A single
   distinct symbol is wrapped under a root that has only a left child.
3. Walk the tree to get each symbol's code: '0' for left, '1' for right.
4. Write the header:
   - one record `'<symbol>':<code>,` per line, with a quote symbol written as `\'`;
   - then `HEADER`, the number of payload bits in decimal, and `SIZE`.
5. Concatenate the codes of the text into a bit string and pack it MSB-first into
   bytes, zero-padding the last byte.

**Decoding** (`decode`):
1. Find the two markers in the compressed file and read the bit count between them.
2. Parse the records before `HEADER` into a table from code to symbol.
3. Feed the payload bits one at a time into a growing prefix. Each time the prefix is a
   code, write its symbol and clear the prefix, for exactly the bit count.

Both halves are modelled on in-memory data:
- the input text is a `string`;
- the compressed file is a `seq<byte>`;
- the header is encoded to, and decoded from, UTF-8.

Python's own operations are written out so that the model has the same edge cases:
- a dict is an insertion-ordered list of pairs (module `Dicts`);
- `find` returns -1 when nothing matches;
- slices with negative or out-of-range bounds (`PySlice`, `From`);
- `strip` with Python's whitespace set;
- `str(n)` and `int(s)`, without CPython's limit on the number of digits (see "## Left out");
- strict UTF-8 encoding and decoding (module `Utf8`);
- `bitarray`'s `tobytes` and `frombytes` (module `Bits`).

Every error the source can raise on the modelled path is an `Err` or `Some(error)` value, except the `ValueError` of CPython's integer-string digit limit (see "## Left out"):
- `IndexError`: an empty input; or a bit count larger than the payload holds.
- `KeyError`: a symbol without a code.
- `ValueError`: a malformed bit count.
- `UnicodeDecodeError`: an invalid UTF-8 header.
- `AttributeError`: a record without digits.

The main results:
- The code table built from the tree is usable by the decoder:
  - it has one code for each symbol of the input;
  - every code is a non-empty string over '0'/'1';
  - no code is a prefix of another.
  
  (`TreeTable`, `PathsPrefixFree`)
- The header round trip. Parsing the text before `HEADER` gives back the inverted table
  in the same order, including quote, backslash and whitespace symbols
  (`ParseHeaderRecords`).
- In the encoded bytes, `find_header_and_size` finds:
  - the position of `HEADER`;
  - the payload offset;
  - the bit count that was written.
  
  (`HeaderPositions`, `HeaderTable`)
- The size computed from the counts equals the length of the concatenated codes
  (`SizeIsBitLength`).
- Packing followed by unpacking gives the bits back, followed by zero padding
  (`UnpackPack`).
- The online decoder writes back exactly the text and leaves no prefix over
  (`FeedCodes`).
- End to end, for every non-empty text: decoding the file `EncodeFile` produces gives
  the text back, with nothing left over and no error (`EncodeFile`, `FileRoundTrip`).

On three edge cases the model keeps exactly what main.py does:
- An empty input is not encoded: `generate_tree` indexes `frequency[0]` on an empty
  list and fails with `IndexError`.
- A file without the markers is not rejected. Both `find`s give -1, so the bit count is
  read from `text[6:-1]` and the payload is taken to start at offset 5
  (`MissingMarkers`). For the bytes `0123456789` the result is
  `(-1, 5, 678)` (`MissingMarkersDigits`).
- A non-empty prefix left over after the last bit is not reported as an error. It is
  returned in `Decoded.leftover` so that the contracts can say it is empty for files
  `encode` writes.

## Model

| member | source | states |
|---|---|---|
| HuffmanTree.MinIndex | main.py:36 | the position returned holds a node of least weight in the work list |
| HuffmanTree.MergeStep | main.py:35-37 | one merge round: removing the two lightest nodes and appending their parent keeps the work list's total weight, its multiset of leaf symbols, and the shape in which every parent weighs the sum of its children and the lighter child is on the left |
| HuffmanTree.ForestPermutation | main.py:30-36 | the total weight and the leaf symbols of a work list do not depend on its order |
| HuffmanTree.GenerateTree | main.py:32-38 | fails with IndexError exactly on an empty list; one node is wrapped under a root with only that left child; otherwise the root weighs the total and the leaves are exactly the input's symbols; from two or more leaves the root carries no symbol and every parent weighs the sum of its children, the lighter on the left |
| Frequency.CountOfCorrect | main.py:30 | the counter has distinct keys, a key for exactly the symbols of the text, and each count is the symbol's number of occurrences |
| Frequency.CountSymbols | main.py:30 | the counting loop gives the counter, with the same guarantees |
| Frequency.TotalCountOf | main.py:66-68 | summing count times weight over the counter equals summing the weight over every position of the text |
| Frequency.TotalIncrement | main.py:30 | counting one more occurrence of a symbol adds that symbol's weight to the weighted total |
| Frequency.LeavesOf | main.py:30 | one leaf per counter entry, in the counter's order, weighing that entry's count |
| Frequency.LeavesOfWeight | main.py:30 | the leaves weigh as much as the counts add up to |
| Frequency.LeavesOfSyms | main.py:30 | the leaves carry each key of the counter once |
| Frequency.InsertByFreq | main.py:30 | inserting a node adds exactly that node to the list |
| Frequency.InsertSorted | main.py:30 | inserting into a list sorted by weight keeps it sorted |
| Frequency.SortByFreq | main.py:30 | the result is sorted by weight and is a permutation of the input |
| Frequency.GetFrequency | main.py:27-30 | the leaves are sorted by weight, are a permutation of the counter's leaves, weigh the length of the text in total, carry each symbol of the text exactly once, and are empty exactly for an empty text |
| CodeTable.Dfs | main.py:42-49 | the walk assigns, in order, the (symbol, path) pairs of the leaves below the node |
| CodeTable.GenerateTable | main.py:40-51 | the table is the leaves' paths assigned into an empty dict, and is exactly the list of paths when leaf symbols are distinct |
| Dicts.Put | main.py:46 | `d[k] = v` keeps the length for a present key and adds one entry for a new key |
| Dicts.PutProps | main.py:120 | after `d[k] = v`, `k` maps to `v`, every other key keeps its presence and value, and keys stay distinct |
| CodeTable.PutAllAppend | main.py:46 | assigning two batches of entries is assigning the first, then the second |
| CodeTable.PathsKeys | main.py:40-51 | the symbols recorded are the tree's leaf symbols, as a multiset |
| CodeTable.PathsDistinct | main.py:40-51 | with distinct leaf symbols, each symbol gets one entry |
| CodeTable.PathsExtend | main.py:42-49 | every code starts with the prefix the walk started from; below an internal node it is strictly longer than that prefix; it is binary when the prefix is |
| CodeTable.Diverge | main.py:48-49 | a code through the left child and a code through the right child are neither prefixes of each other |
| CodeTable.PathsPrefixFree | main.py:42-49 | no recorded code is a prefix of another entry's code, because the walk stops at a leaf |
| CodeTable.PathsFollow | main.py:42-49 | following a recorded code from the root, '0' left and '1' right, ends at the leaf with that entry's symbol |
| CodeTable.FollowPaths | main.py:42-49 | conversely, every path ending at a leaf is recorded with that leaf's symbol |
| CodeTable.TreeTable | main.py:40-51 | a tree with distinct leaf symbols and an internal root gives distinct keys, non-empty binary prefix-free codes, and a code for exactly the leaf symbols |
| CodeTable.SingleSymbolTable | main.py:33-34 | with a single symbol `c` the table is `{c: "0"}` |
| Header.RecordsAppend | main.py:55-59 | the records of a table with one more entry are its records followed by that entry's record |
| Header.GenerateHeader | main.py:53-63 | the loop writes the records of every entry, with the quote escaped, in table order, then `HEADER`, the size in decimal and `SIZE` |
| Header.StringParse | main.py:98-104 | on non-empty data, what remains is shorter than the data |
| Header.NumberParse | main.py:106-111 | fails with AttributeError exactly when the data does not start with a digit; otherwise returns the leading run of digits and a shorter rest |
| Header.ParseStep | main.py:116-119 | one turn of the loop that succeeds leaves less data than it started with |
| Header.Parse | main.py:113-121 | the loop computes the record-by-record reading of the data, which stops at the first error |
| Header.Swap | main.py:120 | the inverted table lists each entry as (code, symbol) in the same order |
| Header.StripAfter | main.py:101-104 | stripping text that starts with a non-space character only strips its end |
| Header.StringParseRecord | main.py:57-59 | reading a written record's symbol gives the symbol back, for a quote through its escape, and leaves the text after the closing quote, stripped |
| Header.NumberParseRecord | main.py:106-111 | reading a written code gives the code back and leaves the comma that follows it |
| Header.StepRecord | main.py:113-119 | one turn of the loop on a written record yields (code, symbol) and the following text, stripped |
| Header.NextRecords | main.py:119 | stripping the newline before the next record leaves that record |
| Header.ParseRecords | main.py:113-121 | parsing the records of a table with digit codes assigns its inverted entries in order |
| Header.ParseHeaderRecords | main.py:53-63 | with distinct digit codes, parsing what the header's records say gives exactly the inverted table |
| PyStr.FindFromFirst | main.py:102 | `find` returns the first occurrence at or after the start, or -1 when there is none |
| PyStr.FindFirst | main.py:93-94 | an occurrence with none before it is what `find` returns |
| PyStr.Find | main.py:93-94 | `find`: FindFromFirst and FindFirst state that it is the first occurrence, or -1 |
| PyStr.PySlice | main.py:103 | a slice is never longer than the sequence, and is the ordinary subsequence for in-range bounds |
| PyStr.From | main.py:99 | a suffix slice is the ordinary suffix for in-range bounds, and is shorter than the data when it drops anything |
| PyStr.LStrip | main.py:104 | the result starts with a non-space character or is empty |
| PyStr.RStrip | main.py:104 | the result ends with a non-space character or is empty |
| PyStr.Strip | main.py:101 | `strip()` leaves a text that is empty or starts and ends with a non-space character, never longer |
| PyStr.LStripSuffix | main.py:104 | `lstrip()` removes characters from the front only |
| PyStr.RStripAppend | main.py:119 | trailing whitespace is removed from the second part of a concatenation only, when the first part cannot be reached |
| PyStr.DigitPrefix | main.py:107-109 | the match of `^\d+` is a prefix made of digits that stops before a non-digit or at the end |
| PyStr.DigitPrefixOf | main.py:107-109 | digits followed by a non-digit match exactly those digits |
| PyStr.NatToDecimal | main.py:61 | `str(n)` is a non-empty run of digits |
| PyStr.DecimalValue | main.py:61 | the digits of `str(n)` have the value `n` |
| PyStr.ParseInt | main.py:95 | `int` fails only with ValueError |
| PyStr.ParseIntOfDecimal | main.py:61 | `int(str(n)) == n` |
| Utf8.EncodeChar | main.py:72 | a character takes one to four bytes; ASCII is one byte of the same value; a non-ASCII character has every byte at least 0x80 |
| Utf8.EncodeAppend | main.py:72 | encoding a concatenation is concatenating the encodings |
| Utf8.EncodeAscii | main.py:72 | ASCII text is encoded byte for byte |
| Utf8.Decode | main.py:127 | decoding fails only with UnicodeDecodeError |
| Utf8.DecodeFirstChar | main.py:127 | the first character decoded from an encoded character is that character, which took its own length |
| Utf8.DecodeEncode | main.py:72 | decoding the encoding of any text gives the text back |
| Utf8.Encode | main.py:72 | `str.encode()` takes at least one byte per character; DecodeEncode and EncodeAppend give it its meaning |
| Utf8.DecodeAscii | main.py:95 | bytes below 0x80 decode to one character per byte |
| Container.FindHeaderAndSize | main.py:89-96 | `find_header_and_size` fails only with `UnicodeDecodeError` or `ValueError`; the `HEADER` position is -1 or leaves room for the marker, and the payload offset is 5 or within the file; HeaderPositions and MissingMarkers say what it returns |
| Container.ReadSize | main.py:95 | `int(field.decode())` fails only with `UnicodeDecodeError` or `ValueError`; SizeField shows it reads back `str(size)` |
| Container.MissingMarkers | main.py:93-96 | with neither marker in the file, the positions are -1 and 5 and the count is read from `text[6:-1]` |
| Container.MissingMarkersDigits | main.py:93-96 | the file `0123456789` gives `(-1, 5, 678)` |
| Container.ReadPrefix | main.py:126 | `read(n)` yields a prefix of the file: all of it for -1 or a count past the end, `n` bytes for `n` in range; counts below -1 are refused before it (TableOf) |
| Container.BuildTable | main.py:123-127 | `build_table` decodes the bytes before the position and parses them, failing with the decoder's or the parser's error |
| Container.RecordsFollowed | main.py:59 | in the records, an `H` and a newline are each followed by a quote or end the records |
| Container.EncodeFollowed | main.py:72 | that property of two ASCII characters carries over to the encoded bytes |
| Container.FindHeaderMarker | main.py:93 | `HEADER` is first found right after the records |
| Container.FindSizeMarker | main.py:94 | `\nSIZE\n` is first found right after the bit count's digits |
| Container.SizeField | main.py:95 | the bytes of `str(size)` read back as `size` |
| Container.HeaderBytes | main.py:60-62 | the encoded header is the encoded records, `HEADER\n`, the digits and `\nSIZE\n` |
| Container.HeaderPositions | main.py:89-96 | on a file `encode` writes, `find_header_and_size` returns the position where the records end, the offset just past `\nSIZE\n`, and the size that was written |
| Container.HeaderTable | main.py:123-127 | `build_table` at that position returns the inverted code table |
| Bits.EncodedSize | main.py:66-68 | fails with KeyError exactly when a counted symbol has no code; otherwise returns count times code length summed over the counter |
| Bits.BitString | main.py:78-80 | fails with KeyError exactly when a symbol of the text has no code; otherwise returns the codes of the text concatenated in order |
| Bits.CodesLength | main.py:78-80 | the bit string is as long as the code lengths summed over the text |
| Bits.SizeIsBitLength | main.py:66-68 | the size written in the header equals the length of the bit string written after it |
| Bits.CodesBinary | main.py:78-81 | concatenated binary codes form a binary string |
| Bits.CodesAppend | main.py:79-80 | the bit string of two texts in a row is the two bit strings in a row |
| Bits.BitsOf | main.py:81 | `bitarray(s)` succeeds exactly on strings of '0' and '1', with bit `i` set when character `i` is '1'; otherwise it fails with ValueError |
| Bits.BitValue | main.py:82 | the value of `n` bits is below 2^n, so eight bits fit in a byte |
| Bits.ByteBitsOfValue | main.py:135 | reading back the bits of a value, most significant first, gives those bits |
| Bits.Pack | main.py:82 | `tobytes` writes `ceil(n/8)` bytes for `n` bits; UnpackPack gives the bytes their meaning |
| Bits.Unpack | main.py:134-135 | `frombytes` yields eight bits per byte; UnpackPack inverts Pack with it |
| Bits.UnpackPack | main.py:82 | unpacking the packed bytes gives the bits followed by the zero padding of the last byte |
| Bits.PackedPrefix | main.py:134-138 | the first `n` bits unpacked from the packing of `n` bits are those bits |
| Decoder.FeedAppend | main.py:137-145 | feeding two runs of bits is feeding the first, then the second from where it left off |
| Decoder.WriteDecoded | main.py:129-145 | the loop feeds the first `size` bits (none for `size <= 0`); it stops with IndexError, after writing what it decoded, exactly when `size` exceeds eight bits per payload byte |
| Decoder.ProperPrefixNoCode | main.py:143 | in a prefix-free table, no proper prefix of a code is a key of the inverted table |
| Decoder.SwapGet | main.py:143-144 | the inverted table maps each code to its symbol |
| Decoder.FeedPrefix | main.py:137-142 | feeding part of a code only accumulates it |
| Decoder.FeedCode | main.py:137-145 | feeding a whole code writes its symbol and empties the prefix |
| Decoder.FeedCodes | main.py:136-145 | feeding the bits of the concatenated codes of a text writes exactly that text and leaves the prefix empty |
| Codec.DecodeFile | main.py:164-175 | `decode` finds the markers, builds the table and runs the decoding loop from the payload offset; an earlier error writes nothing |
| Codec.EncodeFile | main.py:149-162 | fails with IndexError exactly on an empty text; otherwise the file is the header and packed codes under a usable table covering the text, and decoding it gives the text back with nothing left over and no error |
| Codec.TreeTableFor | main.py:154-156 | the table built from the text's tree is usable and has a code for exactly the symbols of the text |
| Codec.CountsCovered | main.py:66-80 | every counted symbol and every symbol of the text has a code, so the size and bit-string loops raise no KeyError |
| Codec.PayloadDecoding | main.py:129-145 | the decoding loop on the packed bit string, with its length as the size, writes the text back |
| Codec.FileRoundTrip | main.py:152-175 | decoding the file written under a usable table that covers the text gives the text back |

## Left out

- The `click` command layer, `sys.exit` and printing of errors (main.py:149-175, 85-87).
  `EncodeFile` and `DecodeFile` return the error instead of printing it and exiting.
- File I/O (opening, reading, writing, appending, `seek`). The input text is a
  parameter. The compressed file is a byte sequence.
  - `Codec.DecodeFile` returns the text it writes. Text already in an output file that
    is opened for appending is not modelled.
  - Newline translation by text-mode files is not modelled.
  - The `KeyError`s of the size and bit-string loops (main.py:68, 80) cannot be raised
    by `encode`: the table covers the text (`CountsCovered`). So `EncodeFile` has no such
    error, and what the source leaves in the output file on one is not modelled.
- The order in which `heapq` breaks ties between nodes of equal weight, and the heap's
  internal layout. Likewise the order that the stable `sorted` keeps among leaves of
  equal weight: `SortByFreq` promises sorted and a permutation, not stability. `GenerateTree` takes the first node of least weight each time.
  - The trees, and so the exact codes, can differ from the source's.
  - Every property above holds for any tie-break.
- Any claim that the codes are optimal. The source makes none.
- Bits.BitsOf: does not model `bitarray` skipping whitespace and underscores in the
  string. The bit strings built here contain only '0' and '1'.
- PyStr.ParseInt: does not accept underscores between digits or non-ASCII decimal
  digits, which Python's `int` does. The header written here contains ASCII digits
  only.
- PyStr.ParseInt: does not model CPython's integer-string conversion limit. Since
  Python 3.11, `int(s)` raises `ValueError` when `s` has more than 4300 digits. So a
  file whose bit count field is longer than that makes `decode` stop at main.py:95 with
  `ValueError`. The model reads the count and goes on to the decoding loop instead.
  Any size that `encode` writes for a real file is far below 10^4300.
- PyStr.NatToDecimal: does not model the same limit on `str(n)`, which raises
  `ValueError` for `n >= 10^4300`. So `ParseIntOfDecimal` and `Container.SizeField`
  state `int(str(n)) == n` for every `n`, beyond the range where CPython converts.
- PyStr.DigitPrefix: `\d` matches only ASCII digits here. Python matches every Unicode
  decimal digit. Codes are written in '0' and '1' only.
- Utf8.Decode: the exception's message and position are not modelled.
- `setup.py` (packaging metadata).
