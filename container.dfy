/**
 * The compressed file as bytes: the UTF-8 header followed by the packed bits.
 * `find_header_and_size` locates the two markers and reads the bit count;
 * `build_table` decodes the bytes before the `HEADER` marker and parses them.
 */
module Container {
  import opened Wrappers
  import opened Dicts
  import opened PyStr
  import opened Utf8
  import opened CodeTable
  import opened Header

  /** `'HEADER'.encode('utf-8')`, spelled out (HeaderMarkBytes). */
  const HeaderMark: seq<byte> := [0x48, 0x45, 0x41, 0x44, 0x45, 0x52]

  /** `'\nSIZE\n'.encode('utf-8')`, spelled out (SizeLineBytes). */
  const SizeMark: seq<byte> := [0x0A, 0x53, 0x49, 0x5A, 0x45, 0x0A]

  /**
   * `find_header_and_size` on the file's bytes: (position of `HEADER`, start of the packed
   * bits, bit count). A missing marker is not an error: `find` gives -1 and the bytes
   * between the clamped slice bounds are read as the count (MissingMarkers).
   */
  function FindHeaderAndSize(text: seq<byte>): (r: Result<(int, int, int)>)
    ensures r.Err? ==> r.error == UnicodeDecodeError || r.error == ValueError
    ensures r.Ok? ==> (r.value.0 == -1 || r.value.0 + |HeaderMark| <= |text|)
    ensures r.Ok? ==> (r.value.1 == 5 || r.value.1 <= |text|)
  {
    FindFromFirst(text, HeaderMark, 0);
    FindFromFirst(text, SizeMark, 0);
    var header := Find(text, HeaderMark);
    var end := Find(text, SizeMark);
    match ReadSize(PySlice(text, header + 7, end))
    case Err(e) => Err(e)
    case Ok(size) => Ok((header, end + 6, size))
  }

  /** `HEADER` first occurs at `header`, the `SIZE` line at `end`, and the bytes between read as `size`. */
  predicate MarkersAt(text: seq<byte>, header: int, end: int, size: int) {
    Find(text, HeaderMark) == header && Find(text, SizeMark) == end &&
    ReadSize(PySlice(text, header + 7, end)) == Ok(size)
  }

  /** `int(field.decode())` */
  function ReadSize(field: seq<byte>): (r: Result<int>)
    ensures r.Err? ==> r.error == UnicodeDecodeError || r.error == ValueError
  {
    match Decode(field)
    case Err(e) => Err(e)
    case Ok(s) => ParseInt(s)
  }

  /** `file.read(n)` from the start of the file: `-1` reads everything, as does a count past the end. */
  function ReadPrefix(text: seq<byte>, n: int): (r: seq<byte>)
    requires n >= -1
    ensures r <= text
    ensures n == -1 || n >= |text| ==> r == text
    ensures 0 <= n <= |text| ==> |r| == n
  {
    if n < 0 || n > |text| then text else text[..n]
  }

  /**
   * What `build_table` returns for a file and the position of its `HEADER` marker;
   * `read` refuses a count below -1 with `ValueError`.
   */
  function TableOf(text: seq<byte>, headerPos: int): Result<Dict<string, string>> {
    if headerPos < -1 then Err(ValueError) else
    match Decode(ReadPrefix(text, headerPos))
    case Err(e) => Err(e)
    case Ok(s) => ParseFrom([], s)
  }

  /** `build_table(filename, header_pos)` */
  method BuildTable(text: seq<byte>, headerPos: int) returns (r: Result<Dict<string, string>>)
    ensures r == TableOf(text, headerPos)
  {
    if headerPos < -1 {
      return Err(ValueError);
    }
    var decoded := Decode(ReadPrefix(text, headerPos));
    if decoded.Err? {
      return Err(decoded.error);
    }
    r := Parse(decoded.value);
  }

  /**
   * A file holding neither marker is not rejected: both `find`s give -1, so the count is
   * read from `text[6:-1]` and the payload is taken to start at offset 5.
   */
  lemma MissingMarkers(text: seq<byte>)
    requires forall j :: !OccursAt(text, HeaderMark, j)
    requires forall j :: !OccursAt(text, SizeMark, j)
    ensures FindHeaderAndSize(text) ==
              match ReadSize(PySlice(text, 6, -1))
              case Err(e) => Err(e)
              case Ok(size) => Ok((-1, 5, size))
  {
    FindFromFirst(text, HeaderMark, 0);
    FindFromFirst(text, SizeMark, 0);
  }

  /** The bytes of `0123456789` give the count 678, read from the digits `678`. */
  lemma MissingMarkersDigits()
    ensures FindHeaderAndSize([0x30, 0x31, 0x32, 0x33, 0x34, 0x35, 0x36, 0x37, 0x38, 0x39]) == Ok((-1, 5, 678))
  {
    var text: seq<byte> := [0x30, 0x31, 0x32, 0x33, 0x34, 0x35, 0x36, 0x37, 0x38, 0x39];
    NoMarkerInDigits(text);
    MissingMarkers(text);
    assert PySlice(text, 6, -1) == [0x36, 0x37, 0x38];
    DigitsField();
  }

  /** Bytes that are all ASCII digits hold neither marker, whose first bytes are `H` and a newline. */
  lemma NoMarkerInDigits(text: seq<byte>)
    requires forall i :: 0 <= i < |text| ==> 0x30 <= text[i] <= 0x39
    ensures forall j :: !OccursAt(text, HeaderMark, j) && !OccursAt(text, SizeMark, j)
  {
    forall j ensures !OccursAt(text, HeaderMark, j) && !OccursAt(text, SizeMark, j) {
      if 0 <= j && j + 6 <= |text| {
        assert text[j..j + 6][0] == text[j];
      }
    }
  }

  lemma DigitsField()
    ensures ReadSize([0x36, 0x37, 0x38]) == Ok(678)
  {
    var field: seq<byte> := [0x36, 0x37, 0x38];
    DecodeAscii(field);
    var v := Decode(field).value;
    assert v[0] as int == 0x36 && v[1] as int == 0x37 && v[2] as int == 0x38;
    assert v == ['6', '7', '8'];
    assert NatToDecimal(678) == ['6', '7', '8'];
    ParseIntOfDecimal(678);
  }

  // ---- where the markers are --------------------------------------------------------

  /** Every `x` in `s` is the last element or is followed by `y`. */
  predicate FollowedBy<T(==)>(s: seq<T>, x: T, y: T) {
    forall i :: 0 <= i < |s| ==> FollowedAt(s, i, x, y)
  }

  /** The element at `i`, if it is `x`, is the last one or is followed by `y`. */
  predicate FollowedAt<T(==)>(s: seq<T>, i: nat, x: T, y: T)
    requires i < |s|
  {
    s[i] == x ==> i + 1 == |s| || s[i + 1] == y
  }

  lemma FollowedByAppend<T>(a: seq<T>, b: seq<T>, x: T, y: T)
    requires FollowedBy(a, x, y) && FollowedBy(b, x, y)
    requires a == [] || b == [] || a[|a| - 1] != x || b[0] == y
    ensures FollowedBy(a + b, x, y)
  {
    forall i | 0 <= i < |a + b| ensures FollowedAt(a + b, i, x, y) {
      if i < |a| - 1 {
        assert FollowedAt(a, i, x, y);
        assert (a + b)[i] == a[i] && (a + b)[i + 1] == a[i + 1];
      } else if i >= |a| {
        assert FollowedAt(b, i - |a|, x, y);
        assert (a + b)[i] == b[i - |a|];
      } else {
        assert (a + b)[i] == a[i];
      }
    }
  }

  /** The tail of a record after its symbol: a quote, a colon, the code, a comma and a newline. */
  lemma RecordTailFollowed(code: string, x: char, y: char)
    requires IsBinary(code) && (x == 'H' || x == '\n')
    ensures FollowedBy("':" + code + ",\n", x, y)
  {
    var b := "':" + code + ",\n";
    forall i | 0 <= i < |b| ensures FollowedAt(b, i, x, y) {
      if 2 <= i < 2 + |code| {
        assert b[i] == code[i - 2];
      }
    }
  }

  /** In the records, `H` and newline are each followed by a quote, or end the records. */
  lemma {:induction false} RecordsFollowed(table: Dict<char, string>, x: char)
    requires forall i :: 0 <= i < |table| ==> IsBinary(table[i].1)
    requires x == 'H' || x == '\n'
    ensures FollowedBy(Records(table), x, '\'')
    ensures Records(table) == [] || Records(table)[0] == '\''
    decreases |table|
  {
    if table != [] {
      var (c, code) := table[0];
      var a := "'" + Escape(c);
      var b := "':" + code + ",\n";
      assert FollowedBy(a, x, '\'') by {
        forall i | 0 <= i < |a| ensures FollowedAt(a, i, x, '\'') {
        }
      }
      RecordTailFollowed(code, x, '\'');
      FollowedByAppend(a, b, x, '\'');
      assert Record(c, code) == a + b;
      RecordsFollowed(table[1..], x);
      FollowedByAppend(Record(c, code), Records(table[1..]), x, '\'');
    }
  }

  /** The property carries over to the UTF-8 bytes for ASCII `x` and `y`: other bytes are at least 0x80. */
  lemma {:induction false} EncodeFollowed(s: string, x: char, y: char)
    requires x as int < 0x80 && y as int < 0x80
    requires FollowedBy(s, x, y)
    ensures FollowedBy(Encode(s), x as int as byte, y as int as byte)
  {
    if s != [] {
      var e := EncodeChar(s[0]);
      var rest := s[1..];
      assert FollowedBy(rest, x, y) by {
        forall i | 0 <= i < |rest| ensures FollowedAt(rest, i, x, y) {
          assert FollowedAt(s, i + 1, x, y);
          assert s[i + 1] == rest[i];
        }
      }
      EncodeFollowed(rest, x, y);
      if s[0] == x && rest != [] {
        assert FollowedAt(s, 0, x, y);
        assert rest[0] == y;
        assert EncodeChar(rest[0]) == [y as int];
      }
      var xb: byte, yb: byte := x as int, y as int;
      assert FollowedBy(e, xb, yb) by {
        forall i | 0 <= i < |e| ensures FollowedAt(e, i, xb, yb) {
        }
      }
      FollowedByAppend(e, Encode(rest), xb, yb);
    }
  }

  /** The `HEADER` line, as bytes. */
  const HeaderLine: seq<byte> := [0x48, 0x45, 0x41, 0x44, 0x45, 0x52, 0x0A]

  lemma HeaderMarkBytes()
    ensures Encode("HEADER") == HeaderMark
  {
    EncodeAscii("HEADER");
  }

  lemma HeaderLineBytes()
    ensures Encode("HEADER\n") == HeaderLine
  {
    EncodeAscii("HEADER\n");
  }

  lemma SizeLineBytes()
    ensures Encode("\nSIZE\n") == SizeMark
  {
    EncodeAscii("\nSIZE\n");
  }

  lemma DigitBytes(n: nat)
    ensures |Encode(NatToDecimal(n))| == |NatToDecimal(n)|
    ensures forall i :: 0 <= i < |Encode(NatToDecimal(n))| ==> 0x30 <= Encode(NatToDecimal(n))[i] <= 0x39
  {
    EncodeAscii(NatToDecimal(n));
  }

  /** The split of a header's bytes into records, the `HEADER` line, the digits and the `SIZE` line. */
  lemma HeaderBytes(table: Dict<char, string>, size: nat)
    ensures Encode(HeaderText(table, size)) ==
              Encode(Records(table)) + HeaderLine + Encode(NatToDecimal(size)) + SizeMark
  {
    var r, d := Records(table), NatToDecimal(size);
    EncodeAppend(r + "HEADER\n" + d, "\nSIZE\n");
    EncodeAppend(r + "HEADER\n", d);
    EncodeAppend(r, "HEADER\n");
    HeaderLineBytes();
    SizeLineBytes();
  }

  /** `HEADER` first occurs right after the records. */
  lemma FindHeaderMarker(er: seq<byte>, rest: seq<byte>)
    requires FollowedBy(er, 0x48, 0x27)
    requires |rest| >= 6 && rest[..6] == HeaderMark
    ensures Find(er + rest, HeaderMark) == |er|
  {
    var text := er + rest;
    var pat := HeaderMark;
    assert text[|er|..|er| + 6] == rest[..6];
    forall j | 0 <= j < |er| ensures !OccursAt(text, pat, j) {
      if er[j] == 0x48 {
        assert FollowedAt(er, j, 0x48, 0x27);
        assert text[j + 1] != 0x45 by {
          if j + 1 == |er| {
            assert text[j + 1] == rest[0];
          } else {
            assert text[j + 1] == er[j + 1];
          }
        }
        assert text[j..j + 6][1] == text[j + 1];
      } else {
        assert text[j..j + 6][0] == er[j];
      }
    }
    FindFirst(text, pat, |er|);
  }

  /** `\nSIZE\n` first occurs right after the digits of the bit count. */
  lemma FindSizeMarker(er: seq<byte>, digits: seq<byte>, payload: seq<byte>)
    requires FollowedBy(er, 0x0A, 0x27)
    requires |digits| > 0 && forall i :: 0 <= i < |digits| ==> 0x30 <= digits[i] <= 0x39
    ensures var text := er + HeaderLine + digits + SizeMark + payload;
            Find(text, SizeMark) == |er| + 7 + |digits|
  {
    var hl := HeaderLine;
    var sl := SizeMark;
    var text := er + hl + digits + sl + payload;
    var p := |er| + 7 + |digits|;
    assert text[p..p + 6] == sl;
    forall j | 0 <= j < p ensures !OccursAt(text, sl, j) {
      assert text[j] != 0x0A || text[j + 1] != 0x53 by {
        if j < |er| {
          assert FollowedAt(er, j, 0x0A, 0x27);
          assert text[j] == er[j];
          if j + 1 == |er| {
            assert text[j + 1] == hl[0];
          } else {
            assert text[j + 1] == er[j + 1];
          }
        } else if j < |er| + 7 {
          assert text[j] == hl[j - |er|];
          if j == |er| + 6 {
            assert text[j + 1] == digits[0];
          }
        } else {
          assert text[j] == digits[j - |er| - 7];
        }
      }
      if j + 6 <= |text| {
        assert text[j..j + 6][0] == text[j] && text[j..j + 6][1] == text[j + 1];
      }
    }
    FindFirst(text, sl, p);
  }

  /**
   * For a file that starts with the header `generate_header` wrote for a table of binary
   * codes, `find_header_and_size` returns the end of the records, the end of the header
   * and the bit count, whatever bytes follow the header.
   */
  lemma {:induction false} HeaderPositions(table: Dict<char, string>, size: nat, payload: seq<byte>)
    requires forall i :: 0 <= i < |table| ==> IsBinary(table[i].1)
    ensures FindHeaderAndSize(Encode(HeaderText(table, size)) + payload) ==
              Ok((|Encode(Records(table))|, |Encode(HeaderText(table, size))|, size))
  {
    var text := Encode(HeaderText(table, size)) + payload;
    var header, end := HeaderMarkers(table, size, payload);
    FoundAt(text, header, end, size);
  }

  /** The markers' positions in a compressed file and the bit count read between them. */
  lemma {:induction false} HeaderMarkers(table: Dict<char, string>, size: nat, payload: seq<byte>)
      returns (header: int, end: int)
    requires forall i :: 0 <= i < |table| ==> IsBinary(table[i].1)
    ensures var text := Encode(HeaderText(table, size)) + payload;
            header == |Encode(Records(table))| && end + 6 == |Encode(HeaderText(table, size))| &&
            MarkersAt(text, header, end, size)
  {
    var er, digits := HeaderParts(table, size);
    var text := Encode(HeaderText(table, size)) + payload;
    assert text == er + HeaderLine + digits + SizeMark + payload;
    Layout(text, er, digits, payload, size);
    header, end := |er|, |er| + 7 + |digits|;
  }

  /** The header's bytes cut into the records, the `HEADER` line, the digits and the `SIZE` line. */
  lemma HeaderParts(table: Dict<char, string>, size: nat) returns (er: seq<byte>, digits: seq<byte>)
    requires forall i :: 0 <= i < |table| ==> IsBinary(table[i].1)
    ensures Encode(HeaderText(table, size)) == er + HeaderLine + digits + SizeMark
    ensures er == Encode(Records(table))
    ensures FollowedBy(er, 0x48, 0x27) && FollowedBy(er, 0x0A, 0x27)
    ensures |digits| > 0 && (forall i :: 0 <= i < |digits| ==> 0x30 <= digits[i] <= 0x39)
    ensures ReadSize(digits) == Ok(size)
  {
    er, digits := Encode(Records(table)), Encode(NatToDecimal(size));
    HeaderBytes(table, size);
    RecordsMarkers(table);
    SizeDigits(size);
  }

  /** Neither `HEADER` nor a line break inside the records is followed by anything but a quote. */
  lemma RecordsMarkers(table: Dict<char, string>)
    requires forall i :: 0 <= i < |table| ==> IsBinary(table[i].1)
    ensures FollowedBy(Encode(Records(table)), 0x48, 0x27) && FollowedBy(Encode(Records(table)), 0x0A, 0x27)
  {
    RecordsFollowed(table, 'H');
    RecordsFollowed(table, '\n');
    EncodeFollowed(Records(table), 'H', '\'');
    EncodeFollowed(Records(table), '\n', '\'');
  }

  /** The bit count's bytes are non-empty ASCII digits that read back as the count. */
  lemma SizeDigits(size: nat)
    ensures var digits := Encode(NatToDecimal(size));
            |digits| > 0 && (forall i :: 0 <= i < |digits| ==> 0x30 <= digits[i] <= 0x39) &&
            ReadSize(digits) == Ok(size)
  {
    DigitBytes(size);
    SizeField(size);
  }

  /** The bit count reads back from its bytes. */
  lemma SizeField(size: nat)
    ensures ReadSize(Encode(NatToDecimal(size))) == Ok(size)
  {
    DecodeEncode(NatToDecimal(size));
    ParseIntOfDecimal(size);
  }

  /** Where the markers are, and what the bit count reads, in a file laid out as records, `HEADER` line, digits, `SIZE` line, payload. */
  lemma {:induction false} Layout(text: seq<byte>, er: seq<byte>, digits: seq<byte>, payload: seq<byte>, size: int)
    requires FollowedBy(er, 0x48, 0x27) && FollowedBy(er, 0x0A, 0x27)
    requires |digits| > 0 && forall i :: 0 <= i < |digits| ==> 0x30 <= digits[i] <= 0x39
    requires ReadSize(digits) == Ok(size)
    requires text == er + HeaderLine + digits + SizeMark + payload
    ensures MarkersAt(text, |er|, |er| + 7 + |digits|, size)
  {
    HeaderFound(text, er, digits, payload);
    SizeFound(text, er, digits, payload);
    DigitsAt(text, er, digits, payload, size);
  }

  lemma HeaderFound(text: seq<byte>, er: seq<byte>, digits: seq<byte>, payload: seq<byte>)
    requires FollowedBy(er, 0x48, 0x27)
    requires text == er + HeaderLine + digits + SizeMark + payload
    ensures Find(text, HeaderMark) == |er|
  {
    var rest := HeaderLine + digits + SizeMark + payload;
    assert text == er + rest;
    assert rest[..6] == HeaderMark;
    FindHeaderMarker(er, rest);
  }

  lemma SizeFound(text: seq<byte>, er: seq<byte>, digits: seq<byte>, payload: seq<byte>)
    requires FollowedBy(er, 0x0A, 0x27)
    requires |digits| > 0 && forall i :: 0 <= i < |digits| ==> 0x30 <= digits[i] <= 0x39
    requires text == er + HeaderLine + digits + SizeMark + payload
    ensures Find(text, SizeMark) == |er| + 7 + |digits|
  {
    FindSizeMarker(er, digits, payload);
  }

  lemma {:induction false} DigitsAt(text: seq<byte>, er: seq<byte>, digits: seq<byte>, payload: seq<byte>, size: int)
    requires ReadSize(digits) == Ok(size)
    requires text == er + HeaderLine + digits + SizeMark + payload
    ensures ReadSize(PySlice(text, |er| + 7, |er| + 7 + |digits|)) == Ok(size)
  {
    assert PySlice(text, |er| + 7, |er| + 7 + |digits|) == digits by {
      assert text[|er| + 7..|er| + 7 + |digits|] == digits;
    }
  }

  lemma {:induction false} FoundAt(text: seq<byte>, header: int, end: int, size: int)
    requires MarkersAt(text, header, end, size)
    ensures FindHeaderAndSize(text) == Ok((header, end + 6, size))
  {
  }

  /**
   * `build_table` at the position `find_header_and_size` reports reads back the
   * code-to-symbol table of the header's records.
   */
  lemma {:induction false} HeaderTable(table: Dict<char, string>, size: nat, payload: seq<byte>)
    requires forall i :: 0 <= i < |table| ==> IsBinary(table[i].1) && table[i].1 != []
    requires forall i, j :: 0 <= i < j < |table| ==> table[i].1 != table[j].1
    ensures TableOf(Encode(HeaderText(table, size)) + payload, |Encode(Records(table))|) == Ok(Swap(table))
  {
    RecordsPrefix(table, size);
    BinaryDigitCodes(table);
    RecordsRead(Encode(HeaderText(table, size)) + payload, table);
  }

  /** The records' bytes begin the header's bytes. */
  lemma RecordsPrefix(table: Dict<char, string>, size: nat)
    ensures Encode(Records(table)) <= Encode(HeaderText(table, size))
  {
    HeaderBytes(table, size);
  }

  /** Non-empty binary codes are non-empty digit strings. */
  lemma BinaryDigitCodes(table: Dict<char, string>)
    requires forall i :: 0 <= i < |table| ==> IsBinary(table[i].1) && table[i].1 != []
    ensures DigitCodes(table)
  {
    forall i | 0 <= i < |table| ensures table[i].1 != [] && AllDigits(table[i].1) {
      assert IsBinary(table[i].1);
    }
  }

  lemma {:induction false} RecordsRead(text: seq<byte>, table: Dict<char, string>)
    requires DigitCodes(table)
    requires forall i, j :: 0 <= i < j < |table| ==> table[i].1 != table[j].1
    requires Encode(Records(table)) <= text
    ensures TableOf(text, |Encode(Records(table))|) == Ok(Swap(table))
  {
    assert ReadPrefix(text, |Encode(Records(table))|) == Encode(Records(table));
    DecodeEncode(Records(table));
    ParseHeaderRecords(table);
  }
}
