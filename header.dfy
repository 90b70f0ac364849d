/**
 * The text header of a compressed file: `generate_header` writes one record per
 * table entry, then the `HEADER` and `SIZE` markers around the bit count; `parse`
 * (with `string_parse` and `number_parse`) reads the records back into a table
 * from codes to symbols.
 */
module Header {
  import opened Wrappers
  import opened Dicts
  import opened PyStr
  import opened CodeTable

  // ---- writing ----------------------------------------------------------------------

  /** A quote is written with a backslash before it; every other symbol as itself. */
  function Escape(c: char): string {
    if c == '\'' then "\\'" else [c]
  }

  /** The record of one table entry: the quoted symbol, a colon, the code, a comma and a newline. */
  function Record(c: char, code: string): string {
    "'" + Escape(c) + "':" + code + ",\n"
  }

  /** The records of every entry, in the table's order. */
  function Records(table: Dict<char, string>): string
    decreases |table|
  {
    if table == [] then "" else Record(table[0].0, table[0].1) + Records(table[1..])
  }

  /** The whole header: the records, `HEADER`, the bit count in decimal, `SIZE`. */
  function HeaderText(table: Dict<char, string>, size: nat): string {
    Records(table) + "HEADER\n" + NatToDecimal(size) + "\nSIZE\n"
  }

  lemma {:induction false} RecordsAppend(table: Dict<char, string>, e: (char, string))
    ensures Records(table + [e]) == Records(table) + Record(e.0, e.1)
    decreases |table|
  {
    if table == [] {
      assert [] + [e] == [e];
    } else {
      assert (table + [e])[1..] == table[1..] + [e];
      RecordsAppend(table[1..], e);
    }
  }

  /** `generate_header(table, size)` */
  method GenerateHeader(table: Dict<char, string>, size: nat) returns (header: string)
    ensures header == HeaderText(table, size)
  {
    header := "";
    for i := 0 to |table|
      invariant header == Records(table[..i])
    {
      var (c, code) := table[i];
      header := header + Record(c, code);
      RecordsAppend(table[..i], table[i]);
      assert table[..i + 1] == table[..i] + [table[i]];
    }
    assert table[..|table|] == table;
    header := header + "HEADER\n";
    header := header + NatToDecimal(size);
    header := header + "\nSIZE\n";
  }

  // ---- reading ----------------------------------------------------------------------

  /**
   * `string_parse(data)`: drop the opening quote; an escaped quote is the symbol `'`,
   * otherwise the symbol runs up to the next quote. The rest is stripped.
   */
  function StringParse(data: string): (r: (string, string))
    ensures data != [] ==> |r.1| < |data|
  {
    var d := From(data, 1);
    if |d| > 3 && d[..3] == "\\''" then ("'", Strip(From(d, 3)))
    else
      var idx := Find(d, "'");
      (PySlice(d, 0, idx), Strip(From(d, idx + 1)))
  }

  /**
   * `number_parse(data)`: the leading run of digits and the stripped rest; a search
   * that finds no digit at the start fails when its match is used.
   */
  function NumberParse(data: string): (r: Result<(string, string)>)
    ensures r.Err? <==> data == [] || !IsDigit(data[0])
    ensures r.Err? ==> r.error == AttributeError
    ensures r.Ok? ==> r.value.0 == DigitPrefix(data) && |r.value.1| < |data|
  {
    var m := DigitPrefix(data);
    if m == [] then Err(AttributeError) else Ok((m, Strip(data[|m|..])))
  }

  /** One turn of the loop of `parse`: (code, symbol, remaining data). */
  function ParseStep(data: string): (r: Result<(string, string, string)>)
    requires data != []
    ensures r.Ok? ==> |r.value.2| < |data|
  {
    var (s, d1) := StringParse(data);
    match NumberParse(From(d1, 1))
    case Err(e) => Err(e)
    case Ok((number, d3)) => Ok((number, s, Strip(From(d3, 1))))
  }

  /** `parse` from the table built so far: entries are assigned in the order read. */
  function ParseFrom(table: Dict<string, string>, data: string): Result<Dict<string, string>>
    decreases |data|
  {
    if data == [] then Ok(table)
    else match ParseStep(data)
      case Err(e) => Err(e)
      case Ok((number, s, rest)) => ParseFrom(Put(table, number, s), rest)
  }

  /** `parse(data)` */
  method Parse(data: string) returns (r: Result<Dict<string, string>>)
    ensures r == ParseFrom([], data)
  {
    var table: Dict<string, string> := [];
    var rest := data;
    while rest != []
      invariant ParseFrom(table, rest) == ParseFrom([], data)
      decreases |rest|
    {
      var step := ParseStep(rest);
      if step.Err? {
        return Err(step.error);
      }
      var (number, s, rest') := step.value;
      table := Put(table, number, s);
      rest := rest';
    }
    return Ok(table);
  }

  // ---- reading back what was written ------------------------------------------------

  /** Every code is a non-empty run of digits. */
  predicate DigitCodes(table: Dict<char, string>) {
    forall i :: 0 <= i < |table| ==> table[i].1 != [] && AllDigits(table[i].1)
  }

  /** The table `parse` should rebuild: each code mapped to its symbol, in the same order. */
  function Swap(table: Dict<char, string>): (r: Dict<string, string>)
    ensures |r| == |table|
    ensures forall i :: 0 <= i < |table| ==> r[i] == (table[i].1, [table[i].0])
    decreases |table|
  {
    if table == [] then [] else [(table[0].1, [table[0].0])] + Swap(table[1..])
  }

  lemma LStripNonSpace(s: string)
    requires s != [] && !IsSpace(s[0])
    ensures LStrip(s) == s
  {
  }

  lemma RStripKeepsFirst(s: string)
    requires s != [] && !IsSpace(s[0])
    ensures RStrip(s) != [] && RStrip(s)[0] == s[0]
    decreases |s|
  {
    if |s| > 1 && IsSpace(s[|s| - 1]) {
      RStripKeepsFirst(s[..|s| - 1]);
    }
  }

  /** `s.strip()` for text that starts with `c`, a non-space. */
  lemma StripAfter(c: char, w: string)
    requires !IsSpace(c)
    ensures Strip([c] + w) == [c] + RStrip(w)
  {
    RStripAppend([c], w);
    LStripNonSpace([c] + RStrip(w));
  }

  /** `string_parse` of a record returns its symbol, escaped or not, and the stripped rest. */
  lemma StringParseRecord(c: char, tail: string)
    requires tail != [] && tail[0] == ':'
    ensures StringParse("'" + Escape(c) + "'" + tail) == ([c], Strip(tail))
  {
    var data := "'" + Escape(c) + "'" + tail;
    assert data == "'" + (Escape(c) + ("'" + tail));
    var d := From(data, 1);
    assert d == data[1..] == Escape(c) + ("'" + tail);
    if c == '\'' {
      assert d[..3] == "\\''";
      assert From(d, 3) == tail;
    } else {
      assert d[..3] == [c, '\'', ':'];
      assert OccursAt(d, "'", 1);
      assert !OccursAt(d, "'", 0);
      FindFirst(d, "'", 1);
      assert PySlice(d, 0, 1) == [c];
      assert From(d, 2) == tail;
    }
  }

  /** `number_parse` after the colon returns the code and the rest from the comma on. */
  lemma NumberParseRecord(code: string, w: string)
    requires code != [] && AllDigits(code)
    ensures NumberParse(code + "," + RStrip(w)) == Ok((code, "," + RStrip(w)))
  {
    var x := "," + RStrip(w);
    var d2 := code + x;
    assert code + "," + RStrip(w) == d2;
    DigitPrefixOf(code, x);
    assert d2[|code|..] == x;
    StripAfter(',', RStrip(w));
    RStripIdempotent(w);
    assert Strip(x) == x;
  }

  /** The step of `parse` that reads one record, whatever follows the record's comma. */
  lemma StepRecord(c: char, code: string, w: string)
    requires code != [] && AllDigits(code)
    ensures ParseStep("'" + Escape(c) + "':" + code + "," + w) == Ok((code, [c], LStrip(RStrip(w))))
  {
    var data := "'" + Escape(c) + "':" + code + "," + w;
    var body := code + "," + w;
    var tail := ":" + body;
    assert data == "'" + Escape(c) + "'" + tail;
    StringParseRecord(c, tail);
    StripAfter(':', body);
    RStripAppend(code + ",", w);
    assert body == (code + ",") + w;
    var x := code + "," + RStrip(w);
    assert RStrip(body) == x;
    var d1 := ":" + x;
    assert StringParse(data) == ([c], d1);
    assert From(d1, 1) == x;
    NumberParseRecord(code, w);
    var d3 := "," + RStrip(w);
    assert NumberParse(x) == Ok((code, d3));
    assert From(d3, 1) == RStrip(w);
    RStripIdempotent(w);
    assert Strip(RStrip(w)) == LStrip(RStrip(w));
  }

  /** What follows the first record's comma reduces to the remaining records, right-stripped. */
  lemma NextRecords(table: Dict<char, string>)
    ensures LStrip(RStrip("\n" + Records(table))) == RStrip(Records(table))
  {
    if table == [] {
      assert RStrip("\n" + "") == "";
    } else {
      var r := Records(table);
      assert r[0] == '\'';
      RStripKeepsFirst(r);
      RStripAppend("\n", r);
      assert LStrip("\n" + RStrip(r)) == LStrip(RStrip(r));
      LStripNonSpace(RStrip(r));
    }
  }

  lemma RecordsSplit(table: Dict<char, string>)
    requires table != []
    ensures Records(table) == "'" + Escape(table[0].0) + "':" + table[0].1 + "," + ("\n" + Records(table[1..]))
    ensures RStrip(Records(table)) ==
              "'" + Escape(table[0].0) + "':" + table[0].1 + "," + RStrip("\n" + Records(table[1..]))
  {
    var (c, code) := table[0];
    var a := "'" + Escape(c) + "':" + code + ",";
    assert Records(table) == a + ("\n" + Records(table[1..]));
    RStripAppend(a, "\n" + Records(table[1..]));
  }

  /** `parse` reads back the right-stripped records: each code mapped to its symbol. */
  lemma {:induction false} ParseStripped(acc: Dict<string, string>, table: Dict<char, string>)
    requires DigitCodes(table)
    ensures ParseFrom(acc, RStrip(Records(table))) == Ok(PutAll(acc, Swap(table)))
    decreases |table|
  {
    if table == [] {
      assert RStrip("") == "";
    } else {
      var (c, code) := table[0];
      var rest := table[1..];
      RecordsSplit(table);
      var w := RStrip("\n" + Records(rest));
      StepRecord(c, code, w);
      RStripIdempotent("\n" + Records(rest));
      NextRecords(rest);
      assert DigitCodes(rest) by {
        forall i | 0 <= i < |rest| ensures rest[i].1 != [] && AllDigits(rest[i].1) {
          assert rest[i] == table[i + 1];
        }
      }
      ParseStripped(Put(acc, code, [c]), rest);
      assert Swap(table)[1..] == Swap(rest);
    }
  }

  /** `parse` reads back the records `generate_header` wrote: each code mapped to its symbol. */
  lemma ParseRecords(acc: Dict<string, string>, table: Dict<char, string>)
    requires DigitCodes(table)
    ensures ParseFrom(acc, Records(table)) == Ok(PutAll(acc, Swap(table)))
  {
    if table != [] {
      var (c, code) := table[0];
      var rest := table[1..];
      RecordsSplit(table);
      StepRecord(c, code, "\n" + Records(rest));
      NextRecords(rest);
      assert DigitCodes(rest) by {
        forall i | 0 <= i < |rest| ensures rest[i].1 != [] && AllDigits(rest[i].1) {
          assert rest[i] == table[i + 1];
        }
      }
      ParseStripped(Put(acc, code, [c]), rest);
      assert Swap(table)[1..] == Swap(rest);
    }
  }

  /**
   * With one code per entry, `parse` rebuilds exactly the code-to-symbol table of the
   * one `generate_header` was given.
   */
  lemma ParseHeaderRecords(table: Dict<char, string>)
    requires DigitCodes(table)
    requires forall i, j :: 0 <= i < j < |table| ==> table[i].1 != table[j].1
    ensures ParseFrom([], Records(table)) == Ok(Swap(table))
  {
    ParseRecords([], table);
    PutAllDistinct(Swap(table));
  }
}
