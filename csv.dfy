/**
 * The dashboard's CSV reader: `parseCSVLine` splits one line into fields,
 * honouring double quotes, and `parseCSV` turns the whole text into one
 * record per non-blank data line, keyed by the header line's column names.
 *
 * The line splitter is a three-variable state machine (the fields so far,
 * the field being read, whether a quote is open).  `Run` gives its state
 * after any prefix of the line; the method `ParseCsvLine` is proved to keep
 * exactly that state.  What the splitter computes is then stated without
 * the machine: `QuoteCount`, `UnquotedCommaCount` and `Kept` are defined
 * on the text alone, and `JoinCells` writes fields back as a line.
 */
module Csv {
  import opened Text

  // ---------------------------------------------------------------------
  // parseCSVLine: the state machine
  // ---------------------------------------------------------------------

  /** The splitter's variables: `result`, `current` and `inQuotes`. */
  datatype LineState = LineState(fields: seq<string>, current: string, inQuotes: bool)

  const Start: LineState := LineState([], "", false)

  /** One character: a quote toggles `inQuotes` and is dropped, a comma
      outside quotes closes the current field, anything else is kept. */
  function Step(st: LineState, c: char): LineState {
    if c == '"' then st.(inQuotes := !st.inQuotes)
    else if c == ',' && !st.inQuotes then LineState(st.fields + [st.current], "", st.inQuotes)
    else st.(current := st.current + [c])
  }

  /** The state after reading `s` from `st`, one character at a time. */
  function Run(st: LineState, s: string): LineState
    decreases |s|
  {
    if s == [] then st else Step(Run(st, s[..|s| - 1]), s[|s| - 1])
  }

  /** `parseCSVLine(line)`: the closed fields and then the last field. */
  function SplitLine(line: string): seq<string> {
    var st := Run(Start, line);
    st.fields + [st.current]
  }

  /** `parseCSVLine(line)` (js/app.js:79-98), as the loop it is written as. */
  method ParseCsvLine(line: string) returns (result: seq<string>)
    ensures result == SplitLine(line)
  {
    result := [];
    var current := "";
    var inQuotes := false;
    for i := 0 to |line|
      invariant Run(Start, line[..i]) == LineState(result, current, inQuotes)
    {
      assert line[..i + 1][..i] == line[..i];
      var c := line[i];
      if c == '"' {
        inQuotes := !inQuotes;
      } else if c == ',' && !inQuotes {
        result := result + [current];
        current := "";
      } else {
        current := current + [c];
      }
    }
    assert line[..|line|] == line;
    result := result + [current];
  }

  /** Reading `a` and then `b` is reading `a + b`. */
  lemma {:induction false} RunAppend(st: LineState, a: string, b: string)
    ensures Run(st, a + b) == Run(Run(st, a), b)
    decreases |b|
  {
    if b == [] {
      assert a + b == a;
    } else {
      var b' := b[..|b| - 1];
      assert (a + b)[..|a + b| - 1] == a + b';
      assert (a + b)[|a + b| - 1] == b[|b| - 1];
      RunAppend(st, a, b');
    }
  }

  // ---------------------------------------------------------------------
  // What the splitter computes, stated on the text alone
  // ---------------------------------------------------------------------

  /** The number of double quotes in `s`. */
  function QuoteCount(s: string): nat
    decreases |s|
  {
    if s == [] then 0
    else QuoteCount(s[..|s| - 1]) + (if s[|s| - 1] == '"' then 1 else 0)
  }

  /** The number of commas in `s` preceded by an even number of quotes. */
  function UnquotedCommaCount(s: string): nat
    decreases |s|
  {
    if s == [] then 0
    else
      var p := s[..|s| - 1];
      UnquotedCommaCount(p) + (if s[|s| - 1] == ',' && QuoteCount(p) % 2 == 0 then 1 else 0)
  }

  /** `s` without its quotes and without its unquoted commas. */
  function Kept(s: string): string
    decreases |s|
  {
    if s == [] then []
    else
      var p := s[..|s| - 1];
      var c := s[|s| - 1];
      Kept(p) + (if c == '"' || (c == ',' && QuoteCount(p) % 2 == 0) then [] else [c])
  }

  /** The fields written one after the other. */
  function Concat(parts: seq<string>): string
    decreases |parts|
  {
    if parts == [] then [] else Concat(parts[..|parts| - 1]) + parts[|parts| - 1]
  }

  predicate QuoteFree(parts: seq<string>) {
    forall k | 0 <= k < |parts| :: '"' !in parts[k]
  }

  /** The machine's quote flag and field count after `s`, described by the
      text of `s`. */
  lemma {:induction false} RunCounts(s: string)
    ensures Run(Start, s).inQuotes == (QuoteCount(s) % 2 == 1)
    ensures |Run(Start, s).fields| == UnquotedCommaCount(s)
    decreases |s|
  {
    if s != [] {
      RunCounts(s[..|s| - 1]);
    }
  }

  /** What the machine has kept after `s`: the text of `s` without its
      quotes and its unquoted commas. */
  lemma {:induction false} RunKept(s: string)
    ensures Concat(Run(Start, s).fields) + Run(Start, s).current == Kept(s)
    decreases |s|
  {
    if s != [] {
      var p := s[..|s| - 1];
      var c := s[|s| - 1];
      RunKept(p);
      RunCounts(p);
      var st := Run(Start, p);
      if c == ',' && !st.inQuotes {
        ConcatSnoc(st.fields, st.current);
        assert Concat(st.fields + [st.current]) + "" == Concat(st.fields) + st.current;
      } else if c != '"' {
        assert Concat(st.fields) + (st.current + [c]) == Concat(st.fields) + st.current + [c];
      }
    }
  }

  /** Nothing the machine keeps is a quote. */
  lemma {:induction false} RunQuoteFree(s: string)
    ensures QuoteFree(Run(Start, s).fields) && '"' !in Run(Start, s).current
    decreases |s|
  {
    if s != [] {
      var p := s[..|s| - 1];
      RunQuoteFree(p);
      var st := Run(Start, p);
      QuoteFreeSnoc(st.fields, st.current);
    }
  }

  lemma ConcatSnoc(parts: seq<string>, p: string)
    ensures Concat(parts + [p]) == Concat(parts) + p
  {
    assert (parts + [p])[..|parts|] == parts;
  }

  lemma QuoteFreeSnoc(parts: seq<string>, p: string)
    requires QuoteFree(parts) && '"' !in p
    ensures QuoteFree(parts + [p])
  {
    forall k | 0 <= k < |parts| + 1 ensures '"' !in (parts + [p])[k] {
      if k < |parts| {
        assert (parts + [p])[k] == parts[k];
      }
    }
  }

  /** `parseCSVLine` returns one field more than the line has commas
      outside quotes, none of them holding a quote, and together they are
      the line without its quotes and its unquoted commas. */
  lemma SplitLineShape(line: string)
    ensures |SplitLine(line)| == 1 + UnquotedCommaCount(line)
    ensures QuoteFree(SplitLine(line))
    ensures Concat(SplitLine(line)) == Kept(line)
  {
    RunCounts(line);
    RunKept(line);
    RunQuoteFree(line);
    var st := Run(Start, line);
    ConcatSnoc(st.fields, st.current);
    QuoteFreeSnoc(st.fields, st.current);
  }

  // ---------------------------------------------------------------------
  // Writing fields as a line and reading them back
  // ---------------------------------------------------------------------

  /** A field as it may be written on a line: bare, or between quotes. */
  datatype Cell = Bare(text: string) | Quoted(text: string)

  /** A bare field holds neither quote nor comma; a quoted one no quote. */
  predicate Writable(c: Cell) {
    '"' !in c.text && (c.Bare? ==> ',' !in c.text)
  }

  predicate AllWritable(cells: seq<Cell>) {
    forall k | 0 <= k < |cells| :: Writable(cells[k])
  }

  function Encode(c: Cell): string {
    match c
    case Bare(t) => t
    case Quoted(t) => "\"" + t + "\""
  }

  /** The cells written out, separated by commas. */
  function JoinCells(cells: seq<Cell>): string
    requires |cells| >= 1
    decreases |cells|
  {
    if |cells| == 1 then Encode(cells[0])
    else JoinCells(cells[..|cells| - 1]) + "," + Encode(cells[|cells| - 1])
  }

  /** The cells' texts, in order. */
  function Texts(cells: seq<Cell>): (r: seq<string>)
    ensures |r| == |cells|
    decreases |cells|
  {
    if cells == [] then [] else Texts(cells[..|cells| - 1]) + [cells[|cells| - 1].text]
  }

  /** Text with no quote, and no comma unless a quote is open, only grows
      the current field. */
  lemma {:induction false} RunPlain(st: LineState, s: string)
    requires '"' !in s
    requires !st.inQuotes ==> ',' !in s
    ensures Run(st, s) == st.(current := st.current + s)
    decreases |s|
  {
    if s == [] {
      assert st.current + s == st.current;
    } else {
      var p := s[..|s| - 1];
      assert forall c | c in p :: c in s;
      RunPlain(st, p);
      assert st.current + p + [s[|s| - 1]] == st.current + s;
    }
  }

  /** Outside quotes, a writable cell adds its text to the current field. */
  lemma RunCell(st: LineState, c: Cell)
    requires !st.inQuotes && Writable(c)
    ensures Run(st, Encode(c)) == st.(current := st.current + c.text)
  {
    if c.Bare? {
      RunPlain(st, c.text);
    } else {
      var open := Run(st, "\"");
      assert "\""[..0] == [];
      assert open == st.(inQuotes := true);
      RunAppend(st, "\"", c.text);
      RunPlain(open, c.text);
      RunAppend(st, "\"" + c.text, "\"");
      var body := open.(current := st.current + c.text);
      assert Run(body, "\"") == body.(inQuotes := false);
    }
  }

  /** Reading written cells leaves all but the last closed and the last
      one open. */
  lemma {:induction false} RunJoinCells(cells: seq<Cell>)
    requires |cells| >= 1
    requires AllWritable(cells)
    ensures Run(Start, JoinCells(cells)) == LineState(Texts(cells[..|cells| - 1]), cells[|cells| - 1].text, false)
    decreases |cells|
  {
    var n := |cells|;
    if n == 1 {
      RunCell(Start, cells[0]);
      assert cells[..0] == [];
    } else {
      WritableFront(cells);
      RunJoinCells(cells[..n - 1]);
      RunNextCell(cells);
    }
  }

  lemma WritableFront(cells: seq<Cell>)
    requires |cells| >= 1
    requires AllWritable(cells)
    ensures AllWritable(cells[..|cells| - 1])
  {
  }

  /** Writing cells and splitting the line gives back their texts. */
  lemma SplitJoinCells(cells: seq<Cell>)
    requires |cells| >= 1
    requires AllWritable(cells)
    ensures SplitLine(JoinCells(cells)) == Texts(cells)
  {
    RunJoinCells(cells);
  }

  /** After the cells before the last, a comma and the last, writable, cell
      close the current field and make the cell's text the current one. */
  lemma RunNextCell(cells: seq<Cell>)
    requires |cells| >= 2 && Writable(cells[|cells| - 1])
    requires var front := cells[..|cells| - 1];
      Run(Start, JoinCells(front)) == LineState(Texts(front[..|front| - 1]), front[|front| - 1].text, false)
    ensures Run(Start, JoinCells(cells)) == LineState(Texts(cells[..|cells| - 1]), cells[|cells| - 1].text, false)
  {
    var n := |cells|;
    var front := cells[..n - 1];
    var c := cells[n - 1];
    var before := Run(Start, JoinCells(front));
    RunAppend(Start, JoinCells(front), ",");
    RunComma(before);
    RunAppend(Start, JoinCells(front) + ",", Encode(c));
    RunCell(Run(before, ","), c);
  }

  /** A comma outside quotes closes the current field. */
  lemma RunComma(st: LineState)
    requires !st.inQuotes
    ensures Run(st, ",") == LineState(st.fields + [st.current], "", false)
  {
    assert ","[..0] == [];
  }

  /** `a,"b,c",d` is the three fields `a`, `b,c` and `d`. */
  lemma QuotedCommaExample()
    ensures SplitLine("a,\"b,c\",d") == ["a", "b,c", "d"]
  {
    var cells := [Bare("a"), Quoted("b,c"), Bare("d")];
    assert cells[..2] == [Bare("a"), Quoted("b,c")];
    assert cells[..2][..1] == [Bare("a")];
    assert JoinCells(cells[..2]) == "a" + "," + "\"b,c\"";
    assert JoinCells(cells) == "a,\"b,c\",d";
    SplitJoinCells(cells);
    assert Texts(cells) == ["a", "b,c", "d"];
  }

  /** A doubled quote opens and closes a quote and leaves nothing behind,
      unlike the escaped quote of section 2 of RFC 4180. */
  lemma DoubledQuoteExample()
    ensures SplitLine("a\"\"b") == ["ab"]
  {
    var s := "a\"\"b";
    assert s == "a" + "\"\"" + "b";
    RunPlain(Start, "a");
    var a := LineState([], "a", false);
    assert Run(Start, "a") == a;
    RunAppend(Start, "a", "\"\"");
    assert "\"\""[..1] == "\"" && "\""[..0] == [];
    assert Run(a, "\"\"") == a;
    RunAppend(Start, "a" + "\"\"", "b");
    RunPlain(a, "b");
    assert Run(Start, s) == LineState([], "ab", false);
  }

  // ---------------------------------------------------------------------
  // parseCSV
  // ---------------------------------------------------------------------

  /** `values[index] ? values[index].trim() : ''`: a missing or empty
      field reads as the empty string. */
  function CellAt(values: seq<string>, j: nat): string {
    if j < |values| && values[j] != "" then Trim(values[j]) else ""
  }

  /** The record a line's fields make under the given column names; when a
      name repeats, its last column wins. */
  function Record(headers: seq<string>, values: seq<string>): map<string, string>
    decreases |headers|
  {
    if headers == [] then map[]
    else
      var n := |headers| - 1;
      Record(headers[..n], values)[headers[n] := CellAt(values, n)]
  }

  /** The value under each column name is the cell of the column that last
      carries that name. */
  lemma {:induction false} RecordValues(headers: seq<string>, values: seq<string>, j: nat)
    requires j < |headers|
    requires forall i | j < i < |headers| :: headers[i] != headers[j]
    ensures headers[j] in Record(headers, values)
    ensures Record(headers, values)[headers[j]] == CellAt(values, j)
    decreases |headers|
  {
    var n := |headers| - 1;
    if j < n {
      var front := headers[..n];
      assert forall i | j < i < |front| :: front[i] == headers[i];
      RecordValues(front, values, j);
    }
  }

  /** A record has exactly the column names as keys. */
  lemma {:induction false} RecordKeys(headers: seq<string>, values: seq<string>)
    ensures Record(headers, values).Keys == set h | h in headers
    decreases |headers|
  {
    if headers != [] {
      var n := |headers| - 1;
      RecordKeys(headers[..n], values);
      assert headers == headers[..n] + [headers[n]];
      assert (set h | h in headers) == (set h | h in headers[..n]) + {headers[n]};
    }
  }

  /** Fields beyond the last column are dropped. */
  lemma {:induction false} RecordIgnoresExtra(headers: seq<string>, values: seq<string>, extra: seq<string>)
    requires |headers| <= |values|
    ensures Record(headers, values + extra) == Record(headers, values)
    decreases |headers|
  {
    if headers != [] {
      var n := |headers| - 1;
      assert (values + extra)[n] == values[n];
      RecordIgnoresExtra(headers[..n], values, extra);
    }
  }

  /** Every value in the map is trimmed. */
  predicate TrimmedValues(m: map<string, string>) {
    forall h | h in m :: Trim(m[h]) == m[h]
  }

  /** Every value in a record is trimmed. */
  lemma {:induction false} RecordTrimmed(headers: seq<string>, values: seq<string>)
    ensures TrimmedValues(Record(headers, values))
    decreases |headers|
  {
    if headers != [] {
      var n := |headers| - 1;
      RecordTrimmed(headers[..n], values);
      CellTrimmed(values, n);
      UpdateTrimmed(Record(headers[..n], values), headers[n], CellAt(values, n));
    }
  }

  lemma UpdateTrimmed(m: map<string, string>, k: string, v: string)
    requires TrimmedValues(m) && Trim(v) == v
    ensures TrimmedValues(m[k := v])
  {
  }

  lemma CellTrimmed(values: seq<string>, j: nat)
    ensures Trim(CellAt(values, j)) == CellAt(values, j)
  {
    if j < |values| && values[j] != "" {
      TrimIdempotent(values[j]);
    } else {
      TrimOfTrimmed("");
    }
  }

  /** `headers.forEach(...)` (js/app.js:65-67), as a loop filling `obj`. */
  method BuildRecord(headers: seq<string>, values: seq<string>) returns (obj: map<string, string>)
    ensures obj == Record(headers, values)
  {
    obj := map[];
    for j := 0 to |headers|
      invariant obj == Record(headers[..j], values)
    {
      assert headers[..j + 1][..j] == headers[..j];
      obj := obj[headers[j] := if j < |values| && values[j] != "" then Trim(values[j]) else ""];
    }
    assert headers[..|headers|] == headers;
  }

  /** The text's lines, after trimming the whole text. */
  function Lines(text: string): (lines: seq<string>)
    ensures |lines| >= 1
  {
    Split(Trim(text), '\n')
  }

  /** The header line split on every comma, each name trimmed. */
  function Headers(text: string): (headers: seq<string>)
    ensures |headers| == |Split(Lines(text)[0], ',')|
  {
    var names := Split(Lines(text)[0], ',');
    seq(|names|, k requires 0 <= k < |names| => Trim(names[k]))
  }

  /** One record per line that is not blank, in order. */
  function DataRecords(headers: seq<string>, lines: seq<string>): seq<map<string, string>>
    decreases |lines|
  {
    if lines == [] then []
    else
      var earlier := DataRecords(headers, lines[..|lines| - 1]);
      var line := lines[|lines| - 1];
      if Trim(line) == "" then earlier else earlier + [Record(headers, SplitLine(line))]
  }

  /** `parseCSV(csvText)`: the records of the lines after the header. */
  function Decode(text: string): seq<map<string, string>> {
    var lines := Lines(text);
    DataRecords(Headers(text), lines[1..])
  }

  /** `parseCSV(csvText)` (js/app.js:55-74), as the loop it is written as. */
  method ParseCsv(text: string) returns (data: seq<map<string, string>>)
    ensures data == Decode(text)
  {
    var lines := Lines(text);
    var headers := Headers(text);
    data := [];
    for i := 1 to |lines|
      invariant data == DataRecords(headers, lines[1..i])
    {
      DataRecordsNext(headers, lines, i);
      if Trim(lines[i]) == "" {
        continue;
      }
      var values := ParseCsvLine(lines[i]);
      var obj := BuildRecord(headers, values);
      data := data + [obj];
    }
    assert lines[1..|lines|] == lines[1..];
  }

  /** Line `i` adds its record unless it is blank. */
  lemma DataRecordsNext(headers: seq<string>, lines: seq<string>, i: nat)
    requires 1 <= i < |lines|
    ensures DataRecords(headers, lines[1..i + 1])
         == if Trim(lines[i]) == "" then DataRecords(headers, lines[1..i])
            else DataRecords(headers, lines[1..i]) + [Record(headers, SplitLine(lines[i]))]
  {
    SliceSnoc(lines, 1, i + 1);
  }

  /** A slice is the slice one shorter followed by its last element. */
  lemma SliceSnoc(s: seq<string>, lo: nat, hi: nat)
    requires lo < hi <= |s|
    ensures |s[lo..hi]| == hi - lo
    ensures s[lo..hi][..hi - lo - 1] == s[lo..hi - 1] && s[lo..hi][hi - lo - 1] == s[hi - 1]
  {
  }

  /** The lines that are not blank, in order. */
  function NonBlank(lines: seq<string>): (r: seq<string>)
    ensures |r| <= |lines|
    decreases |lines|
  {
    if lines == [] then []
    else
      var earlier := NonBlank(lines[..|lines| - 1]);
      var line := lines[|lines| - 1];
      if Trim(line) == "" then earlier else earlier + [line]
  }

  /** The non-blank lines are lines of the text, and none of them is blank. */
  lemma {:induction false} NonBlankLines(lines: seq<string>)
    ensures forall k | 0 <= k < |NonBlank(lines)| :: NonBlank(lines)[k] in lines && Trim(NonBlank(lines)[k]) != ""
    decreases |lines|
  {
    if lines != [] {
      var front := lines[..|lines| - 1];
      NonBlankLines(front);
      assert forall l | l in front :: l in lines;
    }
  }

  /** The k-th record is the k-th non-blank line read under the headers. */
  lemma {:induction false} DataRecordsPerLine(headers: seq<string>, lines: seq<string>)
    ensures |DataRecords(headers, lines)| == |NonBlank(lines)|
    ensures forall k | 0 <= k < |NonBlank(lines)| ::
      DataRecords(headers, lines)[k] == Record(headers, SplitLine(NonBlank(lines)[k]))
    decreases |lines|
  {
    if lines != [] {
      var front := lines[..|lines| - 1];
      DataRecordsPerLine(headers, front);
      var line := lines[|lines| - 1];
      if Trim(line) != "" {
        var k := |NonBlank(front)|;
        assert NonBlank(lines) == NonBlank(front) + [line];
        assert DataRecords(headers, lines) == DataRecords(headers, front) + [Record(headers, SplitLine(line))];
      }
    }
  }

  /** `parseCSV` gives one record per non-blank line after the header, in
      order, each with exactly the trimmed header names as keys, each value
      the trimmed field of its column or '' when the line is short. */
  lemma DecodeRecords(text: string)
    ensures |Decode(text)| == |NonBlank(Lines(text)[1..])|
    ensures forall k | 0 <= k < |Decode(text)| ::
      Decode(text)[k] == Record(Headers(text), SplitLine(NonBlank(Lines(text)[1..])[k]))
    ensures forall k | 0 <= k < |Decode(text)| ::
      Decode(text)[k].Keys == set h | h in Headers(text)
  {
    DataRecordsPerLine(Headers(text), Lines(text)[1..]);
    forall k | 0 <= k < |Decode(text)|
      ensures Decode(text)[k].Keys == set h | h in Headers(text)
    {
      RecordKeys(Headers(text), SplitLine(NonBlank(Lines(text)[1..])[k]));
    }
  }

  /** Column names are trimmed. */
  lemma HeadersTrimmed(text: string)
    ensures forall h | h in Headers(text) :: Trim(h) == h
  {
    var names := Split(Lines(text)[0], ',');
    forall h | h in Headers(text) ensures Trim(h) == h {
      var k :| 0 <= k < |names| && Headers(text)[k] == h;
      TrimIdempotent(names[k]);
    }
  }
}
