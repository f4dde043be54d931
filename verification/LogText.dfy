/** The text of one dumped record, and the reader of that text. */
module LogText {
  import opened Words
  import opened LogRing
  import opened Numerals

  /** A record as it is dumped: with the CPU it was taken from. */
  datatype Item = Item(cpu: u32, entry: Entry)

  /** One printed number: its base, the most digits it can take and the character after it. */
  datatype Field = Field(value: nat, base: Base, width: nat, end: char) {
    ghost predicate Valid() {
      1 <= width && value < Pow(base, width) && !IsDigit(end)
    }
  }

  ghost predicate AllValid(fields: seq<Field>) {
    forall i | 0 <= i < |fields| :: fields[i].Valid()
  }

  function Print(fields: seq<Field>): string
  {
    if fields == [] then "" else Numeral(fields[0].value, fields[0].base) + [fields[0].end] + Print(fields[1..])
  }

  /** The six numbers of "%u,%llu,%u,%llX,%llX,%llX\n". */
  function Fields(item: Item): (fs: seq<Field>)
    ensures |fs| == 6
  {
    var e := item.entry;
    [ Field(item.cpu, 10, 10, ','),
      Field(e.seqNum, 10, 20, ','),
      Field(e.reason, 10, 10, ','),
      Field(e.qualification, 16, 16, ','),
      Field(e.rip, 16, 16, ','),
      Field(e.gva, 16, 16, '\n') ]
  }

  function Line(item: Item): string {
    Print(Fields(item))
  }

  function Room(fields: seq<Field>): nat {
    if fields == [] then 0 else fields[0].width + 1 + Room(fields[1..])
  }

  lemma {:induction false} PrintLength(fields: seq<Field>)
    requires AllValid(fields)
    ensures 2 * |fields| <= |Print(fields)| <= Room(fields)
  {
    if fields == [] {
    } else {
      NumeralLength(fields[0].value, fields[0].base, fields[0].width);
      PrintLength(fields[1..]);
    }
  }

  lemma FieldsValid(item: Item)
    ensures AllValid(Fields(item))
  {
    PowerBounds();
  }

  lemma PrintAt(fields: seq<Field>, i: nat)
    requires i < |fields|
    ensures Print(fields[i..]) == Numeral(fields[i].value, fields[i].base) + [fields[i].end] + Print(fields[i + 1..])
  {
    assert fields[i..][1..] == fields[i + 1..];
  }

  /** The text of a line, as its format says: decimal, decimal, decimal and three times hexadecimal. */
  lemma LineText(item: Item)
    ensures Line(item)
         == Numeral(item.cpu, 10) + "," + (Numeral(item.entry.seqNum, 10) + "," + (Numeral(item.entry.reason, 10) + ","
            + (Numeral(item.entry.qualification, 16) + "," + (Numeral(item.entry.rip, 16) + ","
            + (Numeral(item.entry.gva, 16) + "\n")))))
  {
    var fs := Fields(item);
    PrintAt(fs, 0);
    PrintAt(fs, 1);
    PrintAt(fs, 2);
    PrintAt(fs, 3);
    PrintAt(fs, 4);
    PrintAt(fs, 5);
    assert fs[0..] == fs && fs[6..] == [];
  }

  /** No line is longer than 94 characters, so the 256-character buffer never truncates one. */
  lemma LineLength(item: Item)
    ensures 1 <= |Line(item)| <= 94
  {
    var fs := Fields(item);
    FieldsValid(item);
    PrintLength(fs);
    assert fs[6..] == [];
    assert Room(fs[5..]) == 17 by { assert fs[5..][1..] == fs[6..]; }
    assert Room(fs[4..]) == 34 by { assert fs[4..][1..] == fs[5..]; }
    assert Room(fs[3..]) == 51 by { assert fs[3..][1..] == fs[4..]; }
    assert Room(fs[2..]) == 62 by { assert fs[2..][1..] == fs[3..]; }
    assert Room(fs[1..]) == 83 by { assert fs[1..][1..] == fs[2..]; }
  }

  /** A line ends in a newline. */
  lemma {:induction false} PrintEnd(fields: seq<Field>)
    requires fields != []
    ensures Print(fields) != "" && Print(fields)[|Print(fields)| - 1] == fields[|fields| - 1].end
  {
    if |fields| == 1 {
      assert fields[1..] == [];
    } else {
      PrintEnd(fields[1..]);
    }
  }

  /** A printed line holds digits and separators only. */
  lemma {:induction false} PrintCharacters(fields: seq<Field>, c: char)
    requires !IsDigit(c) && forall i | 0 <= i < |fields| :: fields[i].end != c
    ensures c !in Print(fields)
  {
    if fields == [] {
    } else {
      PrintCharacters(fields[1..], c);
      assert c !in Numeral(fields[0].value, fields[0].base);
    }
  }

  lemma LineHasNoDot(item: Item)
    ensures '.' !in Line(item)
  {
    PrintCharacters(Fields(item), '.');
  }

  function Lines(items: seq<Item>): (ls: seq<string>)
    ensures |ls| == |items|
  {
    seq(|items|, i requires 0 <= i < |items| => Line(items[i]))
  }

  /** Lines one after the other. */
  function Concat(ls: seq<string>): string {
    if ls == [] then "" else Concat(ls[..|ls| - 1]) + ls[|ls| - 1]
  }

  lemma {:induction false} ConcatSplit(a: seq<string>, b: seq<string>)
    ensures Concat(a + b) == Concat(a) + Concat(b)
  {
    if b == [] {
      assert a + b == a;
    } else {
      ConcatSplit(a, b[..|b| - 1]);
      assert (a + b)[..|a + b| - 1] == a + b[..|b| - 1];
    }
  }

  // ---- Reading the text back ----

  /** The text before the first `c`, and the text after it. */
  function Cut(s: string, c: char): (r: (string, string))
    ensures |r.1| <= |s|
    ensures s != [] ==> |r.1| < |s|
  {
    if s == [] then ("", "")
    else if s[0] == c then ("", s[1..])
    else var (a, b) := Cut(s[1..], c); ([s[0]] + a, b)
  }

  lemma {:induction false} CutAfter(x: string, c: char, rest: string)
    requires c !in x
    ensures Cut(x + [c] + rest, c) == (x, rest)
  {
    if x == [] {
      assert x + [c] + rest == [c] + rest;
    } else {
      CutAfter(x[1..], c, rest);
      assert (x + [c] + rest)[1..] == x[1..] + [c] + rest;
      assert [x[0]] + x[1..] == x;
    }
  }

  /** The numbers of one line, by its format; nothing when the text does not follow it. */
  function Scan(s: string, format: seq<Field>): (r: (seq<nat>, string))
    decreases format
  {
    if format == [] then ([], s)
    else
      var (digits, s1) := Cut(s, format[0].end);
      var (rest, s2) := Scan(s1, format[1..]);
      ((if AllDigits(digits) then [Value(digits, format[0].base)] else []) + rest, s2)
  }

  function Values(fields: seq<Field>): (r: seq<nat>)
    ensures |r| == |fields|
  {
    seq(|fields|, i requires 0 <= i < |fields| => fields[i].value)
  }

  /** Only the bases and the separators guide the scan, not the numbers. */
  ghost predicate SameShape(a: seq<Field>, b: seq<Field>) {
    |a| == |b| && forall i | 0 <= i < |a| :: a[i].base == b[i].base && a[i].end == b[i].end
  }

  /** Printed numbers are read back, whatever follows them. */
  lemma {:induction false} ScanOfPrint(fields: seq<Field>, format: seq<Field>, rest: string)
    requires AllValid(fields)
    requires SameShape(fields, format)
    ensures Scan(Print(fields) + rest, format) == (Values(fields), rest)
  {
    if fields == [] {
      assert Print(fields) + rest == rest;
    } else {
      var f := fields[0];
      var digits := Numeral(f.value, f.base);
      var tail := Print(fields[1..]) + rest;
      assert Print(fields) + rest == digits + [f.end] + tail;
      CutAfter(digits, f.end, tail);
      ValueOfNumeral(f.value, f.base);
      ScanOfPrint(fields[1..], format[1..], rest);
      assert Values(fields) == [f.value] + Values(fields[1..]);
    }
  }

  /** The first k lines of a text, by their format. */
  function ScanLines(s: string, format: seq<Field>, k: nat): seq<seq<nat>>
    decreases k
  {
    if k == 0 then [] else
      var r := Scan(s, format);
      [r.0] + ScanLines(r.1, format, k - 1)
  }

  lemma {:induction false} ScanOfConcat(ls: seq<string>, values: seq<seq<nat>>, format: seq<Field>, rest: string)
    requires |ls| == |values|
    requires forall i, r | 0 <= i < |ls| :: Scan(ls[i] + r, format) == (values[i], r)
    ensures ScanLines(Concat(ls) + rest, format, |ls|) == values
  {
    if ls == [] {
    } else {
      var first, tail := ls[0], Concat(ls[1..]) + rest;
      assert ls == [first] + ls[1..];
      ConcatSplit([first], ls[1..]);
      assert [first][..0] == [];
      assert Concat([first]) == first;
      assert Concat(ls) + rest == ls[0] + tail;
      ScanOfConcat(ls[1..], values[1..], format, rest);
    }
  }

  /** The format of a line, as a reader knows it. */
  const LINE_FORMAT: seq<Field> := [
    Field(0, 10, 10, ','), Field(0, 10, 20, ','), Field(0, 10, 10, ','),
    Field(0, 16, 16, ','), Field(0, 16, 16, ','), Field(0, 16, 16, '\n')]

  /** The six numbers a line shows: CPU, number, reason, qualification, instruction pointer, address. */
  function Shown(item: Item): (r: seq<nat>)
    ensures |r| == 6
  {
    var e := item.entry;
    [item.cpu, e.seqNum, e.reason, e.qualification, e.rip, e.gva]
  }

  function ShownAll(items: seq<Item>): (r: seq<seq<nat>>)
    ensures |r| == |items|
  {
    seq(|items|, i requires 0 <= i < |items| => Shown(items[i]))
  }

  lemma ScanOfLine(item: Item, rest: string)
    ensures Scan(Line(item) + rest, LINE_FORMAT) == (Shown(item), rest)
  {
    FieldsValid(item);
    ScanOfPrint(Fields(item), LINE_FORMAT, rest);
    assert Values(Fields(item)) == Shown(item);
  }

  /** The text of a list of records determines every printed number of every one of them. */
  lemma ScanOfLines(items: seq<Item>, rest: string)
    ensures ScanLines(Concat(Lines(items)) + rest, LINE_FORMAT, |items|) == ShownAll(items)
  {
    forall i, r | 0 <= i < |items|
      ensures Scan(Lines(items)[i] + r, LINE_FORMAT) == (ShownAll(items)[i], r)
    {
      ScanOfLine(items[i], r);
    }
    ScanOfConcat(Lines(items), ShownAll(items), LINE_FORMAT, rest);
  }
}
