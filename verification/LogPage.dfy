/**
 * What a dump writes into the 4 KB page: the longest prefix of the pending records whose
 * text stays below the limit, at most one record more, and a trailer.
 */
module LogPage {
  import opened LogRing
  import opened Numerals
  import opened LogText

  const MAX_LOG_RECORD_LEN: nat := 256
  const MAX_SENTINEL_SIZE: nat := 64
  const MAX_ELLIPSIS_SIZE: nat := 4
  const MAX_CONFIGFS_PAGE_SIZE: nat := PAGE_4KB - MAX_SENTINEL_SIZE - MAX_ELLIPSIS_SIZE - 1
  /** An offset of FULL or more means the page takes no further record. */
  const FULL: nat := MAX_CONFIGFS_PAGE_SIZE - 1
  const ELLIPSIS: string := "...\n"

  /** k is how many of the records count: all of them are below the limit and one more is not. */
  ghost predicate Fits(items: seq<Item>, k: nat) {
    && k <= |items|
    && |Concat(Lines(items[..k]))| < FULL
    && (k < |items| ==> |Concat(Lines(items[..k + 1]))| >= FULL)
  }

  lemma LinesSnoc(items: seq<Item>, item: Item)
    ensures Concat(Lines(items + [item])) == Concat(Lines(items)) + Line(item)
  {
    var ls := Lines(items + [item]);
    assert ls[..|ls| - 1] == Lines(items);
  }

  lemma LinesPrefix(items: seq<Item>, k: nat)
    requires k < |items|
    ensures Concat(Lines(items[..k + 1])) == Concat(Lines(items[..k])) + Line(items[k])
  {
    assert items[..k + 1] == items[..k] + [items[k]];
    LinesSnoc(items[..k], items[k]);
  }

  /** Text grows with every record, by at most 94 characters a record. */
  lemma {:induction false} LinesGrow(items: seq<Item>, i: nat, j: nat)
    requires i <= j <= |items|
    ensures |Concat(Lines(items[..i]))| + (j - i) <= |Concat(Lines(items[..j]))|
    ensures |Concat(Lines(items[..j]))| <= |Concat(Lines(items[..i]))| + 94 * (j - i)
    decreases j
  {
    if i == j {
    } else {
      LinesGrow(items, i, j - 1);
      LinesPrefix(items, j - 1);
      LineLength(items[j - 1]);
    }
  }

  lemma FitsUnique(items: seq<Item>, k: nat, l: nat)
    requires Fits(items, k) && Fits(items, l)
    ensures k == l
  {
    if k < l {
      LinesGrow(items, k + 1, l);
    } else if l < k {
      LinesGrow(items, l + 1, k);
    }
  }

  /** The number of records that count. */
  function Fit(items: seq<Item>): (k: nat)
    ensures Fits(items, k)
  {
    FitFrom(items, 0)
  }

  function FitFrom(items: seq<Item>, i: nat): (k: nat)
    requires i <= |items| && |Concat(Lines(items[..i]))| < FULL
    ensures Fits(items, k)
    decreases |items| - i
  {
    if i == |items| || |Concat(Lines(items[..i + 1]))| >= FULL then i else FitFrom(items, i + 1)
  }

  /**
   * The text in front of the trailer. A record that would pass the limit is cut at it and
   * marked; one that meets the limit exactly is written whole and still does not count.
   */
  function Body(items: seq<Item>): string {
    var k := Fit(items);
    if k == |items| then Concat(Lines(items))
    else
      var text := Concat(Lines(items[..k + 1]));
      if |text| == FULL then text else text[..FULL] + ELLIPSIS
  }

  function TrailerFields(offset: nat, counted: nat, full: bool): (fs: seq<Field>)
    ensures |fs| == 3
  {
    [Field(offset, 10, 4, ','), Field(counted, 10, 4, ','), Field(if full then 1 else 0, 10, 1, '\n')]
  }

  const EOF: string := "EOF\n"

  /** The text "%u,%u,%d\nEOF\n". */
  function Trailer(offset: nat, counted: nat, full: bool): string {
    Print(TrailerFields(offset, counted, full)) + EOF
  }

  function Page(items: seq<Item>): string {
    Body(items) + Trailer(|Body(items)|, Fit(items), Fit(items) < |items|)
  }

  lemma TrailerFits(offset: nat, counted: nat, full: bool)
    requires offset < 10_000 && counted < 10_000
    ensures AllValid(TrailerFields(offset, counted, full))
    ensures |Trailer(offset, counted, full)| <= 16
  {
    PowerBounds();
    assert Pow(10, 1) == 10 * Pow(10, 0);
    var fs := TrailerFields(offset, counted, full);
    PrintLength(fs);
    assert fs[3..] == [];
    assert Room(fs[2..]) == 2 by { assert fs[2..][1..] == fs[3..]; }
    assert Room(fs[1..]) == 7 by { assert fs[1..][1..] == fs[2..]; }
  }

  /** How much text and how many records a page can take; a full page counts at least 42. */
  lemma BodyBounds(items: seq<Item>)
    ensures |Body(items)| <= FULL + MAX_ELLIPSIS_SIZE
    ensures Fit(items) <= |Concat(Lines(items[..Fit(items)]))| < FULL
    ensures Fit(items) == |items| || Fit(items) >= 42
  {
    var k := Fit(items);
    LinesGrow(items, 0, k);
    assert items[..|items|] == items;
    if k < |items| {
      LinesGrow(items, 0, k + 1);
    }
  }

  lemma {:induction false} NoDots(items: seq<Item>)
    ensures '.' !in Concat(Lines(items))
  {
    if items == [] {
    } else {
      var front := items[..|items| - 1];
      NoDots(front);
      LinesPrefix(items, |items| - 1);
      assert items[..|items|] == items;
      LineHasNoDot(items[|items| - 1]);
    }
  }

  lemma PrefixCharacter(text: string, longer: string, i: nat)
    ensures text <= longer && i < |text| ==> longer[i] in text
  {
    if text <= longer && i < |text| {
      assert text[i] == longer[i];
    }
  }

  /** The line of the first record that does not count ends exactly at the limit. */
  ghost predicate MeetsLimit(items: seq<Item>) {
    Fit(items) < |items| && |Concat(Lines(items[..Fit(items) + 1]))| == FULL
  }

  /** The page shows the first record that does not count, whole. */
  ghost predicate ShowsNext(items: seq<Item>) {
    Fit(items) < |items| && Concat(Lines(items[..Fit(items) + 1])) <= Page(items)
  }

  /** A record that does not count stands on the page whole if and only if it meets the limit. */
  lemma ShowsNextExactly(items: seq<Item>)
    ensures ShowsNext(items) <==> MeetsLimit(items)
  {
    if Fit(items) < |items| {
      var text := Concat(Lines(items[..Fit(items) + 1]));
      NoDots(items[..Fit(items) + 1]);
      PrefixCharacter(text, Page(items), FULL);
      if |text| > FULL {
        assert Body(items)[FULL] == ELLIPSIS[0];
      }
    }
  }

  /** The trailer completes the page within its 4096 bytes, and its buffer holds it whole. */
  lemma PageOfBody(items: seq<Item>, body: string, trailer: string)
    requires body == Body(items)
    requires trailer == Trailer(|body|, Fit(items), Fit(items) < |items|)
    ensures body + trailer == Page(items) && |body + trailer| <= PAGE_4KB
    ensures |trailer| < MAX_SENTINEL_SIZE - 1
  {
    BodyBounds(items);
    TrailerFits(|body|, Fit(items), Fit(items) < |items|);
  }

  lemma PrintThree(fs: seq<Field>)
    requires |fs| == 3
    ensures Print(fs)
         == Numeral(fs[0].value, fs[0].base) + [fs[0].end] + (Numeral(fs[1].value, fs[1].base) + [fs[1].end]
            + (Numeral(fs[2].value, fs[2].base) + [fs[2].end]))
  {
    assert fs[3..] == [];
    assert Print(fs[2..]) == Numeral(fs[2].value, fs[2].base) + [fs[2].end] by { assert fs[2..][1..] == fs[3..]; }
    assert Print(fs[1..]) == Numeral(fs[1].value, fs[1].base) + [fs[1].end] + Print(fs[2..]) by {
      assert fs[1..][1..] == fs[2..];
    }
  }

  lemma FlagText(full: bool)
    ensures Numeral(if full then 1 else 0, 10) == if full then "1" else "0"
  {
    DigitIs(1);
    DigitIs(0);
    assert Numeral(1, 10) == [Digit(1)] && Numeral(0, 10) == [Digit(0)];
  }

  /** The counted lines, and what stands of the line that closes the page: whole, or cut and marked. */
  lemma BodyText(items: seq<Item>)
    ensures var k := Fit(items);
            var text := Concat(Lines(items[..k]));
            var line := if k < |items| then Line(items[k]) else "";
            && |text| < 4026 && (k < |items| ==> |text| + |line| >= 4026)
            && Body(items) == text + if |text| + |line| <= 4026 then line else line[..4026 - |text|] + "...\n"
  {
    var k := Fit(items);
    if k < |items| {
      LinesPrefix(items, k);
    } else {
      assert items[..k] == items;
    }
  }

  lemma TrailerText(offset: nat, counted: nat, full: bool)
    ensures Trailer(offset, counted, full)
         == Numeral(offset, 10) + "," + (Numeral(counted, 10) + "," + ((if full then "1" else "0") + "\n")) + "EOF\n"
  {
    FlagText(full);
    PrintThree(TrailerFields(offset, counted, full));
  }

  /**
   * The text of a page: the counted lines; what stands of the line that closes it, whole if it
   * ends at character 4026, else cut there and marked; and the trailer.
   */
  lemma PageText(items: seq<Item>)
    ensures var k := Fit(items);
            var text := Concat(Lines(items[..k]));
            var line := if k < |items| then Line(items[k]) else "";
            var body := text + if |text| + |line| <= 4026 then line else line[..4026 - |text|] + "...\n";
            && |text| < 4026 && (k < |items| ==> |text| + |line| >= 4026)
            && Page(items)
            == body + (Numeral(|body|, 10) + "," + (Numeral(k, 10) + "," + ((if k < |items| then "1" else "0") + "\n"))
                       + "EOF\n")
  {
    BodyText(items);
    TrailerText(|Body(items)|, Fit(items), Fit(items) < |items|);
  }

  // ---- What a reader of the page can recover ----

  /** Index just after the last newline of s, or 0. */
  function AfterLastNewline(s: string): (i: nat)
    ensures i <= |s|
  {
    if s == "" then 0
    else if s[|s| - 1] == '\n' then |s|
    else AfterLastNewline(s[..|s| - 1])
  }

  /** The trailer's three numbers, found from the end of the page. */
  function ReadTrailer(page: string): seq<nat>
    requires |page| >= 5
  {
    Scan(page[AfterLastNewline(page[..|page| - 5])..], TrailerFields(0, 0, false)).0
  }

  /** The trailer's numbers and the lines they say are counted. */
  function ReadPage(page: string): (seq<nat>, seq<seq<nat>>)
    requires |page| >= 5
  {
    var numbers := ReadTrailer(page);
    (numbers, ScanLines(page, LINE_FORMAT, if |numbers| == 3 then numbers[1] else 0))
  }

  lemma {:induction false} LastNewlineBefore(s: string, t: string)
    requires s == "" || s[|s| - 1] == '\n'
    requires '\n' !in t
    ensures AfterLastNewline(s + t) == |s|
  {
    if t == "" {
      assert s + t == s;
    } else {
      assert (s + t)[..|s + t| - 1] == s + t[..|t| - 1];
      LastNewlineBefore(s, t[..|t| - 1]);
    }
  }

  lemma ConcatEnd(items: seq<Item>)
    requires items != []
    ensures Concat(Lines(items)) != "" && Concat(Lines(items))[|Concat(Lines(items))| - 1] == '\n'
  {
    var last := items[|items| - 1];
    LinesPrefix(items, |items| - 1);
    assert items[..|items|] == items;
    PrintEnd(Fields(last));
  }

  lemma BodyEnd(items: seq<Item>)
    ensures Body(items) == "" || Body(items)[|Body(items)| - 1] == '\n'
  {
    if items != [] {
      ConcatEnd(items);
      if Fit(items) < |items| {
        ConcatEnd(items[..Fit(items) + 1]);
      }
    }
  }

  /** The counted lines stand whole at the front of the page. */
  lemma BodyStart(items: seq<Item>)
    ensures Concat(Lines(items[..Fit(items)])) <= Body(items)
  {
    var k := Fit(items);
    if k < |items| {
      LinesPrefix(items, k);
    } else {
      assert items[..k] == items;
    }
  }

  lemma NoNewline(digits: string)
    requires AllDigits(digits)
    ensures '\n' !in digits
  {
  }

  /** The trailer ends with five characters in front of which it has no newline. */
  lemma TrailerShape(offset: nat, counted: nat, full: bool)
    ensures var t := Trailer(offset, counted, full);
            |t| >= 5 && '\n' !in t[..|t| - 5]
  {
    var fs := TrailerFields(offset, counted, full);
    var a, b, c := Numeral(fs[0].value, 10), Numeral(fs[1].value, 10), Numeral(fs[2].value, 10);
    NoNewline(a);
    NoNewline(b);
    NoNewline(c);
    assert fs[1..][1..] == fs[2..] && fs[2..][1..] == [];
    assert Print(fs[2..]) == c + ['\n'];
    assert Print(fs[1..]) == b + [','] + Print(fs[2..]);
    var t := Trailer(offset, counted, full);
    assert t[..|t| - 5] == a + [','] + (b + [','] + c);
  }

  /** The trailer is found behind any text that ends in a newline. */
  lemma TrailerStart(body: string, t: string)
    requires body == "" || body[|body| - 1] == '\n'
    requires |t| >= 5 && '\n' !in t[..|t| - 5]
    ensures (body + t)[AfterLastNewline((body + t)[..|body + t| - 5])..] == t
  {
    assert (body + t)[..|body + t| - 5] == body + t[..|t| - 5];
    LastNewlineBefore(body, t[..|t| - 5]);
  }

  lemma ScanOfTrailer(offset: nat, counted: nat, full: bool)
    requires offset < 10_000 && counted < 10_000
    ensures Scan(Trailer(offset, counted, full), TrailerFields(0, 0, false)).0
         == [offset, counted, if full then 1 else 0]
  {
    var fs := TrailerFields(offset, counted, full);
    TrailerFits(offset, counted, full);
    ScanOfPrint(fs, TrailerFields(0, 0, false), EOF);
    assert Values(fs) == [offset, counted, if full then 1 else 0];
  }

  lemma ScanPrefix(page: string, items: seq<Item>)
    requires Concat(Lines(items)) <= page
    ensures ScanLines(page, LINE_FORMAT, |items|) == ShownAll(items)
  {
    var front := Concat(Lines(items));
    assert page == front + page[|front|..];
    ScanOfLines(items, page[|front|..]);
  }

  lemma ReadBack(body: string, t: string, items: seq<Item>, numbers: seq<nat>)
    requires body == "" || body[|body| - 1] == '\n'
    requires Concat(Lines(items)) <= body
    requires |t| >= 5 && '\n' !in t[..|t| - 5]
    requires Scan(t, TrailerFields(0, 0, false)).0 == numbers
    requires |numbers| == 3 && numbers[1] == |items|
    ensures ReadPage(body + t) == (numbers, ShownAll(items))
  {
    TrailerStart(body, t);
    assert ReadTrailer(body + t) == numbers;
    ScanPrefix(body + t, items);
  }

  /**
   * Page layout: a reader of the page alone recovers the length of the text before the
   * trailer, the number of counted records, the full flag, and every printed number of
   * exactly the counted records, in order.
   */
  lemma PageReadsBack(items: seq<Item>)
    ensures |Page(items)| >= 5
    ensures ReadPage(Page(items))
         == ([|Body(items)|, Fit(items), if Fit(items) < |items| then 1 else 0], ShownAll(items[..Fit(items)]))
  {
    BodyBounds(items);
    BodyEnd(items);
    BodyStart(items);
    var k, full := Fit(items), Fit(items) < |items|;
    TrailerShape(|Body(items)|, k, full);
    ScanOfTrailer(|Body(items)|, k, full);
    ReadBack(Body(items), Trailer(|Body(items)|, k, full), items[..k], [|Body(items)|, k, if full then 1 else 0]);
  }
}
