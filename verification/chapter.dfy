/**
 The chapter page of app.py: the display name of the requested chapter id,
 its number read from the text after the last underscore, and links to the
 previous and next chapter built from that number.
 */
module Chapter {
  import opened Wrappers
  import opened Text
  import opened Decimal

  /** What every generated neighbour id starts with. */
  const NeighbourPrefix: string := "Chapter_"

  /** The hard-coded number of the last chapter: no next link is offered from it or beyond. */
  const LastChapter: nat := 45

  /** `int(chapter_id.split("_")[-1])`; `None` stands for the `ValueError`. */
  function ChapterNumber(chapterId: string): (r: Option<nat>)
    ensures r.Some? <==> |LastSegment(chapterId)| > 0 && AllDigits(LastSegment(chapterId))
    ensures r.Some? ==> r.value == Value(LastSegment(chapterId))
  {
    ParseNat(LastSegment(chapterId))
  }

  /** The id app.py links to for chapter `v`: the prefix, then `v` padded to two digits. */
  function NeighbourId(v: nat): (r: string)
    ensures |r| >= |NeighbourPrefix| + 2 && r[..|NeighbourPrefix|] == NeighbourPrefix
    ensures AllDigits(r[|NeighbourPrefix|..])
    ensures r[|NeighbourPrefix|] == '0' <==> v < 10
    ensures v < 10 ==> |r| == |NeighbourPrefix| + 2
    ensures ChapterNumber(r) == Some(v)
  {
    var digits := Pad(v);
    var r := NeighbourPrefix + digits;
    assert '_' !in digits;
    assert r == "Chapter" + "_" + digits;
    LastSegmentAfterSeparator("Chapter", digits);
    PadRoundTrip(v);
    assert r[|NeighbourPrefix|..] == digits;
    r
  }

  /** The `prev_chapter` link for chapter number `n`. */
  function PrevChapter(n: nat): (r: Option<string>)
    ensures r.None? <==> n <= 1
    ensures r.Some? ==> ChapterNumber(r.value) == Some(n - 1)
    ensures r.Some? ==> r.value == NeighbourPrefix + Pad(n - 1)
  {
    if n > 1 then Some(NeighbourId(n - 1)) else None
  }

  /** The `next_chapter` link for chapter number `n`. */
  function NextChapter(n: nat): (r: Option<string>)
    ensures r.None? <==> n >= LastChapter
    ensures r.Some? ==> ChapterNumber(r.value) == Some(n + 1)
    ensures r.Some? ==> r.value == NeighbourPrefix + Pad(n + 1)
  {
    if n < LastChapter then Some(NeighbourId(n + 1)) else None
  }

  /** The values app.py hands to the chapter template. */
  datatype ChapterPage = ChapterPage(
    chapterName: string,
    prevChapter: Option<string>,
    nextChapter: Option<string>,
    imageLinks: seq<string>)

  /** `int()` rejected the text after the last underscore. */
  datatype ChapterError = InvalidChapterNumber

  /**
   The page for `chapterId`, given the lines of its file (read elsewhere and
   passed through as they are, line terminators included).
   */
  function ChapterView(chapterId: string, fileLines: seq<string>): (r: Result<ChapterPage, ChapterError>)
    ensures r.Failure? <==> ChapterNumber(chapterId).None?
    ensures r.Success? ==>
      var n := ChapterNumber(chapterId).value;
      && r.value.chapterName == DisplayName(chapterId)
      && r.value.imageLinks == fileLines
      && (r.value.prevChapter.None? <==> n <= 1)
      && (r.value.prevChapter.Some? ==> ChapterNumber(r.value.prevChapter.value) == Some(n - 1))
      && (r.value.nextChapter.None? <==> n >= LastChapter)
      && (r.value.nextChapter.Some? ==> ChapterNumber(r.value.nextChapter.value) == Some(n + 1))
      && r.value.prevChapter == PrevChapter(n)
      && r.value.nextChapter == NextChapter(n)
  {
    var chapterName := DisplayName(chapterId);
    var number := ChapterNumber(chapterId);
    if number.None? then Failure(InvalidChapterNumber)
    else Success(ChapterPage(chapterName, PrevChapter(number.value), NextChapter(number.value), fileLines))
  }

  /** Only the text after the last underscore decides the navigation links. */
  lemma NavigationDependsOnlyOnSuffix(a: string, b: string, linesA: seq<string>, linesB: seq<string>)
    requires LastSegment(a) == LastSegment(b)
    ensures ChapterView(a, linesA).Success? == ChapterView(b, linesB).Success?
    ensures ChapterView(a, linesA).Success? ==>
      && ChapterView(a, linesA).value.prevChapter == ChapterView(b, linesB).value.prevChapter
      && ChapterView(a, linesA).value.nextChapter == ChapterView(b, linesB).value.nextChapter
  {
  }

  /** When both links are present, the current chapter lies strictly between them, one step each way. */
  lemma NeighboursAdjacent(chapterId: string, fileLines: seq<string>)
    requires ChapterView(chapterId, fileLines).Success?
    requires ChapterView(chapterId, fileLines).value.prevChapter.Some?
    requires ChapterView(chapterId, fileLines).value.nextChapter.Some?
    ensures
      var page := ChapterView(chapterId, fileLines).value;
      var n := ChapterNumber(chapterId).value;
      var p := ChapterNumber(page.prevChapter.value).value;
      var q := ChapterNumber(page.nextChapter.value).value;
      p < n < q && p + 1 == n && n + 1 == q && 1 <= p && q <= LastChapter
  {
  }

  /** Following `prev` and then `next` from chapter `n` leads to the canonical id of chapter `n`. */
  lemma PrevThenNext(chapterId: string, fileLines: seq<string>, prevLines: seq<string>)
    requires ChapterView(chapterId, fileLines).Success?
    requires ChapterView(chapterId, fileLines).value.prevChapter.Some?
    requires ChapterNumber(chapterId).value <= LastChapter
    ensures
      var prev := ChapterView(chapterId, fileLines).value.prevChapter.value;
      && ChapterView(prev, prevLines).Success?
      && ChapterView(prev, prevLines).value.nextChapter == Some(NeighbourId(ChapterNumber(chapterId).value))
  {
    var n := ChapterNumber(chapterId).value;
    assert ChapterView(chapterId, fileLines).value.prevChapter == PrevChapter(n);
    assert PrevChapter(n) == Some(NeighbourId(n - 1));
    ViewOfNeighbour(n - 1, prevLines);
  }

  /** Following `next` and then `prev` from chapter `n` leads to the canonical id of chapter `n`. */
  lemma NextThenPrev(chapterId: string, fileLines: seq<string>, nextLines: seq<string>)
    requires ChapterView(chapterId, fileLines).Success?
    requires ChapterView(chapterId, fileLines).value.nextChapter.Some?
    requires ChapterNumber(chapterId).value >= 1
    ensures
      var next := ChapterView(chapterId, fileLines).value.nextChapter.value;
      && ChapterView(next, nextLines).Success?
      && ChapterView(next, nextLines).value.prevChapter == Some(NeighbourId(ChapterNumber(chapterId).value))
  {
    var n := ChapterNumber(chapterId).value;
    assert ChapterView(chapterId, fileLines).value.nextChapter == NextChapter(n);
    assert NextChapter(n) == Some(NeighbourId(n + 1));
    ViewOfNeighbour(n + 1, nextLines);
  }

  /** The page behind a navigation link carries that chapter's own links. */
  lemma ViewOfNeighbour(v: nat, lines: seq<string>)
    ensures ChapterView(NeighbourId(v), lines).Success?
    ensures ChapterView(NeighbourId(v), lines).value.prevChapter == PrevChapter(v)
    ensures ChapterView(NeighbourId(v), lines).value.nextChapter == NextChapter(v)
  {
    assert ChapterNumber(NeighbourId(v)) == Some(v);
  }

  /** The number of an id of the shipped form `Chapter_<digits>` is the value of its digits. */
  lemma NumberOfChapterId(digits: string)
    requires |digits| > 0 && AllDigits(digits)
    ensures ChapterNumber("Chapter" + "_" + digits) == Some(Value(digits))
  {
    assert '_' !in digits;
    LastSegmentAfterSeparator("Chapter", digits);
  }

  /** The display name of an id of the shipped form `Chapter_<digits>`. */
  lemma NameOfChapterId(digits: string)
    requires AllDigits(digits)
    ensures DisplayName("Chapter" + "_" + digits) == "Chapter" + " " + digits
  {
  }
}
