/** Chapter pages worked out for ids of the shipped form, `Chapter_01` to `Chapter_45`. */
module ChapterExamples {
  import opened Wrappers
  import opened Text
  import opened Decimal
  import opened Chapter

  /** The first shipped chapter has no previous link. */
  lemma FirstChapterExample(lines: seq<string>)
    ensures ChapterView("Chapter_01", lines) == Success(ChapterPage("Chapter 01", None, Some("Chapter_02"), lines))
  {
    NumberOf01();
    NameOf01();
    NeighbourIdOf2();
  }

  /** Chapter 9 links forward to the first two-digit id. */
  lemma NinthChapterExample(lines: seq<string>)
    ensures ChapterView("Chapter_09", lines) == Success(ChapterPage("Chapter 09", Some("Chapter_08"), Some("Chapter_10"), lines))
  {
    NumberOf09();
    NameOf09();
    NeighbourIdOf8And10();
  }

  /** The last shipped chapter has no next link. */
  lemma LastChapterExample(lines: seq<string>)
    ensures ChapterView("Chapter_45", lines) == Success(ChapterPage("Chapter 45", Some("Chapter_44"), None, lines))
  {
    NumberOf45();
    NameOf45();
    NeighbourIdOf44();
  }

  /**
   A suffix that is not a number is the `ValueError` case (`Chapter_x`). The
   model also fails on `Chapter_1 `, where Python's `int` skips the trailing
   space and reads 1: this is the narrowing of `ParseNat`, not app.py's behaviour.
   */
  lemma NonNumericExample(lines: seq<string>)
    ensures ChapterView("Chapter_x", lines) == Failure(InvalidChapterNumber)
    ensures ChapterView("Chapter_1 ", lines) == Failure(InvalidChapterNumber)
  {
  }

  lemma NumberOf01()
    ensures ChapterNumber("Chapter_01") == Some(1)
  {
    assert LastSegment("Chapter_01") == "01";
    assert Value("01") == 1 by { assert "01"[..1] == "0"; }
  }

  lemma NumberOf09()
    ensures ChapterNumber("Chapter_09") == Some(9)
  {
    assert LastSegment("Chapter_09") == "09";
    assert Value("09") == 9 by { assert "09"[..1] == "0"; }
  }

  lemma NumberOf45()
    ensures ChapterNumber("Chapter_45") == Some(45)
  {
    assert LastSegment("Chapter_45") == "45";
    assert Value("45") == 45 by { assert "45"[..1] == "4"; }
  }

  lemma NameOf01()
    ensures DisplayName("Chapter_01") == "Chapter 01"
  {
  }

  lemma NameOf09()
    ensures DisplayName("Chapter_09") == "Chapter 09"
  {
  }

  lemma NameOf45()
    ensures DisplayName("Chapter_45") == "Chapter 45"
  {
  }

  lemma NeighbourIdOf2()
    ensures NeighbourId(2) == "Chapter_02"
  {
  }

  lemma NeighbourIdOf8And10()
    ensures NeighbourId(8) == "Chapter_08"
    ensures NeighbourId(10) == "Chapter_10"
  {
  }

  lemma NeighbourIdOf44()
    ensures NeighbourId(44) == "Chapter_44"
  {
  }
}
