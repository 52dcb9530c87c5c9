/**
 The home page of app.py: the directory's file names sorted as strings, each
 turned into a (display name, chapter id) pair.
 */
module Home {
  import opened Text
  import opened LexOrder

  /** One row of the home page: what is shown, and the id it links to. */
  datatype ChapterLink = ChapterLink(name: string, id: string)

  /** `x.replace(".txt", "")`: the chapter id of a directory entry. */
  function ChapterId(fileName: string): (id: string)
    ensures id == fileName <==> !Occurs(fileName, TxtSuffix)
    ensures Occurs(fileName, TxtSuffix) ==> |id| < |fileName|
  {
    RemoveAllUnchangedIff(fileName, TxtSuffix);
    RemoveAll(fileName, TxtSuffix)
  }

  /** The pair built for one directory entry. */
  function LinkFor(fileName: string): (l: ChapterLink)
    ensures l.name == DisplayName(l.id)
    ensures !Occurs(fileName, TxtSuffix) ==> l.id == fileName
    ensures Occurs(fileName, TxtSuffix) ==> |l.id| < |fileName|
  {
    var id := ChapterId(fileName);
    ChapterLink(DisplayName(id), id)
  }

  /** One row per file, in the order given. */
  function Rows(files: seq<string>): (r: seq<ChapterLink>)
    ensures |r| == |files|
    ensures forall i :: 0 <= i < |files| ==> r[i] == LinkFor(files[i])
  {
    if |files| == 0 then [] else [LinkFor(files[0])] + Rows(files[1..])
  }

  /** The `chapters` list handed to the home template, from the directory's entries in any order. */
  function Listing(entries: seq<string>): (r: seq<ChapterLink>)
    ensures |r| == |entries|
    ensures forall i :: 0 <= i < |r| ==> r[i].name == DisplayName(r[i].id)
  {
    Rows(Sort(entries))
  }

  /** Whatever sorted arrangement of the entries one starts from, the listing is built from it. */
  lemma ListingFromAnySortedOrder(entries: seq<string>, files: seq<string>)
    requires Sorted(files) && multiset(files) == multiset(entries)
    ensures |Listing(entries)| == |files|
    ensures forall i :: 0 <= i < |files| ==> Listing(entries)[i] == LinkFor(files[i])
  {
    SortedUnique(files, Sort(entries));
  }

  /** The order in which the directory reports its entries does not change the page. */
  lemma ListingIgnoresDirectoryOrder(a: seq<string>, b: seq<string>)
    requires multiset(a) == multiset(b)
    ensures Listing(a) == Listing(b)
  {
    SortIgnoresInputOrder(a, b);
  }

  /** Every entry of the directory appears on the page, and every row comes from an entry. */
  lemma ListingCoversEntries(entries: seq<string>)
    ensures forall e :: e in entries ==> LinkFor(e) in Listing(entries)
    ensures forall l :: l in Listing(entries) ==> exists e :: e in entries && l == LinkFor(e)
  {
    var files := Sort(entries);
    forall e | e in entries
      ensures LinkFor(e) in Listing(entries)
    {
      assert e in multiset(files);
      var i :| 0 <= i < |files| && files[i] == e;
      assert Listing(entries)[i] == LinkFor(e);
    }
    forall l | l in Listing(entries)
      ensures exists e :: e in entries && l == LinkFor(e)
    {
      var i :| 0 <= i < |Listing(entries)| && Listing(entries)[i] == l;
      assert files[i] in multiset(entries);
    }
  }

  /** A chapter file proper: some id holding no ".txt", followed by ".txt". */
  predicate IsChapterFile(fileName: string) {
    |fileName| >= |TxtSuffix|
    && fileName[|fileName| - |TxtSuffix|..] == TxtSuffix
    && !Occurs(fileName[..|fileName| - |TxtSuffix|], TxtSuffix)
  }

  /** The id of a chapter file is its name without the extension. */
  lemma ChapterIdOfChapterFile(fileName: string)
    requires IsChapterFile(fileName)
    ensures ChapterId(fileName) + TxtSuffix == fileName
  {
    var id := fileName[..|fileName| - |TxtSuffix|];
    assert fileName == id + TxtSuffix;
    RemoveTxtOfFileName(id);
  }

  /** A common suffix does not change the order of two strings when neither is a proper prefix of the other. */
  lemma {:induction false} LexLeDropSuffix(p: string, q: string, t: string)
    requires LexLe(p + t, q + t)
    requires !(p < q) && !(q < p)
    ensures LexLe(p, q)
    decreases |p|
  {
    if |p| == 0 {
      assert |q| == 0;
    } else {
      assert |q| > 0;
      assert (p + t)[0] == p[0] && (q + t)[0] == q[0];
      if p[0] == q[0] {
        assert (p + t)[1..] == p[1..] + t;
        assert (q + t)[1..] == q[1..] + t;
        assert p == [p[0]] + p[1..] && q == [q[0]] + q[1..];
        LexLeDropSuffix(p[1..], q[1..], t);
      }
    }
  }

  /**
   The ids on the page are in string order when every entry is a chapter file
   and no id is a proper prefix of another (as with equally wide, zero-padded
   `Chapter_NN` names).
   */
  lemma ListingIdsSorted(entries: seq<string>)
    requires forall e :: e in entries ==> IsChapterFile(e)
    requires forall e, f :: e in entries && f in entries ==> !(ChapterId(e) < ChapterId(f))
    ensures forall i, j :: 0 <= i < j < |entries| ==> LexLe(Listing(entries)[i].id, Listing(entries)[j].id)
  {
    var files := Sort(entries);
    forall i, j | 0 <= i < j < |entries|
      ensures LexLe(Listing(entries)[i].id, Listing(entries)[j].id)
    {
      assert files[i] in multiset(entries) && files[j] in multiset(entries);
      ChapterIdOfChapterFile(files[i]);
      ChapterIdOfChapterFile(files[j]);
      LexLeDropSuffix(ChapterId(files[i]), ChapterId(files[j]), TxtSuffix);
    }
  }

  /** Equal-width chapter files, such as `Chapter_01.txt` to `Chapter_45.txt`, list their ids in order. */
  lemma ListingIdsSortedSameWidth(entries: seq<string>, width: nat)
    requires forall e :: e in entries ==> IsChapterFile(e) && |e| == width
    ensures forall i, j :: 0 <= i < j < |entries| ==> LexLe(Listing(entries)[i].id, Listing(entries)[j].id)
  {
    forall e, f | e in entries && f in entries
      ensures !(ChapterId(e) < ChapterId(f))
    {
      ChapterIdOfChapterFile(e);
      ChapterIdOfChapterFile(f);
    }
    ListingIdsSorted(entries);
  }

  /**
   Without that condition the ids can come out of order: `a-b.txt` sorts
   before `a.txt` because '-' is below '.', yet the id `a` is below `a-b`.
   */
  lemma ListingIdsUnsortedExample(entries: seq<string>)
    requires entries == ["a.txt", "a-b.txt"]
    ensures Listing(entries) == [ChapterLink("a-b", "a-b"), ChapterLink("a", "a")]
    ensures !LexLe("a-b", "a")
  {
    ExampleFileOrder();
    assert multiset(["a-b.txt", "a.txt"]) == multiset(entries);
    ListingOfTwo(entries, "a-b.txt", "a.txt");
    ExampleLinkAB();
    ExampleLinkA();
  }

  lemma ExampleLinkAB()
    ensures LinkFor("a-b.txt") == ChapterLink("a-b", "a-b")
  {
    LinkOfPlainFile("a-b.txt", "a-b");
  }

  lemma ExampleLinkA()
    ensures LinkFor("a.txt") == ChapterLink("a", "a")
  {
  }

  /** '-' is below '.', so the longer file name comes first, while its id comes second. */
  lemma ExampleFileOrder()
    ensures LexLe("a-b.txt", "a.txt")
    ensures !LexLe("a-b", "a")
  {
  }

  /** The listing of two entries, given their sorted order. */
  lemma ListingOfTwo(entries: seq<string>, first: string, second: string)
    requires LexLe(first, second)
    requires multiset([first, second]) == multiset(entries)
    ensures Listing(entries) == [LinkFor(first), LinkFor(second)]
  {
    ListingFromAnySortedOrder(entries, [first, second]);
  }

  /** The row for `<id>.txt` when `id` is too short to hold ".txt" and has no underscore. */
  lemma LinkOfPlainFile(fileName: string, id: string)
    requires fileName == id + TxtSuffix
    requires |id| < |TxtSuffix| && '_' !in id
    ensures LinkFor(fileName) == ChapterLink(id, id)
  {
    RemoveTxtOfFileName(id);
    DisplayNameUnchangedIff(id);
  }
}
