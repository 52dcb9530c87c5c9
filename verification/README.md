# KSBD-viewer chapter naming and navigation, in Dafny

KSBD-viewer is a small Flask site that shows scanned chapters as lists of image
links. Outside the web and file plumbing, `app.py` has one piece of logic. This
project models that logic as pure functions and proves properties about it.

* **Home page listing** (`home`). The directory's entry names are sorted as
  Python strings. Each name `x` becomes a pair:
  * the chapter id is `x` with every `".txt"` removed;
  * the display name is that id with every `_` shown as a space.
* **Chapter page** (`chapter`). The display name is the requested id with
  underscores shown as spaces. The chapter number is `int` of the text after
  the last underscore. The previous and next links are `Chapter_` followed by
  n-1 or n+1, with a `0` in front when that value is below 10. There is no
  previous link when n ≤ 1 and no next link when n ≥ 45. The lines of the
  chapter file are passed through unchanged.

Modules:

* `Wrappers`: `Option` and `Result`.
* `Text`: the three string operations.
* `LexOrder`: Python's string order and `list.sort()`.
* `Decimal`: parsing and writing chapter numbers.
* `Home`: the listing.
* `Chapter`: the chapter page.
* `ChapterExamples`: pages worked out for the shipped ids.

The directory listing and the chapter file's lines are inputs. A failed
`int()` is the `Failure(InvalidChapterNumber)` result.

`app.py` navigates by the numeric suffix, with a fixed last chapter of 45, and it
sorts file names, not ids:

* A chapter's neighbours are `Chapter_` plus its number minus and plus one,
  whether or not such files exist.
* The ids come out in string order when every entry is `<id>.txt` with no
  ".txt" inside the id, and no id is a proper prefix of another.
  This holds for equally wide `Chapter_NN` names (`Home.ListingIdsSorted`,
  `Home.ListingIdsSortedSameWidth`). Without that condition it can fail:
  `a-b.txt` sorts before `a.txt`, but the id `a` sorts before `a-b`
  (`Home.ListingIdsUnsortedExample`).

## Model

| member | source | states |
|---|---|---|
| Text.DisplayName | app.py:31 | The display name has the id's length and contains no underscore. Each underscore becomes a space; every other character is kept. |
| Text.DisplayNameIdempotent | app.py:31 | Showing a display name again changes nothing. |
| Text.DisplayNameUnchangedIff | app.py:31 | A name is shown unchanged exactly when it contains no underscore. |
| Text.DisplayNameOfConcat | app.py:19 | Renaming works character by character, so it distributes over concatenation. |
| Text.RemoveAll | app.py:19 | `replace(".txt", "")` never lengthens a name. |
| Text.RemoveAllUnchangedIff | app.py:19 | Removal leaves a name unchanged exactly when ".txt" does not occur in it. When it does occur, the result is strictly shorter. |
| Text.RemoveAllAbsent | app.py:19 | A name in which ".txt" does not occur is left as it is. |
| Text.RemoveAllAtFirst | app.py:19 | At the first ".txt" in a name, removal keeps what precedes it, drops it and goes on removing after it. With `RemoveAllAbsent` this fixes the result on every name, so every occurrence the scan meets is removed. |
| Text.RemoveTxtEveryOccurrence | app.py:19 | `a.txt.txt` becomes `a`: the second ".txt" is removed as well as the first. |
| Text.RemoveTxtOfFileName | app.py:19 | For an id containing no ".txt", the file name `<id>.txt` yields exactly that id. |
| Text.RemoveTxtNotIdempotent | app.py:19 | One pass can create a new ".txt": `x.t.txtxt` becomes `x.txt`, which becomes `x`. |
| Text.SegmentStart | app.py:34 | The last segment starts at 0 or just after an underscore, and contains no underscore. |
| Text.LastSegment | app.py:34 | `split("_")[-1]` contains no underscore. |
| Text.LastSegmentOfPlain | app.py:34 | A string without underscores is its own last segment. |
| Text.LastSegmentAfterSeparator | app.py:34 | For `p + "_" + t` with no underscore in `t`, the last segment is `t`, whatever `p` is. |
| LexOrder.LexLe | app.py:17 | A prefix is ≤ any extension of it, a non-empty string is never ≤ the empty one, and at a differing first character the smaller character decides. |
| LexOrder.LexLeMatchesFirstDifference | app.py:17 | The recursive string order agrees, in both directions, with "prefix, or smaller at the first difference". |
| LexOrder.LexLeReflexive | app.py:17 | Every string is ≤ itself. |
| LexOrder.LexLeAntisymmetric | app.py:17 | Two strings that are each ≤ the other are equal. |
| LexOrder.LexLeTransitive | app.py:17 | The string order is transitive. |
| LexOrder.LexLeTotal | app.py:17 | Any two strings are comparable. |
| LexOrder.Insert | app.py:17 | Inserting into a sorted list gives a sorted list with the same elements plus the new one. |
| LexOrder.Sort | app.py:17 | The result is sorted and is a permutation of the input. |
| LexOrder.SortedUnique | app.py:17 | Two sorted permutations of the same strings are equal. So any correct sort, Python's included, gives `Sort`'s result. |
| LexOrder.SortIdempotent | app.py:17 | Sorting twice gives the same result as sorting once. |
| LexOrder.SortIgnoresInputOrder | app.py:16-17 | The sorted list depends only on which names the directory holds, not on the order they are listed in. |
| Decimal.ParseNat | app.py:34 | Parsing succeeds exactly on a non-empty run of ASCII digits. |
| Decimal.ToDecimal | app.py:36 | `f"{n}"` is a non-empty run of digits. It has no leading zero unless n is 0, and it has two or more digits exactly when n ≥ 10. |
| Decimal.ToDecimalRoundTrip | app.py:34-36 | Parsing the written number gives the number back. |
| Decimal.ValueLeadingZero | app.py:34 | A leading zero does not change the value that `int` reads. |
| Decimal.Pad | app.py:36 | The padded number is all digits, at least two long, exactly two long below 10, and starts with `0` exactly when the value is below 10. |
| Decimal.PadRoundTrip | app.py:34-41 | Parsing the padded number gives the number back. |
| Decimal.PadInjective | app.py:36 | Different numbers are padded differently. |
| Chapter.NeighbourId | app.py:36 | A generated id is `Chapter_` followed by at least two digits, with a leading `0` exactly when the value is below 10. Reading its number gives the value back. |
| Chapter.PrevChapter | app.py:35-39 | There is no previous link exactly when n ≤ 1. When there is one, it is `Chapter_` followed by n-1 padded to two digits, and its number is n-1. |
| Chapter.NextChapter | app.py:40-44 | There is no next link exactly when n ≥ 45. When there is one, it is `Chapter_` followed by n+1 padded to two digits, and its number is n+1. |
| Chapter.ChapterView | app.py:28-54 | The page fails exactly when the suffix does not parse. Otherwise the name is the display name of the id and the links are the lines unchanged. The previous and next links are absent or present exactly as the bounds say, read back as n-1 and n+1, and equal `PrevChapter(n)` and `NextChapter(n)`, so for every n they are `Chapter_` followed by the padded neighbour number. |
| Chapter.ChapterNumber | app.py:34 | A number is read exactly when the text after the last underscore is a non-empty run of digits, and it is the decimal value of those digits. |
| Chapter.NavigationDependsOnlyOnSuffix | app.py:34-44 | Two ids with the same last segment both succeed or both fail, and get the same previous and next links. |
| Chapter.NeighboursAdjacent | app.py:34-44 | When both links are present, parse(prev) + 1 = n = parse(next) - 1, and both lie between 1 and 45. |
| Chapter.PrevThenNext | app.py:34-44 | Following "previous" and then "next" from chapter n ≤ 45 leads to the canonical id of n. |
| Chapter.NextThenPrev | app.py:34-44 | Following "next" and then "previous" from chapter n ≥ 1 leads to the canonical id of n. |
| Chapter.NumberOfChapterId | app.py:34 | The number of `Chapter_<digits>` is the value of those digits. |
| Chapter.NameOfChapterId | app.py:31 | The display name of `Chapter_<digits>` is `Chapter <digits>`. |
| ChapterExamples.FirstChapterExample | app.py:31-46 | `Chapter_01` is shown as `Chapter 01`, has no previous link, and links next to `Chapter_02`. |
| ChapterExamples.NinthChapterExample | app.py:31-46 | `Chapter_09` links to `Chapter_08` and `Chapter_10`. |
| ChapterExamples.LastChapterExample | app.py:31-46 | `Chapter_45` links back to `Chapter_44` and has no next link. |
| ChapterExamples.NonNumericExample | app.py:34 | `Chapter_x` fails to parse, as `int("x")` raises. The model also rejects `Chapter_1 `, which Python reads as 1 (see Left out). |
| Home.ChapterId | app.py:19 | Removing ".txt" leaves a name unchanged exactly when ".txt" does not occur in it; otherwise the id is strictly shorter. |
| Home.Rows | app.py:18-21 | The comprehension gives one row per name, and row i is the pair built from the i-th name. |
| Home.LinkFor | app.py:19 | The first component is the display name of the second. A name without ".txt" is its own id; otherwise the id is strictly shorter. |
| Home.Listing | app.py:16-21 | There is one pair per directory entry, and each pair's name is the display name of its id. |
| Home.ListingFromAnySortedOrder | app.py:16-21 | For any sorted permutation of the entries, row i is built from its i-th name. |
| Home.ListingIgnoresDirectoryOrder | app.py:16-17 | Entries listed in a different order give the same page. |
| Home.ListingCoversEntries | app.py:18-21 | Every entry has its row, and every row comes from an entry. |
| Home.ChapterIdOfChapterFile | app.py:19 | The id of a chapter file `<id>.txt` is its name without the extension. |
| Home.LexLeDropSuffix | app.py:17-19 | Dropping a common suffix keeps two strings in order when neither is a proper prefix of the other. |
| Home.ListingIdsSorted | app.py:16-21 | The ids are in string order when every entry is a chapter file and no id is a proper prefix of another. |
| Home.ListingIdsSortedSameWidth | app.py:16-21 | Equally wide chapter files list their ids in order. |
| Home.ListingIdsUnsortedExample | app.py:16-21 | For the entries `a.txt` and `a-b.txt`, the rows come out as `a-b` then `a`, which is not id order. |

## Left out

- Flask application set-up, route decorators and `app.run` (app.py:5-10, 13, 27, 61-62). These are web plumbing.
- `os.listdir` and reading the chapter file. The entry names and the file's lines are inputs. Line terminators are kept as they are, because the code does no trimming.
- Opening a chapter file that does not exist. The source raises an unhandled exception and has no explicit 404, so the model has no such case.
- Jinja template rendering (app.py:22-24, 56-58). The model stops at the values handed to the template.
- Decimal.ParseNat: narrower than Python's `int`. It rejects surrounding whitespace, a sign and non-ASCII digits, which `int` accepts. It also does not model the interpreter's limit on very long digit strings. Underscores between digits, which `int` also accepts, cannot occur in a last segment. For example, `Chapter_-3` fails in the model, while Python reads -3 and links next to `Chapter_0-2`.
- ChapterExamples.NonNumericExample: its second case, `Chapter_1 `, is where the model departs from Python. `int("1 ")` is 1, so app.py shows chapter 1 with a next link to `Chapter_02`; the model returns `Failure` because `Decimal.ParseNat` rejects whitespace.
- Chapter.ChapterView: returns `Failure` for suffixes such as ` 7`, `+7` or `-3`, which Python's `int` accepts, because it reads numbers with `Decimal.ParseNat`.
- Text.RemoveAll: requires a non-empty pattern. Python's `replace` with an empty pattern behaves differently, but the source only ever removes ".txt".
- Home.ListingIdsSorted: holds only under its stated condition, because the unconditional claim is false (see `Home.ListingIdsUnsortedExample`).
- Python's sort algorithm itself is not modelled: `LexOrder.Sort` is insertion sort. `LexOrder.SortedUnique` shows that every correct sort gives the same list.
- A catalogue sorted by position, a JSON data source and a memoising cache. These belong to other versions of the site, not to this `app.py`.
