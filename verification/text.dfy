/**
 The three string operations app.py applies to chapter ids and file names:
 `str.replace("_", " ")`, `str.replace(".txt", "")` and `str.split("_")[-1]`.
 */
module Text {

  /** The file extension the chapter files carry. */
  const TxtSuffix: string := ".txt"

  /** What a display name shows for the character `c`. */
  function Shown(c: char): char {
    if c == '_' then ' ' else c
  }

  /** `s.replace("_", " ")`: every underscore becomes a space and nothing else changes. */
  function DisplayName(s: string): (r: string)
    ensures |r| == |s|
    ensures forall i :: 0 <= i < |s| && s[i] == '_' ==> r[i] == ' '
    ensures forall i :: 0 <= i < |s| && s[i] != '_' ==> r[i] == s[i]
    ensures '_' !in r
  {
    if |s| == 0 then []
    else
      var rest := DisplayName(s[1..]);
      assert forall i :: 1 <= i < |s| ==> s[i] == s[1..][i - 1];
      [Shown(s[0])] + rest
  }

  /** A display name is a fixed point of the renaming: showing it again changes nothing. */
  lemma DisplayNameIdempotent(s: string)
    ensures DisplayName(DisplayName(s)) == DisplayName(s)
  {
  }

  /** A name is shown unchanged exactly when it holds no underscore. */
  lemma DisplayNameUnchangedIff(s: string)
    ensures DisplayName(s) == s <==> '_' !in s
  {
  }

  /** Renaming works character by character, so it distributes over concatenation. */
  lemma DisplayNameOfConcat(a: string, b: string)
    ensures DisplayName(a + b) == DisplayName(a) + DisplayName(b)
  {
  }

  /** `pat` occurs in `s` starting at index `i`. */
  predicate OccursAt(s: string, pat: string, i: nat) {
    i + |pat| <= |s| && s[i..i + |pat|] == pat
  }

  /** `pat` occurs somewhere in `s`. */
  predicate Occurs(s: string, pat: string) {
    exists i: nat | i <= |s| :: OccursAt(s, pat, i)
  }

  /**
   `s.replace(pat, "")` for a non-empty pattern: one left-to-right scan that
   deletes every occurrence it meets, never reconsidering deleted text.
   */
  function RemoveAll(s: string, pat: string): (r: string)
    requires |pat| > 0
    ensures |r| <= |s|
    decreases |s|
  {
    if |s| < |pat| then s
    else if s[..|pat|] == pat then RemoveAll(s[|pat|..], pat)
    else [s[0]] + RemoveAll(s[1..], pat)
  }

  /** An occurrence in the tail of `s` is an occurrence in `s`, one place later. */
  lemma OccursInTail(s: string, pat: string, i: nat)
    requires |s| > 0
    requires OccursAt(s[1..], pat, i)
    ensures OccursAt(s, pat, i + 1)
  {
  }

  /** An occurrence in `s` past its first character is an occurrence in its tail. */
  lemma OccursFromTail(s: string, pat: string, i: nat)
    requires i >= 1
    requires OccursAt(s, pat, i)
    ensures OccursAt(s[1..], pat, i - 1)
  {
  }

  /** Removal shortens every string in which the pattern occurs. */
  lemma {:induction false} RemoveAllShortens(s: string, pat: string)
    requires |pat| > 0
    requires Occurs(s, pat)
    ensures |RemoveAll(s, pat)| < |s|
    decreases |s|
  {
    var i: nat :| OccursAt(s, pat, i);
    if s[..|pat|] == pat {
    } else {
      assert i != 0;
      OccursFromTail(s, pat, i);
      RemoveAllShortens(s[1..], pat);
    }
  }

  /** Removal leaves a string without the pattern untouched. */
  lemma {:induction false} RemoveAllAbsent(s: string, pat: string)
    requires |pat| > 0
    requires !Occurs(s, pat)
    ensures RemoveAll(s, pat) == s
    decreases |s|
  {
    if |s| < |pat| {
    } else {
      assert !OccursAt(s, pat, 0);
      assert s[..|pat|] != pat;
      forall i: nat | OccursAt(s[1..], pat, i)
        ensures false
      {
        OccursInTail(s, pat, i);
      }
      RemoveAllAbsent(s[1..], pat);
      assert s == [s[0]] + s[1..];
    }
  }

  /**
   At the first occurrence of the pattern, removal keeps everything before it,
   drops the occurrence and carries on after it. With `RemoveAllAbsent` this
   fixes the result on every input: each occurrence the scan meets is removed.
   */
  lemma {:induction false} RemoveAllAtFirst(s: string, pat: string, i: nat)
    requires |pat| > 0
    requires OccursAt(s, pat, i)
    requires forall j: nat :: j < i ==> !OccursAt(s, pat, j)
    ensures RemoveAll(s, pat) == s[..i] + RemoveAll(s[i + |pat|..], pat)
    decreases i
  {
    if i == 0 {
      assert s[..|pat|] == pat;
    } else {
      var t := s[1..];
      var rest := RemoveAll(s[i + |pat|..], pat);
      RemoveAllSkip(s, pat);
      OccursFromTail(s, pat, i);
      NoEarlierOccurrenceInTail(s, pat, i);
      RemoveAllAtFirst(t, pat, i - 1);
      assert t[i - 1 + |pat|..] == s[i + |pat|..];
      PrefixThroughHead(s, i, RemoveAll(t, pat), rest);
    }
  }

  /** Putting the first character back in front of a prefix of the tail. */
  lemma PrefixThroughHead(s: string, i: nat, tailResult: string, rest: string)
    requires 1 <= i <= |s|
    requires tailResult == s[1..][..i - 1] + rest
    ensures [s[0]] + tailResult == s[..i] + rest
  {
    assert s[..i] == [s[0]] + s[1..][..i - 1];
  }

  /** Where the pattern does not start at 0, removal keeps the first character. */
  lemma RemoveAllSkip(s: string, pat: string)
    requires |pat| > 0 && |s| >= |pat|
    requires !OccursAt(s, pat, 0)
    ensures RemoveAll(s, pat) == [s[0]] + RemoveAll(s[1..], pat)
  {
  }

  /** No occurrence before index `i` in `s` means none before `i - 1` in its tail. */
  lemma NoEarlierOccurrenceInTail(s: string, pat: string, i: nat)
    requires 1 <= i <= |s|
    requires forall j: nat :: j < i ==> !OccursAt(s, pat, j)
    ensures forall j: nat :: j < i - 1 ==> !OccursAt(s[1..], pat, j)
  {
    forall j: nat | j < i - 1
      ensures !OccursAt(s[1..], pat, j)
    {
      if OccursAt(s[1..], pat, j) {
        OccursInTail(s, pat, j);
      }
    }
  }

  /** Every ".txt" is removed, not only the first. */
  lemma RemoveTxtEveryOccurrence()
    ensures RemoveAll("a.txt.txt", TxtSuffix) == "a"
  {
    KeepFirst("a.txt.txt", 0);
    DropTxt(".txt.txt", ".txt");
    DropTxt(".txt", "");
  }

  /** Removal changes a string exactly when the pattern occurs in it, and then shortens it. */
  lemma RemoveAllUnchangedIff(s: string, pat: string)
    requires |pat| > 0
    ensures RemoveAll(s, pat) == s <==> !Occurs(s, pat)
    ensures Occurs(s, pat) ==> |RemoveAll(s, pat)| < |s|
  {
    if Occurs(s, pat) {
      RemoveAllShortens(s, pat);
    } else {
      RemoveAllAbsent(s, pat);
    }
  }

  /**
   The chapter file `<id>.txt` yields back `id` when `id` itself holds no
   ".txt": no occurrence of ".txt" can straddle the end of `id`, because no
   proper suffix of ".txt" is also a prefix of it.
   */
  lemma {:induction false} RemoveTxtOfFileName(id: string)
    requires !Occurs(id, TxtSuffix)
    ensures RemoveAll(id + TxtSuffix, TxtSuffix) == id
    decreases |id|
  {
    var s := id + TxtSuffix;
    if |id| == 0 {
      assert s[..4] == TxtSuffix;
      assert s[4..] == [];
    } else {
      assert s[..4] != TxtSuffix by {
        if |id| >= 4 {
          assert !OccursAt(id, TxtSuffix, 0);
          assert s[..4] == id[..4];
        } else {
          assert s[..4][|id|] == s[|id|] == '.';
          assert TxtSuffix[|id|] != '.';
        }
      }
      forall i: nat | OccursAt(id[1..], TxtSuffix, i)
        ensures false
      {
        OccursInTail(id, TxtSuffix, i);
      }
      RemoveTxtOfFileName(id[1..]);
      assert s[1..] == id[1..] + TxtSuffix;
      assert id == [id[0]] + id[1..];
    }
  }

  /** The dropped characters need not hold the whole story: removal can create a new ".txt". */
  lemma RemoveTxtNotIdempotent()
    ensures RemoveAll("x.t.txtxt", TxtSuffix) == "x.txt"
    ensures RemoveAll("x.txt", TxtSuffix) == "x"
  {
    KeepFirst("x.txt", 0);
    DropTxt(".txt", "");
    KeepFirst("x.t.txtxt", 0);
    KeepFirst(".t.txtxt", 2);
    KeepFirst("t.txtxt", 0);
    DropTxt(".txtxt", "xt");
  }

  /** A leading ".txt" is dropped. */
  lemma DropTxt(s: string, rest: string)
    requires s == TxtSuffix + rest
    ensures RemoveAll(s, TxtSuffix) == RemoveAll(rest, TxtSuffix)
  {
    assert s[..4] == TxtSuffix && s[4..] == rest;
  }

  /** A string that differs from ".txt" at one of its first four places keeps its first character. */
  lemma KeepFirst(s: string, k: nat)
    requires k < 4 <= |s| && s[k] != TxtSuffix[k]
    ensures RemoveAll(s, TxtSuffix) == [s[0]] + RemoveAll(s[1..], TxtSuffix)
  {
    assert s[..4][k] != TxtSuffix[k];
  }

  /**
   Where the last underscore-separated segment of `s` begins: just after the
   last underscore, or at 0 when there is none.
   */
  function SegmentStart(s: string): (k: nat)
    ensures k <= |s|
    ensures k == 0 || s[k - 1] == '_'
    ensures forall i :: k <= i < |s| ==> s[i] != '_'
  {
    if |s| == 0 || s[|s| - 1] == '_' then |s| else SegmentStart(s[..|s| - 1])
  }

  /** `s.split("_")[-1]`: the text after the last underscore, or all of `s` when it has none. */
  function LastSegment(s: string): (r: string)
    ensures '_' !in r
  {
    s[SegmentStart(s)..]
  }

  /** A segment with no underscore is its own last segment. */
  lemma LastSegmentOfPlain(t: string)
    requires '_' !in t
    ensures LastSegment(t) == t
  {
  }

  /** Whatever precedes the last underscore does not matter. */
  lemma {:induction false} LastSegmentAfterSeparator(p: string, t: string)
    requires '_' !in t
    ensures LastSegment(p + "_" + t) == t
    decreases |t|
  {
    var s := p + "_" + t;
    if |t| == 0 {
      assert s[|s| - 1] == '_';
    } else {
      assert s[..|s| - 1] == p + "_" + t[..|t| - 1];
      LastSegmentAfterSeparator(p, t[..|t| - 1]);
      assert s[|s| - 1] == t[|t| - 1] != '_';
      assert SegmentStart(s) == SegmentStart(s[..|s| - 1]);
    }
  }
}
