// Where a marker occurs in a text, and how concatenation keeps occurrences apart.
module Occurrences {
  import opened Text

  // strings.Count for a non-empty pattern.
  function Count(s: string, pat: string): nat
    requires pat != ""
    decreases |s|
  {
    var i := Index(s, pat);
    if i < 0 then 0 else 1 + Count(s[i + |pat|..], pat)
  }

  ghost predicate Free(s: string, pat: string) {
    forall i :: !At(s, pat, i)
  }

  ghost predicate OnlyAt(s: string, pat: string, i: int) {
    At(s, pat, i) && forall j :: At(s, pat, j) ==> j == i
  }

  // A pattern with its first character nowhere else cannot overlap itself.
  predicate Headed(pat: string) {
    pat != "" && pat[0] !in pat[1..]
  }

  lemma HeadOnly(pat: string)
    requires Headed(pat)
    ensures forall k :: 1 <= k < |pat| ==> pat[k] != pat[0]
  {
    forall k | 1 <= k < |pat| ensures pat[k] != pat[0] {
      assert pat[1..][k - 1] == pat[k];
    }
  }

  predicate Spelled(s: string, pat: string, i: int) {
    0 <= i <= |s| - |pat| && forall k :: 0 <= k < |pat| ==> s[i + k] == pat[k]
  }

  lemma Pointwise(s: string, pat: string, i: int)
    ensures At(s, pat, i) <==> Spelled(s, pat, i)
  {
    if 0 <= i <= |s| - |pat| {
      var t := s[i..i + |pat|];
      assert forall k :: 0 <= k < |pat| ==> t[k] == s[i + k];
      assert Spelled(s, pat, i) ==> t == pat;
    }
  }

  lemma Sub(s: string, pat: string, lo: nat, hi: nat, i: int)
    requires lo <= hi <= |s|
    ensures At(s[lo..hi], pat, i) <==> 0 <= i && lo + i + |pat| <= hi && At(s, pat, lo + i)
  {
    Pointwise(s[lo..hi], pat, i);
    Pointwise(s, pat, lo + i);
  }

  lemma SubTail(s: string, pat: string, lo: nat, i: int)
    requires lo <= |s|
    ensures At(s[lo..], pat, i) <==> 0 <= i && At(s, pat, lo + i)
  {
    assert s[lo..] == s[lo..|s|];
    Sub(s, pat, lo, |s|, i);
  }

  // An occurrence in a concatenation lies on the left, lies on the right, or spans the seam.
  lemma Split(a: string, b: string, pat: string, i: int)
    requires At(a + b, pat, i)
    ensures i + |pat| <= |a| ==> At(a, pat, i)
    ensures i >= |a| ==> At(b, pat, i - |a|)
    ensures i < |a| < i + |pat| ==> a[|a| - 1] == pat[|a| - 1 - i] && b[0] == pat[|a| - i]
    ensures pat != "" && i < |a| ==> a[i] == pat[0]
  {
    var s := a + b;
    assert a == s[..|a|] && b == s[|a|..];
    Sub(s, pat, 0, |a|, i);
    Sub(s, pat, |a|, |s|, i - |a|);
    Pointwise(s, pat, i);
  }

  // A pattern occurs at the front or in what follows the first character.
  lemma FreeStep(s: string, pat: string)
    requires s != ""
    ensures Free(s, pat) <==> !HasPrefix(s, pat) && Free(s[1..], pat)
  {
    assert HasPrefix(s, pat) <==> At(s, pat, 0);
    forall i ensures At(s[1..], pat, i) <==> 0 <= i && At(s, pat, 1 + i) {
      SubTail(s, pat, 1, i);
    }
    if Free(s[1..], pat) && !At(s, pat, 0) {
      forall i ensures !At(s, pat, i) {
        assert i >= 1 ==> At(s, pat, 1 + (i - 1)) == At(s[1..], pat, i - 1);
      }
    }
  }

  // Nothing starts in a front without the pattern's first character.
  lemma {:induction false} FreeBehind(a: string, b: string, pat: string)
    requires pat != "" && pat[0] !in a
    ensures Free(a + b, pat) <==> Free(b, pat)
  {
    if a == "" {
      assert a + b == b;
    } else {
      FreeStep(a + b, pat);
      assert (a + b)[1..] == a[1..] + b;
      assert (a + b)[0] == a[0];
      FreeBehind(a[1..], b, pat);
    }
  }

  // A character foreign to the pattern separates its two sides.
  lemma FreeAcross(a: string, c: char, b: string, pat: string)
    requires pat != "" && c !in pat
    ensures Free(a + [c] + b, pat) <==> Free(a, pat) && Free(b, pat)
  {
    var s := a + [c] + b;
    if Free(a, pat) && Free(b, pat) {
      FreeAround(a, c, b, pat);
    }
    if Free(s, pat) {
      FreeSub(s, pat, 0, |a|);
      FreeSub(s, pat, |a| + 1, |s|);
      assert s[0..|a|] == a && s[|a| + 1..|s|] == b;
    }
  }

  lemma FreeSub(s: string, pat: string, lo: nat, hi: nat)
    requires lo <= hi <= |s| && Free(s, pat)
    ensures Free(s[lo..hi], pat)
  {
    forall i ensures !At(s[lo..hi], pat, i) {
      Sub(s, pat, lo, hi, i);
    }
  }

  lemma FreeLonger(s: string, pat: string, longer: string)
    requires HasPrefix(longer, pat) && Free(s, pat)
    ensures Free(s, longer)
  {
    forall i ensures !At(s, longer, i) {
      Pointwise(s, longer, i);
      Pointwise(s, pat, i);
      assert forall k :: 0 <= k < |pat| ==> longer[k] == pat[k];
    }
  }

  lemma FreeWithoutHead(s: string, pat: string)
    requires pat != "" && pat[0] !in s
    ensures Free(s, pat)
  {
    forall i ensures !At(s, pat, i) {
      Pointwise(s, pat, i);
    }
  }

  // A character foreign to the pattern keeps the two sides apart.
  lemma FreeAround(a: string, c: char, b: string, pat: string)
    requires pat != "" && c !in pat && Free(a, pat) && Free(b, pat)
    ensures Free(a + [c] + b, pat)
  {
    var tail := [c] + b;
    assert a + [c] + b == a + tail;
    FreeTail(c, b, pat);
    forall i ensures !At(a + tail, pat, i) {
      if At(a + tail, pat, i) {
        Split(a, tail, pat, i);
      }
    }
  }

  lemma FreeTail(c: char, b: string, pat: string)
    requires pat != "" && c !in pat && Free(b, pat)
    ensures Free([c] + b, pat)
  {
    forall i ensures !At([c] + b, pat, i) {
      if At([c] + b, pat, i) {
        Split([c], b, pat, i);
      }
    }
  }

  // After a text that is empty or ends in a foreign character, a text without the pattern adds none.
  lemma FreeAfter(a: string, b: string, pat: string)
    requires pat != "" && Free(a, pat) && Free(b, pat)
    requires a != "" ==> a[|a| - 1] !in pat
    ensures Free(a + b, pat)
  {
    forall i ensures !At(a + b, pat, i) {
      if At(a + b, pat, i) {
        Split(a, b, pat, i);
      }
    }
  }

  // A headed pattern put at the front of a text without it occurs there only.
  lemma LeadsOnce(pat: string, b: string)
    requires Headed(pat) && Free(b, pat)
    ensures OnlyAt(pat + b, pat, 0)
  {
    assert (pat + b)[..|pat|] == pat;
    forall i | At(pat + b, pat, i) ensures i == 0 {
      Split(pat, b, pat, i);
      HeadOnly(pat);
    }
  }

  // The same behind a text without it that is empty or ends in a foreign character.
  lemma PlacedOnce(a: string, pat: string, b: string)
    requires Headed(pat) && Free(a, pat) && Free(b, pat)
    requires a != "" ==> a[|a| - 1] !in pat
    ensures OnlyAt(a + pat + b, pat, |a|)
  {
    var tail := pat + b;
    assert a + pat + b == a + tail;
    LeadsOnce(pat, b);
    Sub(a + tail, pat, |a|, |a + tail|, 0);
    assert (a + tail)[|a|..] == tail;
    forall i | At(a + tail, pat, i) ensures i == |a| {
      Split(a, tail, pat, i);
    }
  }

  // A text without the pattern, empty or ending in a foreign character, hides no earlier occurrence.
  lemma FirstPlaced(a: string, pat: string, b: string)
    requires pat != "" && Free(a, pat)
    requires a != "" ==> a[|a| - 1] !in pat
    ensures Index(a + pat + b, pat) == |a|
  {
    var tail := pat + b;
    assert a + pat + b == a + tail;
    assert (a + tail)[|a|..|a| + |pat|] == pat;
    assert At(a + tail, pat, |a|);
    var i := Index(a + tail, pat);
    Split(a, tail, pat, i);
  }

  lemma OnlyAtIndex(s: string, pat: string, i: int)
    requires pat != "" && OnlyAt(s, pat, i)
    ensures Index(s, pat) == i && Count(s, pat) == 1
  {
    var rest := s[i + |pat|..];
    forall j ensures !At(rest, pat, j) {
      Sub(s, pat, i + |pat|, |s|, j);
    }
    assert Index(rest, pat) == -1;
  }

  lemma FreeCount(s: string, pat: string)
    requires pat != ""
    ensures Count(s, pat) == 0 <==> Free(s, pat)
  {
  }

  // Two headed patterns with one head never overlap unless they start together.
  lemma NoOverlap(s: string, one: string, two: string, i: int, j: int)
    requires Headed(one) && Headed(two) && one[0] == two[0]
    requires At(s, one, i) && At(s, two, j) && i < j
    ensures i + |one| <= j
  {
    Pointwise(s, one, i);
    Pointwise(s, two, j);
    HeadOnly(one);
    assert s[j + 0] == two[0];
    var m := if j < i + |one| then j - i else 0;
    assert s[i + m] == one[m];
  }

  // A headed pattern counted once occurs at one place only.
  lemma CountedOnce(s: string, pat: string)
    requires Headed(pat) && Count(s, pat) == 1
    ensures OnlyAt(s, pat, Index(s, pat))
  {
    var k := Index(s, pat);
    var from := k + |pat|;
    var rest := s[from..];
    assert Count(rest, pat) == 0;
    hide Count, At;
    FreeCount(rest, pat);
    forall i | At(s, pat, i) ensures i == k {
      if i > k {
        NoOverlap(s, pat, pat, k, i);
        SubTail(s, pat, from, i - from);
      }
    }
  }
}
