// What trimming and splitting do: they take away white space and nothing else.
module TextLaws {
  import opened Text

  predicate AllSpace(s: string) {
    forall i :: 0 <= i < |s| ==> IsSpace(s[i])
  }

  predicate NoSpace(s: string) {
    forall i :: 0 <= i < |s| ==> !IsSpace(s[i])
  }

  // The code points of white space.
  lemma SpaceExactly(c: char)
    ensures IsSpace(c) <==>
      || c as int in {0x9, 0xA, 0xB, 0xC, 0xD, 0x20, 0x85, 0xA0, 0x1680, 0x2028, 0x2029, 0x202F, 0x205F, 0x3000}
      || 0x2000 <= c as int <= 0x200A
  {
  }

  lemma {:induction false} TrimLeftTakes(s: string)
    ensures AllSpace(s[..|s| - |TrimLeft(s)|])
  {
    if s != "" && IsSpace(s[0]) {
      TrimLeftTakes(s[1..]);
      var n := |s| - |TrimLeft(s)|;
      assert s[..n] == [s[0]] + s[1..][..n - 1];
    }
  }

  lemma {:induction false} TrimRightTakes(s: string)
    ensures AllSpace(s[|TrimRight(s)|..])
  {
    if s != "" && IsSpace(s[|s| - 1]) {
      TrimRightTakes(s[..|s| - 1]);
      var n := |TrimRight(s)|;
      assert s[n..] == s[..|s| - 1][n..] + [s[|s| - 1]];
    }
  }

  // Trimming takes white space from both ends, and all of it.
  lemma TrimExact(s: string) returns (before: string, after: string)
    ensures s == before + TrimSpace(s) + after && AllSpace(before) && AllSpace(after)
    ensures TrimSpace(s) != "" ==> !IsSpace(TrimSpace(s)[0]) && !IsSpace(TrimSpace(s)[|TrimSpace(s)| - 1])
  {
    hide TrimLeft, TrimRight, AllSpace, IsSpace;
    var left, right := TrimLeft(s), TrimRight(TrimLeft(s));
    TrimLeftTakes(s);
    TrimRightTakes(left);
    before, after := s[..|s| - |left|], left[|right|..];
    assert s == before + left && left == right + after;
  }

  lemma {:induction false} WordEnds(a: string, c: char, b: string)
    requires IsSpace(c)
    ensures WordLength(a + [c] + b) == WordLength(a)
  {
    if a != "" && !IsSpace(a[0]) {
      WordEnds(a[1..], c, b);
      assert (a + [c] + b)[1..] == a[1..] + [c] + b;
    }
  }

  // Splitting at a white space, wherever it is, and going on with the parts loses nothing.
  lemma {:induction false} FieldsAt(a: string, c: char, b: string)
    requires IsSpace(c)
    ensures Fields(a + [c] + b) == Fields(a) + Fields(b)
    decreases |a|
  {
    var s := a + [c] + b;
    if a == "" {
      assert s[1..] == b;
    } else if IsSpace(a[0]) {
      assert s[1..] == a[1..] + [c] + b;
      FieldsAt(a[1..], c, b);
    } else {
      WordEnds(a, c, b);
      var n := WordLength(a);
      assert s[..n] == a[..n] && s[n..] == a[n..] + [c] + b;
      FieldsAt(a[n..], c, b);
    }
  }

  lemma {:induction false} WholeWord(s: string)
    requires NoSpace(s)
    ensures WordLength(s) == |s|
  {
    if s != "" {
      WholeWord(s[1..]);
    }
  }

  lemma OneWord(s: string)
    requires s != "" && NoSpace(s)
    ensures Fields(s) == [s]
  {
    WholeWord(s);
    assert s[..|s|] == s && s[|s|..] == "";
  }

  lemma {:induction false} NoWords(s: string)
    requires AllSpace(s)
    ensures Fields(s) == []
  {
    if s != "" {
      NoWords(s[1..]);
    }
  }

  lemma {:induction false} FieldsBehindSpace(space: string, s: string)
    requires AllSpace(space)
    ensures Fields(space + s) == Fields(s)
  {
    if space != "" {
      assert (space + s)[1..] == space[1..] + s;
      FieldsBehindSpace(space[1..], s);
    } else {
      assert space + s == s;
    }
  }

  lemma FieldsBeforeSpace(s: string, space: string)
    requires AllSpace(space)
    ensures Fields(s + space) == Fields(s)
  {
    if space != "" {
      assert s + space == s + [space[0]] + space[1..];
      FieldsAt(s, space[0], space[1..]);
      NoWords(space[1..]);
    } else {
      assert s + space == s;
    }
  }

  // Trimming first makes no difference to the words.
  lemma FieldsOfTrimmed(s: string)
    ensures Fields(TrimSpace(s)) == Fields(s)
  {
    var before, after := TrimExact(s);
    hide TrimSpace, Fields;
    var trimmed := TrimSpace(s);
    FieldsBehindSpace(before, trimmed + after);
    FieldsBeforeSpace(trimmed, after);
    assert s == before + (trimmed + after);
  }
}
