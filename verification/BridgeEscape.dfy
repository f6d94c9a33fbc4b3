// How user text is made safe to print inside the managed region of AGENTS.md.
module BridgeEscape {
  import opened Text
  import opened Occurrences

  const OPENER := "<!--"
  const CLOSER := "-->"

  // strings.NewReplacer("<!--", "&lt;!--", "-->", "--&gt;"): one pass from the left.
  function Replace(s: string): string {
    if s == "" then ""
    else if HasPrefix(s, OPENER) then "&lt;!--" + Replace(s[4..])
    else if HasPrefix(s, CLOSER) then "--&gt;" + Replace(s[3..])
    else [s[0]] + Replace(s[1..])
  }

  // strings.Join with a single space.
  function JoinWords(words: seq<string>): string {
    if words == [] then ""
    else if |words| == 1 then words[0]
    else words[0] + [' '] + JoinWords(words[1..])
  }

  function BridgeText(value: string): string {
    JoinWords(Fields(Replace(value)))
  }

  // One line of text in which no HTML comment opens.
  ghost predicate Inert(s: string) {
    Free(s, OPENER) && '\n' !in s && '\r' !in s
  }

  // Output that starts like the rest of an opener was copied from such a start.
  lemma {:induction false} DashesAreCopied(s: string)
    ensures HasPrefix(Replace(s), "-") ==> HasPrefix(s, "-")
    ensures HasPrefix(Replace(s), "--") ==> HasPrefix(s, "--")
    ensures HasPrefix(Replace(s), "!--") ==> HasPrefix(s, "!--")
  {
    if s != "" && !HasPrefix(s, OPENER) && !HasPrefix(s, CLOSER) {
      DashesAreCopied(s[1..]);
    }
  }

  lemma {:induction false} ReplaceRemovesOpener(s: string)
    ensures Free(Replace(s), OPENER)
    decreases |s|
  {
    if s == "" {
    } else if HasPrefix(s, OPENER) {
      ReplaceRemovesOpener(s[4..]);
      Guarded("&lt;!--", Replace(s[4..]));
    } else if HasPrefix(s, CLOSER) {
      ReplaceRemovesOpener(s[3..]);
      Guarded("--&gt;", Replace(s[3..]));
    } else {
      ReplaceRemovesOpener(s[1..]);
      DashesAreCopied(s[1..]);
      Prepended(s[0], Replace(s[1..]));
    }
  }

  // A replacement text holds no '<', so nothing can start in it.
  lemma Guarded(a: string, b: string)
    requires '<' !in a && Free(b, OPENER)
    ensures Free(a + b, OPENER)
  {
    forall i ensures !At(a + b, OPENER, i) {
      if At(a + b, OPENER, i) {
        Split(a, b, OPENER, i);
      }
    }
  }

  lemma OpenerAtFront(c: char, b: string)
    ensures At([c] + b, OPENER, 0) ==> c == '<' && HasPrefix(b, "!--")
  {
    var s := [c] + b;
    if At(s, OPENER, 0) {
      assert s[0] == s[0..4][0] == OPENER[0];
      assert b[..3] == s[0..4][1..] == OPENER[1..] == "!--";
    }
  }

  lemma Prepended(c: char, b: string)
    requires Free(b, OPENER)
    requires c == '<' ==> !HasPrefix(b, "!--")
    ensures Free([c] + b, OPENER)
  {
    var s := [c] + b;
    OpenerAtFront(c, b);
    forall i ensures !At(s, OPENER, i) {
      if At(s, OPENER, i) {
        Split([c], b, OPENER, i);
      }
    }
  }

  predicate Wordlike(s: string) {
    forall i :: 0 <= i < |s| ==> !IsSpace(s[i])
  }

  lemma {:induction false} FieldsAreInert(s: string)
    requires Free(s, OPENER)
    ensures forall w :: w in Fields(s) ==> Free(w, OPENER) && Wordlike(w)
    decreases |s|
  {
    if s == "" {
    } else if IsSpace(s[0]) {
      FreeSub(s, OPENER, 1, |s|);
      assert s[1..|s|] == s[1..];
      FieldsAreInert(s[1..]);
    } else {
      var n := WordLength(s);
      FreeSub(s, OPENER, 0, n);
      FreeSub(s, OPENER, n, |s|);
      assert s[n..|s|] == s[n..] && s[0..n] == s[..n];
      FieldsAreInert(s[n..]);
    }
  }

  lemma {:induction false} JoinIsInert(words: seq<string>)
    requires forall w :: w in words ==> Free(w, OPENER) && Wordlike(w)
    ensures Inert(JoinWords(words))
  {
    if words != [] {
      assert words[0] in words;
      if |words| > 1 {
        JoinIsInert(words[1..]);
        FreeAround(words[0], ' ', JoinWords(words[1..]), OPENER);
      }
    }
  }

  // Whatever the user wrote, the printed text is one line and opens no comment.
  lemma BridgeTextIsInert(value: string)
    ensures Inert(BridgeText(value))
  {
    ReplaceRemovesOpener(value);
    FieldsAreInert(Replace(value));
    JoinIsInert(Fields(Replace(value)));
  }

  // ---- which closers survive ----

  // An opener run into the end of a comment, as "<!-->" and "<!--->".
  const SHORT_COMMENT := "<!-->"
  const DASHED_COMMENT := "<!--->"

  ghost predicate NoStubs(s: string) {
    Free(s, SHORT_COMMENT) && Free(s, DASHED_COMMENT)
  }

  // Escaped text starts like the rest of a closer exactly when the text does.
  lemma {:induction false} ReplaceStarts(s: string)
    ensures HasPrefix(Replace(s), ">") <==> HasPrefix(s, ">")
    ensures HasPrefix(Replace(s), "->") <==> HasPrefix(s, "->")
  {
    if s != "" && !HasPrefix(s, OPENER) && !HasPrefix(s, CLOSER) {
      StartsAfter(s[0], s[1..]);
      StartsAfter(s[0], Replace(s[1..]));
      assert s == [s[0]] + s[1..];
      ReplaceStarts(s[1..]);
    }
  }

  lemma StartsAfter(c: char, t: string)
    ensures HasPrefix([c] + t, ">") <==> c == '>'
    ensures HasPrefix([c] + t, "->") <==> c == '-' && HasPrefix(t, ">")
    ensures HasPrefix([c] + t, CLOSER) <==> c == '-' && HasPrefix(t, "->")
  {
    assert ">" == ['>'] + "" && "->" == ['-'] + ">" && CLOSER == ['-'] + "->";
    PrefixCons(c, t, '>', "");
    PrefixCons(c, t, '-', ">");
    PrefixCons(c, t, '-', "->");
  }

  lemma PrefixCons(c: char, t: string, d: char, b: string)
    ensures HasPrefix([c] + t, [d] + b) <==> c == d && HasPrefix(t, b)
  {
    PrefixBehind([d], t, b);
    if HasPrefix([c] + t, [d] + b) {
      assert ([c] + t)[0] == ([c] + t)[..|[d] + b|][0] == ([d] + b)[0];
    }
  }

  lemma StubsBehindOpener(rest: string)
    ensures NoStubs(OPENER + rest) <==> !HasPrefix(rest, ">") && !HasPrefix(rest, "->") && NoStubs(rest)
  {
    var s := OPENER + rest;
    FreeStep(s, SHORT_COMMENT);
    FreeStep(s, DASHED_COMMENT);
    assert s[1..] == "!--" + rest;
    FreeBehind("!--", rest, SHORT_COMMENT);
    FreeBehind("!--", rest, DASHED_COMMENT);
    StubIsOpenerAnd();
    PrefixBehind(OPENER, rest, ">");
    PrefixBehind(OPENER, rest, "->");
  }

  lemma StubIsOpenerAnd()
    ensures SHORT_COMMENT == OPENER + ">" && DASHED_COMMENT == OPENER + "->"
  {
  }

  lemma PrefixBehind(a: string, s: string, b: string)
    ensures HasPrefix(a + s, a + b) <==> HasPrefix(s, b)
    ensures HasPrefix(s, a + b) ==> HasPrefix(s, a)
  {
    if |b| <= |s| {
      assert (a + s)[..|a| + |b|] == a + s[..|b|];
      assert a + s[..|b|] == a + b ==> s[..|b|] == (a + b)[|a|..] == b;
    }
    if HasPrefix(s, a + b) {
      assert s[..|a|] == s[..|a + b|][..|a|] == (a + b)[..|a|] == a;
    }
  }

  lemma CloserBehindOpener(rest: string)
    ensures Free("&lt;!--" + rest, CLOSER) <==> !HasPrefix(rest, ">") && !HasPrefix(rest, "->") && Free(rest, CLOSER)
  {
    var dashes := ['-'] + (['-'] + rest);
    assert "&lt;!--" + rest == "&lt;!" + dashes;
    FreeBehind("&lt;!", dashes, CLOSER);
    FreeStep(dashes, CLOSER);
    FreeStep(['-'] + rest, CLOSER);
    StartsAfter('-', ['-'] + rest);
    StartsAfter('-', rest);
    assert dashes[1..] == ['-'] + rest && (['-'] + rest)[1..] == rest;
  }

  lemma CloserBehindCloser(rest: string)
    ensures Free("--&gt;" + rest, CLOSER) <==> Free(rest, CLOSER)
  {
    var tail := "&gt;" + rest;
    var dashes := ['-'] + (['-'] + tail);
    assert "--&gt;" + rest == dashes && tail[0] == '&';
    FreeStep(dashes, CLOSER);
    FreeStep(['-'] + tail, CLOSER);
    StartsAfter('-', ['-'] + tail);
    StartsAfter('-', tail);
    assert !HasPrefix(tail, ">") && !HasPrefix(tail, "->");
    assert dashes[1..] == ['-'] + tail && (['-'] + tail)[1..] == tail;
    FreeBehind("&gt;", rest, CLOSER);
  }

  // A closer stays in the escaped text exactly for an opener run into the end of a comment.
  lemma {:induction false} CloserStays(s: string)
    ensures Free(Replace(s), CLOSER) <==> NoStubs(s)
    decreases |s|
  {
    if s == "" {
      FreeWithoutHead("", CLOSER);
      FreeWithoutHead("", SHORT_COMMENT);
      FreeWithoutHead("", DASHED_COMMENT);
    } else if HasPrefix(s, OPENER) {
      var rest := s[4..];
      assert s == OPENER + rest;
      CloserStays(rest);
      StubsBehindOpener(rest);
      CloserBehindOpener(Replace(rest));
      ReplaceStarts(rest);
    } else if HasPrefix(s, CLOSER) {
      var rest := s[3..];
      assert s == CLOSER + rest;
      CloserStays(rest);
      FreeBehind(CLOSER, rest, SHORT_COMMENT);
      FreeBehind(CLOSER, rest, DASHED_COMMENT);
      CloserBehindCloser(Replace(rest));
    } else {
      CopiedStays(s);
      CloserStays(s[1..]);
    }
  }

  lemma CopiedStays(s: string)
    requires s != "" && !HasPrefix(s, OPENER) && !HasPrefix(s, CLOSER)
    ensures NoStubs(s) <==> NoStubs(s[1..])
    ensures Free(Replace(s), CLOSER) <==> Free(Replace(s[1..]), CLOSER)
  {
    var rest := s[1..];
    var out := [s[0]] + Replace(rest);
    assert s == [s[0]] + rest && Replace(s) == out && out[1..] == Replace(rest);
    FreeStep(s, SHORT_COMMENT);
    FreeStep(s, DASHED_COMMENT);
    StubIsOpenerAnd();
    PrefixBehind(OPENER, s, ">");
    PrefixBehind(OPENER, s, "->");
    FreeStep(out, CLOSER);
    StartsAfter(s[0], Replace(rest));
    StartsAfter(s[0], rest);
    ReplaceStarts(rest);
  }

  // Splitting into words and joining them with spaces neither makes nor removes an occurrence of a
  // pattern without white space.
  lemma {:induction false} WordsKeep(s: string, pat: string)
    requires pat != "" && Wordlike(pat)
    ensures Free(JoinWords(Fields(s)), pat) <==> Free(s, pat)
    decreases |s|
  {
    if s == "" {
    } else if IsSpace(s[0]) {
      assert s == [s[0]] + s[1..];
      FreeBehind([s[0]], s[1..], pat);
      WordsKeep(s[1..], pat);
    } else {
      var n := WordLength(s);
      var word, tail := s[..n], s[n..];
      assert s == word + tail;
      WordsKeep(tail, pat);
      if tail == "" {
        assert word == s && Fields(s) == [word];
      } else {
        var rest := tail[1..];
        assert IsSpace(tail[0]) && s == word + [tail[0]] + rest && Fields(tail) == Fields(rest);
        FreeAcross(word, tail[0], rest, pat);
        assert tail == [tail[0]] + rest;
        FreeBehind([tail[0]], rest, pat);
        var others := Fields(rest);
        assert Fields(s) == [word] + others;
        if others != [] {
          assert Fields(s)[1..] == others;
          FreeAcross(word, ' ', JoinWords(others), pat);
        }
      }
    }
  }

  // The printed text closes a comment exactly when the user's text held one of the two stubs.
  lemma CloserExact(value: string)
    ensures Free(BridgeText(value), CLOSER) <==> NoStubs(value)
  {
    CloserStays(value);
    WordsKeep(Replace(value), CLOSER);
  }

  // One such text.
  lemma CloserSurvives()
    ensures !Free(BridgeText(SHORT_COMMENT), CLOSER)
  {
    CloserExact(SHORT_COMMENT);
    assert SHORT_COMMENT[0..5] == SHORT_COMMENT;
    assert At(SHORT_COMMENT, SHORT_COMMENT, 0);
  }
}
