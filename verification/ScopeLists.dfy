// What the conflict verdict on two scope lists is worth: when lists without a conflict are disjoint, and
// when the verdict depends on which list comes first.
module ScopeLists {
  import opened Text
  import opened Scope

  // ---- normalising over and over ----

  // What an entry is after it has been normalised often enough.
  function Settle(s: string): string
    decreases |s|
  {
    NormalShrinks(s);
    if NormalizeScope(s) == s then s else Settle(NormalizeScope(s))
  }

  predicate Steady(raw: string) {
    NormalizeScope(NormalizeScope(raw)) == NormalizeScope(raw)
  }

  // Base itself or a directory above it.
  predicate Above(s: string, base: string) {
    s == base || DirPrefix(s, base)
  }

  // A cleaned path that normalising over and over takes out of the tree it names.
  predicate Slips(raw: string) {
    && Clean(Entry(raw)) == Entry(raw)
    && NormalizeScope(raw) != ""
    && !Above(Settle(raw), NormalizeScope(raw))
  }

  predicate NoSlips(scopes: seq<string>) {
    forall i :: 0 <= i < |scopes| ==> !Slips(scopes[i])
  }

  // The verdict can be relied on.
  predicate Harmless(scopes: seq<string>) {
    NoLeaks(scopes) && NoSlips(scopes)
  }

  predicate AllSteady(scopes: seq<string>) {
    forall i :: 0 <= i < |scopes| ==> Steady(scopes[i])
  }

  lemma NormalShrinks(s: string)
    ensures |NormalizeScope(s)| <= |s| && (|NormalizeScope(s)| == |s| ==> NormalizeScope(s) == s)
  {
    hide TrimLeft, TrimRight, FirstWildcard;
    var left, trimmed := TrimLeft(s), TrimSpace(s);
    assert left == s[|s| - |left|..] && trimmed == left[..|trimmed|];
  }

  // The shape of a normal form.
  predicate Bare(s: string) {
    (s != "" ==> !IsSpace(s[0])) && forall i :: 0 <= i < |s| ==> s[i] !in "*?"
  }

  lemma NormalIsBare(s: string)
    ensures Bare(NormalizeScope(s))
  {
    hide TrimSpace, FirstWildcard;
    NormalizedHasNoWildcard(s);
  }

  lemma {:induction false} TrimRightTail(s: string)
    ensures forall i :: |TrimRight(s)| <= i < |s| ==> IsSpace(s[i])
  {
    if s != "" && IsSpace(s[|s| - 1]) {
      TrimRightTail(s[..|s| - 1]);
      assert forall i :: 0 <= i < |s| - 1 ==> s[i] == s[..|s| - 1][i];
    }
  }

  // Normalising a normal form drops white space and at most one slash at its end. What is left is a
  // directory above it, or does not change any more.
  lemma NormalOfBare(s: string)
    requires Bare(s)
    ensures var t := NormalizeScope(s);
      && |t| <= |s| && t == s[..|t|]
      && (forall i :: |t| <= i < |s| ==> IsSpace(s[i]) || s[i] == '/')
      && (t == s || t == "" || DirPrefix(t, s) || t == TrimRight(s))
  {
    hide TrimRight, FirstWildcard;
    assert TrimLeft(s) == s;
    TrimRightTail(s);
    var u := TrimSpace(s);
    assert u == TrimRight(s) && u == s[..|u|];
    assert FirstWildcard(u) < 0 by {
      assert forall i :: 0 <= i < |u| ==> u[i] == s[i];
    }
    if HasSuffix(u, "/") {
      assert u[|u| - 1] == u[|u| - 1..][0] == '/';
    }
  }

  lemma PlainEnd(s: string)
    requires Bare(s) && s != "" && !IsSpace(s[|s| - 1]) && s[|s| - 1] != '/'
    ensures NormalizeScope(s) == s
  {
    NormalOfBare(s);
    hide NormalizeScope;
    assert |NormalizeScope(s)| == |s|;
  }

  lemma TrimmedIsSettled(s: string)
    requires Bare(s) && NormalizeScope(s) == TrimRight(s)
    ensures NormalizeScope(TrimRight(s)) == TrimRight(s)
  {
    hide TrimRight, FirstWildcard;
    var u := TrimRight(s);
    assert TrimLeft(s) == s;
    assert TrimSpace(s) == u && u == s[..|u|];
    assert FirstWildcard(u) < 0 by {
      assert forall i :: 0 <= i < |u| ==> u[i] == s[i];
    }
    assert TrimLeft(u) == u;
    assert TrimRight(u) == u by {
      TrimRightTwice(s);
    }
  }

  lemma TrimRightTwice(s: string)
    ensures TrimRight(TrimRight(s)) == TrimRight(s)
  {
  }

  lemma EmptyIsSettled()
    ensures NormalizeScope("") == "" && Settle("") == ""
  {
  }

  lemma SettleNext(s: string)
    ensures Settle(NormalizeScope(s)) == Settle(s)
  {
  }

  // One more round, or the last one.
  lemma NormalStep(s: string)
    requires Bare(s)
    ensures var t := NormalizeScope(s); t == s || DirPrefix(t, s) || t == Settle(s)
  {
    NormalOfBare(s);
    EmptyIsSettled();
    hide TrimRight, TrimSpace, FirstWildcard;
    if NormalizeScope(s) == TrimRight(s) {
      TrimmedIsSettled(s);
    }
  }

  lemma {:induction false} SettleTail(s: string)
    requires Bare(s)
    ensures |Settle(s)| <= |s| && Settle(s) == s[..|Settle(s)|]
    ensures forall i :: |Settle(s)| <= i < |s| ==> IsSpace(s[i]) || s[i] == '/'
    ensures NormalizeScope(Settle(s)) == Settle(s)
    decreases |s|
  {
    var t := NormalizeScope(s);
    NormalShrinks(s);
    hide NormalizeScope;
    if t != s {
      NormalOfBare(s);
      NormalIsBare(s);
      SettleTail(t);
      assert forall i :: 0 <= i < |t| ==> t[i] == s[i];
    }
  }

  lemma AboveTwice(s: string, t: string, base: string)
    requires DirPrefix(s, t) && Above(t, base)
    ensures Above(s, base)
  {
    if t != base {
      assert base[..|s|] == base[..|t|][..|s|];
      assert base[|s|] == base[..|t|][|s|];
    }
  }

  // An entry that settles above base is above it all the way.
  lemma StaysAbove(s: string, base: string)
    requires Bare(s) && Above(s, base) && Above(Settle(s), base)
    ensures Above(NormalizeScope(s), base) && Above(Settle(NormalizeScope(s)), base)
  {
    NormalStep(s);
    SettleNext(s);
    hide NormalizeScope, Settle;
    if DirPrefix(NormalizeScope(s), s) {
      AboveTwice(NormalizeScope(s), s, base);
    }
  }

  // ---- the inner loop ----

  lemma PrefixesNest(a: string, b: string, base: string)
    requires DirPrefix(a, base) && DirPrefix(b, base)
    ensures PathsConflict(a, b)
  {
    assert |a| <= |b| ==> b[..|a|] == base[..|b|][..|a|] && (|a| < |b| ==> b[|a|] == base[..|b|][|a|]);
    assert |b| <= |a| ==> a[..|b|] == base[..|a|][..|b|] && (|b| < |a| ==> a[|b|] == base[..|a|][|b|]);
  }

  lemma AboveConflicts(s: string, base: string, other: string)
    requires Above(s, base) && PathsConflict(base, other)
    ensures PathsConflict(s, other)
  {
    if s != base && base != other {
      if DirPrefix(base, other) {
        AboveTwice(s, base, other);
      } else {
        PrefixesNest(s, other, base);
      }
    }
  }

  // An entry that stays above base meets every right entry that conflicts with base.
  lemma {:induction false} LoopFinds(left: string, right: seq<string>, base: string, j: nat)
    requires Above(NormalizeScope(left), base) && Above(Settle(left), base)
    requires j < |right| && PathsConflict(base, NormalizeScope(right[j]))
    ensures AnyConflict(left, right)
    decreases j
  {
    hide NormalizeScope, Settle, Above, PathsConflict;
    var l := NormalizeScope(left);
    NormalIsBare(left);
    if j == 0 {
      AboveConflicts(l, base, NormalizeScope(right[0]));
    } else {
      SettleNext(left);
      StaysAbove(l, base);
      LoopFinds(l, right[1..], base, j - 1);
    }
  }

  // ---- what a matched entry looks like ----

  lemma LoneStars()
    ensures Clean("**") == "**" && Clean("/**") == "/**" && Clean(".") == "."
  {
    assert Join(["**"]) == "**";
    CleanFixesNormal(["**"], false);
    CleanFixesNormal(["**"], true);
    CleanIsIdempotent("");
    assert Split("") == [""] && CleanParts([""], false, []) == CleanParts([], false, []) == [];
  }

  lemma {:induction false} JoinOneMore(parts: seq<string>, last: string)
    requires parts != []
    ensures Join(parts + [last]) == Join(parts) + "/" + last
  {
    if |parts| > 1 {
      JoinOneMore(parts[1..], last);
      assert (parts + [last])[1..] == parts[1..] + [last];
    } else {
      assert (parts + [last])[1..] == [last];
    }
  }

  lemma StarsBehindSlash(path: string, prefix: string)
    requires HasPrefix(Clean(path), prefix + "/")
    ensures Clean(prefix + "/" + "**") == prefix + "/" + "**"
  {
    LoneStars();
    hide Clean;
    if prefix == "" {
      assert prefix + "/" + "**" == "/**";
    } else {
      var head, rooted := SlashOfClean(path, prefix);
      var more := head + ["**"];
      assert more[..|more| - 1] == head[..|more| - 1];
      NormalHead(head, more, rooted);
      JoinOneMore(head, "**");
      CleanFixesNormal(more, rooted);
      assert Assemble(more, rooted) == prefix + "/" + "**";
    }
  }

  // Only a cleaned path can be an entry that matches anything.
  lemma MatchedIsClean(path: string, raw: string)
    requires EntryMatches(Clean(path), raw) && Entry(raw) != ""
    ensures Clean(Entry(raw)) == Entry(raw)
  {
    var entry, cleaned := Entry(raw), Clean(path);
    LoneStars();
    hide Clean, Entry;
    if cleaned == entry {
      CleanIsIdempotent(path);
    } else if HasPrefix(cleaned, entry + "/") {
      var head, rooted := SlashOfClean(path, entry);
      CleanFixesNormal(head, rooted);
    } else if HasSuffix(entry, "**") && entry != "**" {
      var literal := TrimSuffix(entry, "**");
      assert entry == literal + "**";
      if literal[|literal| - 1] == '/' {
        var prefix := literal[..|literal| - 1];
        assert literal == prefix + "/";
        StarsBehindSlash(path, prefix);
      } else {
        PrefixOfCleanExtends(path, literal, "**");
      }
    }
  }

  lemma NormalOfNothing(raw: string)
    requires Entry(raw) == ""
    ensures NormalizeScope(raw) == ""
  {
    NormalizeFromEntry(raw);
  }

  // ---- disjointness ----

  // If no entry leaks and none of the first list slips, two lists judged free of conflict admit no
  // common path.
  lemma NoConflictMeansDisjoint(left: seq<string>, right: seq<string>, path: string)
    requires Harmless(left) && NoLeaks(right)
    requires !ListsConflict(left, right)
    ensures !(MatchesAny(path, left) && MatchesAny(path, right))
  {
    hide Clean, Entry, NormalizeScope, EntryMatches, Leaky, Slips, EntriesConflict, AnyConflict;
    if MatchesAny(path, left) && MatchesAny(path, right) {
      CleanHasNoDotSlash(path);
      var i :| 0 <= i < |left| && EntryMatches(Clean(path), left[i]);
      var j :| 0 <= j < |right| && EntryMatches(Clean(path), right[j]);
      MeetsInLoop(path, left[i], right, j);
    }
  }

  lemma MeetsInLoop(path: string, raw: string, right: seq<string>, j: nat)
    requires j < |right| && !Leaky(raw) && !Slips(raw) && !Leaky(right[j])
    requires NormalizeScope(raw) != "" && NormalizeScope(right[j]) != ""
    requires EntryMatches(Clean(path), raw) && EntryMatches(Clean(path), right[j])
    ensures AnyConflict(raw, right)
  {
    hide Clean, Entry, NormalizeScope, EntryMatches, Leaky, AnyConflict, PathsConflict, Settle;
    SharedPathConflicts(path, raw, right[j]);
    if Entry(raw) == "" {
      NormalOfNothing(raw);
    }
    MatchedIsClean(path, raw);
    LoopFinds(raw, right, NormalizeScope(raw), j);
  }

  // ---- which entries it goes wrong for ----

  // Partners that do not leak, and a path, on which the verdict about raw is wrong.
  ghost predicate Misjudged(raw: string, partners: seq<string>, path: string) {
    NoLeaks(partners) && SharesUnseen([raw], partners, path)
  }

  // The lists share the path and no conflict is found.
  ghost predicate SharesUnseen(left: seq<string>, right: seq<string>, path: string) {
    !ListsConflict(left, right) && MatchesAny(path, left) && MatchesAny(path, right)
  }

  lemma EntryOfPlain(word: string)
    requires word != "" && Trimmed(word) && word[|word| - 1] != '/'
    ensures Entry(word) == word
  {
    assert TrimSpace(word) == word;
    assert word[|word| - 1..] != "/" by {
      assert word[|word| - 1..][0] == word[|word| - 1];
    }
  }

  lemma SingletonsConflict(left: string, right: string)
    ensures ListsConflict([left], [right]) <==>
      NormalizeScope(left) == "" || NormalizeScope(right) == "" || EntriesConflict(left, right)
  {
    hide NormalizeScope, PathsConflict;
    var l, r := [left], [right];
    assert l[0] == left && r[0] == right && r[1..] == [];
    assert !AnyConflict(NormalizeScope(left), r[1..]);
    assert AnyConflict(l[0], r) <==> EntriesConflict(left, right);
    assert forall i :: 0 <= i < |l| ==> l[i] == left;
    assert forall i :: 0 <= i < |r| ==> r[i] == right;
  }

  lemma SingletonMatches(path: string, raw: string)
    requires Clean(path) == path
    ensures MatchesAny(path, [raw]) <==> EntryMatches(path, raw)
  {
    hide Clean, TrimSpace, FirstWildcard;
    CleanHasNoDotSlash(path);
    assert [raw][0] == raw;
  }

  // On the word, which neither leaks nor slips, the verdict about raw is wrong in either order.
  ghost predicate BothWays(raw: string, word: string) {
    Harmless([word]) && SharesUnseen([raw], [word], word) && SharesUnseen([word], [raw], word)
  }

  lemma MisjudgedBy(raw: string, word: string)
    requires Clean(word) == word && !Leaky(word) && NormalizeScope(word) == word
    requires NormalizeScope(raw) != "" && word != "" && !EntriesConflict(raw, word)
    requires EntryMatches(word, raw) && EntryMatches(word, word)
    ensures BothWays(raw, word)
  {
    hide Clean, TrimSpace, FirstWildcard, Leaky, NormalizeScope, EntryMatches, ListsConflict, MatchesAny;
    SingletonsConflict(raw, word);
    SingletonsConflict(word, raw);
    SingletonMatches(word, raw);
    SingletonMatches(word, word);
    assert forall i :: 0 <= i < |[word]| ==> [word][i] == word;
    assert Settle(word) == word;
  }

  lemma LetterIsPlain(word: string)
    requires |word| == 1 && !IsSpace(word[0]) && word[0] !in "./*?"
    ensures Clean(word) == word && Entry(word) == word && FirstWildcard(word) < 0
    ensures NormalizeScope(word) == word && !Leaky(word)
  {
    assert PlainPart(word);
    assert Join([word]) == word;
    CleanFixesNormal([word], false);
    EntryOfPlain(word);
    NormalizeFromEntry(word);
  }

  lemma DotMisjudges(raw: string, word: string)
    requires Entry(raw) == "."
    requires |word| == 1 && !IsSpace(word[0]) && word[0] !in "./*?"
    ensures BothWays(raw, word)
  {
    hide Clean, TrimSpace, FirstWildcard;
    NormalizeFromEntry(raw);
    LetterIsPlain(word);
    assert !EntriesConflict(raw, word);
    assert EntryMatches(word, raw);
    MisjudgedBy(raw, word);
  }

  lemma GluedLiteral(raw: string)
    requires GluedGlob(raw)
    ensures GluedPrefix(raw) != "" && NormalizeScope(raw) == GluedPrefix(raw)
    ensures !IsSpace(GluedPrefix(raw)[0])
    ensures forall i :: 0 <= i < |GluedPrefix(raw)| ==> GluedPrefix(raw)[i] !in "*?"
  {
    hide Clean, TrimSpace, FirstWildcard;
    var literal, entry := GluedPrefix(raw), Entry(raw);
    NormalizeFromEntry(raw);
    assert literal == entry[..|entry| - 2];
    assert literal[|literal| - 1..] == [entry[|entry| - 3]];
    assert entry[0] == TrimSpace(raw)[0];
  }

  lemma GluedMisjudges(raw: string)
    requires GluedGlob(raw) && Leaky(raw) && Entry(raw) != "."
    ensures exists word :: BothWays(raw, word)
  {
    hide Clean, TrimSpace, FirstWildcard;
    var literal := GluedPrefix(raw);
    var word := literal + "x";
    GluedLiteral(raw);
    assert word[|word| - 1] == 'x' && word[0] == literal[0];
    EntryOfPlain(word);
    assert forall i :: 0 <= i < |word| ==> word[i] !in "*?";
    assert FirstWildcard(word) < 0;
    NormalizeFromEntry(word);
    assert word[|literal|] == 'x';
    assert word != "." by {
      assert word[0] == literal[0];
    }
    assert !GluedGlob(word);
    assert word[..|literal|] == literal;
    MisjudgedBy(raw, word);
  }

  // Exactly the leaky entries can be judged wrongly against a single entry that is not leaky itself.
  lemma LeakyIsExact(raw: string)
    ensures Leaky(raw) <==> exists partner, path :: Misjudged(raw, [partner], path)
  {
    hide Leaky, Slips, ListsConflict, MatchesAny;
    if Leaky(raw) {
      LeakyMisjudges(raw);
      var word :| BothWays(raw, word);
      assert Misjudged(raw, [word], word);
    } else {
      forall partner, path | Misjudged(raw, [partner], path) ensures false {
        assert [partner][0] == partner;
        SingleIsSeen(raw, partner, path);
      }
    }
  }

  lemma LeakyMisjudges(raw: string)
    requires Leaky(raw)
    ensures exists word :: BothWays(raw, word)
  {
    hide Clean, TrimSpace, FirstWildcard, BothWays;
    if Entry(raw) == "." {
      var letter := 'a';
      DotMisjudges(raw, [letter]);
    } else {
      GluedMisjudges(raw);
    }
  }

  lemma SingleIsSeen(raw: string, partner: string, path: string)
    requires !Leaky(raw) && !Leaky(partner)
    ensures !SharesUnseen([raw], [partner], path)
  {
    hide Clean, Entry, NormalizeScope, EntryMatches, Leaky, EntriesConflict;
    SingletonsConflict(raw, partner);
    CleanHasNoDotSlash(path);
    if SharesUnseen([raw], [partner], path) {
      assert EntryMatches(Clean(path), raw) && EntryMatches(Clean(path), partner);
      SharedPathConflicts(path, raw, partner);
    }
  }

  // A letter that no normal form of n begins with.
  lemma PadLetter(n: string) returns (word: string)
    ensures |word| == 1 && !IsSpace(word[0]) && word[0] !in "./*?" && (n != "" ==> n[0] != word[0])
  {
    word := if n != "" && n[0] == 'a' then "b" else "a";
  }

  ghost predicate Padded(partners: seq<string>, word: string, last: string) {
    && partners != [] && partners[|partners| - 1] == last
    && forall i :: 0 <= i < |partners| - 1 ==> partners[i] == word
  }

  // An entry of no concern only makes the loop normalise once more.
  lemma PadStep(left: string, word: string, rest: seq<string>)
    requires |word| == 1 && NormalizeScope(word) == word
    requires NormalizeScope(left) != "" ==> NormalizeScope(left)[0] != word[0]
    ensures AnyConflict(left, [word] + rest) <==> AnyConflict(NormalizeScope(left), rest)
    ensures var l := NormalizeScope(left);
      NormalizeScope(l) != "" ==> NormalizeScope(l)[0] != word[0]
  {
    hide NormalizeScope, PathsConflict;
    var l := NormalizeScope(left);
    NormalIsBare(left);
    HeadStays(l);
    Unrelated(l, word);
    assert ([word] + rest)[0] == word && ([word] + rest)[1..] == rest;
  }

  lemma HeadStays(s: string)
    requires Bare(s)
    ensures NormalizeScope(s) != "" ==> s != "" && NormalizeScope(s)[0] == s[0]
  {
    NormalOfBare(s);
    hide NormalizeScope;
  }

  lemma Unrelated(s: string, word: string)
    requires |word| == 1 && (s != "" ==> s[0] != word[0])
    ensures !PathsConflict(s, word)
  {
  }

  // Enough right entries of no concern, and the left one meets the last of them settled.
  lemma {:induction false} PadUntilSettled(left: string, word: string, last: string) returns (partners: seq<string>)
    requires |word| == 1 && NormalizeScope(word) == word
    requires NormalizeScope(left) != "" ==> NormalizeScope(left)[0] != word[0]
    ensures Padded(partners, word, last)
    ensures AnyConflict(left, partners) <==> PathsConflict(Settle(left), NormalizeScope(last))
    decreases |left|
  {
    var l := NormalizeScope(left);
    NormalShrinks(left);
    SettleNext(left);
    hide NormalizeScope, PathsConflict;
    if l == left {
      partners := [last];
      LastMeets(left, last);
    } else {
      PadStep(left, word, []);
      var rest := PadUntilSettled(l, word, last);
      partners := [word] + rest;
      PadStep(left, word, rest);
    }
  }

  lemma LastMeets(left: string, last: string)
    requires NormalizeScope(left) == left
    ensures AnyConflict(left, [last]) <==> PathsConflict(Settle(left), NormalizeScope(last))
  {
    hide PathsConflict, NormalizeScope;
    assert [last][1..] == [];
  }

  lemma SlipMisjudges(raw: string)
    requires Slips(raw) && !Leaky(raw)
    ensures exists partners, path :: Misjudged(raw, partners, path)
  {
    hide Clean, Entry, NormalizeScope, Leaky, EntryMatches, Settle;
    var n, entry := NormalizeScope(raw), Entry(raw);
    var word := PadLetter(n);
    LetterIsPlain(word);
    var partners := PadUntilSettled(raw, word, raw);
    SettleNext(raw);
    NormalIsBare(raw);
    SettleTail(n);
    assert !PathsConflict(Settle(raw), n);
    assert !ListsConflict([raw], partners) by {
      assert [raw][0] == raw;
      hide AnyConflict;
    }
    assert EntryMatches(entry, raw) by {
      EntryMatchesItself(raw);
    }
    SingletonMatches(entry, raw);
    CleanHasNoDotSlash(entry);
    assert EntryMatches(entry, partners[|partners| - 1]);
    assert Misjudged(raw, partners, entry);
  }

  lemma EntryMatchesItself(raw: string)
    ensures EntryMatches(Entry(raw), raw)
  {
    hide Entry;
  }

  // An entry of the first list can be judged wrongly against a list that does not leak exactly when it
  // leaks or slips.
  lemma MisjudgedExactly(raw: string)
    ensures Leaky(raw) || Slips(raw) <==> exists partners, path :: Misjudged(raw, partners, path)
  {
    hide Leaky, Slips, ListsConflict, MatchesAny;
    if Leaky(raw) {
      LeakyMisjudges(raw);
      var word :| BothWays(raw, word);
      assert Misjudged(raw, [word], word);
    } else if Slips(raw) {
      SlipMisjudges(raw);
    } else {
      forall partners, path ensures !Misjudged(raw, partners, path) {
        assert Harmless([raw]);
        if Misjudged(raw, partners, path) {
          NoConflictMeansDisjoint([raw], partners, path);
        }
      }
    }
  }

  // An entry of the second list can be judged wrongly against one that neither leaks nor slips exactly
  // when it leaks.
  lemma MisjudgedBehindExactly(raw: string)
    ensures Leaky(raw) <==>
      exists partners, path :: Harmless(partners) && SharesUnseen(partners, [raw], path)
  {
    hide Leaky, Slips, ListsConflict, MatchesAny;
    if Leaky(raw) {
      LeakyMisjudges(raw);
      var word :| BothWays(raw, word);
    } else {
      forall partners, path | Harmless(partners) ensures !SharesUnseen(partners, [raw], path) {
        assert NoLeaks([raw]);
        if SharesUnseen(partners, [raw], path) {
          NoConflictMeansDisjoint(partners, [raw], path);
        }
      }
    }
  }

  // One such pair of lists: the loop normalises "d /" to "d " and then to "d".
  lemma SlippingLists()
    ensures NoLeaks(["d /"]) && NoLeaks(["z", "d /"]) && SharesUnseen(["d /"], ["z", "d /"], "d /x")
    ensures ListsConflict(["z", "d /"], ["d /"])
  {
    hide *;
    SlippingEntry();
    SlippingPath();
    LetterOnItsOwn();
    NoneMeets();
    TwoRounds("d /", "z", "d /x");
  }

  lemma LetterOnItsOwn()
    ensures NormalizeScope("z") == "z" && !Leaky("z")
  {
    hide NormalizeScope, Leaky;
    LetterIsPlain("z");
  }

  // What two rounds of normalising take apart from its own normal form is not found behind another
  // entry, but before it.
  lemma TwoRounds(raw: string, other: string, path: string)
    requires !Leaky(raw) && !Leaky(other) && EntryMatches(Clean(path), raw)
    requires NormalizeScope(raw) != "" && NormalizeScope(other) != ""
    requires !PathsConflict(NormalizeScope(raw), NormalizeScope(other))
    requires !PathsConflict(NormalizeScope(NormalizeScope(raw)), NormalizeScope(raw))
    ensures NoLeaks([raw]) && NoLeaks([other, raw]) && SharesUnseen([raw], [other, raw], path)
    ensures ListsConflict([other, raw], [raw])
  {
    hide Clean, NormalizeScope, Leaky, EntryMatches, PathsConflict, AnyConflict, ListsConflict, MatchesAny, NoLeaks;
    LoopMisses(raw, other);
    var one, two := [raw], [other, raw];
    assert one[0] == raw && two[0] == other && two[1] == raw;
    PairLeaks(raw, other);
    SingleBefore(raw, two);
    MemberMatches(path, one, 0);
    MemberMatches(path, two, 1);
    MemberConflicts(two, one, 1);
  }

  lemma PairLeaks(raw: string, other: string)
    requires !Leaky(raw) && !Leaky(other)
    ensures NoLeaks([raw]) && NoLeaks([other, raw])
  {
    hide Leaky;
  }

  lemma LoopMisses(raw: string, other: string)
    requires !PathsConflict(NormalizeScope(raw), NormalizeScope(other))
    requires !PathsConflict(NormalizeScope(NormalizeScope(raw)), NormalizeScope(raw))
    ensures !AnyConflict(raw, [other, raw]) && AnyConflict(raw, [raw])
  {
    SameConflicts(NormalizeScope(raw));
    hide NormalizeScope, PathsConflict;
    var l, one, two := NormalizeScope(raw), [raw], [other, raw];
    assert one[1..] == [] && two[1..] == one;
    assert !AnyConflict(NormalizeScope(l), one[1..]);
    assert !AnyConflict(l, one);
  }

  lemma SameConflicts(l: string)
    ensures PathsConflict(l, l)
  {
  }

  lemma MemberMatches(path: string, scopes: seq<string>, i: nat)
    requires i < |scopes| && EntryMatches(Clean(path), scopes[i])
    ensures MatchesAny(path, scopes)
  {
    CleanHasNoDotSlash(path);
    hide Clean, EntryMatches;
  }

  lemma MemberConflicts(left: seq<string>, right: seq<string>, i: nat)
    requires i < |left| && AnyConflict(left[i], right)
    ensures ListsConflict(left, right)
  {
    hide AnyConflict, NormalizeScope;
  }

  lemma NoneMeets()
    ensures !PathsConflict("d ", "z") && !PathsConflict("d", "d ")
  {
  }

  lemma OfDirectory(word: string)
    requires word != "" && Bare(word)
    ensures Entry(word + "/") == word && NormalizeScope(word + "/") == word
  {
    hide FirstWildcard;
    var raw := word + "/";
    assert raw[0] == word[0];
    assert TrimSpace(raw) == raw;
    assert raw[|raw| - 1..] == "/";
    assert Entry(raw) == word;
    assert FirstWildcard(word) < 0;
    NormalizeFromEntry(raw);
  }

  lemma OfSpaceBehind(word: string)
    requires word != "" && Bare(word) && !IsSpace(word[|word| - 1]) && word[|word| - 1] != '/'
    ensures NormalizeScope(word + " ") == word
  {
    PlainEnd(word);
    SpaceBehind(word);
    hide TrimSpace, FirstWildcard, TrimSuffix;
  }

  lemma SpaceBehind(word: string)
    requires word != "" && !IsSpace(word[0]) && !IsSpace(word[|word| - 1])
    ensures TrimSpace(word + " ") == TrimSpace(word)
  {
    var raw := word + " ";
    assert raw[0] == word[0] && raw[|raw| - 1] == ' ' && raw[..|raw| - 1] == word;
    assert TrimLeft(raw) == raw && TrimLeft(word) == word;
    assert TrimRight(raw) == TrimRight(word);
  }

  lemma ShortIsSafe(raw: string)
    requires |Entry(raw)| == 2
    ensures !Leaky(raw)
  {
    hide Entry, Clean, FirstWildcard;
  }

  lemma SlippingEntry()
    ensures Entry("d /") == "d " && NormalizeScope("d /") == "d " && NormalizeScope("d ") == "d"
    ensures !Leaky("d /")
  {
    hide Entry, NormalizeScope, Leaky;
    OfDirectory("d ");
    OfSpaceBehind("d");
    assert "d " + "/" == "d /" && "d" + " " == "d ";
    ShortIsSafe("d /");
  }

  lemma SlippingPath()
    ensures EntryMatches(Clean("d /x"), "d /")
  {
    SlippingEntry();
    SlippingIsClean();
    hide *;
    assert "d " + "/" + "x" == "d /x";
    BelowMatches("d /", "x");
  }

  lemma BelowMatches(raw: string, below: string)
    ensures EntryMatches(Entry(raw) + "/" + below, raw)
  {
    hide Entry;
    var entry := Entry(raw);
    assert (entry + "/" + below)[..|entry + "/"|] == entry + "/";
  }

  lemma SlippingIsClean()
    ensures Clean("d /x") == "d /x"
  {
    var parts := ["d ", "x"];
    assert parts[1..] == ["x"];
    assert Join(parts) == "d " + "/" + Join(["x"]) == "d /x";
    hide Clean, Join;
    CleanFixesNormal(parts, false);
  }

  // ---- the order of the lists ----

  // A steady entry meets every right entry in its normal form.
  lemma {:induction false} SteadyMeets(left: string, right: seq<string>)
    requires Steady(left)
    ensures AnyConflict(left, right) <==> exists j :: 0 <= j < |right| && EntriesConflict(left, right[j])
    decreases |right|
  {
    hide NormalizeScope, PathsConflict;
    if right != [] {
      var l := NormalizeScope(left);
      SteadyMeets(l, right[1..]);
      assert right == [right[0]] + right[1..];
      assert forall x :: EntriesConflict(l, x) <==> EntriesConflict(left, x);
      if j :| 0 <= j < |right| && EntriesConflict(left, right[j]) {
        if j > 0 {
          assert right[1..][j - 1] == right[j];
        }
      }
    }
  }

  lemma ConflictIsSymmetric(left: string, right: string)
    ensures EntriesConflict(left, right) <==> EntriesConflict(right, left)
  {
    hide NormalizeScope;
  }

  // Which of two steady lists comes first does not matter.
  lemma SteadyListsSymmetric(left: seq<string>, right: seq<string>)
    requires AllSteady(left) && AllSteady(right)
    ensures ListsConflict(left, right) <==> ListsConflict(right, left)
  {
    SteadyListsMeet(left, right);
    SteadyListsMeet(right, left);
    hide AnyConflict, EntriesConflict, NormalizeScope;
    forall i, j | 0 <= i < |left| && 0 <= j < |right|
      ensures EntriesConflict(left[i], right[j]) <==> EntriesConflict(right[j], left[i]) {
      ConflictIsSymmetric(left[i], right[j]);
    }
  }

  lemma SteadyListsMeet(left: seq<string>, right: seq<string>)
    requires AllSteady(left)
    ensures (exists i :: 0 <= i < |left| && AnyConflict(left[i], right)) <==>
      exists i, j :: 0 <= i < |left| && 0 <= j < |right| && EntriesConflict(left[i], right[j])
  {
    hide AnyConflict, EntriesConflict, NormalizeScope;
    forall i | 0 <= i < |left| ensures AnyConflict(left[i], right) <==>
        exists j :: 0 <= j < |right| && EntriesConflict(left[i], right[j]) {
      SteadyMeets(left[i], right);
    }
  }

  // The verdict on raw and the partners depends on which comes first.
  ghost predicate OrderMatters(raw: string, partners: seq<string>) {
    AllSteady(partners) && (ListsConflict([raw], partners) <==> !ListsConflict(partners, [raw]))
  }

  // An entry that settles above its normal form is found too often, any other unsteady one not often
  // enough.
  function TellTale(raw: string): string {
    (if Above(Settle(raw), NormalizeScope(raw)) then Settle(raw) else NormalizeScope(raw)) + "/x"
  }

  lemma TellTaleTells(raw: string)
    requires NormalizeScope(raw) != "" && !Steady(raw)
    ensures NormalizeScope(TellTale(raw)) == TellTale(raw) && TellTale(raw) != ""
    ensures PathsConflict(Settle(raw), TellTale(raw)) <==> !PathsConflict(TellTale(raw), NormalizeScope(raw))
  {
    hide NormalizeScope, Settle, PathsConflict, Bare, HasPrefix;
    var n, f := NormalizeScope(raw), Settle(raw);
    NormalIsBare(raw);
    SettleNext(raw);
    SettleTail(n);
    assert f != n;
    if DirPrefix(f, n) {
      AncestorTells(f, n);
    } else {
      OtherTells(f, n);
    }
  }

  lemma BareWithLetter(s: string, base: string)
    requires s != "" && |s| <= |base| && s == base[..|s|] && Bare(base)
    ensures NormalizeScope(s + "/x") == s + "/x"
  {
    hide NormalizeScope;
    var last := s + "/x";
    assert last[0] == s[0] == base[0];
    assert forall i :: 0 <= i < |s| ==> last[i] == s[i] == base[i];
    PlainEnd(last);
  }

  lemma AncestorTells(f: string, n: string)
    requires DirPrefix(f, n) && Bare(n)
    requires forall i :: |f| <= i < |n| ==> IsSpace(n[i]) || n[i] == '/'
    ensures NormalizeScope(f + "/x") == f + "/x"
    ensures PathsConflict(f, f + "/x") && !PathsConflict(f + "/x", n)
  {
    BareWithLetter(f, n);
    hide NormalizeScope, Bare;
    var last := f + "/x";
    assert last[..|f|] == f && last[|f|] == '/' && last[|f| + 1] == 'x';
    Diverge(n, last, |f| + 1);
  }

  lemma OtherTells(f: string, n: string)
    requires |f| < |n| && f == n[..|f|] && !DirPrefix(f, n) && Bare(n)
    ensures NormalizeScope(n + "/x") == n + "/x"
    ensures !PathsConflict(f, n + "/x") && PathsConflict(n + "/x", n)
  {
    BareWithLetter(n, n);
    hide NormalizeScope, Bare;
    var last := n + "/x";
    assert last[..|n|] == n && last[|n|] == '/';
    NotAbove(f, n, last);
  }

  lemma Diverge(n: string, last: string, k: nat)
    requires |last| == k + 1 && |n| >= k && last[k] == 'x' && (|n| > k ==> n[k] != 'x')
    ensures !PathsConflict(last, n)
  {
    assert |n| > k ==> n[..k + 1][k] != last[k];
  }

  lemma NotAbove(f: string, n: string, last: string)
    requires |f| < |n| < |last| && f == n[..|f|] && !DirPrefix(f, n) && n != ""
    requires last[..|n|] == n && last[|n|] == '/'
    ensures PathsConflict(last, n) && !PathsConflict(f, last)
  {
    assert DirPrefix(n, last);
    assert last[|f|] == last[..|n|][|f|];
  }

  // A single entry is judged the same before and behind every steady list exactly when it is steady, or
  // stands for everything.
  lemma OrderMattersExactly(raw: string)
    ensures (exists partners :: OrderMatters(raw, partners)) <==> NormalizeScope(raw) != "" && !Steady(raw)
  {
    hide NormalizeScope, ListsConflict;
    if NormalizeScope(raw) == "" {
      forall partners ensures !OrderMatters(raw, partners) {
        EverythingConflicts(raw, partners);
      }
    } else if Steady(raw) {
      forall partners ensures !OrderMatters(raw, partners) {
        if AllSteady(partners) {
          assert AllSteady([raw]);
          SteadyListsSymmetric([raw], partners);
        }
      }
    } else {
      UnsteadyMatters(raw);
    }
  }

  lemma EverythingConflicts(raw: string, partners: seq<string>)
    requires NormalizeScope(raw) == ""
    ensures ListsConflict([raw], partners) && ListsConflict(partners, [raw])
  {
    hide NormalizeScope, AnyConflict;
    assert [raw][0] == raw;
  }

  lemma UnsteadyMatters(raw: string)
    requires NormalizeScope(raw) != "" && !Steady(raw)
    ensures exists partners :: OrderMatters(raw, partners)
  {
    var word := PadLetter(NormalizeScope(raw));
    LetterIsPlain(word);
    TellTaleTells(raw);
    hide NormalizeScope, Settle, TellTale, PathsConflict, AnyConflict;
    var partners := PadUntilSettled(raw, word, TellTale(raw));
    PadsBehind(raw, word, TellTale(raw), partners);
    PadsAreSteady(word, TellTale(raw), partners);
    hide Padded;
    SingleBefore(raw, partners);
    SingleBehind(raw, partners);
    assert OrderMatters(raw, partners);
  }

  lemma PadsAreSteady(word: string, last: string, partners: seq<string>)
    requires NormalizeScope(word) == word != "" && NormalizeScope(last) == last != ""
    requires Padded(partners, word, last)
    ensures AllSteady(partners) && partners != []
    ensures forall i :: 0 <= i < |partners| ==> NormalizeScope(partners[i]) != ""
  {
    hide NormalizeScope;
    assert forall i :: 0 <= i < |partners| ==> partners[i] == word || partners[i] == last;
  }

  lemma SingleBefore(raw: string, partners: seq<string>)
    requires NormalizeScope(raw) != "" && partners != []
    requires forall i :: 0 <= i < |partners| ==> NormalizeScope(partners[i]) != ""
    ensures ListsConflict([raw], partners) <==> AnyConflict(raw, partners)
  {
    hide NormalizeScope, AnyConflict;
    assert [raw][0] == raw;
  }

  lemma SingleBehind(raw: string, partners: seq<string>)
    requires NormalizeScope(raw) != "" && partners != []
    requires forall i :: 0 <= i < |partners| ==> NormalizeScope(partners[i]) != ""
    ensures ListsConflict(partners, [raw]) <==> exists i :: 0 <= i < |partners| && AnyConflict(partners[i], [raw])
  {
    hide NormalizeScope, AnyConflict;
    assert [raw][0] == raw;
  }

  lemma PadsBehind(raw: string, word: string, last: string, partners: seq<string>)
    requires |word| == 1 && NormalizeScope(word) == word && NormalizeScope(last) == last
    requires NormalizeScope(raw) != "" && NormalizeScope(raw)[0] != word[0] && Padded(partners, word, last)
    ensures (exists i :: 0 <= i < |partners| && AnyConflict(partners[i], [raw])) <==>
      PathsConflict(last, NormalizeScope(raw))
  {
    hide NormalizeScope;
    Unrelated(NormalizeScope(raw), word);
    assert [raw][0] == raw && [raw][1..] == [];
    assert !AnyConflict(word, [raw]);
    assert AnyConflict(last, [raw]) <==> PathsConflict(last, NormalizeScope(raw));
    assert partners[|partners| - 1] == last;
    hide PathsConflict, AnyConflict;
    if i :| 0 <= i < |partners| && AnyConflict(partners[i], [raw]) {
      assert partners[i] == word || i == |partners| - 1;
    }
  }
}
