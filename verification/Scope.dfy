// Write scopes: which paths a scope entry admits, and when two lists may share a wave.
module Scope {
  import opened Text

  // ---- path/filepath.Clean on slash-separated paths ----

  function Split(path: string): (parts: seq<string>)
    ensures parts != []
  {
    if path == "" then [""]
    else
      var rest := Split(path[1..]);
      if path[0] == '/' then [""] + rest else [[path[0]] + rest[0]] + rest[1..]
  }

  function Join(parts: seq<string>): string {
    if parts == [] then ""
    else if |parts| == 1 then parts[0]
    else parts[0] + "/" + Join(parts[1..])
  }

  // The elements kept so far, with ".." eliminating the element before it where there is one.
  function CleanParts(parts: seq<string>, rooted: bool, kept: seq<string>): seq<string> {
    if parts == [] then kept
    else
      var part := parts[0];
      var next :=
        if part == "" || part == "." then kept
        else if part != ".." then kept + [part]
        else if kept != [] && kept[|kept| - 1] != ".." then kept[..|kept| - 1]
        else if rooted then kept
        else kept + [part];
      CleanParts(parts[1..], rooted, next)
  }

  function Clean(path: string): string {
    var rooted := HasPrefix(path, "/");
    var kept := CleanParts(Split(path), rooted, []);
    if rooted then "/" + Join(kept)
    else if kept == [] then "."
    else Join(kept)
  }

  // ---- the matcher and the conflict verdict ----

  function Entry(raw: string): string {
    TrimSuffix(TrimSpace(raw), "/")
  }

  predicate EntryMatches(path: string, raw: string) {
    var entry := Entry(raw);
    || entry == "."
    || entry == "**"
    || path == entry
    || HasPrefix(path, entry + "/")
    || (HasSuffix(entry, "**") && HasPrefix(path, TrimSuffix(entry, "**")))
  }

  predicate MatchesAny(path: string, scopes: seq<string>) {
    var cleaned := TrimPrefix(Clean(path), "./");
    exists i :: 0 <= i < |scopes| && EntryMatches(cleaned, scopes[i])
  }

  predicate ScopesConflict(path: string, allowed: seq<string>, forbidden: seq<string>) {
    !MatchesAny(path, allowed) || MatchesAny(path, forbidden)
  }

  function NormalizeScope(raw: string): string {
    var trimmed := TrimSpace(raw);
    var index := FirstWildcard(trimmed);
    TrimSuffix(if index >= 0 then trimmed[..index] else trimmed, "/")
  }

  predicate DirPrefix(prefix: string, path: string) {
    prefix != "" && |path| > |prefix| && HasPrefix(path, prefix) && path[|prefix|] == '/'
  }

  predicate PathsConflict(l: string, r: string) {
    l == r || DirPrefix(l, r) || DirPrefix(r, l)
  }

  predicate EntriesConflict(left: string, right: string) {
    PathsConflict(NormalizeScope(left), NormalizeScope(right))
  }

  // The inner loop. It assigns the normalised left entry back, and so normalises it once more for
  // every right entry.
  predicate AnyConflict(left: string, right: seq<string>) {
    if right == [] then false
    else
      var l := NormalizeScope(left);
      PathsConflict(l, NormalizeScope(right[0])) || AnyConflict(l, right[1..])
  }

  predicate ListsConflict(left: seq<string>, right: seq<string>) {
    || left == []
    || right == []
    || (exists i :: 0 <= i < |left| && NormalizeScope(left[i]) == "")
    || (exists i :: 0 <= i < |right| && NormalizeScope(right[i]) == "")
    || (exists i :: 0 <= i < |left| && AnyConflict(left[i], right))
  }

  // ---- which entries the conflict verdict cannot be trusted for ----

  // "**" glued to a literal: the matcher then accepts siblings such as foobar for foo**.
  predicate GluedGlob(raw: string) {
    var entry := Entry(raw);
    && |entry| > 2
    && HasSuffix(entry, "**")
    && FirstWildcard(entry) == |entry| - 2
    && entry[|entry| - 3] != '/'
  }

  function GluedPrefix(raw: string): string
    requires GluedGlob(raw)
  {
    TrimSuffix(Entry(raw), "**")
  }

  // An entry that either stands for the whole tree without saying so, or is a glued glob whose
  // literal part can begin a cleaned path at all.
  predicate Leaky(raw: string) {
    || Entry(raw) == "."
    || (GluedGlob(raw) && Clean(GluedPrefix(raw) + "x") == GluedPrefix(raw) + "x")
  }

  predicate NoLeaks(scopes: seq<string>) {
    forall i :: 0 <= i < |scopes| ==> !Leaky(scopes[i])
  }

  // ---- cleaned paths ----

  predicate PlainPart(part: string) {
    part != "" && part != "." && '/' !in part
  }

  // What CleanParts keeps: plain parts, with ".." only as a leading run of a relative path.
  predicate Normal(parts: seq<string>, rooted: bool) {
    && (forall i :: 0 <= i < |parts| ==> PlainPart(parts[i]))
    && (forall i :: 0 <= i < |parts| && parts[i] == ".." ==>
          !rooted && forall j :: 0 <= j < i ==> parts[j] == "..")
  }

  lemma {:induction false} SplitIsSlashFree(path: string)
    ensures forall i :: 0 <= i < |Split(path)| ==> '/' !in Split(path)[i]
  {
    if path != "" {
      SplitIsSlashFree(path[1..]);
    }
  }

  lemma {:induction false} CleanPartsNormal(parts: seq<string>, rooted: bool, kept: seq<string>)
    requires forall i :: 0 <= i < |parts| ==> '/' !in parts[i]
    requires Normal(kept, rooted)
    ensures Normal(CleanParts(parts, rooted, kept), rooted)
  {
    if parts != [] {
      var part := parts[0];
      var next :=
        if part == "" || part == "." then kept
        else if part != ".." then kept + [part]
        else if kept != [] && kept[|kept| - 1] != ".." then kept[..|kept| - 1]
        else if rooted then kept
        else kept + [part];
      CleanPartsNormal(parts[1..], rooted, next);
    }
  }

  lemma {:induction false} CleanPartsKeepsNormal(parts: seq<string>, rooted: bool, kept: seq<string>)
    requires Normal(kept + parts, rooted)
    ensures CleanParts(parts, rooted, kept) == kept + parts
  {
    if parts != [] {
      var part := parts[0];
      assert (kept + parts)[|kept|] == part;
      assert kept + parts == (kept + [part]) + parts[1..];
      if part == ".." && kept != [] {
        assert (kept + parts)[|kept| - 1] == kept[|kept| - 1];
      }
      CleanPartsKeepsNormal(parts[1..], rooted, kept + [part]);
    }
  }

  lemma {:induction false} SplitSlashFree(part: string)
    requires '/' !in part
    ensures Split(part) == [part]
  {
    if part != "" {
      SplitSlashFree(part[1..]);
      assert part == [part[0]] + part[1..];
    }
  }

  lemma {:induction false} SplitAtSlash(part: string, rest: string)
    requires '/' !in part
    ensures Split(part + "/" + rest) == [part] + Split(rest)
  {
    var whole := part + "/" + rest;
    if part == "" {
      assert whole[1..] == rest;
    } else {
      SplitAtSlash(part[1..], rest);
      assert whole[1..] == part[1..] + "/" + rest;
      assert part == [part[0]] + part[1..];
    }
  }

  lemma {:induction false} SplitJoin(parts: seq<string>)
    requires parts != []
    requires forall i :: 0 <= i < |parts| ==> '/' !in parts[i]
    ensures Split(Join(parts)) == parts
  {
    if |parts| == 1 {
      SplitSlashFree(parts[0]);
    } else {
      SplitJoin(parts[1..]);
      SplitAtSlash(parts[0], Join(parts[1..]));
    }
  }

  function Assemble(parts: seq<string>, rooted: bool): string {
    if rooted then "/" + Join(parts) else Join(parts)
  }

  lemma JoinStart(parts: seq<string>)
    requires parts != [] && PlainPart(parts[0])
    ensures Join(parts) != "" && Join(parts)[0] != '/'
  {
    assert parts[0][0] in parts[0];
  }

  // Clean leaves a path assembled from normal parts alone.
  lemma CleanFixesNormal(parts: seq<string>, rooted: bool)
    requires parts != [] && Normal(parts, rooted)
    ensures Clean(Assemble(parts, rooted)) == Assemble(parts, rooted)
  {
    var path := Assemble(parts, rooted);
    SplitJoin(parts);
    JoinStart(parts);
    if rooted {
      SplitAtSlash("", Join(parts));
      assert "" + "/" + Join(parts) == path;
      assert HasPrefix(path, "/");
      assert Split(path)[1..] == parts;
      assert CleanParts(Split(path), true, []) == CleanParts(parts, true, []);
    } else {
      assert !HasPrefix(path, "/");
    }
    assert [] + parts == parts;
    CleanPartsKeepsNormal(parts, rooted, []);
  }

  lemma CleanForm(path: string) returns (parts: seq<string>, rooted: bool)
    ensures Normal(parts, rooted)
    ensures Clean(path) == (if parts == [] && !rooted then "." else Assemble(parts, rooted))
  {
    rooted := HasPrefix(path, "/");
    parts := CleanParts(Split(path), rooted, []);
    SplitIsSlashFree(path);
    CleanPartsNormal(Split(path), rooted, []);
  }

  // A cleaned path is its own cleaned form.
  lemma CleanIsIdempotent(path: string)
    ensures Clean(Clean(path)) == Clean(path)
  {
    var parts, rooted := CleanForm(path);
    hide Normal;
    if parts != [] {
      CleanFixesNormal(parts, rooted);
    } else if rooted {
      SplitAtSlash("", "");
      assert Split("/") == ["", ""] by {
        assert "" + "/" + "" == "/";
      }
      assert CleanParts(["", ""], true, []) == CleanParts([""], true, []) == [];
    } else {
      SplitSlashFree(".");
      assert CleanParts(["."], false, []) == CleanParts([], false, []) == [];
    }
  }

  predicate PlainTail(tail: string) {
    tail != "" && '/' !in tail && tail[|tail| - 1] != '.'
  }

  // A non-empty prefix of joined normal parts that does not stop at a slash becomes a joined
  // list of normal parts again once something plain is put behind it.
  lemma {:induction false} PrefixOfJoin(parts: seq<string>, prefix: string, tail: string) returns (head: seq<string>)
    requires PlainTail(tail)
    requires forall i :: 0 <= i < |parts| ==> PlainPart(parts[i])
    requires prefix != "" && prefix[|prefix| - 1] != '/' && HasPrefix(Join(parts), prefix)
    ensures head != [] && |head| <= |parts|
    ensures head[..|head| - 1] == parts[..|head| - 1]
    ensures PlainPart(head[|head| - 1]) && head[|head| - 1] != ".."
    ensures Join(head) == prefix + tail
    decreases |parts|
  {
    var first := parts[0];
    if |prefix| <= |first| {
      assert first[..|prefix|] == prefix by {
        assert Join(parts)[..|prefix|] == first[..|prefix|];
      }
      var last := prefix + tail;
      head := [last];
      assert last[|last| - 1] == tail[|tail| - 1];
      assert forall c :: c in prefix ==> c in first;
    } else {
      var others := Join(parts[1..]);
      assert |parts| > 1;
      var k := |first| + 1;
      assert Join(parts)[|first|] == '/';
      assert prefix[|first|] == '/';
      assert |prefix| > k;
      var rest := prefix[k..];
      assert prefix == first + "/" + rest;
      assert HasPrefix(others, rest) by {
        assert Join(parts)[k..|prefix|] == rest;
        assert Join(parts)[k..|prefix|] == others[..|rest|];
      }
      var inner := PrefixOfJoin(parts[1..], rest, tail);
      head := [first] + inner;
      assert Join(head) == first + "/" + Join(inner);
      assert head[..|head| - 1] == [first] + inner[..|inner| - 1];
    }
  }

  // Parts that agree with normal ones up to a plain last part are normal.
  lemma NormalHead(parts: seq<string>, head: seq<string>, rooted: bool)
    requires Normal(parts, rooted) && head != [] && |head| <= |parts| + 1
    requires head[..|head| - 1] == parts[..|head| - 1]
    requires PlainPart(head[|head| - 1]) && head[|head| - 1] != ".."
    ensures Normal(head, rooted)
  {
    assert forall i :: 0 <= i < |head| - 1 ==> head[i] == head[..|head| - 1][i] == parts[i];
  }

  // A prefix of a cleaned path that does not end in a slash is cleaned with something plain behind it.
  lemma PrefixOfCleanExtends(path: string, prefix: string, tail: string)
    requires PlainTail(tail)
    requires prefix != "" && prefix[|prefix| - 1] != '/' && HasPrefix(Clean(path), prefix)
    ensures Clean(prefix + tail) == prefix + tail
  {
    var parts, rooted := CleanForm(path);
    if parts == [] && !rooted {
      assert prefix == ".";
      var word := "." + tail;
      assert word[|word| - 1] == tail[|tail| - 1];
      assert Join([word]) == word;
      CleanFixesNormal([word], false);
    } else if rooted {
      assert prefix[0] == '/';
      var inner := prefix[1..];
      assert |prefix| > 1;
      assert HasPrefix(Join(parts), inner) by {
        assert Clean(path)[..|prefix|][1..] == Join(parts)[..|inner|];
      }
      var head := PrefixOfJoin(parts, inner, tail);
      NormalHead(parts, head, rooted);
      CleanFixesNormal(head, rooted);
      assert Assemble(head, rooted) == prefix + tail;
    } else {
      var head := PrefixOfJoin(parts, prefix, tail);
      NormalHead(parts, head, rooted);
      CleanFixesNormal(head, rooted);
    }
  }

  // What stands before a slash in joined plain parts is some of them joined.
  lemma {:induction false} SlashOfJoin(parts: seq<string>, prefix: string) returns (k: nat)
    requires forall i :: 0 <= i < |parts| ==> PlainPart(parts[i])
    requires prefix != "" && HasPrefix(Join(parts), prefix + "/")
    ensures 0 < k < |parts| && Join(parts[..k]) == prefix
    decreases |parts|
  {
    assert parts != [];
    var first, whole := parts[0], Join(parts);
    assert whole[..|prefix| + 1] == prefix + "/";
    assert whole[|prefix|] == (prefix + "/")[|prefix|] == '/';
    assert whole[..|prefix|] == prefix;
    forall i | 0 <= i < |first| ensures whole[i] == first[i] && whole[i] != '/' {
      assert first[i] in first;
    }
    assert |prefix| >= |first|;
    assert |parts| > 1;
    var others := Join(parts[1..]);
    if |prefix| == |first| {
      k := 1;
      assert parts[..1] == [first] && prefix == first;
    } else {
      assert prefix[|first|] == '/';
      var rest := prefix[|first| + 1..];
      assert prefix == first + "/" + rest;
      assert others[..|rest| + 1] == rest + "/" by {
        assert others[..|rest| + 1] == whole[|first| + 1..|prefix| + 1] == (prefix + "/")[|first| + 1..];
      }
      JoinStart(parts[1..]);
      assert others[0] == (rest + "/")[0];
      assert rest != "";
      var j := SlashOfJoin(parts[1..], rest);
      k := j + 1;
      assert parts[..k] == [first] + parts[1..][..j];
    }
  }

  // The same of a cleaned path.
  lemma SlashOfClean(path: string, prefix: string) returns (head: seq<string>, rooted: bool)
    requires prefix != "" && HasPrefix(Clean(path), prefix + "/")
    ensures head != [] && Normal(head, rooted) && prefix == Assemble(head, rooted)
  {
    var parts;
    parts, rooted := CleanForm(path);
    assert Clean(path)[..|prefix| + 1] == prefix + "/";
    assert parts != [] || rooted;
    if rooted {
      assert Clean(path)[0] == prefix[0] == '/';
      var inner := prefix[1..];
      assert Join(parts)[..|inner| + 1] == inner + "/" by {
        assert Join(parts)[..|inner| + 1] == Clean(path)[1..|prefix| + 1] == (prefix + "/")[1..];
      }
      assert parts != [];
      JoinStart(parts);
      assert Join(parts)[0] == (inner + "/")[0];
      assert inner != "";
      var k := SlashOfJoin(parts, inner);
      head := parts[..k];
      assert prefix == "/" + inner;
    } else {
      var k := SlashOfJoin(parts, prefix);
      head := parts[..k];
    }
  }

  lemma CleanHasNoDotSlash(path: string)
    ensures TrimPrefix(Clean(path), "./") == Clean(path)
  {
    var parts, rooted := CleanForm(path);
    if !rooted && parts != [] {
      var first := parts[0];
      assert |first| == 1 ==> first == [first[0]];
      assert forall i :: 0 <= i < |first| ==> Join(parts)[i] == first[i];
      assert forall i :: 0 <= i < |first| ==> first[i] != '/';
      assert |Join(parts)| >= 2 ==> Join(parts)[..2][0] == Join(parts)[0] && Join(parts)[..2][1] == Join(parts)[1];
    } else {
      assert |Clean(path)| >= 2 ==> Clean(path)[..2][0] == '/';
    }
  }

  // ---- soundness of the conflict verdict ----

  // Path lies at or below the directory or file named base.
  predicate Under(path: string, base: string) {
    path == base || HasPrefix(path, base + "/")
  }

  // Path repeats the entry's literal part and then its first wildcard character, literally.
  predicate LiteralWildcard(path: string, raw: string) {
    var entry := Entry(raw);
    var w := FirstWildcard(entry);
    w >= 0 && |path| > w && path[..w] == entry[..w] && path[w] == entry[w]
  }

  lemma NormalizeFromEntry(raw: string)
    ensures FirstWildcard(Entry(raw)) < 0 ==> NormalizeScope(raw) == Entry(raw)
    ensures FirstWildcard(Entry(raw)) >= 0 ==>
      NormalizeScope(raw) == TrimSuffix(Entry(raw)[..FirstWildcard(Entry(raw))], "/")
  {
    hide FirstWildcard;
    var trimmed, entry := TrimSpace(raw), Entry(raw);
    var w := FirstWildcard(trimmed);
    if w >= 0 {
      assert entry[..w] == trimmed[..w];
      assert |entry| > w && entry[w] == trimmed[w];
    }
  }

  lemma PrefixOfPrefix(s: string, a: string, b: string)
    requires HasPrefix(s, a + b)
    ensures HasPrefix(s, a)
  {
    assert s[..|a|] == s[..|a + b|][..|a|];
  }

  lemma WildcardIsRepeated(path: string, raw: string, prefix: string)
    requires HasPrefix(path, prefix) && HasPrefix(Entry(raw), prefix)
    requires 0 <= FirstWildcard(Entry(raw)) < |prefix|
    ensures LiteralWildcard(path, raw)
  {
    var w := FirstWildcard(Entry(raw));
    assert path[..w] == prefix[..w] == Entry(raw)[..w];
    assert path[w] == prefix[w] == Entry(raw)[w];
  }

  // The part of an entry before its final "**" ends at a star, so no wildcard comes later.
  lemma GlobParts(entry: string, literal: string)
    requires HasSuffix(entry, "**") && literal == TrimSuffix(entry, "**")
    ensures HasPrefix(entry, literal) && 0 <= FirstWildcard(entry) <= |literal|
    ensures FirstWildcard(entry) == |literal| ==> literal == entry[..FirstWildcard(entry)]
  {
    hide FirstWildcard;
    assert entry[|entry| - 2] == entry[|entry| - 2..][0] == '*';
  }

  lemma TrimNothing()
    ensures TrimSuffix("", "/") == ""
  {
  }

  lemma GluedIsLeaky(raw: string, literal: string)
    requires HasSuffix(Entry(raw), "**") && literal == TrimSuffix(Entry(raw), "**")
    requires FirstWildcard(Entry(raw)) == |literal| && literal != "" && literal[|literal| - 1] != '/'
    requires Clean(literal + "x") == literal + "x"
    ensures Leaky(raw)
  {
    hide Clean, TrimSpace, FirstWildcard;
  }

  lemma BelowDirectory(path: string, literal: string)
    requires HasPrefix(path, literal) && literal != "" && literal[|literal| - 1] == '/'
    ensures Under(path, TrimSuffix(literal, "/"))
  {
    assert literal[|literal| - 1..] == [literal[|literal| - 1]];
    assert literal == TrimSuffix(literal, "/") + "/";
  }

  // What a match through the "**" suffix says about the path.
  lemma GlobShape(path: string, raw: string)
    requires HasSuffix(Entry(raw), "**") && HasPrefix(Clean(path), TrimSuffix(Entry(raw), "**"))
    requires !Leaky(raw) && NormalizeScope(raw) != ""
    ensures Under(Clean(path), NormalizeScope(raw)) || LiteralWildcard(Clean(path), raw)
  {
    hide *;
    var entry := Entry(raw);
    var literal := TrimSuffix(entry, "**");
    NormalizeFromEntry(raw);
    GlobParts(entry, literal);
    if FirstWildcard(entry) < |literal| {
      WildcardIsRepeated(Clean(path), raw, literal);
    } else if literal == "" {
      assert entry[..0] == "";
      TrimNothing();
    } else if literal[|literal| - 1] == '/' {
      BelowDirectory(Clean(path), literal);
    } else {
      PrefixOfCleanExtends(path, literal, "x");
      GluedIsLeaky(raw, literal);
    }
  }

  // The two ways a path can match an entry that does not leak.
  lemma MatchShape(path: string, raw: string)
    requires EntryMatches(Clean(path), raw)
    requires !Leaky(raw) && NormalizeScope(raw) != ""
    ensures Under(Clean(path), NormalizeScope(raw)) || LiteralWildcard(Clean(path), raw)
  {
    hide Clean, TrimSpace, FirstWildcard;
    var cleaned, entry := Clean(path), Entry(raw);
    var w := FirstWildcard(entry);
    NormalizeFromEntry(raw);
    assert HasPrefix(cleaned, "");
    assert entry == "**" ==> TrimSuffix(entry, "**") == "";
    if HasSuffix(entry, "**") && HasPrefix(cleaned, TrimSuffix(entry, "**")) {
      GlobShape(path, raw);
    } else if w >= 0 {
      if HasPrefix(cleaned, entry + "/") {
        PrefixOfPrefix(cleaned, entry, "/");
      }
      WildcardIsRepeated(cleaned, raw, entry);
    }
  }

  lemma BothUnderConflict(path: string, l: string, r: string)
    requires l != "" && r != "" && Under(path, l) && Under(path, r)
    ensures l == r || DirPrefix(l, r) || DirPrefix(r, l)
  {
    hide Clean, TrimSpace, FirstWildcard;
    assert path[..|l|] == l && path[..|r|] == r by {
      UnderIsPrefix(path, l);
      UnderIsPrefix(path, r);
    }
    if |l| < |r| {
      assert r[..|l|] == path[..|r|][..|l|] == path[..|l|];
      assert path[|l|] == (l + "/")[|l|] == '/';
      assert r[|l|] == path[..|r|][|l|];
    } else if |r| < |l| {
      assert l[..|r|] == path[..|l|][..|r|] == path[..|r|];
      assert path[|r|] == (r + "/")[|r|] == '/';
      assert l[|r|] == path[..|l|][|r|];
    }
  }

  lemma UnderIsPrefix(path: string, base: string)
    requires Under(path, base)
    ensures |base| <= |path| && path[..|base|] == base
    ensures |path| > |base| ==> path[|base|] == '/'
  {
    if path != base {
      assert path[..|base| + 1] == base + "/";
      assert path[..|base|] == path[..|base| + 1][..|base|];
      assert path[|base|] == path[..|base| + 1][|base|];
    }
  }

  lemma NormalizedHasNoWildcard(raw: string)
    ensures forall i :: 0 <= i < |NormalizeScope(raw)| ==> NormalizeScope(raw)[i] !in "*?"
  {
    hide Entry, NormalizeScope, FirstWildcard;
    NormalizeFromEntry(raw);
  }

  // A wildcard-free base above a path that has its first wildcard at w lies strictly before it.
  lemma BaseBeforeWildcard(path: string, base: string, w: nat)
    requires Under(path, base) && forall i :: 0 <= i < |base| ==> base[i] !in "*?"
    requires w < |path| && path[w] in "*?"
    ensures |base| < w && path[|base|] == '/'
  {
    UnderIsPrefix(path, base);
    assert forall i :: 0 <= i < |base| ==> path[..|base|][i] == path[i];
  }

  lemma SlashInside(base: string, cut: string)
    requires base != "" && |base| < |cut| && cut[..|base|] == base && cut[|base|] == '/'
    ensures base == TrimSuffix(cut, "/") || DirPrefix(base, TrimSuffix(cut, "/"))
  {
    assert cut[|cut| - 1..] == [cut[|cut| - 1]];
    if |base| + 1 == |cut| {
      assert cut == base + "/";
    }
  }

  lemma UnderAndWildcardConflict(path: string, left: string, right: string)
    requires NormalizeScope(left) != "" && NormalizeScope(right) != ""
    requires Under(path, NormalizeScope(left)) && LiteralWildcard(path, right)
    ensures EntriesConflict(left, right)
  {
    hide Clean, TrimSpace, FirstWildcard;
    var l := NormalizeScope(left);
    var w := FirstWildcard(Entry(right));
    NormalizeFromEntry(right);
    NormalizedHasNoWildcard(left);
    BaseBeforeWildcard(path, l, w);
    UnderIsPrefix(path, l);
    assert path[..w][..|l|] == path[..|l|];
    SlashInside(l, path[..w]);
  }

  lemma BothWildcardConflict(path: string, left: string, right: string)
    requires LiteralWildcard(path, left) && LiteralWildcard(path, right)
    ensures EntriesConflict(left, right)
  {
    hide Clean, TrimSpace, FirstWildcard;
    var wl, wr := FirstWildcard(Entry(left)), FirstWildcard(Entry(right));
    NormalizeFromEntry(left);
    NormalizeFromEntry(right);
    assert forall i :: 0 <= i < wl ==> path[i] == path[..wl][i] == Entry(left)[i];
    assert forall i :: 0 <= i < wr ==> path[i] == path[..wr][i] == Entry(right)[i];
    assert wl == wr;
  }

  lemma SharedPathConflicts(path: string, left: string, right: string)
    requires NormalizeScope(left) != "" && NormalizeScope(right) != ""
    requires !Leaky(left) && !Leaky(right)
    requires EntryMatches(Clean(path), left) && EntryMatches(Clean(path), right)
    ensures EntriesConflict(left, right)
  {
    hide Clean, TrimSpace, FirstWildcard;
    var cleaned := Clean(path);
    MatchShape(path, left);
    MatchShape(path, right);
    var l, r := LiteralWildcard(cleaned, left), LiteralWildcard(cleaned, right);
    if l && r {
      BothWildcardConflict(cleaned, left, right);
    } else if !l && !r {
      BothUnderConflict(cleaned, NormalizeScope(left), NormalizeScope(right));
    } else if !l {
      UnderAndWildcardConflict(cleaned, left, right);
    } else {
      UnderAndWildcardConflict(cleaned, right, left);
    }
  }
}
