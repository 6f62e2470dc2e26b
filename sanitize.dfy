/**
  The two sanitisers of rename.py.

  `sanitize_filename` deletes every character outside `[\w\s.-]`, lower-cases,
  turns hyphens and then underscores into spaces and, when a non-empty word is
  given, deletes its boundary-delimited occurrences. `sanitize_file_content`
  does the same deletion and lower-casing only.
 */
module Sanitize {
  import opened Wrappers
  import opened CharClass
  import opened Subsequence
  import opened WordRemoval

  /** `re.sub(r'[^\w\s.-]', '', s)`: the kept characters of `s`, in order, each
      as often as in `s`, and nothing else. */
  function StripSpecial(s: string): (r: string)
    ensures |r| <= |s|
    ensures forall j :: 0 <= j < |r| ==> IsKept(r[j])
  {
    if s == [] then []
    else (if IsKept(s[0]) then [s[0]] else []) + StripSpecial(s[1..])
  }

  /** Each kept character stays as often as in `s`; the others are all gone. */
  lemma {:induction false} StripSpecialCounts(s: string, c: char)
    ensures multiset(StripSpecial(s))[c] == if IsKept(c) then multiset(s)[c] else 0
  {
    if s != [] {
      StripSpecialCounts(s[1..], c);
      var head := if IsKept(s[0]) then [s[0]] else [];
      assert StripSpecial(s) == head + StripSpecial(s[1..]);
      assert multiset(StripSpecial(s)) == multiset(head) + multiset(StripSpecial(s[1..]));
      assert s == [s[0]] + s[1..];
      assert multiset(s) == multiset([s[0]]) + multiset(s[1..]);
    }
  }

  /** The deletion works character by character: it distributes over concatenation. */
  lemma {:induction false} StripSpecialAppend(a: string, b: string)
    ensures StripSpecial(a + b) == StripSpecial(a) + StripSpecial(b)
    decreases |a|
  {
    if a != [] {
      var head := if IsKept(a[0]) then [a[0]] else [];
      assert (a + b)[0] == a[0] && (a + b)[1..] == a[1..] + b;
      StripSpecialAppend(a[1..], b);
      assert StripSpecial(a) == head + StripSpecial(a[1..]);
    } else {
      assert a + b == b;
    }
  }

  /** `str.lower` */
  function LowerAll(s: string): string {
    seq(|s|, j requires 0 <= j < |s| => Lower(s[j]))
  }

  /** Lower-casing keeps the length, leaves no upper-case letter, changes no
      other character and keeps membership in the kept class. */
  lemma LowerAllChars(s: string)
    ensures |LowerAll(s)| == |s|
    ensures forall j :: 0 <= j < |s| ==> !IsUpper(LowerAll(s)[j]) && IsKept(LowerAll(s)[j]) == IsKept(s[j])
    ensures forall j :: 0 <= j < |s| && !IsUpper(s[j]) ==> LowerAll(s)[j] == s[j]
  {
  }

  /** `str.replace` for a single character */
  function ReplaceAll(s: string, from: char, to: char): string {
    seq(|s|, j requires 0 <= j < |s| => if s[j] == from then to else s[j])
  }

  /** Replacing keeps the length, leaves no occurrence of `from` (unless it is
      `to`) and changes nothing but the occurrences of `from`. */
  lemma ReplaceAllChars(s: string, from: char, to: char)
    ensures |ReplaceAll(s, from, to)| == |s|
    ensures from != to ==> from !in ReplaceAll(s, from, to)
    ensures forall j :: 0 <= j < |s| && s[j] != from ==> ReplaceAll(s, from, to)[j] == s[j]
    ensures forall j :: 0 <= j < |s| && s[j] == from ==> ReplaceAll(s, from, to)[j] == to
  {
  }

  /** The filename rule before word removal (rename.py line 10). */
  function NameBase(s: string): string {
    ReplaceAll(ReplaceAll(LowerAll(StripSpecial(s)), '-', ' '), '_', ' ')
  }

  /** The same lower-casing and separator mapping applied to every character,
      with nothing deleted. */
  function NameMapped(s: string): string {
    ReplaceAll(ReplaceAll(LowerAll(s), '-', ' '), '_', ' ')
  }

  /** What one character of a file name becomes once it is kept. */
  function NameChar(c: char): char {
    var l := Lower(c);
    if l == '-' || l == '_' then ' ' else l
  }

  /** The characters a sanitised file name is made of: word characters other than
      the underscore, whitespace and the period; no upper-case ASCII letter. */
  predicate IsNameChar(c: char) {
    IsKept(c) && c != '-' && c != '_' && !IsUpper(c)
  }

  /** The characters sanitised content is made of. */
  predicate IsContentChar(c: char) {
    IsKept(c) && !IsUpper(c)
  }

  /** `sanitize_filename(filename, word_to_remove)` */
  function SanitizeFilename(filename: string, word: Option<string>): (r: string)
    ensures |r| <= |filename|
    ensures forall j :: 0 <= j < |r| ==> IsNameChar(r[j])
    ensures '/' !in r && '\\' !in r
  {
    var base := NameBase(filename);
    NameBaseChars(filename);
    if word.Some? && word.value != [] then
      RemoveKeepsNameChars(base, word.value, 0);
      NoSeparators(RemoveWord(base, word.value));
      RemoveWord(base, word.value)
    else
      NoSeparators(base);
      base
  }

  /** Neither path separator is a name character. */
  lemma NoSeparators(t: string)
    requires forall j :: 0 <= j < |t| ==> IsNameChar(t[j])
    ensures '/' !in t && '\\' !in t
  {
  }

  /** Word removal only deletes, so it leaves nothing but name characters. */
  lemma {:induction false} RemoveKeepsNameChars(s: string, w: string, i: nat)
    requires w != [] && i <= |s|
    requires forall j :: 0 <= j < |s| ==> IsNameChar(s[j])
    ensures forall j :: 0 <= j < |RemoveFrom(s, w, i)| ==> IsNameChar(RemoveFrom(s, w, i)[j])
    decreases |s| - i
  {
    if i < |s| {
      if MatchAt(s, w, i) {
        RemoveKeepsNameChars(s, w, i + |w|);
      } else {
        RemoveKeepsNameChars(s, w, i + 1);
      }
    }
  }

  /** `sanitize_file_content(content)` */
  function SanitizeFileContent(content: string): (r: string)
    ensures |r| <= |content|
    ensures forall j :: 0 <= j < |r| ==> IsContentChar(r[j])
  {
    LowerAll(StripSpecial(content))
  }

  // ---------------------------------------------------------------------------
  // Properties of the filename rule

  lemma NameBaseChars(s: string)
    ensures |NameBase(s)| == |StripSpecial(s)|
    ensures forall j :: 0 <= j < |NameBase(s)| ==> NameBase(s)[j] == NameChar(StripSpecial(s)[j])
    ensures forall j :: 0 <= j < |NameBase(s)| ==> IsNameChar(NameBase(s)[j])
  {
  }

  /** Peeling off the first character of a file name. */
  lemma NameBaseHead(s: string)
    requires s != []
    ensures NameBase(s) == (if IsKept(s[0]) then [NameChar(s[0])] else []) + NameBase(s[1..])
  {
    var t, t' := StripSpecial(s), StripSpecial(s[1..]);
    var head := if IsKept(s[0]) then [s[0]] else [];
    assert t == head + t';
    NameBaseChars(s);
    NameBaseChars(s[1..]);
    var b, b' := NameBase(s), NameBase(s[1..]);
    var nhead := if IsKept(s[0]) then [NameChar(s[0])] else [];
    assert |b| == |nhead| + |b'|;
    forall j | 0 <= j < |b|
      ensures b[j] == (nhead + b')[j]
    {
      if j >= |nhead| {
        assert t[j] == t'[j - |nhead|];
      }
    }
  }

  lemma NameMappedHead(s: string)
    requires s != []
    ensures NameMapped(s) == [NameChar(s[0])] + NameMapped(s[1..])
  {
    var m, m' := NameMapped(s), NameMapped(s[1..]);
    assert |m| == 1 + |m'|;
    forall j | 0 <= j < |m|
      ensures m[j] == ([NameChar(s[0])] + m')[j]
    {
      if j > 0 {
        assert s[j] == s[1..][j - 1];
      }
    }
  }

  /** The filename rule is order-preserving and only deletes: its result, with or
      without a word to remove, is a subsequence of the lower-cased,
      separator-mapped input. */
  lemma {:induction false} FilenameIsSubseqOfMapped(filename: string, word: Option<string>)
    ensures IsSubseq(SanitizeFilename(filename, word), NameMapped(filename))
  {
    NameBaseIsSubseq(filename);
    if word.Some? && word.value != [] {
      var base := NameBase(filename);
      RemoveFromIsSubseq(base, word.value, 0);
      assert base[0..] == base;
      SubseqTrans(SanitizeFilename(filename, word), base, NameMapped(filename));
    }
  }

  /** Hence the filename rule never lengthens the name and never adds a character:
      each character occurs in the result at most as often as in the mapped input. */
  lemma FilenameOnlyDeletes(filename: string, word: Option<string>)
    ensures |SanitizeFilename(filename, word)| <= |NameMapped(filename)|
    ensures multiset(SanitizeFilename(filename, word)) <= multiset(NameMapped(filename))
  {
    FilenameIsSubseqOfMapped(filename, word);
    SubseqShrinks(SanitizeFilename(filename, word), NameMapped(filename));
  }

  lemma {:induction false} NameBaseIsSubseq(s: string)
    ensures IsSubseq(NameBase(s), NameMapped(s))
    decreases |s|
  {
    if s != [] {
      NameBaseHead(s);
      NameMappedHead(s);
      NameBaseIsSubseq(s[1..]);
      var m := NameMapped(s);
      var b := NameBase(s);
      assert m[1..] == NameMapped(s[1..]);
      if IsKept(s[0]) {
        assert b[0] == m[0] && b[1..] == NameBase(s[1..]);
      } else {
        assert b == NameBase(s[1..]);
      }
    }
  }

  /** Every period of the input survives the filename rule when no word is
      removed; so do digits and whitespace other than the space. */
  lemma FilenameKeepsCount(filename: string, c: char)
    requires IsKept(c) && !IsLetter(c) && c != '-' && c != '_' && c != ' '
    ensures multiset(SanitizeFilename(filename, None))[c] == multiset(filename)[c]
  {
    NameBaseKeepsCount(filename, c);
  }

  lemma {:induction false} NameBaseKeepsCount(filename: string, c: char)
    requires IsKept(c) && !IsLetter(c) && c != '-' && c != '_' && c != ' '
    ensures multiset(NameBase(filename))[c] == multiset(filename)[c]
    decreases |filename|
  {
    if filename != [] {
      NameBaseHead(filename);
      NameBaseKeepsCount(filename[1..], c);
      assert filename == [filename[0]] + filename[1..];
    }
  }

  /** A name made only of name characters is left as it is. */
  lemma {:induction false} NameBaseFixes(t: string)
    requires forall j :: 0 <= j < |t| ==> IsNameChar(t[j])
    ensures NameBase(t) == t
    decreases |t|
  {
    if t != [] {
      NameBaseHead(t);
      NameBaseFixes(t[1..]);
      assert t == [t[0]] + t[1..];
    }
  }

  /** Without a word to remove the filename rule is idempotent. */
  lemma SanitizeFilenameIdempotent(filename: string)
    ensures SanitizeFilename(SanitizeFilename(filename, None), None) == SanitizeFilename(filename, None)
  {
    NameBaseFixes(SanitizeFilename(filename, None));
  }

  /** The removal guard is truthiness: no word, an empty word, and a word that
      cannot match lower-cased text (it holds an upper-case ASCII letter) all give
      the result without removal. */
  lemma NoRemovalWithoutUsableWord(filename: string, word: Option<string>)
    requires word.None? || word.value == [] || exists j :: 0 <= j < |word.value| && IsUpper(word.value[j])
    ensures SanitizeFilename(filename, word) == SanitizeFilename(filename, None)
  {
    if word.Some? && word.value != [] {
      UpperCaseWordRemovesNothing(NameBase(filename), word.value);
    }
  }

  /** With a word, the filename is the separator-mapped name with exactly the
      boundary-delimited, left-to-right, non-overlapping occurrences of the word
      cut out. */
  lemma FilenameRemovesExactlyMatches(filename: string, w: string, ps: seq<nat>)
    requires w != []
    requires ValidPlan(NameBase(filename), w, ps)
    ensures SanitizeFilename(filename, Some(w)) == ExciseFrom(NameBase(filename), ps, |w|, 0)
    ensures |SanitizeFilename(filename, Some(w))| == |SanitizeFilename(filename, None)| - |ps| * |w|
  {
    RemoveWordDeletesExactlyMatches(NameBase(filename), w, ps);
    ExciseLength(NameBase(filename), ps, |w|, 0);
  }

  // ---------------------------------------------------------------------------
  // Properties of the content rule

  /** Lower-casing changes no character other than a letter. */
  lemma {:induction false} LowerAllCount(t: string, c: char)
    requires !IsLetter(c)
    ensures multiset(LowerAll(t))[c] == multiset(t)[c]
    decreases |t|
  {
    if t != [] {
      LowerAllCount(t[1..], c);
      assert t == [t[0]] + t[1..];
      LowerAllHead(t);
    }
  }

  /** Content keeps every kept character that is not a letter -- hyphens,
      underscores, periods, digits and whitespace -- as often as it occurs. */
  lemma ContentKeepsCount(content: string, c: char)
    requires IsKept(c) && !IsLetter(c)
    ensures multiset(SanitizeFileContent(content))[c] == multiset(content)[c]
  {
    StripSpecialCounts(content, c);
    LowerAllCount(StripSpecial(content), c);
  }

  lemma LowerAllHead(t: string)
    requires t != []
    ensures LowerAll(t) == [Lower(t[0])] + LowerAll(t[1..])
  {
    var r, l := LowerAll(t), [Lower(t[0])] + LowerAll(t[1..]);
    assert forall j :: 0 <= j < |r| ==> r[j] == l[j];
  }

  /** Lower-casing turns every occurrence of an upper-case letter into its
      lower-case partner, and leaves no upper-case letter behind. */
  lemma {:induction false} LowerAllLetterCount(t: string, c: char)
    requires IsUpper(c)
    ensures multiset(LowerAll(t))[Lower(c)] == multiset(t)[c] + multiset(t)[Lower(c)]
    ensures multiset(LowerAll(t))[c] == 0
    decreases |t|
  {
    if t != [] {
      LowerAllLetterCount(t[1..], c);
      var x := t[0];
      assert t == [x] + t[1..];
      assert multiset(t) == multiset([x]) + multiset(t[1..]);
      LowerAllHead(t);
      assert multiset(LowerAll(t)) == multiset([Lower(x)]) + multiset(LowerAll(t[1..]));
      LowerMeetsUpper(x, c);
    }
  }

  /** Exactly an upper-case letter and its lower-case partner lower-case to the
      same letter, and nothing lower-cases to an upper-case letter. */
  lemma LowerMeetsUpper(x: char, c: char)
    requires IsUpper(c)
    ensures Lower(x) == Lower(c) <==> x == c || x == Lower(c)
    ensures Lower(x) != c
  {
  }

  /** Content keeps every letter: an upper-case letter reappears as its
      lower-case partner as often as either occurred, and never as itself. */
  lemma ContentLetterCount(content: string, c: char)
    requires IsUpper(c)
    ensures multiset(SanitizeFileContent(content))[Lower(c)] == multiset(content)[c] + multiset(content)[Lower(c)]
    ensures multiset(SanitizeFileContent(content))[c] == 0
  {
    StripSpecialCounts(content, c);
    StripSpecialCounts(content, Lower(c));
    LowerAllLetterCount(StripSpecial(content), c);
  }

  /** The content rule is order-preserving and only deletes: its result is a
      subsequence of the lower-cased input. */
  lemma {:induction false} ContentIsSubseqOfLower(content: string)
    ensures IsSubseq(SanitizeFileContent(content), LowerAll(content))
    decreases |content|
  {
    if content != [] {
      ContentIsSubseqOfLower(content[1..]);
      var x := content[0];
      var r := SanitizeFileContent(content[1..]);
      var l := LowerAll(content[1..]);
      LowerAllHead(content);
      assert StripSpecial(content) == (if IsKept(x) then [x] else []) + StripSpecial(content[1..]);
      if IsKept(x) {
        assert SanitizeFileContent(content) == [Lower(x)] + r;
        SubseqCons(Lower(x), r, l);
      } else {
        assert SanitizeFileContent(content) == r;
        SubseqPrepend(r, [Lower(x)], l);
      }
    }
  }

  /** Text made only of kept characters survives the deletion unchanged. */
  lemma {:induction false} StripSpecialFixes(t: string)
    requires forall j :: 0 <= j < |t| ==> IsKept(t[j])
    ensures StripSpecial(t) == t
    decreases |t|
  {
    if t != [] {
      StripSpecialFixes(t[1..]);
      assert t == [t[0]] + t[1..];
    }
  }

  /** Content made only of content characters is left as it is. */
  lemma ContentFixes(t: string)
    requires forall j :: 0 <= j < |t| ==> IsContentChar(t[j])
    ensures SanitizeFileContent(t) == t
  {
    StripSpecialFixes(t);
  }

  /** The content rule is idempotent. */
  lemma SanitizeFileContentIdempotent(content: string)
    ensures SanitizeFileContent(SanitizeFileContent(content)) == SanitizeFileContent(content)
  {
    ContentFixes(SanitizeFileContent(content));
  }

  // ---------------------------------------------------------------------------
  // The documented examples

  /** On input made only of kept characters the filename rule maps each
      character on its own. */
  lemma NameOfKept(f: string, expected: string)
    requires forall j :: 0 <= j < |f| ==> IsKept(f[j])
    requires |expected| == |f| && forall j :: 0 <= j < |f| ==> expected[j] == NameChar(f[j])
    ensures NameBase(f) == expected
    ensures SanitizeFilename(f, None) == expected
  {
    StripSpecialFixes(f);
    NameBaseChars(f);
  }

  lemma FilenameExample(filename: string)
    requires filename == "My-File_Name.TXT"
    ensures SanitizeFilename(filename, None) == "my file name.txt"
  {
    NameOfKept(filename, "my file name.txt");
  }

  lemma FilenameWordExample(filename: string, word: string)
    requires filename == "Report_Draft.md" && word == "draft"
    ensures SanitizeFilename(filename, Some(word)) == "report .md"
  {
    NameOfKept(filename, "report draft.md");
    RemoveDraftExample(NameBase(filename), word);
  }

  lemma RemoveDraftExample(base: string, word: string)
    requires base == "report draft.md" && word == "draft"
    ensures RemoveWord(base, word) == "report .md"
  {
    DraftOccursOnce(base, word);
    RemoveSingleMatch(base, word, 7);
    assert base[..7] == "report " && base[12..] == ".md";
  }

  lemma DraftOccursOnce(base: string, word: string)
    requires base == "report draft.md" && word == "draft"
    ensures MatchAt(base, word, 7)
    ensures forall q: nat :: MatchAt(base, word, q) ==> q == 7
  {
    forall q: nat | MatchAt(base, word, q)
      ensures q == 7
    {
      assert base[q..q + 5][0] == base[q] == 'd';
    }
  }

  /** Deleting one character that is not kept, after a run of kept ones. */
  lemma {:induction false} StripSpecialSkips(p: string, x: char, q: string)
    requires forall j :: 0 <= j < |p| ==> IsKept(p[j])
    requires !IsKept(x)
    ensures StripSpecial(p + [x] + q) == p + StripSpecial(q)
    decreases |p|
  {
    var s := p + [x] + q;
    if p == [] {
      assert s[0] == x && s[1..] == q;
    } else {
      assert s[0] == p[0] && s[1..] == p[1..] + [x] + q;
      assert StripSpecial(s) == [p[0]] + StripSpecial(s[1..]);
      StripSpecialSkips(p[1..], x, q);
      assert p == [p[0]] + p[1..];
    }
  }

  /** Content keeps hyphens, underscores, digits, spaces and periods, drops other
      punctuation and lower-cases letters. */
  lemma ContentExample(content: string)
    requires content == "A-b_C, 5%."
    ensures SanitizeFileContent(content) == "a-b_c 5."
  {
    ContentStripExample(content);
    ContentLowerExample(StripSpecial(content));
  }

  lemma ContentStripExample(content: string)
    requires content == "A-b_C, 5%."
    ensures StripSpecial(content) == "A-b_C 5."
  {
    var a, b, c := "A-b_C", " 5", ".";
    assert content == a + [','] + (b + ['%'] + c);
    StripSpecialFixes(c);
    StripSpecialSkips(b, '%', c);
    StripSpecialSkips(a, ',', b + ['%'] + c);
  }

  lemma ContentLowerExample(stripped: string)
    requires stripped == "A-b_C 5."
    ensures LowerAll(stripped) == "a-b_c 5."
  {
  }

  /** The sentence `Hello, World! 100% done.` loses its punctuation and its
      capitals and becomes `hello world 100 done.` The sentence is given as
      its four words so that each is checked on its own. */
  lemma HelloExample(a: string, b: string, c: string, d: string)
    requires a == "Hello," && b == " World!" && c == " 100%" && d == " done."
    ensures a + b + c + d == "Hello, World! 100% done."
    ensures SanitizeFileContent(a + b + c + d) == "hello world 100 done."
  {
    HelloStripExample(a, b, c, d);
    HelloLowerExample(StripSpecial(a + b + c + d));
  }

  lemma HelloStripExample(a: string, b: string, c: string, d: string)
    requires a == "Hello," && b == " World!" && c == " 100%" && d == " done."
    ensures StripSpecial(a + b + c + d) == "Hello" + " World" + " 100" + " done."
  {
    StripSpecialAppend4(a, b, c, d);
    PunctuatedWordExample(a, "Hello", ',');
    PunctuatedWordExample(b, " World", '!');
    PunctuatedWordExample(c, " 100", '%');
    DoneStripExample(d);
  }

  lemma DoneStripExample(d: string)
    requires d == " done."
    ensures StripSpecial(d) == d
  {
    StripSpecialFixes(d);
  }

  lemma HelloLowerExample(stripped: string)
    requires stripped == "Hello" + " World" + " 100" + " done."
    ensures LowerAll(stripped) == "hello world 100 done."
  {
  }

  /** The deletion of a concatenation of four parts, part by part. */
  lemma StripSpecialAppend4(a: string, b: string, c: string, d: string)
    ensures StripSpecial(a + b + c + d) == StripSpecial(a) + StripSpecial(b) + StripSpecial(c) + StripSpecial(d)
  {
    StripSpecialAppend(a + b + c, d);
    StripSpecialAppend(a + b, c);
    StripSpecialAppend(a, b);
  }

  /** A word followed by one deleted punctuation mark keeps just the word. */
  lemma PunctuatedWordExample(s: string, p: string, x: char)
    requires s == p + [x]
    requires forall j :: 0 <= j < |p| ==> IsKept(p[j])
    requires !IsKept(x)
    ensures StripSpecial(s) == p
  {
    StripSpecialSkips(p, x, []);
    assert p + [x] + [] == s;
  }
}
