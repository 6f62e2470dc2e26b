/**
 * What the directory walk decides for one file: the new name, whether a
 * rename is issued, the extension of the new name, and whether the content
 * is rewritten. Paths follow POSIX rules (`/` is the only separator).
 */
module FileStep {
  import opened Wrappers
  import opened Sanitize

  /** The extensions whose files get their content rewritten; note: no leading dots. */
  const TextFileExtensions: seq<string> := ["txt", "py", "md", "html", "css", "js", "csv"]

  /** `os.path.join(root, name)` for two components on POSIX. */
  function Join(root: string, name: string): (p: string)
    ensures |name| <= |p| && p[|p| - |name|..] == name
    ensures name != [] && name[0] == '/' ==> p == name
  {
    if name != [] && name[0] == '/' then name
    else if root == [] || root[|root| - 1] == '/' then root + name
    else root + "/" + name
  }

  /** A name `os.walk` can list: one non-empty component. */
  predicate IsLeafName(name: string)
  {
    name != [] && '/' !in name
  }

  /** Index of the last `c` in `s`, or -1 (`str.rfind`). */
  function LastIndex(s: string, c: char): (r: int)
    ensures -1 <= r < |s|
    ensures 0 <= r ==> s[r] == c
    ensures forall j :: r < j < |s| ==> s[j] != c
    decreases |s|
  {
    if s == [] then -1
    else if s[|s| - 1] == c then |s| - 1
    else LastIndex(s[..|s| - 1], c)
  }

  /**
   * A path has an extension when its last component holds a dot with some
   * character other than a dot before it in that component.
   */
  predicate HasExtension(p: string)
  {
    exists k :: 0 <= k < |p| && p[k] == '.' && '/' !in p[k..] && HasStemBefore(p, k)
  }

  predicate HasStemBefore(p: string, k: nat)
    requires k <= |p|
  {
    exists j :: 0 <= j < k && p[j] != '.' && '/' !in p[j..k]
  }

  predicate AllDots(s: string)
  {
    forall i :: 0 <= i < |s| ==> s[i] == '.'
  }

  /** The extension test of `SplitExt`, read off the last `/` and the last dot. */
  lemma ExtensionAtLastDot(p: string, sepIndex: int, dotIndex: int)
    requires sepIndex == LastIndex(p, '/') && dotIndex == LastIndex(p, '.')
    ensures HasExtension(p) <==> dotIndex > sepIndex && !AllDots(p[sepIndex + 1..dotIndex])
  {
    if dotIndex > sepIndex && !AllDots(p[sepIndex + 1..dotIndex]) {
      StemBeforeLastDot(p, sepIndex, dotIndex);
    }
    if HasExtension(p) {
      LastDotAfterStem(p, sepIndex, dotIndex);
    }
  }

  lemma StemBeforeLastDot(p: string, sepIndex: int, dotIndex: int)
    requires sepIndex == LastIndex(p, '/') && dotIndex == LastIndex(p, '.')
    requires dotIndex > sepIndex && !AllDots(p[sepIndex + 1..dotIndex])
    ensures HasExtension(p)
  {
    var between := p[sepIndex + 1..dotIndex];
    var i :| 0 <= i < |between| && between[i] != '.';
    var j := sepIndex + 1 + i;
    assert p[j] != '.' && '/' !in p[j..dotIndex];
    assert HasStemBefore(p, dotIndex);
    assert '/' !in p[dotIndex..];
  }

  lemma LastDotAfterStem(p: string, sepIndex: int, dotIndex: int)
    requires sepIndex == LastIndex(p, '/') && dotIndex == LastIndex(p, '.')
    requires HasExtension(p)
    ensures dotIndex > sepIndex && !AllDots(p[sepIndex + 1..dotIndex])
  {
    var j, k := ExtensionWitness(p);
    assert k <= dotIndex;
    SlashBefore(p, sepIndex, j);
    assert p[sepIndex + 1..dotIndex][j - sepIndex - 1] == p[j];
  }

  /** A dot at `k` with a character other than a dot at `j` before it, and no `/` after `j`. */
  lemma ExtensionWitness(p: string) returns (j: nat, k: nat)
    requires HasExtension(p)
    ensures j < k < |p| && p[k] == '.' && p[j] != '.' && '/' !in p[j..]
  {
    k :| 0 <= k < |p| && p[k] == '.' && '/' !in p[k..] && HasStemBefore(p, k);
    j :| 0 <= j < k && p[j] != '.' && '/' !in p[j..k];
    assert p[j..] == p[j..k] + p[k..];
  }

  /** The last `/` comes before any stretch of `p` without one that runs to its end. */
  lemma SlashBefore(p: string, sepIndex: int, j: nat)
    requires sepIndex == LastIndex(p, '/')
    requires j <= |p| && '/' !in p[j..]
    ensures sepIndex < j
  {
    forall m | j <= m < |p|
      ensures p[m] != '/'
    {
      assert p[m] == p[j..][m - j];
    }
  }

  /** What follows the last dot, when it is after the last `/`, holds no other dot and no `/`. */
  lemma ExtensionShape(p: string, sepIndex: int, dotIndex: int)
    requires sepIndex == LastIndex(p, '/') && dotIndex == LastIndex(p, '.')
    requires dotIndex > sepIndex
    ensures p[dotIndex..] != [] && p[dotIndex..][0] == '.'
    ensures '.' !in p[dotIndex..][1..] && '/' !in p[dotIndex..]
  {
    var ext := p[dotIndex..];
    assert forall m :: 0 <= m < |ext| ==> ext[m] == p[dotIndex + m];
    assert ext[1..] == p[dotIndex + 1..];
  }

  /** `os.path.splitext` on POSIX: (root, ext). */
  function SplitExt(p: string): (parts: (string, string))
    ensures parts.0 + parts.1 == p
    ensures parts.1 == [] || (parts.1[0] == '.' && '.' !in parts.1[1..] && '/' !in parts.1)
    ensures parts.1 != [] <==> HasExtension(p)
  {
    var sepIndex := LastIndex(p, '/');
    var dotIndex := LastIndex(p, '.');
    ExtensionAtLastDot(p, sepIndex, dotIndex);
    if dotIndex > sepIndex && !AllDots(p[sepIndex + 1..dotIndex]) then
      ExtensionShape(p, sepIndex, dotIndex);
      (p[..dotIndex], p[dotIndex..])
    else
      (p, [])
  }

  /** The outcome for one file: paths before and after, and what is done to it. */
  datatype Outcome = Outcome(
    oldPath: string,
    newPath: string,
    renamed: bool,
    extension: string,
    contentRewritten: bool,
    content: string)

  /**
   * One iteration of the walk for `filename` in directory `root` with file
   * text `content`: sanitise the name, rename when the joined paths differ,
   * take the extension of the new name and rewrite the content only when
   * that extension is listed.
   */
  function Decide(root: string, filename: string, content: string, word: Option<string>): (o: Outcome)
    ensures o.oldPath == Join(root, filename)
    ensures o.newPath == Join(root, SanitizeFilename(filename, word))
    ensures o.renamed <==> o.oldPath != o.newPath
    ensures o.extension == SplitExt(SanitizeFilename(filename, word)).1
    ensures o.extension == [] || o.extension[0] == '.'
    ensures !o.contentRewritten && o.content == content
  {
    var newName := SanitizeFilename(filename, word);
    var oldPath := Join(root, filename);
    var newPath := Join(root, newName);
    var extension := SplitExt(newName).1;
    var rewrite := extension in TextFileExtensions;
    ExtensionNeverListed(extension);
    Outcome(oldPath, newPath, oldPath != newPath, extension, rewrite,
            if rewrite then SanitizeFileContent(content) else content)
  }

  /** No listed extension starts with a dot, so no result of `SplitExt` is listed. */
  lemma ExtensionNeverListed(extension: string)
    requires extension == [] || extension[0] == '.'
    ensures extension !in TextFileExtensions
  {
    forall e | e in TextFileExtensions
      ensures e != [] && e[0] != '.'
    {
    }
  }

  /** Joining onto the same directory tells relative names apart. */
  lemma JoinInjective(root: string, a: string, b: string)
    requires a == [] || a[0] != '/'
    requires b == [] || b[0] != '/'
    ensures Join(root, a) == Join(root, b) <==> a == b
  {
    var prefix := Join(root, []);
    JoinRelative(root, a);
    JoinRelative(root, b);
    if prefix + a == prefix + b {
      assert a == (prefix + a)[|prefix|..];
      assert b == (prefix + b)[|prefix|..];
    }
  }

  /** A rename is issued exactly when sanitising changed the name. */
  lemma RenameIffNameChanged(root: string, filename: string, content: string, word: Option<string>)
    requires IsLeafName(filename)
    ensures Decide(root, filename, content, word).renamed <==> SanitizeFilename(filename, word) != filename
  {
    var newName := SanitizeFilename(filename, word);
    assert filename[0] in filename;
    JoinInjective(root, filename, newName);
  }

  /** A relative name is placed directly under `root`. */
  lemma JoinRelative(root: string, name: string)
    requires name == [] || name[0] != '/'
    ensures Join(root, name) == Join(root, []) + name
  {
  }

  /**
   * As strings, the rename target is the directory prefix followed by the
   * sanitised name, which holds no `/`. This does not make it a file of that
   * directory: a name such as `..!` sanitises to `..`.
   */
  lemma StaysInDirectory(root: string, filename: string, content: string, word: Option<string>)
    ensures '/' !in SanitizeFilename(filename, word)
    ensures Decide(root, filename, content, word).newPath == Join(root, []) + SanitizeFilename(filename, word)
  {
    var name := SanitizeFilename(filename, word);
    assert name == [] || name[0] != '/' by {
      if name != [] {
        assert name[0] in name;
      }
    }
    JoinRelative(root, name);
  }

  /** A name with a dot after a stem that is not all dots splits at its last dot. */
  lemma SplitExtAtLastDot(stem: string, e: string)
    requires '/' !in stem && '/' !in e && '.' !in e
    requires !AllDots(stem)
    ensures SplitExt(stem + "." + e) == (stem, "." + e)
  {
    var p := stem + "." + e;
    assert p[..|stem|] == stem && p[|stem|..] == "." + e;
    var sepIndex := LastIndex(p, '/');
    assert sepIndex == -1;
    var dotIndex := LastIndex(p, '.');
    assert p[|stem|] == '.';
    assert dotIndex == |stem|;
    assert p[sepIndex + 1..dotIndex] == stem;
  }

  /** A name whose only dots lead it, such as `.bashrc`, has no extension. */
  lemma LeadingDotsAreNoExtension(dots: string, rest: string)
    requires AllDots(dots)
    requires '/' !in rest && '.' !in rest
    ensures SplitExt(dots + rest) == (dots + rest, [])
  {
  }

  /**
   * `A.TXT` in `/d`: renamed to `/d/a.txt`, whose extension `.txt` is not in
   * the list, so the text `Hi! #1` is left as it is.
   */
  lemma DecideExample(root: string, filename: string, content: string)
    requires root == "/d" && filename == "A.TXT" && content == "Hi! #1"
    ensures Decide(root, filename, content, None) ==
      Outcome("/d/A.TXT", "/d/a.txt", true, ".txt", false, "Hi! #1")
  {
    var name := SanitizeFilename(filename, None);
    NameOfKept(filename, "a.txt");
    TxtExtension(name);
    JoinUnderD(root, filename);
    JoinUnderD(root, name);
    DecideParts(root, filename, content, None, name, ".txt");
  }

  /** `Decide` assembled from the sanitised name and its extension. */
  lemma DecideParts(root: string, filename: string, content: string, word: Option<string>, name: string, extension: string)
    requires name == SanitizeFilename(filename, word)
    requires extension == SplitExt(name).1
    ensures Decide(root, filename, content, word) ==
      Outcome(Join(root, filename), Join(root, name), Join(root, filename) != Join(root, name), extension, false, content)
  {
  }

  lemma JoinUnderD(root: string, name: string)
    requires root == "/d"
    ensures name == "A.TXT" ==> Join(root, name) == "/d/A.TXT"
    ensures name == "a.txt" ==> Join(root, name) == "/d/a.txt"
  {
  }

  lemma TxtExtension(name: string)
    requires name == "a.txt"
    ensures SplitExt(name) == ("a", ".txt")
  {
    var stem, e := "a", "txt";
    assert stem[0] != '.';
    assert name == stem + "." + e;
    SplitExtAtLastDot(stem, e);
  }
}
