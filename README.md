# rename.py sanitisers, modelled in Dafny

`rename.py` walks the current directory and does three things for every file it finds:

- it renames the file to a "sanitised" name;
- it optionally deletes a chosen word from that name;
- for text files, it is meant to rewrite the content in a sanitised form.

This project models the string logic of that script and the per-file decision. It then proves what they guarantee.

- **`CharClass`** (`chars.dfy`) holds the character classes behind the regular expression `[^\w\s.-]`:
  - `\w` is an ASCII letter, digit or `_`.
  - `\s` is the ASCII whitespace Python recognises: 9-13, 28-31 and the space.
  - `Lower` is `str.lower` on one ASCII character: it maps `A`-`Z` to `a`-`z` and leaves every other character as it is.
- **`WordRemoval`** (`word_removal.dfy`) models `re.sub(r'\b' + re.escape(word) + r'\b', '', s)`.
  - It is a left-to-right scan, `RemoveFrom`. A boundary-delimited literal occurrence is deleted and the scan resumes after it; otherwise one character is copied. `\b` is judged on the string being scanned.
  - It also has an independent description. A *valid plan* lists positions that are spaced, are each a match, and leave no unlisted match uncovered. `ExciseFrom` cuts the listed occurrences out.
  - The scan's plan is valid. It is the only valid plan, and the scan's output is exactly that excision.
- **`Sanitize`** (`sanitize.dfy`) models the two sanitisers.
  - `sanitize_filename`:
    - delete everything outside `[\w\s.-]`;
    - lower-case;
    - map `-` and then `_` to a space;
    - if the word is truthy (present and non-empty), remove it.
  - `sanitize_file_content` does the same deletion and lower-casing, and nothing else.
- **`FileStep`** (`file_step.dfy`) models one iteration of the walk, `Decide`.
  - It joins the old and new names onto the directory with POSIX `os.path.join`.
  - A rename is issued exactly when the two paths differ.
  - It takes the extension of the new name with POSIX `os.path.splitext`.
  - It tests that extension against the tuple `textfileextensions`.
- **`Subsequence`** (`subsequence.dfy`) and **`Wrappers`** (`wrappers.dfy`) are support modules: "is a subsequence of", and `Option` for the optional word.

The model follows the code where the code and its stated intent differ.

- The intent is that the content of text files is rewritten.
- The tuple at rename.py:5 lists extensions without a leading dot (`'txt'`), but `os.path.splitext` returns `""` or a string starting with `.` (`'.txt'`). So the membership test at rename.py:43 never succeeds.
- `Decide` keeps that test as written, and proves that the content is never rewritten and is returned unchanged.
- `sanitize_file_content` is still modelled and proved about on its own, since it is the function that branch would call.

## Model

| member | source | states |
|---|---|---|
| CharClass.IsWordChar | rename.py:10 | the definition of `\w`: an ASCII letter, digit or `_` |
| CharClass.IsSpace | rename.py:10 | the definition of `\s`: characters 9-13, 28-31 and the space |
| CharClass.IsKept | rename.py:10 | the definition of the class `[\w\s.-]`, whose complement line 10 deletes |
| CharClass.Lower | rename.py:10 | the result is never an upper-case ASCII letter; upper-case letters move by the fixed `'a'-'A'` offset; every other character is unchanged; membership in `\w` and in the kept class is preserved |
| Sanitize.StripSpecial | rename.py:10 | deleting everything outside `[\w\s.-]` never lengthens the text and leaves only kept characters |
| Sanitize.StripSpecialCounts | rename.py:10 | each kept character occurs as often after the deletion as before; every other character no longer occurs |
| Sanitize.StripSpecialAppend | rename.py:10 | the deletion works character by character: it distributes over concatenation |
| Sanitize.StripSpecialSkips | rename.py:10 | a character outside the class is dropped and kept characters before it stay in place |
| Sanitize.StripSpecialFixes | rename.py:10 | text made only of kept characters is left unchanged by the deletion |
| Sanitize.LowerAll | rename.py:10 | the definition of `.lower()` on a string: `Lower` applied to each character |
| Sanitize.LowerAllChars | rename.py:10 | lower-casing keeps the length, leaves no upper-case letter, changes no character that is not upper-case, and keeps membership in the kept class |
| Sanitize.ReplaceAll | rename.py:10 | the definition of `.replace` of one character by another |
| Sanitize.ReplaceAllChars | rename.py:10 | replacing keeps the length, leaves no occurrence of the replaced character, turns each of its occurrences into the replacement and changes nothing else |
| Sanitize.NameBase | rename.py:10 | the definition of the whole chain on line 10: delete, lower-case, then map `-` and then `_` to a space |
| Sanitize.NameBaseChars | rename.py:10 | before word removal, the name is the deleted-and-filtered text mapped character by character (lower-case, `-`/`_` to space), so it has no `-`, `_` or upper-case letter |
| Sanitize.NameBaseIsSubseq | rename.py:10 | before word removal, the name is a subsequence of the whole input mapped the same way |
| Sanitize.NameBaseKeepsCount | rename.py:10 | a kept character that is not a letter, `-`, `_` or space (a digit, `.`, other whitespace) occurs as often in the name before word removal as in the input |
| Sanitize.NameBaseFixes | rename.py:10 | a name made only of name characters is unchanged by the character rules |
| Sanitize.NameOfKept | rename.py:10 | a name made only of kept characters is mapped character by character, with nothing deleted |
| Sanitize.SanitizeFilename | rename.py:8-16 | the result is no longer than the input and is made only of word characters other than `_`, whitespace and `.`, with no upper-case letter; it holds neither `/` nor `\` |
| Sanitize.FilenameIsSubseqOfMapped | rename.py:8-16 | with or without a word, the result is a subsequence of the input lower-cased and `-`/`_`-mapped: the order is kept and characters are only deleted |
| Sanitize.FilenameOnlyDeletes | rename.py:8-16 | the result's characters, counted with multiplicity, are among the mapped input's |
| Sanitize.FilenameKeepsCount | rename.py:10 | without a word, every `.`, digit and non-space whitespace of the input survives, as many times as it occurs |
| Sanitize.SanitizeFilenameIdempotent | rename.py:8-16 | without a word, sanitising a sanitised name changes nothing |
| Sanitize.NoRemovalWithoutUsableWord | rename.py:13-14 | a missing word, an empty word, or a word holding an upper-case letter gives exactly the no-removal result |
| Sanitize.FilenameRemovesExactlyMatches | rename.py:13-14 | with a word, the result is the character-rule name with the occurrences of its valid plan cut out, so it is shorter by exactly the number of occurrences times the word's length |
| Sanitize.FilenameExample | rename.py:8-16 | `My-File_Name.TXT` becomes `my file name.txt` |
| Sanitize.FilenameWordExample | rename.py:8-16 | `Report_Draft.md` with word `draft` becomes `report .md`: the gap and the extension are kept |
| Sanitize.RemoveDraftExample | rename.py:14 | removing `draft` from `report draft.md` leaves `report .md` |
| Sanitize.DraftOccursOnce | rename.py:14 | `draft` occurs in `report draft.md` between word boundaries only at position 7 |
| Sanitize.RemoveKeepsNameChars | rename.py:14 | word removal applied to name characters leaves only name characters |
| Sanitize.SanitizeFileContent | rename.py:19-21 | the content result is no longer than the input and made only of kept characters without upper-case letters; `-` and `_` are allowed |
| Sanitize.LowerAllCount | rename.py:21 | lower-casing keeps the count of every character that is not a letter |
| Sanitize.LowerAllLetterCount | rename.py:21 | lower-casing turns each upper-case letter into its lower-case partner: the partner then occurs as often as both did, and the upper-case letter not at all |
| Sanitize.ContentLetterCount | rename.py:19-21 | every letter of the content survives, lower-cased: an upper-case letter and its lower-case partner together occur in the input as often as the lower-case letter occurs in the result, and the upper-case letter is gone |
| Sanitize.ContentIsSubseqOfLower | rename.py:19-21 | the content result is a subsequence of the lower-cased input: the order is kept and characters are only deleted |
| Sanitize.ContentKeepsCount | rename.py:19-21 | every kept character that is not a letter (`-`, `_`, digits, whitespace, `.`) occurs in the result exactly as often as in the input |
| Sanitize.ContentFixes | rename.py:19-21 | content made only of kept, non-upper-case characters is unchanged |
| Sanitize.SanitizeFileContentIdempotent | rename.py:19-21 | sanitising sanitised content changes nothing |
| Sanitize.ContentExample | rename.py:19-21 | `A-b_C, 5%.` becomes `a-b_c 5.`: `-` and `_` survive, `,` and `%` are deleted, letters are lower-cased |
| Sanitize.ContentStripExample | rename.py:21 | deleting the special characters of `A-b_C, 5%.` gives `A-b_C 5.` |
| Sanitize.ContentLowerExample | rename.py:21 | lower-casing `A-b_C 5.` gives `a-b_c 5.` |
| Sanitize.HelloExample | rename.py:19-21 | `Hello, World! 100% done.`, given as its four words, becomes `hello world 100 done.` |
| Sanitize.HelloStripExample | rename.py:21 | deleting the special characters of `Hello, World! 100% done.` gives `Hello World 100 done.` |
| Sanitize.HelloLowerExample | rename.py:21 | lower-casing `Hello World 100 done.` gives `hello world 100 done.` |
| Sanitize.StripSpecialAppend4 | rename.py:21 | the deletion of four concatenated parts is the concatenation of their deletions |
| Sanitize.PunctuatedWordExample | rename.py:21 | a word of kept characters followed by one character outside the class keeps just the word |
| WordRemoval.IsBoundary | rename.py:14 | the definition of `\b`: exactly one of the two neighbouring characters is a word character, a position outside the text counting as non-word |
| WordRemoval.MatchAt | rename.py:14 | the definition of a match of `\b<word>\b` at a position: the word occurs there literally, with a boundary on both sides |
| WordRemoval.PlanFrom | rename.py:14 | the positions the scan deletes: a match at the scan position is taken and the scan jumps past it, otherwise it moves on by one |
| WordRemoval.ValidPlanFrom | rename.py:14 | the independent description of what the substitution deletes from position `i` on: spaced positions, each a match, and every unlisted match overlapping a listed one |
| WordRemoval.ValidPlan | rename.py:14 | a valid plan for the whole text, from position 0 |
| WordRemoval.ExciseFrom | rename.py:14 | the text with the occurrences listed in a plan cut out and everything else kept in order |
| WordRemoval.RemoveFrom | rename.py:14 | the scan from position `i` produces at most the characters from `i` on |
| WordRemoval.RemoveWord | rename.py:14 | word removal never lengthens the text |
| WordRemoval.SpacedBounds | rename.py:14 | the positions of a spaced plan are in range, in increasing order and non-overlapping |
| WordRemoval.ExciseLength | rename.py:14 | cutting out the planned occurrences shortens the text by the number of occurrences times the word's length |
| WordRemoval.ValidPlanHead | rename.py:14 | when a match starts at the scan position, every valid plan must take it: matching is leftmost |
| WordRemoval.ValidPlanSkip | rename.py:14 | a position where no match starts changes nothing about which plans are valid |
| WordRemoval.ValidPlanTake | rename.py:14 | taking a match, followed by a valid plan after it, is a valid plan |
| WordRemoval.ValidPlanAtEnd | rename.py:14 | at the end of the text, the empty plan is the only valid plan |
| WordRemoval.PlanFromValid | rename.py:14 | the positions the scan deletes form a valid plan |
| WordRemoval.PlanFromUnique | rename.py:14 | every valid plan equals the scan's plan |
| WordRemoval.RemoveFromIsExcise | rename.py:14 | the scan's output is the text with its plan's occurrences cut out |
| WordRemoval.RemoveWordDeletesExactlyMatches | rename.py:14 | a valid plan exists, it is unique, and word removal deletes exactly its occurrences and keeps everything else in order |
| WordRemoval.RemoveFromIsSubseq | rename.py:14 | word removal's output is a subsequence of its input |
| WordRemoval.RemoveWordOnlyDeletes | rename.py:14 | word removal's output characters, with multiplicity, are among its input's |
| WordRemoval.RemoveSingleMatch | rename.py:14 | with exactly one match, removal splices that occurrence out |
| WordRemoval.NoMatchKeepsText | rename.py:14 | without any match, removal returns the text unchanged |
| WordRemoval.UpperCaseWordRemovesNothing | rename.py:14 | a word with an upper-case letter never matches lower-cased text, so removal changes nothing |
| FileStep.TextFileExtensions | rename.py:5 | the seven allow-listed extensions, written without a leading dot |
| FileStep.IsLeafName | rename.py:29 | a name `os.walk` lists for a file: non-empty and without `/` |
| FileStep.Join | rename.py:30 | the joined path ends with the name; an absolute name replaces the directory |
| FileStep.JoinRelative | rename.py:33 | a relative name is appended to the directory prefix |
| FileStep.JoinInjective | rename.py:36 | joining relative names onto the same directory gives equal paths exactly when the names are equal |
| FileStep.StaysInDirectory | rename.py:33 | as strings: the sanitised name has no `/`, so the new path is the directory prefix followed by the new name |
| FileStep.LastIndex | rename.py:40 | the index of the last occurrence of a character, or -1 when there is none |
| FileStep.HasExtension | rename.py:40 | the reference definition of "has an extension": the last component holds a dot with a character other than a dot somewhere before it |
| FileStep.ExtensionAtLastDot | rename.py:40 | a path has an extension exactly when its last dot follows its last `/` and is preceded, in the last component, by a character other than a dot |
| FileStep.ExtensionShape | rename.py:40 | what follows that last dot starts with the dot and holds no other dot and no `/` |
| FileStep.SplitExt | rename.py:40 | the stem and extension concatenate to the path; the extension is empty or a dot followed by no dot or `/`; it is non-empty exactly when the path has an extension |
| FileStep.SplitExtAtLastDot | rename.py:40 | a name `stem.e`, where `stem` is not all dots, splits into `stem` and `.e` |
| FileStep.LeadingDotsAreNoExtension | rename.py:40 | a name whose only dots lead it, such as `.bashrc`, has no extension |
| FileStep.Decide | rename.py:30-43 | the old and new paths are the joins of the old and sanitised names; a rename is issued exactly when they differ; the extension is that of the new name, so it is empty or starts with `.`; the content is never rewritten and is returned unchanged |
| FileStep.ExtensionNeverListed | rename.py:43 | no string that is empty or starts with `.` is in the tuple of rename.py:5, so the content branch is dead |
| FileStep.RenameIffNameChanged | rename.py:33-37 | for a name as the walk lists it, a rename is issued exactly when sanitising changed the name |
| FileStep.DecideParts | rename.py:30-43 | the outcome is fixed by the two joined paths and by the extension `SplitExt` gives for the sanitised name |
| FileStep.DecideExample | rename.py:30-43 | `A.TXT` in `/d` is renamed to `/d/a.txt`; its extension `.txt` is not listed, so `Hi! #1` stays as it is |

## Left out

- The walk itself (`os.getcwd`, `os.walk` over subdirectories, visiting order) is not modelled, because it is file-system I/O. `Decide` models one iteration, with the directory, name, content and word as parameters.
- `os.rename` and opening, reading and writing files are not modelled, because they are file-system I/O. In particular, the model does not capture what the platform does when a rename fails or overwrites, or when two names sanitise to the same target, to an empty name, or to `.` or `..` (for instance `..!` becomes `..`, whose join names the directory or its parent rather than a file in it).
- The utf-8 then latin1 decoding fallback and its error message are not modelled. Decoding is a library concern, and it lies inside the branch that never runs.
- The command line (`argparse`) and the final message are not modelled, because they are interface plumbing.
- Unicode is not modelled. `\w`, `\s`, `\b` and `str.lower` are modelled on ASCII, and every non-ASCII character is treated as outside `[\w\s.-]` and deleted. Python keeps every non-ASCII character that its Unicode `\w` or `\s` accepts (letters, digits, other word characters such as `²`, and whitespace such as U+00A0 or U+3000). It lower-cases them by Unicode rules, some of which change length.
- Windows path rules (`ntpath`: `\` separators, drive letters) are not modelled. `Join` and `SplitExt` follow the POSIX versions.
- Word removal does not state how many times each character survives when a word is given. `FilenameKeepsCount` is stated without a word only; with a word, `FilenameRemovesExactlyMatches` gives the exact result instead.
