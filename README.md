# assemble_videos: natural order, list file and run policy

`assemble_videos.py` concatenates the video files of a directory into one
output file with ffmpeg. This project models the three parts of the script
whose behaviour can be stated exactly, and proves properties of them:

- **Natural-sort key** (`natural_key`). `re.split(r'(\d+)', s)` cuts a name
  into alternating text and digit runs. Digit runs become integers and text
  runs are lower-cased. Python compares the resulting lists element by
  element, and a proper prefix sorts first. Modules `NaturalKey` and
  `KeyOrder`.
- **Assembly order** (`sorted(..., key=natural_key)`). A stable sort of the
  glob results on that key. Module `StableSort` is the generic sort;
  `NaturalSort` instantiates it with `natural_key`.
- **List file** (`build_list_file`). One line `file '<path>'` per resolved
  path, in order. Module `Manifest` has the loop that writes the lines, a
  reader for the format, and the round trip between the two.
- **Run policy** (`main`). A missing `--input-dir` path exits with 2 and an empty
  match list exits with 3. Otherwise the stream copy runs first unless
  `--reencode` is set, and a failed copy falls back to the re-encode. Exit
  code 1 means the re-encode failed; 0 means success. Module `Assemble`.
- `Scenarios` derives concrete orderings from the general lemmas: the
  docstring's 51.9 < 51.29 < 52.09, clip_9 < clip_29 < clip_100,
  a_1.mp4 < a_2.mp4 < a_10.mp4, and the ties clip_9 = clip_09 and A_1 = a_1.

The filesystem and the subprocesses are inputs of `Assemble.Run`:

- whether the `--input-dir` path exists (`Path.exists()`, true for a regular file as well);
- the glob results;
- a function that gives a file's resolved POSIX path;
- the exit status of each ffmpeg command.

Digits and lower-casing are ASCII only.

`build_list_file` writes each path verbatim between single quotes, with no
escaping (assemble_videos.py:20). `Manifest.UnescapedPathsCollide` shows what
that means for the writer alone: a path that holds `'`, a newline and
`file '` writes the same list file as two separate paths, so no reader can
tell the two lists apart. `Manifest.RoundTripIffSafe` pairs the writer with a
reader of the line format. Its if-half is the round trip for paths without a
quote or a newline. Its only-if half is a property of that reader, which
accepts no quote inside a path.

## Model

| member | source | states |
|---|---|---|
| `NaturalKey.Lower` | assemble_videos.py:12 | `text.lower()` keeps the length and every character that is not an upper-case letter (digits included) in place, and leaves no upper-case ASCII letter |
| `NaturalKey.Value` | assemble_videos.py:12 | `int(text)` of a digit run is zero exactly when every digit is `0` |
| `NaturalKey.Split` | assemble_videos.py:12 | the first piece of `re.split(r'(\d+)', s)` is the longest digit-free prefix of `s`, followed by a digit or the end; there is a single piece exactly when `s` holds no digit |
| `NaturalKey.SegKey` | assemble_videos.py:12 | a piece becomes an int exactly when `text.isdigit()`; otherwise it stays text of the same length without upper-case letters |
| `NaturalKey.SegKeys` | assemble_videos.py:12 | the list comprehension gives one element per piece, an int exactly where the piece is a digit run |
| `NaturalKey.Key` | assemble_videos.py:10-12 | `natural_key(s)` is never empty and always starts with a str; it has one element exactly when `s` holds no digit |
| `NaturalKey.LeadingZero` | assemble_videos.py:12 | `int` ignores a leading zero: `int("0" + d) == int(d)` for every digit run `d` |
| `NaturalKey.TextRunLen` | assemble_videos.py:12 | the leading text run is the longest prefix of the name without a digit |
| `NaturalKey.DigitRunLen` | assemble_videos.py:12 | a digit run is the longest run of digits: it stops before the first non-digit, and it is non-empty when the string starts with a digit |
| `NaturalKey.SplitIsRegexSplit` | assemble_videos.py:12 | the pieces of `re.split(r'(\d+)', s)` have an odd count; even indices hold digit-free text, odd indices hold non-empty digit runs; text between two digit runs is never empty; the pieces join back to `s` |
| `NaturalKey.SplitJoins` | assemble_videos.py:12 | joining the pieces of the split gives back the name |
| `NaturalKey.SplitAlternates` | assemble_videos.py:12 | the pieces alternate, text first and text last: digit-free text at even indices, digit runs at odd indices |
| `NaturalKey.SplitInteriorTexts` | assemble_videos.py:12 | digit runs are maximal, so only the first and last text pieces can be empty |
| `NaturalKey.SplitFirstText` | assemble_videos.py:12 | the first piece is empty only when the name is empty or starts with a digit |
| `NaturalKey.SplitUnfold` | assemble_videos.py:12 | a name with a digit splits into its leading text run, the digit run after it, and the split of the rest; the three spell the name |
| `NaturalKey.KeyShape` | assemble_videos.py:12 | a key has odd length; even indices hold the lower-cased, digit-free text pieces; odd indices hold the integer values of the digit runs; so the key alternates |
| `NaturalKey.SplitRun` | assemble_videos.py:12 | splitting a text run, then a maximal digit run, then the rest gives those two pieces followed by the split of the rest |
| `NaturalKey.SplitText` | assemble_videos.py:12 | a name without digits splits into itself alone |
| `NaturalKey.SplitLeadingText` | assemble_videos.py:12 | the first piece of the split is the leading text run |
| `NaturalKey.KeyRun` | assemble_videos.py:12 | the key of a text run, then a digit run, then the rest is the lower-cased text, then the run's integer value, then the key of the rest |
| `NaturalKey.KeyText` | assemble_videos.py:12 | the key of a name without digits is its lower-cased self |
| `NaturalKey.KeyIgnoresCase` | assemble_videos.py:12 | lower-casing a name does not change its key |
| `KeyOrder.SameShapeComparable` | assemble_videos.py:12 | two keys that have text and numbers at the same indices compare without `TypeError` |
| `KeyOrder.KeysComparable` | assemble_videos.py:12 | comparing the keys of any two names never pits an int against a str, so it never raises `TypeError` |
| `KeyOrder.MixedKeysRaise` | assemble_videos.py:12 | a str against an int at the first difference does raise `TypeError`; only the alternation of keys prevents it |
| `KeyOrder.TextLt` | assemble_videos.py:42 | Python `<` on str: a proper prefix is smaller |
| `KeyOrder.SegLt` | assemble_videos.py:42 | `<` on two key elements raises `TypeError` exactly when an int meets a str |
| `KeyOrder.KeyLt` | assemble_videos.py:42 | Python `<` on lists: a proper prefix is smaller |
| `KeyOrder.TextLtIrreflexive` | assemble_videos.py:42 | no string is smaller than itself |
| `KeyOrder.TextLtTransitive` | assemble_videos.py:42 | string `<` is transitive |
| `KeyOrder.TextLtAsymmetric` | assemble_videos.py:42 | two strings are never each smaller than the other |
| `KeyOrder.TextLtTotal` | assemble_videos.py:42 | two strings, neither smaller than the other, are equal |
| `KeyOrder.KeyLtIrreflexive` | assemble_videos.py:42 | no key is smaller than itself |
| `KeyOrder.KeyLtAsymmetric` | assemble_videos.py:42 | two keys are never each smaller than the other |
| `KeyOrder.KeyLtTotal` | assemble_videos.py:42 | two keys that compare without error, neither smaller than the other, are equal |
| `KeyOrder.KeyLtTransitive` | assemble_videos.py:42 | key `<` is transitive, whatever the shapes of the keys |
| `KeyOrder.NaturalLessIsStrictOrder` | assemble_videos.py:42 | the natural order on names is irreflexive and transitive; any two names are ordered one way, the other way, or have equal keys |
| `KeyOrder.KeyLtCommonPrefix` | assemble_videos.py:42 | a common prefix does not change how two keys compare |
| `KeyOrder.NumbersCompareByValue` | assemble_videos.py:11-12 | after the same text, the name with the smaller embedded number sorts first, whatever the digit counts and whatever follows |
| `KeyOrder.SharedRunIsSkipped` | assemble_videos.py:12 | two names that agree up to the end of their first number compare exactly as the rest of them does |
| `KeyOrder.TextsCompareIgnoringCase` | assemble_videos.py:12 | names compare first by their lower-cased leading text |
| `KeyOrder.FirstTextOfKey` | assemble_videos.py:12 | a key starts with the lower-cased leading text of the name |
| `StableSort.Insert` | assemble_videos.py:42 | inserting adds exactly the one element: the result is a permutation of the list plus that element |
| `StableSort.Sort` | assemble_videos.py:42 | the sorted list is a permutation of the input |
| `StableSort.InsertOrdered` | assemble_videos.py:42 | inserting into a list that is non-decreasing by key keeps it non-decreasing |
| `StableSort.SortIsOrdered` | assemble_videos.py:42 | the result is non-decreasing by key |
| `StableSort.InsertKeepsEqualKeysInOrder` | assemble_videos.py:42 | among the elements with any one key, an inserted element comes first and the others keep their order |
| `StableSort.InsertPastSmaller` | assemble_videos.py:42 | passing an element with a smaller key leaves the other elements with each key in the same order |
| `StableSort.SortIsStable` | assemble_videos.py:42 | for every key, the elements with that key appear in the result in input order |
| `StableSort.WithKeyMember` | assemble_videos.py:42 | an element picked by key is in the list and has that key |
| `StableSort.OrderedAndStableIsUnique` | assemble_videos.py:42 | two lists that are both non-decreasing by key, and agree on the order within each key, are equal |
| `StableSort.SortIsTheStableOrdering` | assemble_videos.py:42 | a list that is non-decreasing by key and keeps the input order within each key is the sort's result |
| `NaturalSort.KeyLess` | assemble_videos.py:42 | the comparison the sort uses: when one key is smaller, the reverse comparison is false, not an error |
| `NaturalSort.SortFiles` | assemble_videos.py:42 | the assembly order is a permutation of the glob results |
| `NaturalSort.NaturalOrderIsTotal` | assemble_videos.py:42 | `<` on natural keys is a strict total order on the keys of names |
| `NaturalSort.SortFilesIsOrdered` | assemble_videos.py:42 | no file in the assembly order comes after a file with a larger natural key |
| `NaturalSort.SortFilesIsStable` | assemble_videos.py:42 | files with equal natural keys keep their enumeration order |
| `NaturalSort.SortFilesIsTheStableOrder` | assemble_videos.py:42 | being ordered and stable determines the assembly order completely |
| `Manifest.Line` | assemble_videos.py:20 | the line for a path is `file '`, then the path verbatim with nothing escaped, then `'` and a newline |
| `Manifest.ManifestText` | assemble_videos.py:18-20 | the list file holds the characters of the paths plus eight characters of framing per path, nothing more |
| `Manifest.BuildListFile` | assemble_videos.py:14-23 | the loop that writes one line per path leaves exactly the list-file text of the paths |
| `Manifest.ManifestAppend` | assemble_videos.py:18-20 | the list file of two path lists in a row is their two list files in a row |
| `Manifest.ManifestLineAt` | assemble_videos.py:18-20 | the list file has one line per path, in order; line `i` is `file '` + path `i` + `'` and a newline |
| `Manifest.FindNewline` | assemble_videos.py:20 | (reader) finds the first newline, or reports that there is none |
| `Manifest.FindNewlineAt` | assemble_videos.py:20 | (reader) a newline with none before it is the first one |
| `Manifest.ParseLine` | assemble_videos.py:20 | (reader) a line it accepts is the line the builder writes for the path it returns, and that path holds no quote |
| `Manifest.ParseFirstLine` | assemble_videos.py:20 | (reader) the first line of the text reads back to the first path, when that path holds no quote or newline |
| `Manifest.ParseManifestText` | assemble_videos.py:18-20 | reading back the list file of paths without quotes or newlines gives those paths, in order |
| `Manifest.ParsedPathsAreSafe` | assemble_videos.py:20 | (reader) every path read back holds no quote and no newline |
| `Manifest.RoundTripIffSafe` | assemble_videos.py:20 | with this reader, the list file reads back to its paths exactly when no path holds a quote or a newline; the only-if half is a property of the reader |
| `Manifest.UnescapedPathsCollide` | assemble_videos.py:18-20 | because nothing is escaped, the one path `a'` newline `file 'b` and the two paths `a`, `b` write the same list file |
| `Manifest.OnePathWritesTwoLines` | assemble_videos.py:18-20 | the path `/v/a'` newline `file '/v/b` writes the list file of `/v/a` and `/v/b` |
| `Assemble.Resolved` | assemble_videos.py:19 | each sorted file is replaced by its resolved POSIX path, in order |
| `Assemble.Run` | assemble_videos.py:38-77 | missing `--input-dir` path: exit 2, nothing else happens. No files: exit 3, no list file, no command. Otherwise the list file holds the naturally sorted resolved paths. `--reencode` runs only the re-encode. Without it the copy runs first; status 0 ends the run with 0, anything else runs the re-encode. After a re-encode the exit code is 1 if it failed and 0 otherwise. Exit 0 means the last command run succeeded |
| `Scenarios.DocstringOrder` | assemble_videos.py:11 | the docstring's example holds: 51.9 < 51.29 < 52.09 |
| `Scenarios.FractionsCompareByValue` | assemble_videos.py:11 | 51.9 < 51.29: after the same whole part, 9 < 29 |
| `Scenarios.WholePartsCompareByValue` | assemble_videos.py:11 | 51.29 < 52.09: the whole parts decide |
| `Scenarios.ClipNamesCompareByValue` | assemble_videos.py:12 | clip_9 < clip_29 < clip_100, whatever extension follows the number |
| `Scenarios.ClipOrder` | assemble_videos.py:12 | clip_9 < clip_29 < clip_100 |
| `Scenarios.ClipFileOrder` | assemble_videos.py:12 | clip_9.mp4 < clip_29.mp4 < clip_100.mp4 |
| `Scenarios.NumbersTie` | assemble_videos.py:12 | two names that differ only in how their first number is written have equal keys, whatever follows that number |
| `Scenarios.PaddedNamesTie` | assemble_videos.py:12 | clip_9 and clip_09, given as parameters, have equal keys |
| `Scenarios.LeadingZerosTie` | assemble_videos.py:12 | clip_9 and clip_09 have equal keys |
| `Scenarios.LetterCaseTies` | assemble_videos.py:12 | A_1 and a_1 have equal keys |
| `Scenarios.AssemblyNamesCompareByValue` | assemble_videos.py:12 | a_1.mp4 < a_2.mp4 < a_10.mp4 |
| `Scenarios.SortThree` | assemble_videos.py:42 | three elements enumerated as x, z, y, where y is below z and not below x, sort to x, y, z |
| `Scenarios.AssemblyOrder` | assemble_videos.py:42 | glob results a_1.mp4, a_10.mp4, a_2.mp4 are assembled as a_1.mp4, a_2.mp4, a_10.mp4 |

## Left out

- Argument parsing (assemble_videos.py:31-36) is standard-library plumbing. Only `--reencode` is a parameter of `Assemble.Run`. `--input-dir` and `--pattern` reach it only through `dirExists` and `globbed`. `--output` appears only on the ffmpeg command lines and in the two success messages (assemble_videos.py:61, 77), and neither is modelled.
- Filesystem access is an input of `Assemble.Run`, not modelled. This covers `Path.exists`, `Path.glob`, `Path.resolve().as_posix()` and the temporary file: its creation, its UTF-8 encoding, its name, and that it is never deleted. `Manifest.BuildListFile` returns the text written to the file rather than the file's name.
- `subprocess.run(..., shell=True)` and every `print` are left out: they are process execution and console output. Each command's exit status is an input. `main` prints `Path(f).name`, the last path component of each entry of the `order` result (assemble_videos.py:47-49); neither the printing nor taking the last component is modelled.
- `shlex.quote` and the ffmpeg flag strings (assemble_videos.py:55-58, 67-71) are external command-line contracts. The two commands are the abstract `Copy` and `Reencode`.
- Unicode is outside the model. `\d`, `str.isdigit` and `str.lower` are modelled on ASCII digits and letters only; non-ASCII digits and full case folding are not captured.
- StableSort.Sort: Python's `sorted` is Timsort; the model is an insertion sort. `StableSort.SortIsTheStableOrdering` proves that any stable sort on this key gives the same list, so the results agree; comparison counts and cost are not modelled.
- NaturalSort.KeyLess: reads a `TypeError` as "not smaller" instead of an exception. `KeyOrder.KeysComparable` proves that natural keys never raise.
- Manifest.ParseManifest: a reference reader for the line format the builder writes. It is not ffmpeg's parser; ffmpeg's own quoting and escaping rules are not modelled.
