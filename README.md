# Style injector, modelled in Dafny

`scripts/add_custom_styles.py` walks the HTML files of the Swift book's
documentation and, in every file whose text contains the literal `<body`,
puts a `<head>` element holding a fixed `<style>` block (a RIDIBatang web
font, a root font variable and a body font / line-height override) in
front of that tag. The substitution is Python's `str.replace` without a
count, so every occurrence of `<body` gets a block, not only the first.
Files without the anchor are neither changed nor written.

The model has two modules:

- `Text` (`Text.dfy`): literal substring matching with Python's semantics.
  `Contains` is `needle in s`; `ReplaceAll` is `s.replace(needle, repl)`
  (leftmost, non-overlapping, every occurrence; the empty-needle case is
  written out as Python has it). `Count`, `Split` and `Join` are reference
  definitions in the manner of `str.count`, `str.split` and `str.join`;
  `ReplaceAll` is proved to be "split at the needle, join with the
  replacement". For a needle that cannot overlap itself, joining pieces
  that do not contain the needle and splitting again gives back those
  pieces (`SplitOfJoin`).
- `StyleInjector` (`StyleInjector.dfy`): the anchor `<body`, the block
  `<head>` + payload + `</head>`, the script's CSS payload written out
  character for character, the per-file rewrite `Inject`, and the loop over
  the files as a method `RewriteFiles` over an `array<string>` (entry `i` is
  the contents of the `i`-th file the glob returned) that overwrites in
  place exactly the entries that contain the anchor.

Most lemmas are stated for any payload without `<body`. The lemma
`CustomStylesFreeOfAnchor` proves that the script's own payload meets this
condition. The CSS contains `body {` but no `<body`.

The script has one anchor, `<body`, and that is the one modelled. It inserts
a block in front of every occurrence of the anchor, not only the first.

## Model

| member | source | states |
|---|---|---|
| `StyleInjector.AnchorFacts` | scripts/add_custom_styles.py:35 | the anchor `<body` starts with its only `<`, holds no `>`, and cannot overlap itself, so its occurrences are disjoint |
| `StyleInjector.BlockFreeOfAnchor` | scripts/add_custom_styles.py:36 | for an anchor-free payload, `<head>` + payload + `</head>` contains no `<body`, opens with `<` and closes with `>` |
| `StyleInjector.CustomStylesFreeOfAnchor` | scripts/add_custom_styles.py:9-27 | the script's `custom_styles` literal contains no `<body` |
| `StyleInjector.InjectIsReplaceAll` | scripts/add_custom_styles.py:35-37 | the `in` guard only decides whether the file is written: the new contents equal `replace('<body', new_head + '<body')` in every case |
| `StyleInjector.InjectAtEveryAnchor` | scripts/add_custom_styles.py:36-37 | cutting the input at its k anchors gives k + 1 anchor-free pieces; the input is those pieces joined by `<body`, the output is the same pieces in the same order joined by block + `<body`, so every anchor gets exactly one block in front of it |
| `StyleInjector.InjectLength` | scripts/add_custom_styles.py:36-37 | output length = input length + k times the block length, k the number of non-overlapping `<body` occurrences |
| `StyleInjector.InjectChangesIffAnchor` | scripts/add_custom_styles.py:35-40 | a file's contents change if and only if they contain `<body`; without it they are returned unchanged |
| `StyleInjector.InjectSplit` | scripts/add_custom_styles.py:36-37 | cut at its anchors, the output is the input's pieces with the block appended to every piece but the last |
| `StyleInjector.InjectKeepsAnchorCount` | scripts/add_custom_styles.py:9-37 | the output has exactly as many `<body` occurrences as the input, so a rewritten file still contains the anchor |
| `StyleInjector.RemoveBlocksRestores` | scripts/add_custom_styles.py:37 | replacing every block + `<body` in the output by `<body` gives back the original contents exactly |
| `StyleInjector.InjectTwice` | scripts/add_custom_styles.py:35-37 | a second run yields the input with two consecutive blocks in front of every anchor |
| `StyleInjector.InjectNotIdempotent` | scripts/add_custom_styles.py:35-37 | for contents containing `<body`, a second run changes them again |
| `StyleInjector.RewriteFiles` | scripts/add_custom_styles.py:30-40 | after the loop, every entry equals `Inject` of its own old contents; the set of written entries is exactly those whose old contents contain `<body`; every other entry is unchanged |
| `StyleInjector.InjectCustomStyles` | scripts/add_custom_styles.py:4-40 | the whole run with the script's own payload: each file is `Inject(old contents, custom_styles)`, written exactly when it contains `<body` |
| `Text.ReplaceAllIsJoinOfSplit` | scripts/add_custom_styles.py:37 | `str.replace` without a count equals splitting at every non-overlapping occurrence and joining with the replacement |
| `Text.ReplaceAllLength` | scripts/add_custom_styles.py:37 | `str.replace` changes the length by the length of the replacement minus the length of the needle, once per occurrence |
| `Text.ReplaceAllWithoutNeedle` | scripts/add_custom_styles.py:37 | `str.replace` leaves a string without the needle unchanged |
| `Text.Count` | scripts/add_custom_styles.py:35 | the number of non-overlapping occurrences is positive exactly when `needle in s` holds |

## Left out

- File discovery by `glob` (line 6) is not modelled. The files are given as an array in the order the glob returned them, and each entry stands for a distinct file. The order of the glob is unspecified, and the result of each entry does not depend on it.
- Each entry is a file's text after Python's universal-newline translation on reading (line 31 opens the file with the default `newline=None`, so `\r\n` and a lone `\r` become `\n`). The write at lines 39-40 turns each `\n` back into the platform's line separator. A written CRLF file therefore comes back with the platform's line endings, and the model does not capture this. A file without `<body` is never written and keeps its bytes.
- Entries are independent, distinct files. With `recursive=True` the glob follows symbolic links to directories, so two paths can name the same file. The script then reads that file again after its first write and injects a second time, leaving `Inject(Inject(c))` (see `InjectTwice`). The array model, whose entries do not alias, gives `Inject(c)` for each.
- Reading and writing files as UTF-8 (lines 31-32, 39-40) is not modelled; contents are Dafny strings of Unicode characters. A decoding, permission or disk error aborts the Python run part-way. The model has no failure path, and every entry is processed.
- `RewriteFiles`: the "write" is the array update. The model does not capture that an unwritten file keeps its bytes on disk and its modification time.
- The meaning of the CSS is not modelled. The payload is used only as a string, and the one fact proved about it is that it contains no `<body`.
- The `__main__` entry point (lines 42-43) only calls the function.
- No HTML structure is modelled: matching is purely literal, as in the script.
- `Text.ReplaceAll` handles the empty needle as Python does. `Count`, `Split` and the lemmas cover only non-empty needles, since the script's needle is `<body`.
