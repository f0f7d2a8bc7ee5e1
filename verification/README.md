# bg-remover: a verified model of the file filter and run accounting

`bg_remover.py` is a batch script that walks the immediate children of an
input directory, keeps the regular files that pass a safety filter, has an
external library cut the background out of each image, writes the result as
`<stem>.png` into an output directory, and reports how many files were
processed and how many failed. Almost all of it is I/O. This project models
the decision logic that is left once the filesystem and the image libraries
are replaced by inputs:

- `Names` — the final-component `suffix` and `stem` (Python `pathlib`
  rules), ASCII lower-casing, and the output-name rule `stem + ".png"`.
- `SafetyFilter` — `is_safe_file` as a pure verdict over a `FileInfo`
  record holding what the filesystem reported: symlink flag, strictly
  resolved file path and input root (each `None` when resolution failed),
  size in bytes, and the final name.
- `BatchRun` — the loop of `process_images` as a fold over the directory
  entries, with the per-file result of open / remove / save supplied as an
  `Outcome` (`Success | Unidentified | OtherError`) stored in each entry.
- `Wrappers` — the `Option` type.

Assumed definition (the `pathlib` source is not part of this model): for a
final component `name`, let `i` be the index of its last `.`; when
`0 < i < |name| - 1` the suffix is `name[i..]` and the stem `name[..i]`,
otherwise the suffix is empty and the stem is the whole name. This is the
rule of CPython up to 3.13.

The containment check is modelled as written: a plain string-prefix test on
the resolved paths. `PrefixCheckWeakerThanDescendant` shows that root `/in`
admits `/in2/x.png`. In the script the candidates come from listing the
root, so as long as an entry does not change between the symlink test
(line 33) and its resolution (line 39), its resolved path is the resolved
root, a `/` and the name, and the prefix test cannot be fooled that way. An
entry replaced by a symlink into a sibling directory inside that window is
resolved through the link, and the prefix test is then the only defence
left; the model does not cover such races.

## Model

| member | source | states |
|---|---|---|
| `Names.LowerAscii` | src/bg_remover.py:54 | the result has the input's length and each character is the ASCII lower-case of the input's character at that position |
| `Names.Suffix` | src/bg_remover.py:54 | the suffix is empty or a dot followed by at least one character and no further dot, and it is a tail of the name |
| `Names.Stem` | src/bg_remover.py:85 | the stem is a prefix of the name and is empty only for the empty name |
| `Names.StemSuffixSplit` | src/bg_remover.py:85 | every name is its stem followed by its suffix |
| `Names.SplitRoundTrip` | src/bg_remover.py:85 | a non-empty stem followed by a suffix-shaped extension splits back into exactly that stem and that suffix |
| `Names.SuffixCommutesWithLower` | src/bg_remover.py:54 | the suffix of the lower-cased name is the lower-cased suffix of the name |
| `Names.OutputName` | src/bg_remover.py:85-86 | the output name is four characters longer than the stem and ends in `.png`; that what precedes `.png` is the stem is stated with `OutputNameRoundTrip` |
| `Names.OutputNameRoundTrip` | src/bg_remover.py:85-86 | for a non-empty input name, the output name has suffix `.png` and the same stem as the input |
| `Names.OutputCollisionIffSameStem` | src/bg_remover.py:85-86 | two inputs map to the same output name if and only if their stems are equal |
| `Names.PngAndJpgShareOutput` | src/bg_remover.py:85-86 | `a.png` and `a.jpg` both map to `a.png` |
| `SafetyFilter.ExtensionAllowed` | src/bg_remover.py:54-55 | passing the extension test requires a real suffix of four or five characters, so the name is non-empty; `NoSuffixRejected` shows a suffix-less name fails and `ExtensionCheckIgnoresCase` that ASCII case does not matter |
| `SafetyFilter.Classify` | src/bg_remover.py:30-57 | the branch-by-branch filter: a reported rejection reason names a check the file really fails, and the file is accepted exactly when it passes all five checks; `ClassifyFollowsSourceOrder` adds that the reason is the first failure in the source's order |
| `SafetyFilter.FirstFailing` | src/bg_remover.py:30-57 | the index returned is that of the first check in the given order the file fails, or the order's length when it fails none |
| `SafetyFilter.ClassifyFollowsSourceOrder` | src/bg_remover.py:30-57 | the filter's verdict is the first failing check in the order symlink, resolution, containment, size, extension, reported with that check's reason; acceptance when none fails |
| `SafetyFilter.IsSafeFile` | src/bg_remover.py:30-57 | a file is accepted exactly when it passes every check; symlinks and unresolvable paths are rejected; acceptance implies root-prefix containment, size at most 20 MiB and a lower-cased suffix in {`.png`, `.jpg`, `.jpeg`} |
| `SafetyFilter.CheckOrderIrrelevant` | src/bg_remover.py:30-57 | for any order that includes every check, all checks pass in that order if and only if the file is accepted |
| `SafetyFilter.SizeLimitBoundary` | src/bg_remover.py:49-51 | the limit is 20971520 bytes; with the other checks passing, a file of exactly that size is accepted and one byte more is rejected |
| `SafetyFilter.NoSuffixRejected` | src/bg_remover.py:54-55 | a name without a suffix fails the extension check |
| `SafetyFilter.ExtensionCheckIgnoresCase` | src/bg_remover.py:54-55 | names equal up to ASCII case get the same extension verdict |
| `SafetyFilter.UpperCaseJpgAccepted` | src/bg_remover.py:54-55 | `photo.JPG` passes the extension check |
| `SafetyFilter.AcceptedNameNonEmpty` | src/bg_remover.py:54-55 | a name that passes the extension check is non-empty |
| `SafetyFilter.PrefixCheckWeakerThanDescendant` | src/bg_remover.py:41-43 | every component-wise descendant passes the prefix test, but `/in2/x.png` under root `/in` is accepted although it is not a descendant |
| `BatchRun.Step` | src/bg_remover.py:79-107 | a non-file or rejected entry changes nothing; an accepted entry raises processed + errors by exactly one; counters never decrease; one name is written per success |
| `BatchRun.Run` | src/bg_remover.py:74-107 | the success count equals the number of names written, and the two counters together never exceed the number of entries |
| `BatchRun.RunMatchesReference` | src/bg_remover.py:74-107 | the success count is the number of accepted files the library saved, the error count the number it failed on, and the written names are the saved files' output names in visiting order |
| `BatchRun.EveryAcceptedFileCountedOnce` | src/bg_remover.py:74-107 | at the end, processed + errors equals the number of accepted regular files |
| `BatchRun.RejectedEntryChangesNothing` | src/bg_remover.py:79-83 | appending a non-file or rejected entry leaves the whole tally unchanged |
| `BatchRun.AcceptedEntryCountedOnce` | src/bg_remover.py:90-107 | appending an accepted entry raises only the success counter and writes its output name when saved, and raises only the error counter when it is unidentified or fails otherwise |
| `BatchRun.ListingOrderDoesNotChangeCounts` | src/bg_remover.py:78-107 | the counters are additive over concatenated listings, so swapping two parts of the listing gives the same totals |
| `BatchRun.ListingPermutationDoesNotChangeCounts` | src/bg_remover.py:78-107 | two listings holding the same entries in any order give the same success and error counts |
| `BatchRun.WrittenNamesArePng` | src/bg_remover.py:85-98 | every written output name has suffix `.png` |
| `BatchRun.ProcessImages` | src/bg_remover.py:74-107 | the loop starting from zero counters returns the number of saved files, the number of failed files (together the number of accepted files) and the saved files' output names |

## Left out

- Filesystem queries (`is_symlink`, `resolve`, `stat`, `iterdir`, `is_file`, `mkdir`): their results are fields of `FileInfo` and `Entry`. No race is modelled: neither an entry changing between the symlink test and resolution, nor one changing between the filter and the later open.
- Three filesystem calls sit outside any `try` and can end the whole run with an exception: `is_file` (line 79), `is_symlink` (line 33) and `stat` (line 49), for example on a permission error other than a missing file. `Entry.isFile`, `FileInfo.isSymlink` and `FileInfo.size` are plain values, so in the model every run finishes and reports its counters.
- BatchRun.EveryAcceptedFileCountedOnce: holds over the three outcomes `Success`, `Unidentified` and `OtherError`. The source has a fourth path that is not modelled: `processed_count` is incremented (line 98) inside the `with Image.open(...)` block. If closing the image then raises, the `except Exception` branch (lines 103-107) also increments `error_count`. That file is counted in both counters and its PNG stays on disk.
- `Image.open`, `remove`, `save` and the `Image.MAX_IMAGE_PIXELS` limit: opaque libraries, reduced to the per-entry `Outcome`. A partially written output after a failing save is not modelled.
- Directory-listing order: the listing is an arbitrary sequence. `ListingPermutationDoesNotChangeCounts` shows the counters do not depend on it; the order of the written names does, and later writes to the same name win.
- The output directory as a store: joining with `output_dir` and overwriting on disk are not modelled; name collisions are stated by `OutputCollisionIffSameStem`.
- Logging (setup, levels, messages, the final summary), argument parsing, and the exit on a missing input directory: plain I/O with no decision logic.
- SafetyFilter.IsSafeFile: lower-casing is ASCII only, while `str.lower` is full Unicode; no non-ASCII character lower-cases to a single character of `.png`, `.jpg` or `.jpeg`, so the verdict agrees.
- Names.Suffix: follows the `pathlib` rule stated above; CPython 3.14 treats a trailing dot differently, which is not modelled.
