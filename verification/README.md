# Commit hunter, modelled in Dafny

The commit hunter (`commit_hunter.py`) turns a repository's recent history into
patch notes. It reads the previous HEAD marker from `ledger.txt` and asks
`git log --pretty=oneline --abbrev-commit <marker>..HEAD` for the new commits.
Each line `<hash> [<category>] <message>` becomes a `Commit` in the list of its
category (`bugfix`, `feature`, or `Misc` for anything else). The resulting
mapping is pickled as the day's patch notes. Only then is the ledger
overwritten with `git rev-parse --short HEAD`. Lines that do not parse are
logged with their `repr` and skipped. An empty log output stops the run
before anything is written.

The project models:

- `PyStr`: the Python string operations the script relies on.
  - `str.split(" ", 2)`, with `str.join` as its inverse.
  - `strip`, `lstrip` and `rstrip` with a set of characters.
  - `str.split()` on Python's whitespace.
- `PyRepr`: `repr` of a `str`, the form in which failing lines reach the log, with a decoder proving the log names the line exactly.
- `Commits`: the `Commit` record and `generate_commit` as the pure function `ParseCommit`.
- `Buckets`: `neat_commits` and a reference definition of it.
  - The initial mapping.
  - The mapping after the loop, as a fold over the parse results.
  - An independent description of each list as a filter of the parsed commits.
  - The bookkeeping lemmas: every line gives a commit or a log entry, and the list lengths add up to the number of parsed commits.
- `Ledger`: the first line as `readline()` reads it, `get_previous_head_commit` as the pure function `PreviousHeadCommit`, and the round trip from the marker `update_previous_head_commit` writes to the one the next run reads.
- `Hunter`: the script as a class `CommitHunter`.
  - Its fields are the ledger, the stored patch notes, `neat_commits` and the log (a ghost sequence of entries).
  - Its methods are `generate_commit`, the ledger read and write, the bucketing loop, the writes at the end of a run, and a whole run with its early exits.
  - The run takes as inputs the git output and the point, if any, where an exception interrupts the writes.

`VALID_CATEGORIES` is the parameter `categories` (the script uses `["bugfix", "feature"]`).

Three behaviours of the code shape the model:

- HEAD is resolved twice: once by the `git log` range (`commit_hunter.py:122-124`) and once by `git rev-parse` when the ledger is updated (`commit_hunter.py:99`). `Run` therefore takes the `rev-parse` output as an input of its own.
- The day's patch notes file is opened with `"wb"` and overwritten (`commit_hunter.py:150-153`). `Run` replaces `patchNotes` and never merges with it.
- A missing marker is logged and `None` goes into the query, making it `None..HEAD` (`commit_hunter.py:88-90, 120-124`). Git rejects that range and `sh` raises, so `Run` ends with `GitLogFailed` whenever the marker is missing.

## Model

| member | source | states |
|---|---|---|
| Commits.ParseCommit | commit_hunter.py:64-78 | A line parses exactly when it holds at least two spaces. The category is always a key of the mapping (a valid category or `Misc`). The hash is the space-free text before the first space. On the `Misc` path, hash + " " + message gives the line back. |
| Commits.LineFields | commit_hunter.py:67 | Every line with two spaces is a space-free hash, a space, a space-free tag, a space and a rest. |
| Commits.ParseFields | commit_hunter.py:67-78 | For such a line the result is the commit with the stripped tag as category and the rest as message when the stripped tag is valid. Otherwise it is `Misc`, with the tag (brackets kept) + " " + rest as message. |
| Commits.TaggedLine | commit_hunter.py:73-78 | `<hash> [<category>] <message>` with a valid category parses back to exactly `Commit(category, hash, message)`. |
| Commits.ParseErrorNamesLine | commit_hunter.py:69 | The error entry logged for a line decodes back to that line. |
| PyRepr.Repr | commit_hunter.py:69 | `repr` yields a string enclosed in one kind of quote. |
| PyRepr.UnreprRepr | commit_hunter.py:69 | Decoding `repr(s)` gives `s` back. |
| PyStr.SplitLength | commit_hunter.py:67 | `split(" ", n)` yields one part per split made plus one: `min(n, number of spaces) + 1`, so the unpacking into three names succeeds exactly when there are at least two spaces. |
| PyStr.SplitJoin | commit_hunter.py:67 | Joining the parts of a split with the separator gives the string back. |
| PyStr.SplitParts | commit_hunter.py:67 | Every part but the last is free of the separator. |
| PyStr.StripPartsSpec | commit_hunter.py:73 | `strip("[]")` splits the string into a prefix of brackets, a core whose ends are not brackets, and a suffix of brackets. |
| PyStr.StripUnique | commit_hunter.py:73 | Any such split has its core as the result of `strip`. |
| PyStr.RStripSpec | commit_hunter.py:133 | `rstrip("\n")` keeps a prefix, drops only newlines, and leaves no newline at the end. |
| PyStr.SplitWhitespace | commit_hunter.py:87 | `split()` yields the non-empty, whitespace-free words whose concatenation is the string without its whitespace. There are none exactly when the string is all whitespace. |
| PyStr.FirstWord | commit_hunter.py:87 | After leading whitespace, the first word of `split()` is the first run of non-whitespace. |
| Ledger.FirstLine | commit_hunter.py:87 | `readline()` gives the longest prefix of the ledger without `\n` or `\r`: it stops at the first line break or at the end of the file. |
| Ledger.PreviousHeadCommit | commit_hunter.py:84-92 | The answer is `None` exactly when the ledger is missing or its first line is blank. Otherwise it is a non-empty word without whitespace. |
| Ledger.PreviousHeadIsFirstWord | commit_hunter.py:86-87 | A ledger whose first line is blanks, a word, then whitespace or nothing yields that word. |
| Ledger.MarkerRoundTrip | commit_hunter.py:97-102 | The marker written from `rev-parse` output (a hash and trailing newlines) is read back by the next run as that hash. |
| Buckets.CategoryKeys | commit_hunter.py:117 | The keys without repeats are exactly the keys of the mapping. They come in insertion order: ordered by first occurrence in `VALID_CATEGORIES + ["Misc"]`. |
| Buckets.ParseLineDropsNewlines | commit_hunter.py:133-134 | A line of output that ends in newlines parses like the same line without them. |
| Buckets.EmptyBuckets | commit_hunter.py:117 | The initial mapping has exactly the valid categories and `Misc` as keys, each with an empty list. |
| Buckets.Parses | commit_hunter.py:132-134 | There is one parse result per line, and every commit among them has a key in the mapping. |
| Buckets.AddCommit | commit_hunter.py:135-136 | Appending a parsed commit (or nothing for a failed line) keeps the set of keys. |
| Buckets.Bucket | commit_hunter.py:132-136 | After the loop, the keys of the mapping are still the valid categories and `Misc`, and nothing else. |
| Buckets.BucketIsFilter | commit_hunter.py:132-136 | Each list is exactly the parsed commits of its category, in input order. Unparseable lines add nothing. |
| Buckets.LinesAccountedFor | commit_hunter.py:132-136 | Every line gives one commit or one log entry: their counts add up to the number of lines. |
| Buckets.TotalBucketed | commit_hunter.py:134-136 | The list lengths add up to the number of lines that parsed. |
| Hunter.EmptyOutput | commit_hunter.py:127 | The log output is empty exactly when every line of it is. |
| Hunter.CommitHunter.constructor | commit_hunter.py:117 | A run starts with the initial mapping and an empty log (the file is truncated at `commit_hunter.py:41`). |
| Hunter.CommitHunter.GenerateCommit | commit_hunter.py:64-78 | Returns the parse of the line. Logs exactly one entry, `repr` of the line, when that parse fails, and nothing otherwise. |
| Hunter.CommitHunter.GetPreviousHeadCommit | commit_hunter.py:84-92 | Returns the marker read from the ledger. Logs exactly one error entry when there is none. |
| Hunter.CommitHunter.UpdatePreviousHeadCommit | commit_hunter.py:97-102 | The ledger becomes the `rev-parse` output without trailing newlines. |
| Hunter.CommitHunter.CollectCommits | commit_hunter.py:132-136 | The loop leaves `neat_commits` equal to the bucketing of all lines. It logs one error entry per unparseable line, in order. |
| Hunter.CommitHunter.Publish | commit_hunter.py:139-156 | The patch notes file is left as it was, left truncated, or holds the mapping, depending on where an exception strikes. The ledger moves to the stripped `rev-parse` output only when nothing fails, is truncated when its write fails, and is otherwise untouched. It never changes unless the mapping was stored. |
| Hunter.CommitHunter.Run | commit_hunter.py:116-156 | The run ends with `GitLogFailed` exactly when the marker is missing or `git log` fails, with nothing written and nothing logged except the ledger error when the marker is missing. Empty output ends it with only the "no new commits" entry logged, nothing stored and the ledger untouched. Otherwise all lines are bucketed and the writes follow `Publish`. The ledger never moves unless the notes were stored, and `Published` is reached exactly when nothing fails. |

## Left out

- The git calls (`git.bake`, `git.log`, `git rev-parse`) are foreign process calls. The log output and the `rev-parse` output are inputs, and so is how `sh` cuts its output into lines. A `git log` that exits non-zero is the input `None`.
- Hunter.CommitHunter.Run: a missing marker is taken to make `git log None..HEAD` fail. A repository with a branch or tag named `None` would answer that query instead; this is not modelled.
- Hunter.CommitHunter.Publish: an exception while writing or closing the ledger after `open(…, "w")` truncated it is modelled as an empty ledger. A partly written marker is not modelled.
- Hunter.CommitHunter.Publish: what a truncated patch notes file holds after a failed `pickle.dump` is not modelled. It is the single value `Damaged`.
- Pickle serialisation, the build directory and the file name are library I/O. The stored patch notes are the mapping itself. A dictionary's key order is not part of a Dafny map; `CategoryKeys` gives that order where a lemma needs it.
- `date.today()` is a clock read and only names the output file.
- `print` in `write_log` and the file handles are output only. The log is a ghost sequence of entries. The file holds their concatenation, since `write_log` adds no separator. A traceback from an uncaught exception goes to the console, not the log.
- PyRepr.Repr: non-printable characters above U+00FF are kept as they are. Python escapes them according to its Unicode database, which is not modelled.
- Ledger.PreviousHeadCommit: a ledger that exists but cannot be decoded as text is not modelled; the ledger is either missing or a string.
- `exit(0)` on empty output is modelled as `Run` returning `NoNewCommits`.
- `generate_build_page.py`, `generate.py` and `create_fake_builds.py` are not part of this model. They are templating, directory listing, file moves and shell calls around the pickled mapping.
