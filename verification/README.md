# geneIDmart cleanup, modelled in Dafny

`geneIDmart_cleanup.py` cleans a BioMart export of *C. elegans* genes. Each input
line holds a gene stable ID, a transcript stable ID and a gene name, separated by
tabs. The script does three things:

- It reads every line. It strips the line, splits it on tabs and takes the first
  three fields.
- It keeps the first line seen for each gene ID in a dict, in insertion order.
- It writes one line per gene ID. If the transcript ID has exactly three
  dot-separated segments (`F07C3.7.1`), it drops the version segment
  (`F07C3.7`). It then prints the number of unique gene IDs.

The model has five modules:

- `Text` (`text.dfy`) models Python's `str.strip()`, using the `str.isspace()`
  character set. It also models splitting on one literal character, which is
  what `re.split("\t", …)` and `re.split("\.", …)` do. `Join` is the inverse of
  that split and serves as its specification.
- `Mart` (`mart.dfy`) holds the row type. `ParseLine` is the per-line parse of
  the ingest loop. `FormatLine` is the line format the script writes.
- `Transcript` (`transcript.dfy`) holds the transcript-ID normalisation of the
  emit loop.
- `Dedup` (`dedup.dfy`) models the dict: its keys in insertion order together
  with the map. `Ingested` is the first-occurrence-wins fold that the ingest
  loop computes.
- `Cleanup` (`cleanup.dfy`) holds the two loops as methods (`Ingest`, `Emit`)
  and the whole run (`Cleanup`). They are proved against the pure description
  `Cleaned`. The module also holds the lemmas that state what a run guarantees.

A line with fewer than three tab-separated fields makes the script raise an
IndexError and stop. The model reports this as `Malformed(k)`, where `k` is the
0-based index of the first such line.

The script has no isoform-letter rule and no rewrite counter. `T13A10.10a.1`
becomes `T13A10.10a` (`Transcript.NormalizeDropsVersion`), and the only number
printed is the unique gene count. Rows are written in dict insertion order, which
is first-encounter order in Python 3.7 and later (`Cleanup.SummarizeOrder`).

## Model

| member | source | states |
|---|---|---|
| Text.Strip | Cleaned_Datasets_transcript_stableID/geneIDmart_cleanup.py:22 | `line.strip()`: the result has no whitespace at either end. It is the infix of the line that starts right after the leading whitespace, with only whitespace after it. |
| Text.StripAround | Cleaned_Datasets_transcript_stableID/geneIDmart_cleanup.py:22 | Stripping a trimmed core that has only whitespace before and after it gives back exactly that core. |
| Text.Split | Cleaned_Datasets_transcript_stableID/geneIDmart_cleanup.py:23 | Splitting on a one-character separator gives one more piece than there are separators, and no piece contains the separator. |
| Text.JoinSplit | Cleaned_Datasets_transcript_stableID/geneIDmart_cleanup.py:23 | Joining the pieces of a split with the separator gives back the original string. |
| Text.SplitJoin | Cleaned_Datasets_transcript_stableID/geneIDmart_cleanup.py:33 | Splitting a join of separator-free pieces gives back exactly those pieces. |
| Mart.ParseLine | Cleaned_Datasets_transcript_stableID/geneIDmart_cleanup.py:22-26 | A line yields a row exactly when its stripped form has at least two tabs. The row's three fields are tab-free. Joined with tabs, they are a prefix of the stripped line, followed by a tab unless they make up the whole line. |
| Mart.ParseThreeFields | Cleaned_Datasets_transcript_stableID/geneIDmart_cleanup.py:22-26 | A line with exactly two tabs after stripping parses to the row whose tab-joined form is the whole stripped line. That row reads back as itself. |
| Mart.ParseFormatLine | Cleaned_Datasets_transcript_stableID/geneIDmart_cleanup.py:37-40 | A rereadable row, written as the script writes it, parses back to the same row. |
| Mart.TabJoined | Cleaned_Datasets_transcript_stableID/geneIDmart_cleanup.py:37-40 | The three fields with a tab between neighbours. `Mart.TabJoinedTabs` shows that for tab-free fields it holds exactly two tabs, and `Mart.SplitTabJoined` shows that splitting it on tabs gives back the fields. |
| Mart.TabJoinedTabs | Cleaned_Datasets_transcript_stableID/geneIDmart_cleanup.py:37-40 | A written row with tab-free fields holds exactly two tabs. `Cleanup.RenderThreeFields` uses it. |
| Mart.FormatLine | Cleaned_Datasets_transcript_stableID/geneIDmart_cleanup.py:37-40 | The written line: the tab-joined fields followed by a newline. `Mart.StripFormatLine` shows that stripping it gives back the tab-joined fields of a rereadable row, and `Mart.ParseFormatLine` shows that it parses back to the row. |
| Mart.StripFormatLine | Cleaned_Datasets_transcript_stableID/geneIDmart_cleanup.py:22 | Stripping a written line of a rereadable row removes exactly the newline. |
| Mart.SplitTabJoined | Cleaned_Datasets_transcript_stableID/geneIDmart_cleanup.py:23-26 | Splitting the tab-joined fields of a tab-free row on tabs gives back exactly the three fields. |
| Dedup.Record | Cleaned_Datasets_transcript_stableID/geneIDmart_cleanup.py:28-29 | One pass of the ingest loop. A gene ID already present leaves the dict unchanged. Otherwise the key set gains that gene ID, it is appended to the insertion order and mapped to the row's transcript and name. Every existing entry keeps its value, and a well-formed dict stays well-formed. |
| Cleanup.OutputRow | Cleaned_Datasets_transcript_stableID/geneIDmart_cleanup.py:33-40 | The row written for one key: the key, the normalised stored transcript ID and the stored name. `Cleanup.Emit` writes exactly these rows, and `Cleanup.SummarizeKeepsFirst` ties them to each gene's first input row. |
| Cleanup.Emitted | Cleaned_Datasets_transcript_stableID/geneIDmart_cleanup.py:32-40 | One output row per key, in insertion order. `Cleanup.EmittedKeys` shows each key appears exactly once, and `Cleanup.EmittedFixed` shows that re-emitting the output is the identity. |
| Cleanup.Summarize | Cleaned_Datasets_transcript_stableID/geneIDmart_cleanup.py:28-47 | What a run produces from parsed rows: the emitted rows and `len(ID_dict)`. `Cleanup.SummarizeOneRowPerGene`, `Cleanup.SummarizeKeepsFirst`, `Cleanup.SummarizeOrder` and `Cleanup.SummarizeIdempotent` state its guarantees. |
| Cleanup.Cleaned | Cleaned_Datasets_transcript_stableID/geneIDmart_cleanup.py:21-47 | The whole run as a function of the input lines. `Cleanup.Cleanup` is proved equal to it. `Cleanup.CleanedFailsOnShortLine`, `Cleanup.CleanedEmpty` and `Cleanup.CleanedIsFixedPoint` state when it fails, what it gives on empty input, and that it is a fixed point on its own output. |
| Cleanup.Render | Cleaned_Datasets_transcript_stableID/geneIDmart_cleanup.py:37-40 | The output file's lines, one written line per row, in order. `Cleanup.ParseAllRender` shows that they parse back to the rows. |
| Transcript.Normalize | Cleaned_Datasets_transcript_stableID/geneIDmart_cleanup.py:33-40 | An ID without exactly two dots is unchanged. With two dots, the result is the ID up to its last dot: a proper prefix with one dot, followed in the ID by a dot and a dot-free version. |
| Transcript.NormalizeSegments | Cleaned_Datasets_transcript_stableID/geneIDmart_cleanup.py:33-36 | In segment terms: three segments become their first two, and any other segment count is unchanged. |
| Transcript.NormalizeDropsVersion | Cleaned_Datasets_transcript_stableID/geneIDmart_cleanup.py:35-36 | `base.index.version` becomes `base.index`. The index is kept whole, including any isoform letter. |
| Transcript.NormalizeKeepsUnversioned | Cleaned_Datasets_transcript_stableID/geneIDmart_cleanup.py:39-40 | `base.index` with no version passes through unchanged. |
| Transcript.NormalizeIdempotent | Cleaned_Datasets_transcript_stableID/geneIDmart_cleanup.py:33-40 | Normalising twice is the same as normalising once. |
| Transcript.NormalizeTabFree | Cleaned_Datasets_transcript_stableID/geneIDmart_cleanup.py:36-37 | Normalising a tab-free ID gives a tab-free ID. |
| Dedup.Ingested | Cleaned_Datasets_transcript_stableID/geneIDmart_cleanup.py:21-29 | The dict after all rows: each key is listed once in the insertion order, and the keys are exactly the gene IDs of the rows. |
| Dedup.IngestedStep | Cleaned_Datasets_transcript_stableID/geneIDmart_cleanup.py:28-29 | A row whose gene ID is already a key leaves the dict unchanged. A new gene ID is appended to the order and mapped to the row's transcript and name. |
| Dedup.IngestedKeepsFirst | Cleaned_Datasets_transcript_stableID/geneIDmart_cleanup.py:28-29 | Each gene ID maps to the transcript and name of the first row that carries it. |
| Dedup.FirstSeenOrderStep | Cleaned_Datasets_transcript_stableID/geneIDmart_cleanup.py:28-29 | One more row keeps a first-seen order valid. Appending a new gene ID to that order keeps it valid too. |
| Dedup.IngestedOrder | Cleaned_Datasets_transcript_stableID/geneIDmart_cleanup.py:28-32 | The insertion order is first-encounter order: of two keys, the earlier one first occurs earlier in the input. |
| Dedup.IngestedCount | Cleaned_Datasets_transcript_stableID/geneIDmart_cleanup.py:47 | `len(ID_dict)` equals the length of the insertion order and the number of distinct gene IDs. It is 0 for no rows. |
| Dedup.IngestedDistinct | Cleaned_Datasets_transcript_stableID/geneIDmart_cleanup.py:28-29 | When no gene ID repeats, every row is kept, in input order, with its own transcript and name. |
| Cleanup.Collect | Cleaned_Datasets_transcript_stableID/geneIDmart_cleanup.py:21-26 | Per-line results are gathered in order. If a line failed, the result is the position of the first failure, and every line before it succeeded. |
| Cleanup.ParseAll | Cleaned_Datasets_transcript_stableID/geneIDmart_cleanup.py:21-26 | Either every line parses and the rows are their parses in order, or the result names the first line that does not parse. |
| Cleanup.ParseAllCompletes | Cleaned_Datasets_transcript_stableID/geneIDmart_cleanup.py:21-26 | If every line parses, the run reads exactly those rows. |
| Cleanup.ParseAllStops | Cleaned_Datasets_transcript_stableID/geneIDmart_cleanup.py:21-26 | The run stops at the first line that does not parse. |
| Cleanup.Ingest | Cleaned_Datasets_transcript_stableID/geneIDmart_cleanup.py:21-29 | The ingest loop stops at the first short line. Otherwise it builds the first-occurrence dict of the parsed rows. |
| Cleanup.Emit | Cleaned_Datasets_transcript_stableID/geneIDmart_cleanup.py:32-40 | The emit loop writes one row per key, in insertion order: the key, its normalised transcript ID and its stored name. |
| Cleanup.Cleanup | Cleaned_Datasets_transcript_stableID/geneIDmart_cleanup.py:21-47 | A run of both loops plus the count produces `Cleaned(lines)`. |
| Cleanup.CleanedFailsOnShortLine | Cleaned_Datasets_transcript_stableID/geneIDmart_cleanup.py:22-26 | A run fails exactly when some stripped line has fewer than two tabs, and it then names the first such line. |
| Cleanup.CleanedEmpty | Cleaned_Datasets_transcript_stableID/geneIDmart_cleanup.py:21-47 | Empty input writes nothing and counts 0 unique gene IDs. |
| Cleanup.SummarizeOneRowPerGene | Cleaned_Datasets_transcript_stableID/geneIDmart_cleanup.py:28-47 | One row is written per distinct gene ID: no gene ID twice and none missing. The printed count equals that number. |
| Cleanup.EmittedKeys | Cleaned_Datasets_transcript_stableID/geneIDmart_cleanup.py:32-40 | The written rows carry the dict's keys in insertion order, each exactly once. |
| Cleanup.SummarizeKeepsFirst | Cleaned_Datasets_transcript_stableID/geneIDmart_cleanup.py:28-40 | The row written for a gene ID has the normalised transcript and the name of the first row with that gene ID. |
| Cleanup.SummarizeOrder | Cleaned_Datasets_transcript_stableID/geneIDmart_cleanup.py:28-37 | Rows are written in first-encounter order of their gene IDs. |
| Cleanup.SummarizeRereadable | Cleaned_Datasets_transcript_stableID/geneIDmart_cleanup.py:32-40 | When every input row reads back as itself, so does every written row. |
| Cleanup.RenderThreeFields | Cleaned_Datasets_transcript_stableID/geneIDmart_cleanup.py:37-40 | Every written line of a rereadable row has exactly two tabs once stripped, so the script's output meets the precondition of `Cleanup.CleanedIsFixedPoint`. |
| Cleanup.ParseAllRender | Cleaned_Datasets_transcript_stableID/geneIDmart_cleanup.py:37-40 | The written lines of rereadable rows parse back to exactly those rows. |
| Cleanup.EmittedFixed | Cleaned_Datasets_transcript_stableID/geneIDmart_cleanup.py:32-40 | Deduplicating and emitting the written rows again gives them back unchanged. |
| Cleanup.SummarizeIdempotent | Cleaned_Datasets_transcript_stableID/geneIDmart_cleanup.py:28-47 | Cleaning the cleaned rows again changes neither the rows nor the count. |
| Cleanup.CleanedIsFixedPoint | Cleaned_Datasets_transcript_stableID/geneIDmart_cleanup.py:21-47 | If every line has exactly three fields, the run succeeds, and running it on its own output produces the same output and the same count. |

## Left out

- Argument parsing (lines 6-13) is left out. The input file's contents are a parameter, `lines`.
- File I/O is left out: opening, reading, writing and closing (lines 18-19, 21, 37, 40, 43-44). This includes the fixed output file name and how the input file is cut into lines. `Cleanup` takes the lines and returns the rows to be written. `Render` gives the written lines.
- The `print` of line 47 is left out. `Report.uniqueGenes` holds the number it prints.
- A failed run, on a line with fewer than three fields, is `Malformed(k)`. The model does not capture that the output file was already created empty, or the traceback Python prints.
- Regular expressions are not modelled in general. Both patterns in the script match a single literal character, so they are modelled as a split on that character.
- There is no isoform-letter rewrite and no rewrite counter, because the script has neither (see the introduction).
- The model assumes Python 3.7 or later, although the script starts with `#!/usr/bin/env python`. It relies on insertion-ordered dicts (`Cleanup.SummarizeOrder`), on the Unicode `str.isspace()` set (`Text.IsSpace`), and on `print` as a function printing one line.
- `Cleanup.CleanedIsFixedPoint` reads the written file back as `Render(rows)`, one line per row. This holds when no field contains a line break. When the script reads a real file, that is guaranteed because the file is already cut at line breaks. A `lines` argument that breaks this assumption is not modelled.
- Python string internals are left out. Strings are sequences of code points, and whitespace is the fixed `str.isspace()` set listed in `Text.IsSpace`.
