# Beam_Sofistik_POC iteration core, in Dafny

`flamb.py` approximates geometric nonlinearity with a fixed-point iteration. It
patches a SOFiSTiK CADINP `.dat` model, runs the linear solver, reads node
displacements back from the result database, moves the nodes of the `.dat` model
to `reference + displacement`, and repeats until the largest `ux` stops changing.
This project models the two deterministic pieces of it.

- `FileInteraction` (module `DatFile`, file `dat_file.dfy`).
  - A `.dat` document is the list `readlines()` returns: a `seq<string>` whose lines keep their `"\n"`.
  - Every operation takes the lines and yields the lines it would write: `check`, `extract_value`, `modify`, `modify_coord`, `add_code` and `replace_sofiload`.
  - Its regular expressions are small scanners in module `Text` (`text.dfy`): Python's whitespace class, `str.strip()`, the number token `[-+]?\d*\.?\d+`, and `str(int)`.
  - The fixed CADINP blocks live in module `CadinpBlocks` (`cadinp_blocks.dfy`), as the lines they read back as.
- The data step and stopping rule of `Iteration` (module `Iterate`, file `iteration.dfy`).
  - The id → position map (last record wins) and the id → summed displacement map, both skipping id 0.
  - The node update in dict order, and the convergence loop.
  - Class `Iteration` holds the document, the reference positions and the latest displacement read.

What is proved, in short:
- `check` is "some line contains `s`".
- `extract_value` looks only at the first line containing `s`, and reads back what `modify` wrote.
- `modify` rewrites only the first target line.
- `modify_coord` changes only the coordinate tokens of its node's lines. Two nodes can be updated in either order, and a second update overrides the first.
- `add_code` appends `"\n"` plus the block; afterwards `check("+PROG ASE")` holds.
- `replace_sofiload` keeps the lines before the first header, inserts the new load block once, and resumes at the next non-SOFILOAD `PROG`. Run a second time, it inserts one more empty line in front of the block.
- `initialize` writes V and H into the load lines of the new block.
- The loop stops at the first pass whose delta does not exceed epsilon. The document after any run of passes is the document that the reference positions and the last read alone give.

## Model

| member | source | states |
|---|---|---|
| Text.Strip | flamb.py:72 | `s.strip()`: the result is a slice of `s` with only whitespace cut off on either side, and it neither starts nor ends with whitespace |
| Text.StripLine | flamb.py:72 | a line without surrounding whitespace strips to itself once its `"\n"` is ignored |
| Text.NumberLengthIsLongestMatch | flamb.py:41 | the number scanner takes the longest prefix matching `[-+]?\d*\.?\d+`, and finds none exactly when no prefix matches |
| Text.NumberIsToken | flamb.py:41 | a number token is a non-empty run without whitespace |
| Text.IntText | flamb.py:601 | `str(node)` is a whitespace-free token, with a leading `-` exactly for negative ids |
| Text.IntTextInjective | flamb.py:601 | different ids have different decimal texts, so the `NODE <id>` pattern of one node never matches another's line |
| DatFile.GapNumberIsMatch | flamb.py:41 | `\s+([-+]?\d*\.?\d+)` at the start of a string: a capture is found iff some whitespace followed by a number starts the string, and the capture is the longest number after the whole whitespace run |
| DatFile.ValueAtIsMatch | flamb.py:41 | the pattern with marker `s` matches at position `p` iff `s` occurs there and whitespace and a number follow; the capture is the longest number after all that whitespace |
| DatFile.Check | flamb.py:18-26 | `check(s)` is true iff some line contains `s`; false on an empty file |
| DatFile.SearchValue | flamb.py:41 | `re.search` of `s\s+(number)`: a result is the capture at the first position `q` where the pattern matches, and no earlier position matches; None iff no position matches |
| DatFile.ExtractValue | flamb.py:28-48 | a returned value is a number token |
| DatFile.ExtractValueFromFirstLine | flamb.py:38-45 | a returned value is the search result on the first line that contains `s` |
| DatFile.ExtractValueReadsFirstLine | flamb.py:38-48 | the result is the search on the first line containing `s`, even when that gives None and a later line has a value |
| DatFile.ExtractValueAbsent | flamb.py:38-48 | when no line contains `s` the result is None |
| DatFile.MarkerNumber | flamb.py:68 | a match of `^(s\s*)(number)(.*)$` on a stripped line: the line starts with `s`, and the number lies inside the line after `s` and is not empty |
| DatFile.MarkerNumberShape | flamb.py:68 | in a match, group 1 is `s` and all the whitespace after it, and group 2 is the longest number starting there |
| DatFile.MarkerNumberMatches | flamb.py:68-73 | conversely, a stripped line made of `s`, whitespace, a number and anything after it matches, with group 1 ending where that whitespace ends and group 2 at least that number |
| DatFile.RewriteLineSplice | flamb.py:76 | the rewritten line is the stripped line with exactly group 2 replaced by the new value: group 1 before it and group 3 after it are kept, and a line break ends it |
| DatFile.RewriteLineSameValue | flamb.py:76 | writing back the number already in the line only strips the line |
| DatFile.FirstTarget | flamb.py:71-80 | the first line that contains `s` and whose stripped text matches the pattern; no earlier line is one |
| DatFile.Modify | flamb.py:55-90 | the scan with `modified` and `break`: the flag is set iff some line is a target, and the output is the input with only the first target rewritten to group 1 + value + group 3 + `"\n"` |
| DatFile.ModifiedAt | flamb.py:71-80 | when line `t` is a target and none before it is, `modify` rewrites line `t` and no other |
| DatFile.ModifyThenExtract | flamb.py:28-95 | round trip: after `modify(s, v)` with a number `v`, `extract_value(s)` returns `v` when the target is the first line containing `s` and its number is set off by whitespace |
| DatFile.ParseNodeLine | flamb.py:106 | a parsed node line is well shaped (keywords matched case-insensitively, non-empty whitespace gaps, whitespace-free tokens) and its pieces concatenate back to the line |
| DatFile.ParseNodeText | flamb.py:106 | every well-shaped node line parses back into exactly its pieces |
| DatFile.ModifyCoord | flamb.py:97-120 | `modify_coord`: same number of lines; a line that is not a node line of that id is unchanged |
| DatFile.ModifyCoordLine | flamb.py:106-113 | a line that is not a node line of the id is left as it was (the rewrite of a node line is stated by `ModifyCoordLineReadsBack`) |
| DatFile.ModifyCoordLineReadsBack | flamb.py:106-113 | a rewritten node line is still that node's line; it reads back the new X, Y, Z and keeps keywords, gaps, id, trailing text and line break |
| DatFile.ModifyCoordLineTwice | flamb.py:106-113 | rewriting one line twice leaves the second coordinates |
| DatFile.NodeLineOwner | flamb.py:106 | a line is the node line of at most one node |
| DatFile.ModifyCoordTwice | flamb.py:97-120 | updating a node twice leaves the second coordinates |
| DatFile.ModifyCoordCommute | flamb.py:97-120 | updating two different nodes gives the same document in either order |
| DatFile.JoinAppend | flamb.py:214-216 | the text of two line lists is the concatenation of their texts |
| DatFile.AddCode | flamb.py:127-216 | the text becomes old text + `"\n"` + block; `check("+PROG ASE")` holds afterwards; all lines but the last are kept, and all are kept when the file ends with a line break |
| DatFile.ScanSections | flamb.py:260-282 | the first loop, with `sofiload_started` and `break`: the lines it has output, followed by the lines it has not reached, are the three-part output |
| DatFile.SkipToProg | flamb.py:272-282 | each inner skip loop stops at the first `PROG ` line at or after its start, or at the end of the lines |
| DatFile.ReplaceSections | flamb.py:253-292 | the index-driven scan with `sofiload_started`, the skip loops, `break` and the tail copy computes the three-part output for any header and module tests |
| DatFile.ReplaceSofiload | flamb.py:227-296 | `replace_sofiload()` yields the lines before the first SOFILOAD header, the new block, then everything from the next non-SOFILOAD `PROG` line |
| DatFile.ReplacedSofiloadWithoutHeader | flamb.py:260-292 | without a `PROG SOFILOAD` header the document is unchanged |
| DatFile.ReplacedSofiloadAt | flamb.py:260-292 | given the header index and the resume index with their defining properties, the output is `lines[..h] + block + lines[q..]`; later SOFILOAD sections and lines starting `+PROG` inside the skipped run are dropped |
| DatFile.ReplacedSofiloadBlock | flamb.py:232-269 | with a header, the lines before it are kept and the 20 lines of the new block follow them |
| DatFile.ReplacedTwice | flamb.py:260-292 | for any block opening with a non-header line and then a header: a second replacement inserts the opening line again before the block and changes nothing else |
| DatFile.ReplacedSofiloadTwice | flamb.py:227-296 | running `replace_sofiload` again adds one empty line in front of the new block |
| DatFile.NewLoadBlockLoads | flamb.py:232-252 | the new block holds the V load line `NODE NO 1002 TYPE PG P1 0` at line 15 and the H load line at line 18, with no load line before them |
| DatFile.LoadLineRewrite | flamb.py:68-79 | a load line `<marker> <value>` is a target, and `modify` turns it into `<marker> <v>` |
| DatFile.VLineNotH | flamb.py:539-540 | a V load line with any token as value is not a target for the H marker |
| Iterate.PositionsKeys | flamb.py:578-581 | id 0 is never a key; any other id is a key iff some record carries it |
| Iterate.PositionsLastWins | flamb.py:578-581 | the position stored for an id is that of the last record carrying it |
| Iterate.NodeOrder | flamb.py:578-593 | dict iteration order holds each key of the position map exactly once |
| Iterate.NodeOrderFirstSeen | flamb.py:578-593 | the keys come in first-insertion order: a key listed earlier has its first record earlier |
| Iterate.BuildPositions | flamb.py:578-581 | the loop builds exactly the position map and its key order |
| Iterate.DisplacementsKeys | flamb.py:583-590 | id 0 is never a key; any other id is a key iff some record carries it |
| Iterate.DisplacementsAreSums | flamb.py:583-595 | for a non-zero id, the entry (default `(0,0,0)`) is the componentwise sum of all records with that id, as an independent sum from the front |
| Iterate.BuildDisplacements | flamb.py:583-590 | the loop builds exactly the summed displacement map |
| Iterate.WriteCoordinatesLine | flamb.py:593-601 | writing several nodes: the node line of each listed node gets that node's coordinates, every other line is unchanged |
| Iterate.WriteCoordinatesTwice | flamb.py:593-601 | writing the same nodes twice leaves the second coordinates |
| Iterate.AfterPassLine | flamb.py:578-601 | after a pass, each reference node's line holds its reference position plus the sum of its displacement records; lines of nodes outside the reference (id 0 among them) are unchanged |
| Iterate.AfterPassesLast | flamb.py:564-618 | reference positions never move, so the document after any run of passes equals the one the last read alone gives |
| Iterate.MaxUxIsMaximum | flamb.py:611 | `max(ux)` is one of the `ux` values and no `ux` value exceeds it |
| Iterate.FirstConverged | flamb.py:561-618 | the first pass whose `abs(max(ux) - max(ux_prev))` does not exceed epsilon, or the number of reads; that pass's delta is at most epsilon |
| Iterate.FirstConvergedIsFirst | flamb.py:564-618 | every pass before it has a delta above epsilon |
| Iterate.ConvergesAtFifthReading | flamb.py:561-618 | with maxima 0.5, 0.1, 0.02, 0.0015, 0.0008 and epsilon 0.001 the loop stops after the fifth read |
| Iterate.WithAnalysis | flamb.py:535-536 | after the guarded `add_code`, `check("+PROG ASE")` holds; the block is not added when the marker is there, so it is added at most once; earlier lines are kept |
| Iterate.Prepare | flamb.py:533-540 | the document steps of `initialize` in order: replace SOFILOAD, add the analysis block when missing, set V, set H |
| Iterate.PreparedLoads | flamb.py:533-540 | when no line before the first SOFILOAD header is a load line, V ends up in the V load line and H in the H load line of the new block, and the lines before the header are kept |
| Iterate.Iteration.Initialize | flamb.py:525-547 | the document becomes the prepared one, the reference is the position read, and the latest read is a zero list of the same length |
| Iterate.Iteration.UpdateNodes | flamb.py:592-601 | every node of the position map, in dict order, gets `str(position + displacement-or-zero)` in its node line |
| Iterate.Iteration.Pass | flamb.py:563-611 | one pass: the latest read becomes the new read, the document becomes the one this read and the reference positions give, and the delta is `abs(max(ux) - max(ux_prev))` |
| Iterate.Iteration.Loop | flamb.py:556-618 | the loop runs until the first pass with delta at most epsilon (converged) or until the reads run out; the reference is untouched, the latest read is the last one used, and the document is the one all the passes write |

## Left out

- The result database, `CDBinteract` (flamb.py:299-428). Its DLL loading and foreign calls are not part of this model. Its position read is the input of `Initialize`, and its displacement reads are the input sequence of `Loop`.
  - A read's `ux` is taken as already combined: the elementwise sum of the subtype-2 and subtype-3 records, with ids from subtype 2.
  - Every read holds at least one record, because the read appends before it checks its status. So `Loop` requires non-empty reads and a non-empty latest read, which `max` needs.
- Running the solver, `SofiFileHandler.calculate_with_sps`, is not part of this model. Its exit status is only printed, so the loop goes on regardless.
- File opening, reading and writing, the `except … print` handlers and all logging prints are left out. The operations work on the in-memory line list.
- Floating point: coordinates and loads are Dafny `real`s, with no rounding and no summation-order effects.
- `str(float)` is the `fmt` parameter of class `Iteration` (type `Formatter`). Only its output being a non-empty, whitespace-free token is modelled, not its digits.
- Iterate.Iteration.Loop: the source loops without a cap until convergence. The model stops as well when the given sequence of reads runs out, and reports `converged` false then.
- DatFile.ModifyCoord: the whole-file regex is modelled line by line.
  - A match whose `\s` runs across a line break is not captured.
  - Identifiers are matched only as the decimal text `str(node)` of an integer.
- `\d` is limited to the ASCII digits, where Python also accepts other Unicode decimal digits. Whitespace is Python's full set. Case-insensitive matching is ASCII folding, which is exact for the letters of `NODE`, `X`, `Y` and `Z`.
- The CADINP block texts are stored as the lines they read back as, not as single multi-line strings. `new_load` starts with an empty line because its literal starts with a line break.

Behaviour of the code that the model keeps as written:
- A later `unique_positions[nr] = (x, y, z)` overwrites an earlier one, so the last record for an id wins (flamb.py:579-581, `PositionsLastWins`).
- The loop runs while `delta_ux > self.epsilon`, so it ends as soon as delta is at most epsilon; the inner `break` on `delta_ux < self.epsilon` comes at the end of the same pass, so it never changes which pass is the last (flamb.py:564, 616-618, `FirstConverged`).
- A failing solver run only prints its exit code, and the loop goes on with the next read (flamb.py:498-502).
- `get_pos` appends a record before it checks the status, so the position read is never empty and the `return None` branch is not reached (flamb.py:412-428).

Consequences of the code that the lemmas make explicit:
- Running `replace_sofiload` on an already replaced document inserts one more empty line before the block (`ReplacedSofiloadTwice`).
- `+PROG` lines inside the replaced run of SOFILOAD sections are dropped, because only lines whose stripped text starts with `PROG ` end the run (`ReplacedSofiloadAt`).
- `modify` sets V or H in the first matching line of the whole document. The new block's load lines are set only when no earlier line matches (`PreparedLoads` requires this).
