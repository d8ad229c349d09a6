# A2M query-gap cleaning

This project models the query-gap cleaning pipeline of plmc_mcp.
An A2M multiple-sequence alignment is a list of records. Each record is a `>` header line followed by residue lines. The first record is the query.

The pipeline has three steps:

- `read_a2m` groups the lines into `(header, sequence)` records.
- `remove_query_gaps` deletes from every record each column where the query holds `.` or `-`.
- `write_a2m` writes each header, then the sequence wrapped at 80 characters per line.

Two places chain the three steps:

- the clean-up half of `convert_a3m_to_a2m` in `src/tools/readme.py`;
- `main` in `script/rm_a2m_query_gaps.py`.

Both files hold identical copies of the three helpers, so one model covers both. The rows below cite one copy or the other.

File contents are modelled as lines, with no I/O:

- The reader gets the strings Python's file iterator yields, each possibly still ending in its terminator.
- The writer returns the strings passed to `f.write`, each ending in `"\n"`.
- The filter's `IndexError` becomes a `Failure(IndexOutOfRange)` result.
- The script's exit status and written file are the results of `ScriptMain`.
- The converted file's content afterwards is a result of `ConvertCleanup`.

Modules:

- `A2mFormat`: records, gap symbols, terminator stripping, joining.
- `A2mReader`: the parse loop and the grouping function `Parse` that specifies it.
- `QueryGaps`: the retained columns, the projection, and the filter loop.
- `A2mWriter`: 80-character chunking and the write loop.
- `CleanPipeline`: the two compositions.

Where the code differs from the format's usual description, the model follows the code:

- Lines before the first header line are silently dropped, not rejected.
- A record longer than the query's retained columns is silently truncated to them.
- Only a record too short for some retained column raises `IndexError`, and then nothing is written.
- An empty sequence produces only its header line, with no empty residue line.
- A header is the line with its trailing `\n`/`\r` removed, `>` included.

## Model

| member | source | states |
|---|---|---|
| A2mFormat.GapCount | script/rm_a2m_query_gaps.py:102 | the query's gap count is at most its length, and is zero exactly when no character is `.` or `-` |
| A2mFormat.StripSpec | src/tools/readme.py:95 | `rstrip('\n\r')` keeps a prefix of the line, removes only `\n`/`\r`, and leaves no trailing terminator |
| A2mReader.ReadA2m | src/tools/readme.py:79-110 | the parse loop returns exactly the records of the grouping definition `Parse`: pre-header lines dropped, each header line owning the stripped lines up to the next header |
| A2mReader.HeaderOpens | src/tools/readme.py:96-102 | a header line seen before any record opens an empty record with that stripped line as header |
| A2mReader.HeaderCloses | src/tools/readme.py:96-102 | a header line inside a record appends that record, with its parts joined, and opens the next one |
| A2mReader.BodyLineExtends | src/tools/readme.py:103-104 | a non-header line inside a record adds its stripped text to the record's sequence |
| A2mReader.PreambleLineDropped | script/rm_a2m_query_gaps.py:31-32 | a non-header line before any header contributes nothing to the result |
| A2mReader.ParseHeaders | src/tools/readme.py:94-108 | there is one record per header line, in file order, and each header is that line with its terminator stripped |
| A2mReader.ParseEmptyIff | script/rm_a2m_query_gaps.py:34-38 | no record is read exactly when no line starts with `>` |
| A2mReader.ParseSkipsPreamble | script/rm_a2m_query_gaps.py:22-32 | lines before the first header line do not change the records read |
| A2mReader.ParseGroup | script/rm_a2m_query_gaps.py:22-36 | a header line and its following non-header lines read as one record: the stripped header and the stripped lines joined in order |
| QueryGaps.NonGapPositions | src/tools/readme.py:129-130 | there are as many retained columns as the query's length minus its gap count |
| QueryGaps.NonGapPositionsSpec | script/rm_a2m_query_gaps.py:57-58 | the retained columns are exactly the query's non-gap positions, in strictly ascending order |
| QueryGaps.Project | src/tools/readme.py:135 | projecting a record yields one character per retained column |
| QueryGaps.WithoutQueryGaps | src/tools/readme.py:123-138 | an empty list comes back unchanged; otherwise it fails exactly when some record is too short for a retained column; on success it keeps count, order and headers; each sequence has the query's non-gap length, character j is the record's character at column j, and the output query is gap-free |
| QueryGaps.RemoveQueryGaps | script/rm_a2m_query_gaps.py:41-66 | the append loop, stopping at the first record too short, computes exactly `WithoutQueryGaps` |
| QueryGaps.GapFreeQueryUnchanged | src/tools/readme.py:129-136 | with a gap-free query and every record as long as the query, the records come back unchanged |
| QueryGaps.Idempotent | script/rm_a2m_query_gaps.py:57-64 | removing query gaps from an already cleaned list changes nothing |
| A2mWriter.ChunksPrefix | script/rm_a2m_query_gaps.py:77-78 | the first m 80-character slices joined are the first 80·m characters of the sequence, or all of it |
| A2mWriter.ChunksLaw | src/tools/readme.py:152-154 | a sequence is written as ceil(len/80) lines of 1 to 80 characters, all but the last exactly 80, which join back to the sequence; an empty sequence gets none |
| A2mWriter.NextChunk | script/rm_a2m_query_gaps.py:77-78 | the slice `seq[i:i+80]` written at step i is the next chunk of the sequence |
| A2mWriter.WriteA2m | script/rm_a2m_query_gaps.py:69-78 | the write loop emits, record by record, the header line and then the chunk lines, each ending in a newline |
| A2mWriter.WriteThenRead | src/tools/readme.py:141-154 | reading back what was written recovers the records, provided every header starts with `>`, nothing contains `\n`/`\r`, and no chunk starts with `>` |
| A2mWriter.SequenceLinesReread | src/tools/readme.py:152-154 | the chunk lines of such a sequence are not header lines, and stripping and joining them gives the sequence back |
| CleanPipeline.CleanQueryGaps | script/rm_a2m_query_gaps.py:95-111 | there are no sequences exactly when there is no header line; when cleaned, the reported new length is the original length minus the original gap count, for the first record's header |
| CleanPipeline.ConvertCleanup | src/tools/readme.py:186-208 | the file is overwritten with the cleaned output only on success; with no records (warning) or an IndexError it is left as it was |
| CleanPipeline.ScriptMain | script/rm_a2m_query_gaps.py:92-116 | exit status 0 with the cleaned output written exactly when cleaning succeeds; status 1 and no output file otherwise, in particular when the input has no header line |
| CleanPipeline.CleanOutputRereads | src/tools/readme.py:199-205 | on input lines free of stray terminators and `>`, the written file reads back as exactly the filtered records |
| CleanPipeline.CleanTwice | src/tools/readme.py:186-205 | cleaning an already cleaned file rewrites it identically and reports zero query gaps and an unchanged length |

## Left out

- The `reformat.pl` and `plmc` subprocess calls, including their exit-status checks and logged output. They are external programs.
- Discovery of binaries and directories through environment variables, `shutil.which`, `os.path.exists` and `mkdir`. This is environment plumbing.
- The FastMCP tool wrappers `plmc_generate_model` and `plmc_convert_a3m_to_a2m`, and their result dictionaries.
- src/plmc_mcp.py is not part of this model. It only mounts the server.
- Opening, reading and writing files, `print` logging and `argparse`. Contents are lines in and strings out.
- How Python splits a file into lines: universal-newline translation, and a final line without a terminator, are not modelled.
- The `IndexError` message and traceback. The model only keeps that the call fails before anything is written.
- A2mWriter.WriteThenRead: holds only for rereadable records. A header or sequence containing a terminator, or a chunk starting with `>`, would be read back differently.
- CleanPipeline.CleanOutputRereads: stated for input lines whose stripped residue text holds no `>` or terminator, which is what makes the cleaned records rereadable.
- CleanPipeline.CleanTwice: stated for the same plain input lines as CleanOutputRereads.
