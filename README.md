# Requirements text-to-CSV miner, modelled in Dafny

`txt_to_csv_miner.py` turns the plain-text export of a NASA requirements
document (an SRD or ERD) into a CSV table. It reads the document as a list of
lines and looks at every line in turn. A line opens a requirement block when
it contains the document keyword and the lines two, three and four below it
contain the labels "Rationale", "Trace" and "Allocation". For each block the
miner writes one data row of nine columns:

1. the requirement ID, the leftmost match of `keyword-?\d+` on the anchor line;
2. the title, which is the words after the word holding the ID;
3. the requirement text;
4. to 6. the rationale, trace and allocation values;
7. the priority or verification value;
8. a flag set when the text has a digit and a unit marker;
9. a flag set when the text or the rationale mentions a domain word.

Before the first data row it writes the header rows. Line i+5 of that first
block decides how many: one when it carries "Priority" or "Verification",
two when it carries both, and none when it carries neither. Every field is
read from its line through the same normaliser, which drops characters that
are not ASCII and strips whitespace at both ends. The keyword and label
tests of lines 52, 53, 57, 59 and 93 read the raw line instead.

The project is organised like the program:

- `wrappers.dfy` holds `Option`.
- `text.dfy` (module `Text`) holds the Python string operations the miner
  uses: the ASCII filter, `strip`, `split`, `' '.join`, `in` and `lower`.
- `fields.dfy` (module `Fields`) holds the field extraction: the ID, the
  title, the label fields and column 7.
- `flags.dfy` (module `Flags`) holds the two flag loops, as methods proved
  against predicates.
- `miner.dfy` (module `Miner`) holds the row datatype and the scan. `Step`,
  `ScanFrom` and `Run` give its meaning as functions. The method `Mine` is
  the loop itself: it writes to a `RowWriter` object (the `csv.writer`) and
  is proved to write exactly the rows of `Run`.
- `miner_props.dfy` (module `MinerProperties`) describes a run without
  the scan. The description uses the valid anchors of the document and the
  first line that raises. From it follow the row count, the header rule, the
  contents of each data row and where an unbound title can occur.

An uncaught Python exception ends the run. The model keeps that behaviour:
a run ends with `Outcome(rows, error)`, where `rows` are the rows written
before the exception. There are three kinds of error:

- `LineOutOfRange`: an `IndexError` on `document[i+k]` past the end of the
  document;
- `NoRequirementId`: an `IndexError` on the empty list of ID matches;
- `TitleUnbound`: a `NameError` on a `col2` that was never assigned.

Within one line they come in the order the code evaluates them. First come
the lookups of line 53; the `&` there does not short-circuit, so all three
lines are looked up. Next comes line i+5, but only while no header has been
written (line 57). Then come the ID (line 68), line i+5 again (line 93) and
finally the read of `col2` (line 120). Where the title words miss the ID,
`col2` keeps the previous block's title, because it is a module-level
variable. The model carries that title in the scan state.

## Model

| member | source | states |
|---|---|---|
| Text.AsciiOnlyCorrect | RequirementsDocuments/txt_to_csv_miner.py:66 | the filtered line holds only characters below 128 and is a subsequence of the input |
| Text.AsciiOnlyKeepsAscii | RequirementsDocuments/txt_to_csv_miner.py:66 | the filter drops no ASCII character: each occurs as often as in the input, and no other character occurs |
| Text.TrimStartCorrect | RequirementsDocuments/txt_to_csv_miner.py:81 | `lstrip` removes a prefix of characters in the class and leaves a string that is empty or starts outside it |
| Text.TrimEndCorrect | RequirementsDocuments/txt_to_csv_miner.py:81 | `rstrip` removes a suffix of characters in the class and leaves a string that is empty or ends outside it |
| Text.TrimCorrect | RequirementsDocuments/txt_to_csv_miner.py:81 | `strip(c)` yields a contiguous slice of the input that does not start or end in the class, and everything dropped is in the class |
| Text.NormalizeCorrect | RequirementsDocuments/txt_to_csv_miner.py:66 | a normalised line is all ASCII, is a subsequence of the raw line and has no whitespace at either end |
| Text.TakeWordCorrect | RequirementsDocuments/txt_to_csv_miner.py:71 | the first word is a non-empty run of non-whitespace that starts the string and ends at whitespace or at the end |
| Text.SplitCorrect | RequirementsDocuments/txt_to_csv_miner.py:71 | `split()` yields non-empty words without whitespace, and yields none exactly when the line is all whitespace |
| Text.SplitContent | RequirementsDocuments/txt_to_csv_miner.py:71 | the line is the words of `split()` with whitespace gaps around and between them, the inner gaps non-empty, so the words are exactly its maximal runs of non-whitespace, in order |
| Text.SplitJoin | RequirementsDocuments/txt_to_csv_miner.py:73 | splitting the single-space join of a list of words gives back that list |
| Text.JoinInterleave | RequirementsDocuments/txt_to_csv_miner.py:73 | `' '.join` of a non-empty word list is the words with nothing before the first, nothing after the last and exactly one space between neighbours |
| Text.SplitSingle | RequirementsDocuments/txt_to_csv_miner.py:72-74 | a trimmed line with one word is that word |
| Text.ContainsAt | RequirementsDocuments/txt_to_csv_miner.py:52 | a string contains every slice of itself |
| Text.ContainsIndex | RequirementsDocuments/txt_to_csv_miner.py:52 | a string that contains `sub` has it at some index |
| Text.LowerCorrect | RequirementsDocuments/txt_to_csv_miner.py:114 | `lower()` keeps the length, turns each upper-case ASCII letter into the lower-case letter at the same place in the alphabet, changes no other character and is idempotent |
| Fields.DigitRunCorrect | RequirementsDocuments/txt_to_csv_miner.py:67 | `\d+` consumes digits only and stops at the first non-digit or at the end |
| Fields.MatchEndSound | RequirementsDocuments/txt_to_csv_miner.py:67-68 | a match found at `p` has the ID shape (keyword, optional dash, digits) and is not followed by a digit, so `\d+` is greedy |
| Fields.MatchEndComplete | RequirementsDocuments/txt_to_csv_miner.py:67-68 | whenever some text starting at `p` has the ID shape, a match is found at `p` |
| Fields.SearchFromCorrect | RequirementsDocuments/txt_to_csv_miner.py:68 | the search from `p` returns the first match at or after `p`, and none exactly when nothing matches there |
| Fields.FindIdCorrect | RequirementsDocuments/txt_to_csv_miner.py:68 | the span found has the ID shape, ends in a digit, is the leftmost match and ends where the digits do; there is none exactly when nothing matches |
| Fields.RequirementIdCorrect | RequirementsDocuments/txt_to_csv_miner.py:66-68 | `findall(...)[0]` on the normalised anchor line: the leftmost greedy match; `None` exactly when the line has no match |
| Fields.IdShapeEndsInDigit | RequirementsDocuments/txt_to_csv_miner.py:67 | an ID starts with the keyword and ends in a digit |
| Fields.TitleCorrect | RequirementsDocuments/txt_to_csv_miner.py:71-75 | there is a title exactly when the first or second word holds the ID; it is the words after the first such word, joined by single spaces, and splits back into them |
| Fields.TitleLookupsInRange | RequirementsDocuments/txt_to_csv_miner.py:71-75 | once an ID is found, `data2[0]` exists, and `data2[1]` is reached only when it exists |
| Fields.WordsHold | RequirementsDocuments/txt_to_csv_miner.py:71-74 | a trimmed line holding the ID has a word, and a one-word line's word holds the ID |
| Fields.NonSpaceHasWord | RequirementsDocuments/txt_to_csv_miner.py:71 | a line with a non-whitespace character splits into at least one word |
| Fields.LabelFieldWords | RequirementsDocuments/txt_to_csv_miner.py:81-90 | a label field is the words of the stripped label line after the first, joined by single spaces, and splits back into them |
| Fields.PriorityFieldWords | RequirementsDocuments/txt_to_csv_miner.py:93-97 | column 7 of a line marked "Priority" or "Verification" is the words after its label, joined by single spaces, and splits back into them; otherwise it is the empty string |
| Flags.NumericFlag | RequirementsDocuments/txt_to_csv_miner.py:101-108 | column 8 is true exactly when the text has a digit and contains some unit marker |
| Flags.KeywordFlag | RequirementsDocuments/txt_to_csv_miner.py:111-117 | column 9 is true exactly when some domain word, lowercased, occurs in the lowercased text or rationale |
| Miner.Cells | RequirementsDocuments/txt_to_csv_miner.py:58-60 | every row written has nine cells |
| Miner.RenderAppend | RequirementsDocuments/txt_to_csv_miner.py:120 | writing rows one after another is writing them all |
| Miner.RowWriter.constructor | RequirementsDocuments/txt_to_csv_miner.py:46 | a new writer holds no rows |
| Miner.RowWriter.WriteRow | RequirementsDocuments/txt_to_csv_miner.py:120 | `writerow` appends one row and changes nothing else |
| Miner.WriteHeader | RequirementsDocuments/txt_to_csv_miner.py:56-60 | writes a "Priority" header and then a "Verification" header, each only when line i+5 carries that marker |
| Miner.BlockRow | RequirementsDocuments/txt_to_csv_miner.py:77-117 | the data row holds the block's text, label fields, column 7 and both flags |
| Miner.Emit | RequirementsDocuments/txt_to_csv_miner.py:120 | after the call the writer holds the earlier rows and then the new one |
| Miner.MineLine | RequirementsDocuments/txt_to_csv_miner.py:50-53 | one iteration does what `Step` says: skip a line without the keyword or a failing shape, raise on lines past the end, otherwise process the block |
| Miner.MineAnchor | RequirementsDocuments/txt_to_csv_miner.py:55-61 | a block writes the header first when none has been written, raising when line i+5 is missing, and then sets `header` |
| Miner.MineBlock | RequirementsDocuments/txt_to_csv_miner.py:66-120 | ID, title, the i+5 lookup, the unbound-title error and the data row, as `BlockStep` says, with `col2` carried over |
| Miner.Mine | RequirementsDocuments/txt_to_csv_miner.py:47-120 | the loop writes exactly the rows of `Run` and ends with the error `Run` ends with |
| MinerProperties.AnchorsUpToCorrect | RequirementsDocuments/txt_to_csv_miner.py:50-53 | the anchors before line `i` are exactly the lines below `i` that open a block, increasing |
| MinerProperties.AnchorsPrefix | RequirementsDocuments/txt_to_csv_miner.py:50 | the anchors met so far are a prefix of those met later |
| MinerProperties.RunCorrect | RequirementsDocuments/txt_to_csv_miner.py:50-120 | a run fails exactly when some line raises, and then with the first such line's error; it writes the header rows of the first block followed by one data row per block before the failing line |
| MinerProperties.RunCleanRows | RequirementsDocuments/txt_to_csv_miner.py:50-120 | a run without an exception writes the first block's header rows and then the records of all anchors |
| MinerProperties.RunFailedRows | RequirementsDocuments/txt_to_csv_miner.py:50-120 | a run that raises at line `j` keeps the rows of the blocks before `j` and `j`'s own header rows |
| MinerProperties.RunFailedError | RequirementsDocuments/txt_to_csv_miner.py:50-120 | the error of a run that stops is the one its last line raises |
| MinerProperties.NoKeywordNoRows | RequirementsDocuments/txt_to_csv_miner.py:52 | a document without the keyword yields no rows and no error |
| MinerProperties.RunSplit | RequirementsDocuments/txt_to_csv_miner.py:56-120 | every run's rows are the header rows of the first block of a prefix of the anchors, followed by data rows only; in a clean run that prefix is all anchors and there is one data row per anchor |
| MinerProperties.RowCount | RequirementsDocuments/txt_to_csv_miner.py:50-120 | a run without an exception writes as many data rows as there are valid anchors, after the header rows |
| MinerProperties.HeadersForShape | RequirementsDocuments/txt_to_csv_miner.py:57-60 | at most two header rows, "Priority" before "Verification" |
| MinerProperties.HeaderOnce | RequirementsDocuments/txt_to_csv_miner.py:56-61 | in every run a header row comes only before all data rows, and two header rows are "Priority" then "Verification" |
| MinerProperties.DataRowsCorrect | RequirementsDocuments/txt_to_csv_miner.py:66-120 | in a clean run the `k`-th data row holds the fields of the `k`-th block and the ID found on its anchor line, which always yields one; its title is the one found there or else the previous row's title, and the first block's line always yields its title |
| MinerProperties.CleanLine | RequirementsDocuments/txt_to_csv_miner.py:50-120 | in a run without an exception no line raises |
| MinerProperties.AnchorsHaveIds | RequirementsDocuments/txt_to_csv_miner.py:66-68 | in a run without an exception every block's anchor line has an ID |
| MinerProperties.FirstAnchorHasTitle | RequirementsDocuments/txt_to_csv_miner.py:71-75 | in a run without an exception the first block's anchor line yields a title |
| MinerProperties.TitleUnboundOnlyFirst | RequirementsDocuments/txt_to_csv_miner.py:72-75 | an unbound title can occur only at the first block, whose line yields an ID but no title, and then only its header rows were written |
| MinerProperties.TitleUnboundLine | RequirementsDocuments/txt_to_csv_miner.py:72-75 | a line raises the unbound-title error only as the first block, with an ID and no title |

## Left out

- Prompts, file opening, `sys.exit` on a missing file, the final message
  and closing the files (lines 17-19, 38-45, 122-125) are I/O. The model
  takes the lines of the document and the keyword as parameters.
- `read().split('\n')` (line 40) is left out: the document is given already
  split into lines.
- CSV quoting and the file the writer writes to are not modelled. The
  writer is the list of cell lists it has been given.
- The keyword is matched as a literal string. Regular-expression
  metacharacters in a keyword are not given their regex meaning.
- Unicode: `isspace`, `isnumeric`, `\d` and `lower` are modelled on ASCII
  only. Every string they see has been through the ASCII filter, except the
  flag words, which are ASCII constants. Python's `strip()` also drops
  Unicode whitespace; the filter has already removed it.
- `keyword in document[i]` (line 52) and the label checks of line 53 look at
  the raw line, and the model does the same. Lines are sequences of
  characters, with no encoding.
- A block whose lines i+2 to i+5 run past the end of the document raises
  `IndexError` in the code. The model ends the run with `LineOutOfRange`
  and does not skip the block.
- `strip('[')` removes every leading and trailing `[`, as the code does,
  and the model follows that.
