# FHO random participant draw, modelled in Dafny

The script `FHO_Random_Participant_Script.py` draws attendees and alternates at random
from an RSVP table and writes the two groups to a timestamped spreadsheet. This project
models two parts of it.

- **The two-stage draw** (`select_random_rows`), in module `Selection`. The table is a
  sequence of entries. Each entry is a row with its index label. The table read from
  the file has the default index 0 .. n-1. If more rows are requested than the table
  holds, the draw refuses with `None`. Otherwise `sample` takes A attendees, `drop`
  removes them, and a second `sample` takes N alternates from the rest. The random
  generator is not modelled. Each draw is a parameter: the sequence of distinct
  positions the sampler picked, in the order it picked them (`IsDraw`).
  Every property proved for all draws holds for the draws the program makes.
  `EveryOutcomeReachable` shows that the model's outcomes are exactly the valid pairs
  of groups. That describes the model, not the script: the script seeds each `sample`
  call with `random.randint(0, 10000)`, so each stage can yield at most 10001 different
  groups.
- **The output file name** (`save_to_excel` and `main`), in modules `Strings` and
  `Export`. It is built in four steps:
  - take the last component of the input path (`PurePosixPath.name`);
  - keep the text before its first `.`;
  - append `_selected_` and the `YYYYMMDD_HHMMSS` timestamp;
  - append `.xlsx`.

  The moment of writing is a `DateTime` parameter. The timestamp is built from its
  fields with zero padding. Four of the operations have an inverse, proved against
  them: split with join, padding with decimal reading, the timestamp with its parser,
  and the file name with its parser. The path name and the base label drop text and
  have none; their contracts characterise them instead.

Files:
- `wrappers.dfy`: the `Option` type.
- `selection.dfy`: the draw.
- `strings.dfy`: `str.split` and `str.join`, the `pathlib` name, and zero-padded numerals.
- `export.dfy`: the timestamp and the file name.

The script has no banned list, no text normalisation, no degraded draw and no fallback
shuffle: when A + N exceeds the table it refuses (line 14).

## Model

| member | source | states |
|---|---|---|
| `Selection.SelectRandomRows` | FHO_Random_Participant_Script.py:9-27 | refuses (None) exactly when A + N exceeds the number of rows, so equality selects; on success A attendees and N alternates, each a row of the table under its own label, no label twice within a group, the two groups share no row, and together they are A + N different rows |
| `Selection.Sample` | FHO_Random_Participant_Script.py:19 | `sample(n)` returns n entries, each an entry of the frame sampled, and keeps labels distinct when the frame's are |
| `Selection.Drop` | FHO_Random_Participant_Script.py:22 | `drop(labels)` keeps exactly the entries whose label is not dropped (both directions) |
| `Selection.DropDistinct` | FHO_Random_Participant_Script.py:22 | the frame left by `drop` still uses each label once |
| `Selection.DropKeepsOrder` | FHO_Random_Participant_Script.py:22 | the entries left by `drop` keep their relative order (labels stay increasing) |
| `Selection.DropCount` | FHO_Random_Participant_Script.py:22 | dropping labels from a frame with distinct labels removes exactly one entry per dropped label that the frame holds |
| `Selection.DistinctLabelsCount` | FHO_Random_Participant_Script.py:19 | a sample whose labels are distinct holds as many different rows as entries, so no row is chosen twice |
| `Selection.RemainingIsTableMinusAttendees` | FHO_Random_Participant_Script.py:22-25 | `remaining_data` has len(data) - A rows: exactly the table's rows not chosen as attendees, in file order; every alternate is drawn from it |
| `Selection.ExactRequestSelectsEveryRow` | FHO_Random_Participant_Script.py:14-25 | when A + N equals the number of rows, the two groups partition the table: disjoint, and every row is in one of them |
| `Selection.EveryOutcomeReachable` | FHO_Random_Participant_Script.py:19-25 | any A distinct rows and N further distinct rows of the table are the result of some pair of the model's draws: the model's outcome set is exactly the valid pairs of groups |
| `Strings.Split` | FHO_Random_Participant_Script.py:61 | `str.split(sep)` gives at least one piece; no piece holds the separator; the first piece is the longest separator-free prefix |
| `Strings.JoinSplit` | FHO_Random_Participant_Script.py:61 | joining the pieces of a split with the separator gives back the string |
| `Strings.SplitJoin` | FHO_Random_Participant_Script.py:61 | splitting a join of separator-free pieces gives back the pieces |
| `Strings.PathName` | FHO_Random_Participant_Script.py:60 | `Path(p).name` has no `/` and is not `.`; it is empty exactly when every `/`-component is empty or `.`; otherwise it is the last component that is neither |
| `Strings.LastKeptEmpty` | FHO_Random_Participant_Script.py:60 | the path name is empty exactly when every component is empty or `.` |
| `Strings.LastKeptPosition` | FHO_Random_Participant_Script.py:60 | a non-empty path name is a component after which every component is empty or `.` |
| `Strings.ZeroPadded` | FHO_Random_Participant_Script.py:31 | a field of the timestamp is written with exactly `width` decimal digits |
| `Strings.ZeroPaddedValue` | FHO_Random_Participant_Script.py:31 | reading a zero-padded numeral gives back the number |
| `Strings.PaddedDecimalValue` | FHO_Random_Participant_Script.py:31 | every digit string is the zero-padded numeral of its own value, so padding is onto |
| `Export.Timestamp` | FHO_Random_Participant_Script.py:31 | `%Y%m%d_%H%M%S` always yields 8 digits, `_`, 6 digits (15 characters) |
| `Export.TimestampRoundTrip` | FHO_Random_Participant_Script.py:31 | parsing the timestamp of a moment gives back that moment |
| `Export.ParsedTimestampIsCanonical` | FHO_Random_Participant_Script.py:31 | a text that parses as a moment is that moment's timestamp, so timestamps and moments correspond one to one |
| `Export.BaseLabel` | FHO_Random_Participant_Script.py:61 | `name.split(".")[0]` has no `.`, is a prefix of the name, and is followed in the name by a `.` when shorter |
| `Export.OutputFileNameRoundTrip` | FHO_Random_Participant_Script.py:32 | `base + "_selected_" + timestamp + ".xlsx"` determines the base label and the moment |
| `Export.ExportFileName` | FHO_Random_Participant_Script.py:60-62 | the spreadsheet name has no `/`, so the file is written in the working directory; it is 30 characters longer than the base label, and it determines the base label of the input file and the moment |

## Left out

- Reading the tab-separated UTF-16 file with `read_csv` (line 11). This is file I/O. The rows are an input, and the model supplies the default index.
- The random choices: the `random.randint` seeds and the sampler's generator (lines 19, 25). Draws are inputs, and the model admits every valid draw. The script reaches fewer: each `sample` call is fixed by a seed from 0 to 10000, so at most 10001 groups per stage. Which outcomes the script can reach, and with what probability, is not modelled.
- The message printed on refusal (line 15), and the message printed after saving (line 43).
- Writing the two sheets with `pd.ExcelWriter` / `to_excel` (lines 34-41). This is file I/O. Only the file name is modelled.
- Reading the clock with `datetime.now()` (line 31). The moment is a parameter. Microseconds do not appear in the name.
- The file dialog and the `input()` prompts (lines 46-54), and the `int()` parsing (line 57). This is user interface. The counts are `nat`. With a negative count the script either refuses at line 14 (when A + N still exceeds the table) or makes pandas raise in `sample` (when A + N is at most the table size); neither path is modelled.
- `main` as a whole (lines 45-65) is not modelled. Its `None` check (line 59) cannot be reached on refusal: line 57 unpacks the result into two names, and unpacking `None` raises `TypeError` first.
- `Selection.Drop`: pandas raises `KeyError` when asked to drop a label the frame lacks. The model drops nothing for such a label. Here the labels always come from a sample of the same frame, so the error cannot arise.
- `Strings.PathName`: models POSIX `pathlib` only. Windows paths (backslash separators, drive letters) are not modelled.
- `Export.Timestamp`: always pads the year to four digits. Some platforms' `strftime` print years below 1000 without padding. The clock never gives such years in practice.
