# arxiver: the deduplicating, date-sharded JSON-lines writer

arxiver fetches recent arXiv papers per subject category and appends them
to one JSON-lines file per publication day, `data/<YYYY-MM-DD>.jsonl`.
A paper whose link is already stored is skipped. This project models that
writer, `save_to_jsonl`, with the `ArxivPaper` record it stores and the
`published` text (`"<date> <time>"`) that decides which file a record
goes into.

- `Timestamp.dfy` builds the `published` text from a formatted date and
  time. It also models Python's `str.split()` with no separator, with the
  whitespace set of `str.isspace`, and the two-way unpacking
  `date_part, time_part = published.split()`.
- `Download.dfy` holds the `ArxivPaper` record and the `data` directory.
  The directory is a map from a file's stem `<date>` to its lines. A line
  either decodes to a record or is malformed. The writer is the class
  `DataDir`, whose `files` map the methods update in place:
  - `ExistingLinks` is the first phase. Nested loops read every line of
    every file, in whatever order the files are listed, and collect the
    links.
  - `SaveToJsonl` is the whole call. After the scan, a loop over the papers
    appends each paper whose link the scan did not find to the file of its
    date. The method is proved equal to the specification function
    `SaveSpec`, built from `WriteAll`, the write loop as a function.
- `SaveProperties.dfy` proves what the writer guarantees.
  - Every file ends as its old lines followed by `NewLines`: the input
    papers with an unseen link and that date, in input order.
  - Stored links are not written again.
  - Each unseen paper goes to the file of its date and to no other file.
  - The directory only grows by appending.
  - Files with no new paper stay as they were.
  - The set of seen links is taken once, before the loop, so two input
    papers with the same unseen link are both written.
  - Saving the same papers twice changes nothing the second time, and the
    second call ends as the first did, whichever way that was.
  - Stored links stay unique when the input repeats no link.
  - Each error ends the call as the code does.

The record's `abstract` field is called `summary` here, because `abstract`
is a reserved word in Dafny. `summary` is also the name of the search
result's attribute that fills it.

Three behaviours of the code are worth stating plainly:
- A malformed stored line is not skipped. `json.loads` or
  `ArxivPaper(**entry)` raises, and nothing is written
  (download.py:65-66). The model returns `CorruptStore` and leaves the
  store unchanged.
- No retry exists, because the retry decorator is commented out
  (download.py:26).
- Stored links stay unique when the input repeats no link
  (`SaveKeepsLinksUnique`). One call stores two lines with the same link
  when its input repeats a link that is not yet stored
  (`DuplicateUnseenLinksBothWritten`).

## Model

| member | source | states |
|---|---|---|
| `Timestamp.Word` | src/arxiver/download.py:71 | the first word `split()` takes is a whitespace-free prefix of the text, ending at whitespace or at the end |
| `Timestamp.SplitPiecesAreWords` | src/arxiver/download.py:71 | every piece of `published.split()` is non-empty and holds no whitespace |
| `Timestamp.SplitPublished` | src/arxiver/download.py:43-49 | `f"{date_part} {time_part}"` built from non-empty, whitespace-free parts splits back into exactly `[date_part, time_part]` |
| `Timestamp.DatePartOfPublished` | src/arxiver/download.py:49-71 | saving recovers the date part the `published` text was built from |
| `Timestamp.DatePartRebuilt` | src/arxiver/download.py:71 | a text that unpacks into a date and a time has a non-empty, whitespace-free date, and rebuilding it with one space gives the same date |
| `Timestamp.SingleWordHasNoDatePart` | src/arxiver/download.py:71 | a non-empty text without whitespace, such as an unformatted `isoformat()` timestamp, splits into itself alone, so the two-way unpacking raises |
| `Download.FirstUnsplittable` | src/arxiver/download.py:69-71 | the index of the first paper whose `published` text does not unpack into two pieces, with every earlier paper unpackable |
| `Download.DataDir.ExistingLinks` | src/arxiver/download.py:61-67 | the scan succeeds exactly when every stored line decodes, and then returns the links of all stored records; otherwise it names a file holding a malformed line |
| `Download.DataDir.SaveToJsonl` | src/arxiver/download.py:60-79 | the new directory and the outcome are those of `SaveSpec`: scan first, then append unseen papers in order, stopping at the first bad `published` text |
| `SaveProperties.WriteAllLines` | src/arxiver/download.py:69-77 | each file ends as its old lines followed by the unseen papers of its date in input order, and exists afterwards iff it existed or received a line |
| `SaveProperties.NewLinesAreUnseenAndDated` | src/arxiver/download.py:70-77 | each appended line is an input paper whose link was not seen and whose date part names the file |
| `SaveProperties.NewLinesConcat` | src/arxiver/download.py:69-77 | the lines appended for two consecutive parts of the input are those of the first part followed by those of the second |
| `SaveProperties.UnseenPaperIsNew` | src/arxiver/download.py:73-77 | a paper whose link was not seen is among the lines appended to the file of its date |
| `SaveProperties.SeenLinksNotWritten` | src/arxiver/download.py:61-67 | no line appended to any file carries a link that was already stored |
| `SaveProperties.UnseenPaperGoesToItsDate` | src/arxiver/download.py:70-77 | a paper with an unseen link is appended to the file `data/<date_part>.jsonl` and to no other file |
| `SaveProperties.AppendOnly` | src/arxiver/download.py:75-77 | every existing file still exists and its previous lines are a prefix of its new contents |
| `SaveProperties.UntouchedFileUnchanged` | src/arxiver/download.py:69-77 | a file whose date is the date of no unseen paper is left exactly as it was, and is not created |
| `SaveProperties.NewPapersKeepInputOrder` | src/arxiver/download.py:69-77 | of two unseen papers for the same date, the earlier input paper's line comes first in the file |
| `SaveProperties.DuplicateUnseenLinksBothWritten` | src/arxiver/download.py:61-77 | the seen set is frozen before the loop, so two papers with the same unseen link are both appended, in order |
| `SaveProperties.AllSeenWritesNothing` | src/arxiver/download.py:74-79 | when every paper's link was seen, the write loop leaves the directory unchanged |
| `SaveProperties.WriteAllKeepsReadable` | src/arxiver/download.py:75-77 | appending records to a readable directory keeps every line readable |
| `SaveProperties.StoredLinksAfterWrite` | src/arxiver/download.py:61-77 | after the loop every previously stored link is still stored, and every input link was seen or is now stored |
| `SaveProperties.LineAfterWrite` | src/arxiver/download.py:69-77 | every record line after the loop is the line stored at that place before, or an input paper whose link was not seen |
| `SaveProperties.AppendKeepsLinksUnique` | src/arxiver/download.py:75-77 | appending a record whose link no stored record carries keeps all stored links unique |
| `SaveProperties.WriteAllKeepsLinksUnique` | src/arxiver/download.py:61-77 | with every stored link in the seen set and no link repeated in the input, the write loop keeps stored links unique |
| `SaveProperties.SaveKeepsLinksUnique` | src/arxiver/download.py:60-79 | a save whose input repeats no link leaves no two stored records sharing a link |
| `SaveProperties.SaveTwiceIsNoOp` | src/arxiver/download.py:60-79 | a second save of the same papers leaves the directory as the first left it and ends the same way: `Saved`, `CorruptStore`, or `BadTimestamp` at the same paper |
| `SaveProperties.SaveOutcome` | src/arxiver/download.py:60-79 | the call raises in the scan iff a stored line is malformed, writing nothing; it returns normally iff all lines decode and all texts unpack; after a bad text at index n, only the papers before n were processed |
| `SaveProperties.FetchedPaperFiledUnderItsDate` | src/arxiver/download.py:41-53 | a fetched paper, whose `published` text is built from its formatted date and time, is saved under that date |
| `SaveProperties.FirstSaveCreatesDateFile` | src/arxiver/download.py:60-79 | one new paper with link `L1` dated 2024-01-01, saved to an empty directory, creates only the file `2024-01-01`, which holds exactly that record |

## Left out

- The network fetch: `arxiv.Client`, `arxiv.Search` and `client.results` (download.py:29-36). This is a third-party client. `FetchedPaper` takes the fields of a search result as parameters.
- Date handling: `isoformat`, `datetime.fromisoformat` and `strftime` (download.py:41-44). The date and the time arrive as already-formatted strings.
- JSON encoding and decoding (download.py:65, 77). A stored line is the record itself (`Entry`) or an undecodable line (`Malformed`). A written record is assumed to decode back to itself.
- Field types of stored lines: `ArxivPaper(**entry)` checks no types, so the code accepts a line such as one with `"categories": "cs.CL"`; the model reads such a line as `Entry`. A line whose `link` is a JSON list or object makes `existing_papers.add` raise `TypeError` (download.py:67); the model reads it as `Malformed`. A `link` that is a number or `null` is not modelled, as links are strings here.
- Line boundaries: every stored file is assumed empty or ending in a newline, as every file the writer creates is. If a stored file's last line is a complete record without a final newline, the scan accepts it, the next append joins the new record onto that line, and the next call's `json.loads` raises "Extra data". The model always appends a separate line.
- SaveTwiceIsNoOp: holds only under the newline assumption above; in the code, a second save after appending to a file without a final newline raises in the scan.
- WriteAllKeepsReadable: holds only under the newline assumption above; in the code, appending to a file without a final newline makes its last line undecodable.
- File-system details: `glob`, `open`, and the failure when the `data` directory is missing (download.py:62-63, 75). The directory is a map keyed by the file stem. So the model does not capture that `glob` skips names that begin with `.`, or that a date part containing `/` names a file in a sub-directory. Neither can come from a `strftime` date.
- Console logging with `rich` (download.py:12, 28, 37, 79) and the unused `tqdm` import. These are output only. The skip path is modelled as writing nothing.
- The retry decorator. It is commented out (download.py:26).
- The subject loops in `main` (download.py:82-91) and in the `download` command (__main__.py:6-25). They only call fetch and then save for each subject.
- setup.py, which is packaging metadata.
