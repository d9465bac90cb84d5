# SimpleNoteApp: the note list and its file format, in Dafny

SimpleNoteApp is a terminal note keeper written in C++ (`main.cpp`). Its core is
`LinkedList`, a doubly linked list of notes that:

- appends at the tail;
- deletes by code, walking from whichever end is numerically nearer to the code;
- renumbers every note to its 1-based position after each append or delete.

The list is saved to a text file as one `code,title,description` line per note
and loaded back at start-up.

This project models that core as pure functions:

- `wrappers.dfy`: the `Option` and `Result` types.
- `sequences.dfy`: a generic `FlatMap` over sequences.
- `decimal.dfy` (module `Decimal`):
  - `std::to_string` for `int`;
  - the parse `std::stoi` performs: C locale, base 10, leading white space skipped,
    one optional sign, the longest run of digits, the `int` range check.
- `utilities.dfy` (module `Utilities`): `utilities::closest`, `utilities::format` and
  `utilities::safe_stoi`, which maps both `stoi` exceptions to the sentinel `INT_MAX`.
- `note_list.dfy` (module `NoteList`):
  - the list as a `seq<Note>` read from head to tail;
  - `sanitize_codes`, `search`, `push_node`, `delete_note` (both scan directions),
    `fetchCodes` and `yieldCode`;
  - the two shell steps that use them: creating a note and deleting a note once its
    code is parsed.
- `store.dfy` (module `Store`):
  - `writeCSV` as the text it writes;
  - `readCSV` as a function from a starting list and the file's contents to the
    resulting list. It reproduces the `std::getline` splitting of the file into lines
    and of each line into three fields.

Properties proved:

- **Renumbering.** Codes read head to tail are `1..n` after every push and every delete
  (`Numbered`).
- **Append.** Pushing appends the note's title and description and leaves every earlier
  note unchanged.
- **Delete.** On a numbered list, deleting a valid code removes exactly that note,
  whichever end the scan starts from. The forward and backward scans stop at the same
  node whenever codes are distinct. Deleting an absent code changes nothing.
- **Round trip.** Writing a list and reading the text back yields the same titles and
  descriptions in the same order, renumbered. This holds when no title contains a comma
  or newline, every description is non-empty without a newline, and every code survives
  `safe_stoi`.

Details of `readCSV`, `safe_stoi` and `delete_note` that the model keeps:

- The description is the rest of the line after the second comma, commas included.
  A line whose description is empty is skipped. An empty title is accepted.
- A line whose code field spells `2147483647` is skipped like a line whose code does
  not parse. `safe_stoi` returns that same value as its failure sentinel
  (`SentinelCollision`, `SentinelLineSkipped`).
- `delete_note` renumbers even when no note carries the code. On a renumbered list this
  changes nothing (`DeleteAbsent`).
- `stoi` reads a code field such as `" 12abc"` as 12: it skips leading white space and
  ignores trailing characters.

## Model

| member | source | states |
|---|---|---|
| Utilities.Closest | main.cpp:63-66 | the result is `min` or `max`, is at least as near to the target as both, and is `min` on a tie |
| Utilities.ClosestOnDenseCodes | main.cpp:171-176 | on codes `1..n`, `min` is chosen exactly when `n == 1` or the target lies in the lower half (`2*target <= n+1`) |
| Utilities.Format | main.cpp:75-85 | the result is the decimal text of the integer with only '0's in front; its length is the padding, or the text's own length when that is longer (never truncated); for a non-negative integer the padded text still reads as the same value |
| Decimal.IntToString | main.cpp:266 | the decimal text written for a code is non-empty, starts with '-' exactly for negative values, and holds no comma or newline |
| Utilities.SafeStoi | main.cpp:87-103 | the result is an `int`; a successful `stoi` parse is returned as parsed, every `stoi` failure yields `INT_MAX`, and any result other than `INT_MAX` comes from a successful parse |
| Decimal.Stoi | main.cpp:87-91 | a successful parse is an `int`, and text holding no digit at all is `invalid_argument`; `StoiOfIntToString` pins the value read from any text `to_string` writes, and `StoiOfSignedDigits` the value of any digit string with or without a leading '-', leading zeros included |
| Decimal.StoiOfSignedDigits | main.cpp:87-91 | a non-empty digit string, with or without a leading '-', reads as its signed value when that lies within `int` and as out of range otherwise |
| Decimal.StoiOfIntToString | main.cpp:87-103 | `stoi` reads back every `int` that `to_string` writes, and reports out of range for the text of any value outside `int` |
| Utilities.SafeStoiOfIntToString | main.cpp:87-103 | `safe_stoi` returns every `int` from its own decimal text |
| Utilities.SentinelCollision | main.cpp:87-103 | the text of `INT_MAX` parses successfully, yet `safe_stoi` returns for it the same value it returns for the unparsable "abc" |
| NoteList.RenumberFrom | main.cpp:207-218 | the renumbering walk that starts with `value` gives the i-th note code `value + i` and leaves its title and description unchanged |
| NoteList.Renumber | main.cpp:207-218 | after `sanitize_codes` the codes are `1..n` head to tail, and the titles and descriptions are unchanged in order |
| NoteList.RenumberNumbered | main.cpp:207-218 | renumbering a list whose codes are already `1..n` returns it unchanged |
| NoteList.RenumberAppend | main.cpp:207-218 | renumbering, appending, then renumbering again gives the same list as appending, then renumbering once |
| NoteList.ScanForward | main.cpp:137-140 | the head-to-tail walk stops at the first position at or after its start whose code matches, or reports that no later note matches |
| NoteList.ScanBackward | main.cpp:176-181 | the tail-to-head walk along `prior_ref` stops at the last position whose code matches, or reports that none matches |
| NoteList.ScanEndsAgree | main.cpp:174-181 | when no two notes share a code, the head walk and the tail walk stop at the same node |
| NoteList.Search | main.cpp:133-143 | `search` finds nothing exactly when no note carries the code; otherwise it returns a note carrying the code with no earlier note carrying it |
| NoteList.SearchNumbered | main.cpp:133-143 | on a renumbered list `search(k)` returns the k-th note when `1 <= k <= n` and nothing otherwise |
| NoteList.Push | main.cpp:145-165 | `push_node` grows the list by one, leaves it renumbered, and its titles and descriptions are the old ones followed by the new note's |
| NoteList.PushNumbered | main.cpp:145-165 | on a renumbered list every existing note stays exactly as it was and the new note is appended at the tail under code `n+1` |
| NoteList.YieldCode | main.cpp:235-238 | `yieldCode()` is positive; on a renumbered list no note carries it and every code in use is smaller |
| NoteList.YieldCodeLeastUnused | main.cpp:235-238 | on a renumbered list every positive code below `yieldCode()` is in use, so it is the least unused code |
| NoteList.FetchCodes | main.cpp:220-233 | `fetchCodes` yields one decimal text per note, in list order |
| NoteList.FetchedCodesFindTheirNotes | main.cpp:440-450 | on a renumbered list shorter than `INT_MAX`, the i-th text `fetchCodes` offers reads back through `safe_stoi` as `i+1`, and `search` finds the i-th note with it |
| NoteList.RemoveAt | main.cpp:185-196 | unlinking the node at position i keeps the nodes before it and shifts those after it up by one |
| NoteList.StartsAtHead | main.cpp:171-176 | the walk starts at the head exactly when the target is at least as near to the head's code as to the tail's |
| NoteList.Locate | main.cpp:171-183 | the directional walk of `delete_note` stops at a note that carries the code, and finds nothing exactly when no note carries it |
| NoteList.DeleteNote | main.cpp:167-205 | after `delete_note` the list is renumbered; when the code is present the list is one shorter and its titles and descriptions are the old ones minus those of a note that carried the code; when absent they are unchanged (an empty list included) |
| NoteList.DeleteExisting | main.cpp:167-205 | on a renumbered list, for a valid code k both walks stop at position k-1, and the result is the list without that note, renumbered |
| NoteList.DeleteAbsent | main.cpp:169-204 | on a renumbered list, deleting a code no note carries returns the list unchanged |
| NoteList.DeleteThenSearch | main.cpp:167-205 | after deleting code k, `search(k)` finds the note that followed the deleted one (now numbered k), or nothing if the deleted note was the tail |
| NoteList.StartsAtHeadOnNumbered | main.cpp:171-176 | on a renumbered list the delete walk starts at the head exactly when the list has one note or the code lies in the lower half of `1..n` |
| NoteList.CreateNote | main.cpp:430-432 | creating a note leaves the list renumbered and one longer, appends the new title and description, and reports the new note's position, `n+1`, as its code |
| NoteList.CreateNoteNumbered | main.cpp:430-434 | on a renumbered list the created note is appended exactly as built, and the reported code `n+1` is its position |
| NoteList.RemoveNote | main.cpp:450-458 | deletion is reported exactly when some note carries the code; if none does the list is untouched; otherwise it is one shorter, renumbered, and its titles and descriptions are the old ones minus those of a note that carried the code |
| NoteList.RemoveNoteNumbered | main.cpp:446-458 | on a renumbered list a deletion is reported exactly for codes `1..n`, and then the result is the list without the note at that position, renumbered |
| NoteList.OperationsKeepNumbering | main.cpp:317-330 | any sequence of note creations and removals keeps the codes `1..n` |
| Store.FirstIndex | main.cpp:293 | the first position at or after the start holding the delimiter, with no earlier such position; or nothing when none holds it |
| Store.SplitLines | main.cpp:288 | the lines read from the file contain no newline, and a non-empty text without a newline is one line |
| Store.SplitLinesLast | main.cpp:288 | a final line with no newline after it is still read, after all the newline-terminated lines |
| Store.SplitJoinLines | main.cpp:264-288 | newline-free lines written one per line are read back as exactly the same lines |
| Store.ParseLine | main.cpp:293-294 | fields, when a line yields them, take up the whole line but two characters (the two commas): the code and title hold no comma and the description is non-empty |
| Store.ParseLineSplits | main.cpp:293-294 | when a line yields fields, the line is `code,title,description`: the code and title hold no comma and the description is non-empty |
| Store.ParseJoinedFields | main.cpp:293-294 | `code,title,description` yields exactly those three fields when the code and title hold no comma and the description is non-empty (the converse of `ParseLineSplits`) |
| Store.ParseNote | main.cpp:293-299 | a line without fields is dropped; a kept note carries a code that is an `int` other than `INT_MAX`, and the line's title and description |
| Store.ParseNoteKeeps | main.cpp:293-299 | a line is kept exactly when it yields fields and `stoi` parses its code field to an `int` other than `INT_MAX`; the kept note carries that value, the title and the description |
| Store.SentinelLineSkipped | main.cpp:296-297 | a line whose code field is the text of `INT_MAX` is dropped, whatever follows the first comma |
| Store.ReadLine | main.cpp:290-300 | a dropped line leaves the list as it was; a kept line grows it by one, keeps it renumbered and appends the note's title and description |
| Store.ReadLines | main.cpp:288-301 | the loop adds exactly one note per kept line and keeps a renumbered list renumbered |
| Store.ReadCSV | main.cpp:275-304 | a file that cannot be opened leaves the list as it was; otherwise the list grows by the number of kept lines |
| Store.ReadLinesRenumbers | main.cpp:288-301 | reading into a renumbered list gives that list followed by the kept notes in file order, renumbered |
| Store.RecordLine | main.cpp:266-268 | the first comma of a written line ends the code's text, and the line holds no newline unless the title or description does |
| Store.ParseRecordLine | main.cpp:266-299 | the line written for a storable note is read back as that very note |
| Store.WriteCSV | main.cpp:252-273 | when no title or description holds a newline, the text written splits back into exactly one `code,title,description` line per note, in list order |
| Store.RoundTrip | main.cpp:252-304 | writing storable notes and reading the file into an empty list gives the same titles and descriptions in order, with codes `1..n` |
| Store.RoundTripNumbered | main.cpp:252-304 | for a renumbered list shorter than `INT_MAX` whose titles have no comma or newline and whose descriptions are non-empty without a newline, writing then reading gives back the identical list |
| Store.SkipsMalformedLine | main.cpp:288-301 | a skipped line does not stop the load: every storable note written before and after it is read back, in order |
| Store.BadLineSkipped | main.cpp:293-294 | "bad,line" has a single comma, so it yields no fields and is skipped |
| Store.GroceriesExample | main.cpp:288-301 | the lines `1,Groceries,Buy milk`, `bad,line` and `2,Meeting,Standup at 9` load as exactly the notes "Groceries" (code 1) and "Meeting" (code 2) |

## Left out

- The interactive shell: `fetch_input`, `printInstructions`, `display_all`, `lower`, the screen clearing and the `goto`-driven menu in `main`. These are console I/O and presentation; only the list operations they call are modelled.
- `handleAction`: the five-second sleep and `std::exit(15)` are process side effects.
- File handling. On a failed read-open the program creates an empty file; `ReadCSV` models that case only as "the list is unchanged". On a failed write-open the program writes nothing; `WriteCSV` gives only the text a successful write produces. Text-mode newline translation is not modelled.
- Node ownership: `shared_ptr`, `new`/`delete`, `explode`. The list is an immutable sequence, so the `length` field is its length by construction.
- Closest: uses unbounded integers. A signed overflow of `target - min` or `target - max` (undefined in C++) is not modelled. It needs a target near the `int` limits, and the shell only passes codes drawn from `fetchCodes`.
- Renumber: the `int` counter of `sanitize_codes` would overflow past `INT_MAX` notes. Codes here are unbounded, so such a list is not modelled.
- YieldCode: the conversion of `length + 1` from `size_t` to `int` is not modelled. Lists of `INT_MAX` notes or more are out of scope.
- Format: `padding` is a natural number. In the source, a negative padding converts to a huge unsigned bound in the length comparison, so the loop would not stop. The only caller passes 5.
- Stoi: models the "C" locale only; other locales' white-space classes are not modelled.
- Messages and characters: the error messages `safe_stoi` prints (main.cpp:95, 99) and the open-failure messages of `writeCSV` and `readCSV` (main.cpp:258, 281) are console output and are dropped. C++ byte strings are modelled as sequences of Dafny `char`, one character per byte; multi-byte encodings are not modelled.
