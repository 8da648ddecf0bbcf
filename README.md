# Student record store

A model of `main.c`, a console program that keeps a list of student records in memory. Each
record is a number, a first name and a last name. The user can add records, print them,
load them from a text file and save them to one. The program stops at menu option 0.

The Dafny project has four modules, one file each:

- `Students` (`students.dfy`): `struct Student` as a datatype. Also the rule for a name that
  fits a `char[20]`: one to 19 characters, none of them white space.
- `TextFormat` (`text_format.dfy`): the text behind the file operations.
  - `ScanInt`, `ScanName` and `ScanStudent` model the `fscanf` conversions `%d` and `%19s`
    over a `seq<char>`.
  - `ParseStudents` models the read loop.
  - `FormatStudent` and `Serialize` model the `"%d %s %s\n"` lines that `fprintf` writes.
  - The lemmas cover the save/load round trip, the line count of a saved file, truncation of
    long names, and a trailing incomplete triple.
- `Store` (`store.dfy`): class `StudentStore`, with the `students` buffer (an `array?`, NULL
  as `null`) and the `size` counter that `main` owns. Its methods `AddStudents`,
  `PrintStudents`, `LoadStudents` and `SaveStudents` model `addStudents`, `printStudents`,
  `getStudentsFile` and `writeStudentsFile`. Each is a loop proved against
  a function of the old contents: `Appended`, `Listing`, `ParseStudents` or `Serialize`.
- `Menu` (`menu.dfy`): the `do ... while (option != 0)` loop of `main`.
  - `Step` is one pass of the `switch`.
  - `Run` is the whole loop over a script of menu entries.
  - `RunMain` runs the loop on a `StudentStore` and is proved equal to `Run`.

The model replaces outside effects with parameters:

- The file system is a map from path to text. `fopen(path, "r")` fails exactly when the path
  is absent.
- Whether `fopen(path, "w")` succeeds is a flag on the menu entry.
- What the user types is the script of `Entry` values.
- The console output of option 2 is returned as a string.

Behaviour of `main.c` worth knowing:

- A negative count in `addStudents` shrinks the collection: the new size is the old size plus
  the count, and the records past it are dropped (`Store.Appended`).
- Printing an empty collection writes nothing.
- A menu option outside 0 to 4 is ignored and writes nothing.
- A menu token that is not a number makes `scanf` fail. `option` then keeps its initial
  value 0, so the program ends. In the model such a read is an entry with option 0. Running
  out of input is the end of the script, and it ends the loop the same way.
- Loading a file with no complete triple gives an empty collection and writes nothing.
- A file that cannot be opened for loading leaves the buffer NULL but keeps the old size
  (see Findings). The menu model uses the corrected load, which empties the store.

## Model

| member | source | states |
|---|---|---|
| `TextFormat.ScanInt` | main.c:165 | `%d` skips white space and then needs at least one digit: on success, strictly less text is left |
| `TextFormat.ScanName` | main.c:165 | `%19s` skips white space and then takes a word: on success the name is 1 to 19 non-space characters and strictly less text is left |
| `TextFormat.ScanStudent` | main.c:165 | a successful `"%d %19s %19s"` match yields a record with valid names and consumes text |
| `TextFormat.ParseStudents` | main.c:165-176 | the read loop stores only records whose names fit `char[20]` and contain no white space |
| `TextFormat.ScanIntOfText` | main.c:165 | `%d` reads back exactly the number that `%d` printed, and leaves the text after it |
| `TextFormat.LongWordTruncated` | main.c:165 | a word longer than 19 characters gives its first 19 characters, and the remainder stays in the input |
| `TextFormat.OverlongFirstNameShiftsFields` | main.c:165 | a first name of 20 to 38 characters is split: its tail becomes the last name, and the real last name is left for the next triple |
| `TextFormat.IncompleteTailDropped` | main.c:165-178 | saved lines followed by text that does not start with a complete triple load as exactly the saved records: the incomplete tail is dropped |
| `TextFormat.SerializeLineAt` | main.c:204-207 | line `i` of the saved file is record `i`, after the lines of records `0..i-1` |
| `TextFormat.SerializedLineCount` | main.c:204-207 | saving `n` records writes exactly `n` lines |
| `TextFormat.ScanFormatted` | main.c:206 | scanning one line as `fprintf` wrote it gives back the same record |
| `TextFormat.ParseSerialized` | main.c:165-176 | parsing saved records followed by any text gives those records, then what that text parses to |
| `TextFormat.RoundTrip` | main.c:206 | loading a file that was saved gives back the same records in the same order |
| `TextFormat.DigitsValueOfNatToText` | main.c:206 | the decimal digits printed for a number have that number as their value |
| `Store.Appended` | main.c:108-120 | the new size is old size plus count; the records that still fit are kept; new slot `i` holds number `i + 1` and the names typed for it |
| `Store.AppendedWellFormed` | main.c:111-118 | adding records with valid names keeps every name valid |
| `Store.Listing` | main.c:133-136 | printing writes something exactly when the collection is non-empty |
| `Store.ListingLineCount` | main.c:133-136 | printing `n` records writes exactly `n` lines |
| `Store.Realloc` | main.c:109 | `realloc` gives a new buffer of the requested length, holding the old elements that fit |
| `Store.GrowBy` | main.c:167-175 | one turn of the read loop appends the scanned record to the buffer |
| `Store.ReadStudents` | main.c:161-178 | the read loop leaves a buffer holding exactly the records `ParseStudents` finds, with a matching count; the buffer is NULL exactly when the count is 0 |
| `Store.StudentStore.constructor` | main.c:40-41 | the store starts with a NULL buffer and size 0, so it holds no records |
| `Store.StudentStore.AddStudents` | main.c:100-122 | the new contents are `Appended(old contents, count, names)`, and the store stays valid |
| `Store.StudentStore.PrintStudents` | main.c:131-137 | the console output is `Listing` of the contents |
| `Store.StudentStore.LoadStudents` | main.c:146-181 | loading a file replaces the contents with what the file parses to; a file that cannot be opened leaves the store empty (corrected behaviour) |
| `Store.StudentStore.LoadStudentsAsWritten` | main.c:154-159 | as written: when the file cannot be opened the buffer becomes NULL, the size is kept, and a non-empty store is left invalid |
| `Store.StudentStore.SaveStudents` | main.c:190-211 | the file holds `Serialize` of the contents when it can be opened, and nothing is written otherwise |
| `Store.SaveThenLoad` | main.c:58 | saving and then loading the same file leaves the store's contents unchanged |
| `Menu.Step` | main.c:47-67 | only options 1 and 3 change the records, only 4 changes the files, only 2 prints; any other option changes nothing; option 3 is the corrected load, which empties the records when the file cannot be opened |
| `Menu.RunKeepsRecordsWellFormed` | main.c:43-68 | whatever the user types, every record holds valid names |
| `Menu.OtherOptionsChangeNothing` | main.c:65-66 | a run made only of options outside 1 to 4 leaves the session as it was |
| `Menu.InputAfterExitIgnored` | main.c:68 | nothing typed after option 0 affects the outcome |
| `Menu.SaveThenLoadRestores` | main.c:57-63 | option 4 followed by option 3 on the same path restores the records |
| `Menu.Dispatch` | main.c:47-67 | one pass of the `switch` on the store is `Step` of the session; option 3 calls the corrected `LoadStudents` |
| `Menu.RunMain` | main.c:37-73 | the loop's final records, files and output are `Run` of the script; it reads entries up to and including the first option 0, or all of them; this is the loop with the corrected load of option 3 |

## Left out

- Prompts, the menu text and every notice (`printf` in `printMenu`, the error messages of the
  file operations, the save confirmation) are not modelled. The console output modelled is
  only what `printStudents` writes.
- `printMenu` and the other `scanf` calls (main.c:83-91, 106, 115, 117, 152, 194) are not
  modelled as parsers. The values they read are fields of `Entry`: the option, the count,
  the names and the path.
- `fopen`, `fclose` and the file system are not modelled. They are replaced by the `Files`
  map and the `writable` flag.
- `free(students)` at exit is not modelled: memory is not modelled.
- The `realloc` failure branch (main.c:169-174) is not modelled. Allocation always succeeds
  in the model, so the leak of the old buffer and the return of NULL are not modelled either.
- `Store.StudentStore.AddStudents`: requires `size + count >= 0`. A larger negative count
  makes `realloc` take a negative size, which converts to a huge `size_t`. That case is
  excluded rather than modelled.
- `Store.StudentStore.AddStudents`: requires names of 1 to 19 non-space characters. The plain
  `%s` in `addStudents` has no width, so a longer name overflows `char[20]`. That overflow
  is not modelled.
- `TextFormat.ScanInt`: the value is an unbounded integer. `%d` into a 32-bit `int` on
  overflow is not modelled.
- `%i` in `printMenu` and `addStudents` also accepts octal and hexadecimal input. The model
  takes the values already converted.
- `TextFormat.ScanName`: each `char` stands for one byte of the file or of the input, and the
  19-character limit of `%19s` and `char[20]` is counted in those. A name in a multi-byte
  encoding such as UTF-8 is cut by C after 19 bytes, and that is not modelled.
- `Menu.Step`: option 3 uses the corrected load (`Store.StudentStore.LoadStudents`). A file
  that cannot be opened gives an empty collection. As written, `main.c` keeps the old size with
  a NULL buffer, and that state cannot be continued meaningfully. That as-written case is
  modelled only by `Store.StudentStore.LoadStudentsAsWritten`, not by `Menu.Step`,
  `Menu.Dispatch`, `Menu.Run` or `Menu.RunMain`.
- `TextFormat.ScanName`: NUL characters inside a name are treated like any other character.
  In C they would end the string when it is printed.
- `inlcude/functions.h` holds only declarations, with no behaviour to model.

## Findings

| source | as written | input that shows it | evidently intended | confidence | as-written member | corrected member |
|---|---|---|---|---|---|---|
| main.c:155-159 and main.c:58 | when `fopen` fails, `getStudentsFile` returns NULL without touching `*size`, and `main` still assigns `students = NULL` | add two records (option 1, count 2), then option 3 with a path that does not exist, then option 2: `printStudents` reads `students[0]` through a NULL pointer with size 2 | the collection ends up empty (size 0), or stays unchanged, so buffer and size agree | not executed | `Store.StudentStore.LoadStudentsAsWritten` | `Store.StudentStore.LoadStudents` |
