# proc-modules, modelled in Dafny

A model of the `proc_modules` Rust library, which reads the Linux kernel's
list of loaded modules (`/proc/modules`). Each line of that file describes one
module as space-separated fields: name, size, use count, dependents, state,
load address, and optional taint annotations. The library keeps three of them:

* `Module::parse` turns one line into a `Module` record (name, size, the list
  of modules using it) or into one of its parse errors;
* `Module::parse_from` parses a batch of lines, stopping at the first error;
* `ModuleIter` reads the file one line at a time into a reusable buffer and
  yields the parse of each line; `Module::all` drains a fresh `ModuleIter`,
  stopping at the first error of any kind.

Files, one module each:

| file | module | what it holds |
|---|---|---|
| `wrappers.dfy` | `Wrappers` | `Option` and `Result` |
| `text.dfy` | `Text` | `str::split` on one character (`Split`), `Join`, and their round trips |
| `decimal.dfy` | `Decimal` | `u64` and `str::parse::<u64>()` (`ParseU64`) with its meaning and a render/parse round trip |
| `parser.dfy` | `Parser` | the `Error` kinds, the `Module` record, `Parse`, `UsedBy`, `Collect`, `ParseFrom` and the lemmas about them |
| `reader.dfy` | `Reader` | the `ModuleIter` class with `ReadLine` and `Next`, `Open`, `All`, and what the reader yields |
| `samples.dfy` | `Samples` | the library's unit test: four lines and the records they parse to |

How the model stands for the code:

* Strings are `seq<char>`. Rust's `split(' ')` and `split(',')` split on one
  character, so character-level splitting gives the same pieces.
* The Rust field `module` is called `name` here, because `module` is a Dafny keyword.
* Every error is an `io::Error` in the source. Here `Error` has one constructor
  per message — `MissingName`, `MissingSize`, `MissingUsedBy` and `InvalidSize` —
  and `Io(cause)` for an operating-system error whose kind is left opaque.
* The file is abstracted as the sequence of results its `read_line` calls
  return (`ReadOutcome`: the bytes of one line, terminator included, or a read
  error). Opening it is a `Source`: that sequence, or the open error. Each read
  consumes one outcome. Past the end, every read returns 0 bytes.
* `ModuleIter` is a class. Its fields are the stream, the reader's position in
  it and the line buffer. `Next` clears the buffer, calls `ReadLine` (which
  appends, like `read_line`) and yields `StepItem` of the position it read.
  `All` runs a `while` loop over `Next`. It is proved to return
  `Collect(Items(stream, 0))`: every record when all items succeed, otherwise
  the first failing item's error.
* `Chunks` is how `read_line` cuts a file's text into lines: each chunk ends
  after its `\n`, and the last chunk may lack one.

What the proofs establish, in the library's terms:

* The name is never missing. `split` always yields a first piece, so the
  "module name not found" branch cannot be taken. An empty line fails with
  "size not found". A successful parse's name is the text before the line's first space.
* A line's outcome depends only on its number of fields and on fields 0, 1
  and 3. The checks come in the source's order. Fewer than 2 fields fails with
  "size not found". 2 or 3 fields fails with "used_by not found", even when the
  size is not a number. Only then is the size converted. A failed conversion
  gives "module size is not a number", and no partial record is ever returned.
* The size is accepted exactly when it is an optional `+` followed by a
  non-empty run of ASCII digits whose value is at most 2^64 - 1. The digit
  loop checks for overflow at every step, and this is proved to equal one
  check of the final value.
* For the dependents field: the sentinel `-` gives no entries. Any other field
  gives its non-empty comma-separated pieces, in order and with repetitions
  kept, because dropping the empty pieces of a concatenation drops them from
  each part. No entry is empty or contains a comma, or a space. A doubled
  comma adds no entry. A trailing comma adds none, and neither does a leading
  comma unless what follows it is `-`. A field without empty segments is its
  entries joined by commas.
* `parse_from` succeeds exactly when every line parses. It then returns one
  record per line, in order. Otherwise it returns the error of the first line
  that fails.
* Every read that returns data or an error yields exactly one item, so neither
  a parse error nor a read error ends the iteration. Items stop at the first
  0-byte read. Over a stream of non-empty lines, `Module::all` gives what
  `parse_from` gives on the same lines.
* `next` passes the line to `parse` with its `\n`. On a line of five or more
  fields (every real `/proc/modules` line has six or more) the newline sits in an
  ignored field, so it changes nothing. On a line of exactly four fields it
  stays in the dependents, and `a 1 2 -` followed by a newline gives
  `used_by == ["-\n"]`, not `[]`.
* The four sample lines of the unit test parse to the four expected records.
  The trailing commas add no entry, the third line has exactly five
  dependents, and the `(POE)` annotation is ignored.

Some behaviour of the code may surprise a reader. The model follows the code:

* A line never fails for a missing name. The empty line fails for the missing size.
* The name is not checked to be non-empty. A line starting with a space parses
  with the empty name, and every later field shifts by one.
* The size may carry a leading `+`, because Rust's `u64` parser accepts one.
* After a read error the reader does not stop. The next call reads again, and
  here that means the next outcome of the stream. The iterator yields one
  error per failed read, and `Module::all` stops at the first one. A stream
  here is finite: after its last outcome every read returns 0 bytes.

## Model

| member | source | states |
|---|---|---|
| Text.Split | src/lib.rs:35 | `split` on one character yields at least one piece, and no piece contains the separator |
| Text.JoinSplit | src/lib.rs:35 | joining the pieces with the separator gives the original string back |
| Text.SplitJoin | src/lib.rs:61 | separator-free pieces, joined and split again, come back unchanged |
| Text.SplitWithoutSep | src/lib.rs:35-37 | a string without the separator is the single piece |
| Text.SplitAtFirstSep | src/lib.rs:35-37 | the first piece ends at the first separator and the rest is split on its own |
| Text.SplitTrailingSep | src/lib.rs:61-63 | a trailing separator adds exactly one empty piece at the end |
| Text.SplitAtSep | src/lib.rs:61 | the pieces on the two sides of a separator are split independently and concatenated |
| Text.SplitAvoids | src/lib.rs:61 | a character absent from the input is absent from every piece |
| Decimal.AccumulateMeaning | src/lib.rs:54 | checking for overflow at every digit fails exactly when the final value exceeds 2^64 - 1, and otherwise yields the decimal value |
| Decimal.ParseU64Meaning | src/lib.rs:54-57 | `parse::<u64>` succeeds exactly on an optional `+` and non-empty ASCII digits of value at most 2^64 - 1, and returns that value |
| Decimal.Accumulate | src/lib.rs:54 | the digit loop succeeds only when every remaining character is a digit, and never makes the accumulator smaller |
| Decimal.ParseU64 | src/lib.rs:54-57 | `parse::<u64>` succeeds only on a non-empty run of ASCII digits after an optional `+` |
| Decimal.Render | src/lib.rs:54-57 | the decimal notation that `parse::<u64>` reads: non-empty digits, no leading zero, whose value is the number |
| Decimal.ParseRender | src/lib.rs:54-57 | every `u64` rendered in decimal, with or without `+`, parses back to itself |
| Decimal.ParseRejectsOverflow | src/lib.rs:54-57 | a number above 2^64 - 1 is refused |
| Decimal.ParseRejectsSigns | src/lib.rs:54-57 | the empty string, a lone `+` and anything starting with `-` are refused |
| Parser.NonEmpty | src/lib.rs:61-64 | every kept piece is a non-empty piece of the input, every non-empty piece is kept, and all pieces are kept when none is empty |
| Parser.NonEmptyAppend | src/lib.rs:61-64 | filtering a concatenation filters each part, so the kept pieces keep their order and their repetitions |
| Parser.UsedBy | src/lib.rs:58-65 | the sentinel `-` gives no entries, and every entry is non-empty and comma-free |
| Parser.Parse | src/lib.rs:34-67 | a parse fails only with a missing size, a missing `used_by` or an invalid size, never a missing name |
| Parser.Collect | src/lib.rs:71 | fail-fast collection succeeds exactly when every item does, then keeps every value in order, and otherwise returns the first failure |
| Parser.ParseFrom | src/lib.rs:70-72 | `parse_from` succeeds exactly when every line parses, with one record per line in order, and otherwise returns the first failing line's error |
| Parser.ParseFromAll | src/lib.rs:70-72 | when each line parses to a given record, `parse_from` returns exactly those records |
| Parser.ParseFields | src/lib.rs:35-66 | on every line, viewed as its space-separated fields, the outcome is fixed by the field count and fields 0, 1 and 3, with errors in the order size, used_by, number |
| Parser.ParseRecord | src/lib.rs:52-66 | a line with a valid size parses to field 0, the value of field 1, and the dependents of field 3 |
| Parser.ParseIgnoresUnusedFields | src/lib.rs:47-50 | the use count and every field after the dependents have no effect |
| Parser.ParseShortLine | src/lib.rs:42-50 | two or three fields fail with "used_by not found", whatever the size field holds |
| Parser.ParseBadSize | src/lib.rs:54-57 | four or more fields with a size that is not a `u64` fail with "module size is not a number" |
| Parser.ParseNeverMissingName | src/lib.rs:35-45 | no line fails for a missing name, and a line without a space fails for a missing size |
| Parser.ParseName | src/lib.rs:35-40 | a parsed name is the text before the first space of the line |
| Parser.UsedByJoin | src/lib.rs:58-65 | non-empty comma-free entries joined by commas come back unchanged, unless the join is the sentinel |
| Parser.UsedByTrailingComma | src/lib.rs:61-64 | a trailing comma adds no entry |
| Parser.UsedByDoubledComma | src/lib.rs:61-64 | a doubled comma anywhere in the field adds no entry |
| Parser.UsedByLeadingComma | src/lib.rs:58-64 | a leading comma adds no entry, unless the rest of the field is the sentinel |
| Parser.UsedByRoundTrip | src/lib.rs:61-64 | a field without empty segments is its entries joined by commas |
| Parser.UsedByNoSpace | src/lib.rs:35-64 | entries taken from a space-split field contain no space |
| Reader.StepItem | src/lib.rs:98-105 | a step yields nothing exactly past the end or on a 0-byte read, and otherwise the read error or the parse of the line read |
| Reader.Items | src/lib.rs:98-105 | what `collect` draws from the reader: one item per outcome, the item of each outcome in order, ending at the first 0-byte read or at the end of the stream |
| Reader.ModuleIter.constructor | src/lib.rs:87-92 | a new reader is at the start of the stream with an empty buffer |
| Reader.ModuleIter.ReadLine | src/lib.rs:100 | a read appends the next line to the buffer and returns its length, returns the read error, or returns 0 at the end |
| Reader.ModuleIter.Next | src/lib.rs:98-105 | the buffer is cleared and then holds exactly the line read; the item is `None` on a 0-byte read, the read error, or the parse of that line; the reader advances by one read |
| Reader.Open | src/lib.rs:87-92 | opening yields a fresh reader at the start of the stream, or the open error |
| Reader.All | src/lib.rs:75-77 | `all` returns the open error, or the fail-fast collection of everything the reader yields |
| Reader.ItemsUntilEnd | src/lib.rs:98-105 | a corollary of the contract of `Items`: a run of data or error reads ending at a 0-byte read or at the end yields exactly one item per read, so parse and read errors do not end iteration |
| Reader.AllAgreesWithParseFrom | src/lib.rs:70-77 | over a stream of non-empty lines, draining the reader gives what `parse_from` gives |
| Reader.Chunks | src/lib.rs:100 | every line that `read_line` returns is non-empty |
| Reader.ChunksMeaning | src/lib.rs:100 | the lines concatenate to the file's text, hold no newline before their end, and all but the last end in a newline |
| Reader.FileItems | src/lib.rs:98-105 | reading a file yields the parse of each line, terminator included, and draining it equals `parse_from` on those lines |
| Reader.TerminatorIgnored | src/lib.rs:100-102 | on lines of five or more fields the newline passed to `parse` changes nothing |
| Reader.TerminatorInUsedBy | src/lib.rs:100-102 | on a four-field line with the sentinel, the newline stays in the dependents and gives `["-\n"]` |
| Samples.UsersWithTrailingComma | src/lib.rs:113-114 | any dependents list printed with a trailing comma parses back to exactly that list, including no dependents and a single `-` entry |
| Samples.Line1Parses | src/lib.rs:112 | the first sample line parses to `snd_hda_intel`, 40960, no dependents |
| Samples.Line2Parses | src/lib.rs:113 | the second sample line parses to `snd_hda_codec`, 126976 and its four dependents |
| Samples.Line3Parses | src/lib.rs:114 | the third sample line parses to `snd_hda_core`, 81920 and its five dependents |
| Samples.Line4Parses | src/lib.rs:115 | the fourth sample line parses to `nvidia_drm`, 40960, no dependents, ignoring `(POE)` |
| Samples.Line1Text | src/lib.rs:112 | the first sample line is the test's first line of text, character for character |
| Samples.Line4Text | src/lib.rs:115 | the fourth sample line is the test's fourth line of text, `(POE)` included |
| Samples.SampleText | src/lib.rs:112-115 | the first and fourth lines of `Sample` are the test's text |
| Samples.SampleParses | src/lib.rs:117-155 | `parse_from` on the four sample lines returns the four expected records, the third with exactly five dependents |

## Left out

- An endless run of read errors is not modelled: every stream is finite and ends in 0-byte reads. On such a file a `for` loop over `ModuleIter` never ends in the source, because `next` calls `read_line` again on every call. `Module::all` is unaffected, because it stops at the first error.

- Opening `/proc/modules` and `BufReader` (src/lib.rs:87-92) are real file I/O. The opened file is a `Source` parameter instead: the sequence of `read_line` results, or the open error.
- The `io::ErrorKind` and message of each error, and the kind of an operating-system error, are left out. Errors are the constructors of `Error`.
- The kind of `ParseIntError` (empty, invalid digit, overflow) is left out, because the library maps every kind to the same error.
- The buffer's initial capacity of 512 and the `Debug` formatting do not affect behaviour.
- `examples/example.rs` only prints the records of a `ModuleIter`.
- The unit test builds its lines with `str::lines()`, which strips the terminators. The sample lemmas parse those lines directly, each written as its fields joined by spaces and its dependents joined by commas.
- `read_line`'s UTF-8 check is left out. A read of invalid UTF-8 is a `ReadError` outcome of the stream.
- Reader.ModuleIter.ReadLine: on a read error nothing is appended to the buffer. `read_line` may have appended some bytes, but the buffer is cleared before it is used again, so no item depends on them.
- No bound is placed on the stream's length or on line length. Memory exhaustion is left out.
