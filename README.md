# Serial humidity reader — stream decoder and reader loop

The program opens a serial port, sends a student identifier, and starts a
background thread that reads the device's text stream and keeps the latest
humidity reading in a slot shared with the GUI. The device sends records
such as `Humidity: 42%`: a label, a `:`, the value, and a `%` that ends the
record. This project models that reader thread (`start_receiving_data` in
`src/main.rs`) and proves what it does to the text it receives and to its
own state.

- `text.dfy` (module `Text`) models the Rust `str` operations the thread
  uses: `find`, `split(..).nth(..)`, `trim`, `trim_end_matches`, and the
  `char::is_whitespace` table. The functions carry only their bounds. A
  lemma next to each one states what it computes: the first occurrence for
  `find`, splitting as the inverse of joining, and trimming that drops only
  matching characters.
- `decoder.dfy` (module `Decoder`) covers the body of `while let
  Some(end_idx) = accumulated_data.find('%')`:
  - `Cut` frames a buffer into complete records and a rest;
  - `Extract` is the expression `split(':').nth(1).unwrap_or("").trim().trim_end_matches('%').trim()`;
  - `Frame` is one decode pass: append a chunk, cut every record, extract every value.
- `reader.dfy` (module `ReaderLoop`) covers the thread's `loop`:
  - `class Reader` has the loop's variables as fields. `residual` is
    `accumulated_data`, `timeoutCount` is `timeout_count`, `latest` is the
    shared slot, and `stopped` records that the loop has exited.
  - `Drain` is the inner `while let` loop over the positions of `%`.
  - `Step` is one iteration of the outer loop.
  - `Run` feeds the loop a finite sequence of read outcomes.
  - `Next` and `Replay` are the pure functions these methods are proved against.

Text is a sequence of Unicode scalar values. A chunk is the text that
`String::from_utf8_lossy` produced from the bytes of one `read`. `%` and `:`
are ASCII, so the byte offsets the Rust code slices at always fall on
character boundaries, and counting in characters gives the same records.

The code departs in three places from what a reader would expect from its
comments and from the record format. The model follows the code:

- **The value is the second field.** One might expect the value to be
  everything after the first `:`. The code takes `split(':').nth(1)`: the
  text between the first and the second `:`, or from the first `:` to the
  end when there is only one. For example, `T:1:2%` gives `1` (see
  `Decoder.FieldIsSecondPiece` and `Decoder.FieldIsSecond`).
- **The loop exits on the sixth consecutive timeout.** The comment at
  `src/main.rs:168` says five timeouts in a row end the loop. The test is
  `timeout_count > 5`, so the loop survives five and exits on the sixth
  (see `ReaderLoop.SixthTimeoutStops`).
- **Waiting text becomes part of the next record.** One might expect a
  read of `label:42%` after waiting text `r` to leave `r` in place and
  yield `42`. In the code, `r` becomes the front of the record, so nothing
  is left waiting afterwards (see `Decoder.FramePadded`).
  - When `r` holds no `:`, the value is `42`.
  - When `r` holds a `:`, the value is cut from the record `r` followed by
    `label:42%`. It runs from the first `:` in `r` to the next `:`. So
    `r = "x:"` gives `label`, and `r = "x:42:"` gives `42` again (see
    `Decoder.FieldIsSecond`).

## Model

| member | source | states |
|---|---|---|
| `Text.FindFirst` | src/main.rs:141 | `find` returns nothing exactly when the character is absent, and otherwise the index of its first occurrence |
| `Text.FindAt` | src/main.rs:141 | an index holding the character with no occurrence before it is what `find` returns |
| `Text.SplitJoin` | src/main.rs:146 | `split(':')` yields one more piece than there are separators, none of them holding a separator, and joining them with `:` gives the text back |
| `Text.TrimStartDrops` | src/main.rs:146 | trimming at the front drops only characters that match, and the first one kept does not match |
| `Text.TrimEndDrops` | src/main.rs:146 | `trim_end_matches` drops only matching characters at the back, and the last one kept does not match |
| `Text.TrimDrops` | src/main.rs:146 | `trim` drops only whitespace, and what it keeps neither begins nor ends in whitespace |
| `Decoder.FieldAt` | src/main.rs:146 | the field holds no `:`, is empty when the record has none, and otherwise runs from just after the first `:` to the next `:` or to the end |
| `Decoder.FieldIsSecondPiece` | src/main.rs:146 | the field equals `split(':').nth(1).unwrap_or("")`, computed by the independent split-then-index definition |
| `Decoder.FieldIsSecond` | src/main.rs:146 | for any record `label:field` followed by nothing or by another `:`, the field is `field` |
| `Decoder.FieldIsPiece` | src/main.rs:146 | any `:`-free run from just after the first `:` up to the next `:` or the end is the field |
| `Decoder.ValueSpanStrips` | src/main.rs:146 | `trim().trim_end_matches('%').trim()` removes only whitespace in front and only whitespace and `%` behind. What it keeps neither begins nor ends in whitespace, and it holds no `%` when the field has one at most at its end |
| `Decoder.StrippedUnique` | src/main.rs:146 | any two slices of a field that are stripped and clean in that sense hold the same text, so the value is determined by the field |
| `Decoder.ExtractClean` | src/main.rs:146 | the value is empty when the record has no `:`. It holds no `:`, neither begins nor ends in whitespace, and holds no `%` when taken from a complete record |
| `Decoder.FieldOfRecord` | src/main.rs:144-146 | in a complete record, the second field holds `%` at most as its last character |
| `Decoder.ExtractSecondField` | src/main.rs:146 | the value of a complete record `label:field…` is the stripped, clean slice of `field` |
| `Decoder.ExtractPadded` | src/main.rs:146 | the record `label:` followed by a value, whitespace around it and `%` yields exactly that value |
| `Decoder.CutFrames` | src/main.rs:139-157 | framing loses and invents nothing. The records, in order, followed by the rest give the buffer back. Each record ends in its only `%`, the rest holds no `%`, and there is one record per `%` |
| `Decoder.CutUnique` | src/main.rs:141-157 | any reading of a buffer as complete records followed by a `%`-free rest is the one framing produces |
| `Decoder.CutFirst` | src/main.rs:141-144 | the first record is the shortest prefix ending in `%`, and the remaining records are what the text after it frames into |
| `Decoder.CutSplitPoint` | src/main.rs:139-157 | framing `a + b` gives the records of `a`, then those of `a`'s rest followed by `b` |
| `Decoder.FrameKeeps` | src/main.rs:139-158 | after a pass no `%` is left waiting, the records and the new residual give back old residual plus chunk, and there is one value per `%` |
| `Decoder.FrameNoDelimiter` | src/main.rs:139-141 | a chunk without `%`, after a residual without `%`, yields no value and is appended whole |
| `Decoder.FrameSplitPoint` | src/main.rs:136-158 | two passes over two chunks give the same residual and the same values, in order, as one pass over their concatenation |
| `Decoder.FrameValues` | src/main.rs:141-149 | the k-th value of a pass is the value of the k-th record, and holds neither `:` nor `%` nor surrounding whitespace |
| `Decoder.SingleRecord` | src/main.rs:139-157 | a buffer that is exactly one complete record yields that record's value and an empty residual |
| `Decoder.FramePadded` | src/main.rs:139-157 | a buffer `label:`, then a value with whitespace around it, then `%`, yields `value` and an empty residual, whatever part of it was waiting before the read |
| `Decoder.FrameNoSeparator` | src/main.rs:146 | a complete record with no `:` yields the empty value |
| `Decoder.FrameTwoRecords` | src/main.rs:141-158 | `a:v1%b:v2%` in one pass yields `v1` then `v2` and leaves nothing waiting |
| `ReaderLoop.Reader.constructor` | src/main.rs:129-131 | the thread starts with an empty buffer and a zero counter, and the slot keeps what it holds |
| `ReaderLoop.Reader.Drain` | src/main.rs:141-158 | the inner loop leaves exactly the rest that framing the buffer gives, and the slot holds the value of the last record it cut, or its old content when none was cut |
| `ReaderLoop.Reader.Step` | src/main.rs:135-175 | one iteration takes the loop state to `Next` of it |
| `ReaderLoop.Reader.Run` | src/main.rs:132-177 | the loop fed with read outcomes ends in `Replay` of them, reads none after it exits, and stops early only by exiting |
| `ReaderLoop.ReplayStopped` | src/main.rs:169-172 | once the loop has exited, later outcomes change nothing |
| `ReaderLoop.NextGood` | src/main.rs:136-174 | one iteration keeps the buffer free of `%` and the counter within the limit while running and at most one over it once exited |
| `ReaderLoop.ReplayGood` | src/main.rs:132-177 | the same holds after any number of iterations |
| `ReaderLoop.StartGood` | src/main.rs:129-131 | the starting state satisfies it |
| `ReaderLoop.EmptyRead` | src/main.rs:161-163 | a read of zero bytes changes neither the buffer, the counter, the slot nor the running state |
| `ReaderLoop.ReadResets` | src/main.rs:136-159 | a read of some bytes sets the counter to 0 and leaves no `%` in the buffer, all text up to the last `%` having been cut into records |
| `ReaderLoop.SlotHoldsLast` | src/main.rs:141-149 | after a read the slot holds the value of the last record that read completed, earlier ones overwritten, or its old value when it completed none |
| `ReaderLoop.ReadWithoutDelimiter` | src/main.rs:139-141 | a read without `%` onto a buffer without `%` is appended whole and leaves the slot as it was |
| `ReaderLoop.ReplayReads` | src/main.rs:136-158 | however the same text is divided between successive reads, the loop ends with the buffer and slot that one pass over all of it gives |
| `ReaderLoop.OtherErrorStops` | src/main.rs:171-173 | an error other than a timeout ends the loop at once, whatever the counter |
| `ReaderLoop.ReplayTimeouts` | src/main.rs:164-170 | `n` timeouts in a row add `n` to the counter, capped at the limit plus one. The loop exits exactly when the counter passes 5, and the buffer and slot are unchanged |
| `ReaderLoop.SixthTimeoutStops` | src/main.rs:159-170 | after a read of some bytes, the loop survives five timeouts in a row and exits on the sixth |

## Left out

- The GUI (`eframe::App::update`, the port combo box, the buttons and labels, `src/main.rs:31-91`) is presentation and is not modelled.
- These thin wrappers over the serial port library are not modelled:
  - port enumeration (`serialport::available_ports`, `src/main.rs:22`);
  - `open_port`, `close_port` and `send_student_id` (`src/main.rs:95-123`).
- The concurrency around the loop is not modelled:
  - `thread::spawn`;
  - the `Arc<Mutex<..>>` locks on the port and on the slot;
  - the one-second `thread::sleep` (`src/main.rs:128, 134, 148, 176`).

  The slot is a field of `Reader`, written only by the loop. The GUI thread reading the slot concurrently is not modelled. The port lock held across the sleep is not modelled either.
- The port read is a parameter. Each read's outcome is given to `Step`, or to `Run` as a finite sequence. The buffer size of 1024 bytes and the port's timeout are not modelled.
- The loop runs forever until it exits. `Run` models a finite prefix of that run.
- `String::from_utf8_lossy` is not modelled (`src/main.rs:138`). A read is given as the text it decodes to. That text is non-empty exactly when the read returned bytes, which is all the model needs.
  - `ReaderLoop.ReplayReads` therefore states independence from the split points at the level of decoded text.
  - A multi-byte character split between two reads is decoded per read by the source, with replacement characters. The model does not capture that.
- The logging (`println!`, `eprintln!`) and `main`, with its unused `Arc<Mutex<f64>>` (`src/main.rs:186-196`), are not modelled.
- `ReaderLoop.Reader.Step` requires a loop that has not exited. After `break` the source runs no further iteration, so there is nothing to model.
