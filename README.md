# ser2tcp-tester, modelled in Dafny

ser2tcp-tester checks a duplex byte link (a serial port or a TCP connection). It
sends a known byte pattern and checks that every byte that comes back is the
byte that was sent, in order. The heart of it is the `Generator`. Its FIFO
backlog holds the bytes handed out for transmission that are not yet confirmed.
`generate` appends a 100-byte all-zero chunk to the tail and returns it.
`validate` drains as many bytes from the head as it receives and compares them
position by position.

The project has four modules:

- `Backlog` (backlog.dfy) — the pattern and the backlog as values. `Validated`
  is one `validate` call on a backlog. `ValidateReads` is the receive loop
  validating successive reads. The lemmas relate them: validating in pieces is
  validating whole, reads round-trip, a changed byte is caught, and the zero
  pattern is checked.
- `PatternGenerator` (generator.dfy) — the `Generator` class. It has a
  `queue: seq<byte>` field, standing in for the `VecDeque<u8>`. `Create`,
  `Generate` and `Validate` update that field in place, and each is proved
  against `Chunk` and `Validated`. `Valid()` (every backlogged byte is zero)
  holds from construction on and every method keeps it.
- `Echo` (echo.dfy) — echo mode. A single generator is shared by the transmit
  and receive loops, and a mutex serialises every `generate` and `validate`
  call. So any run of the two loops over a perfect loopback is a sequence of
  these steps: generate a chunk; write some of it to the link; read up to 2048
  bytes from the link and validate them. `Next` is one such step on values and
  `Run` a whole schedule. `RunCoherent` proves that after any schedule the
  link plus the unwritten part of the chunk is exactly the backlog. Hence no
  validation ever fails, and the backlog size is bytes generated minus bytes
  validated. `Loopback` runs the same schedule on a real `Generator` and ends
  in the state `Run` describes.
- `Descriptor` (descriptor.dfy) — the string handling of `create_device` and
  `create_serial_device`. The `tcp:` / `serial:` prefix is dispatched on.
  Rust's `str::split(':')` is modelled as `Split`, with `Join` as its inverse.
  Rust's `str::parse::<u32>` is modelled as `ParseUint32`: an optional leading
  `+`, at least one ASCII digit, and an error above 2^32 - 1. `ParseDecimal`
  and `ParsedSpelling` together say exactly which strings it accepts and with
  what value: an optional `+`, any number of leading zeros, then the shortest
  decimal numeral (`Decimal`) of a value below 2^32. `Decimal` is therefore
  only a right inverse of `ParseUint32`: `"+007"` also parses to 7.
  Each panic of the source is an `Err` value.

Two behaviours of the code that the model follows in these respects:

- `validate` with more bytes than are backlogged panics inside `drain` before
  removing anything. It does not return an error. The model gives
  `Fail(DrainOutOfRange)` and leaves the backlog unchanged, and it keeps that
  failure apart from `ValueMismatch`.
- A failed validation is not reported by the receive loop. Its `unwrap`
  panics and ends the loop. `ValidateReads` stops at the first failure. The
  panic's further effect on the shared lock is under "Left out".

## Model

| member | source | states |
|---|---|---|
| Backlog.Chunk | src/main.rs:31 | a chunk is exactly 100 bytes, every one of them 0 |
| Backlog.Validated | src/main.rs:36-43 | passes iff the data equals the same number of oldest backlog bytes position by position; reports an out-of-range drain iff the data is longer than the backlog; otherwise the rest is the backlog with that prefix removed, whether or not the bytes matched; on an out-of-range drain the backlog is unchanged |
| Backlog.ValidateAppend | src/main.rs:37-38 | validating x + y passes iff validating x passes and then y passes against what x left, and both leave the same backlog |
| Backlog.ValidateReads | src/main.rs:86-90 | a run of reads, stopped by the first failed validation, passes iff everything read, in order, is the head of the backlog, and then leaves the backlog without that head |
| Backlog.SplitReads | src/main.rs:86-90 | validating a stream as consecutive reads of any lengths passes iff validating it whole passes, and then leaves the same backlog |
| Backlog.RoundTrip | src/main.rs:36-43 | a backlog read back in order, in any split, validates in full and leaves the backlog empty |
| Backlog.FlippedByteFails | src/main.rs:38-41 | changing any single byte of a correct read makes the validation fail with a value mismatch |
| Backlog.ZeroPattern | src/main.rs:31-38 | against an all-zero backlog a read passes iff it is all zero and no longer than the backlog |
| Backlog.GenerateCommutes | src/main.rs:32-37 | appending a chunk leaves a validation of bytes already backlogged unchanged (same verdict, same head removed) |
| PatternGenerator.Generator.Create | src/main.rs:24-28 | a new generator has an empty backlog |
| PatternGenerator.Generator.Generate | src/main.rs:30-34 | returns 100 zero bytes and appends exactly them to the tail; earlier bytes stay unchanged and in order |
| PatternGenerator.Generator.Validate | src/main.rs:36-43 | verdict and new backlog are those of `Validated` on the old backlog: pass iff the data is the head, which for the zero pattern means iff the data is all zero and no longer than the backlog; as many bytes removed as were received on pass and on mismatch; backlog unchanged when the drain is out of range |
| PatternGenerator.GenerateThenValidate | src/main.rs:253-258 | on a fresh generator, validating the chunk just generated passes and empties the backlog |
| Echo.ProduceKeepsCoherent | src/main.rs:66 | generating a chunk once the last one is fully written appends 100 zero bytes to both the backlog and the unwritten part, keeping them in step |
| Echo.TransmitKeepsCoherent | src/main.rs:67 | a partial write moves the next unwritten bytes onto the link in order, leaving link followed by unwritten bytes unchanged |
| Echo.ReceiveKeepsCoherent | src/main.rs:87-88 | a read of up to 2048 of the oldest link bytes validates as the head of the backlog and removes exactly those bytes from both |
| Echo.StepKeepsCoherent | src/main.rs:63-102 | each step of either loop (generate once the last chunk is written, a partial write, a read of up to 2048 bytes followed by its validation) keeps the backlog equal to the link followed by the unwritten rest of the chunk, all zero, with no failed validation |
| Echo.RunCoherent | src/main.rs:63-102 | under any lock-serialised interleaving of the two loops over a perfect loopback, no validation fails and the backlog is the link followed by the unwritten rest of the chunk |
| Echo.Loopback | src/main.rs:63-102 | running a schedule on a real generator ends in the state that schedule gives by `Run`; no validation fails; the final backlog is exactly the bytes on the link followed by the unwritten rest of the current chunk, all zero, and its length is bytes generated minus bytes validated, a whole number of chunks in total |
| Descriptor.Split | src/main.rs:135 | fields contain no separator, there is at least one, and joined with the separator they give back the string |
| Descriptor.SplitJoin | src/main.rs:135 | splitting separator-free fields joined by the separator gives back those fields |
| Descriptor.ParseUint32 | src/main.rs:137 | the empty string is rejected; anything accepted is an optional leading `+` followed by at least one ASCII digit and nothing else |
| Descriptor.ParseDecimal | src/main.rs:137 | an optional `+`, any number of leading zeros and then the shortest numeral of n parses to n iff n is below 2^32, and is rejected otherwise |
| Descriptor.ParsedSpelling | src/main.rs:137 | conversely, every accepted string is an optional `+`, some zeros and the shortest numeral of the value it parses to; with ParseDecimal this fixes the accepted strings and their values exactly |
| Descriptor.SerialConfig | src/main.rs:135-137 | the baud rate is missing iff there is no `:`; on success the device is the text before the first `:` and contains none |
| Descriptor.CreateDevice | src/main.rs:164-170 | unsupported iff the descriptor starts with neither `tcp:` nor `serial:`; a TCP device's address is the text after `tcp:`; a serial device comes from a descriptor starting with `serial:` |
| Descriptor.SerialDispatch | src/main.rs:166-167 | a `serial:` descriptor is decided by the serial split of the text after its first 7 characters |
| Descriptor.TcpDispatch | src/main.rs:164-165 | `tcp:` followed by any text selects TCP with that text as the address |
| Descriptor.SerialFields | src/main.rs:135-137 | for `serial:` and two or more `:`-separated fields, the device is the first field and the baud rate the second parsed as a `u32`; fields after it are ignored; a second field that is not a `u32` is rejected |
| Descriptor.CreateDeviceFormat | src/main.rs:164-169 | a TCP or serial descriptor spelt out from a device, with a device name free of `:`, reads back as that device |
| Descriptor.SerialExample | src/main.rs:183 | `serial:/dev/ttyUSB0:115200` selects serial port `/dev/ttyUSB0` at 115200 baud |
| Descriptor.TcpExample | src/main.rs:184 | `tcp:192.168.7.1:8000` selects TCP to `192.168.7.1:8000` |
| Descriptor.MissingBaudExample | src/main.rs:137 | `serial:COM1` is rejected for a missing baud rate |
| Descriptor.UnsupportedExample | src/main.rs:168-169 | `echo` given as a device is unsupported |

## Left out

- Threads, `Arc<Mutex<_>>` and the `AtomicBool` stop flag. `Echo.Loopback` captures only their lock-serialised effect on the shared backlog. Shutdown and joining the threads are not modelled.
- Mutex poisoning. A failed validation panics in the receive loop while the lock guard is still alive (src/main.rs:88), which poisons the mutex, so the transmit loop's next `lock().unwrap()` (src/main.rs:66) panics too and the generator is never used again. In the model `Generator.Validate` returns its verdict and the generator stays usable; `Echo.Loopback` counts failures instead of stopping, and proves there are none.
- `TcpStream` and `serialport` construction, their timeouts, `try_clone`, `write_all` and `read`. These are I/O through external libraries. `Echo.Loopback` replaces the link with a perfect in-order loopback that the schedule drives.
- Echo.Loopback: it never closes the link and never fails a write. The `exit(1)` on a write error and the 1 ms `thread::sleep` pacing are left out.
- Throughput reporting in the receive loop. It depends on wall-clock time and `f64` division.
- Logging with `println!`.
- Command-line parsing, the `echo` check on the second descriptor, the interrupt handler and the wait in `main`. This is glue around external crates.
- The bridging branch of `main`. It is `unimplemented!()`.
- The device tests that need external echo servers. They assert nothing beyond construction.
- Descriptor.CreateDevice: slicing by character stands in for Rust's byte slicing. The two agree because both prefixes are ASCII.
