# ttycat: argument parsing and the relay loop, in Dafny

ttycat connects the terminal it runs in to another terminal device. Its
`main` opens the device named by its one argument. It then relays bytes in
both directions. Bytes from stdin go to the device through a 512-byte output
buffer `obuf`, of which `obuf[offset..obuf_size)` is still pending. Bytes
from the device are copied to stdout. A companion file, `args.c`, holds
`parse_char` and `parse_args`. `parse_char` decodes stty-style character
notations (`x`, `^X`, `^?`, `M-x`). `parse_args` scans an argv of stty-like
directives (`+flag`, `-flag`, `-vname`, `+vname X`, `--`, `-attach`, one
device name). It edits a terminal configuration as it goes.

The model has two modules:

- `Args` (`args.dfy`) models `args.c`.
  - `ParseChar` is a pure function. Whether C `char` is signed is an
    explicit parameter.
  - `Notation` prints a byte in that notation, and `NotationRoundTrip` reads
    it back.
  - `parse_args` has two forms. The first is a specification: `ArgStep`
    takes one pass of the loop body, and `ScanFrom`/`Run`/`Parse` fold it
    over argv. The second is the method `ParseArgs`. Its `while` loop is
    proved equal to that fold.
  - Lemmas state what each kind of directive does, at any position of argv.
    `ScanAppend` adds that a successful prefix composes with whatever
    follows.
  - The four flag words of `struct termios` (three of which parse_args can address) are modelled as sets of bit
    positions, so `|=` is union and `&= ~` is difference.
  - `c_cc` is a map from slot names to bytes.
- `TtyCat` (`ttycat.dfy`) models the loop in `ttycat.c`.
  - The operating system is an `Oracle`: which descriptors `select` reported
    ready, what the two `read`s returned and what the `write` returned.
  - `Iterate` is one pass of the loop on a value `Relay`. The value records
    `obuf`, `obuf_size` and `offset`, plus the history: bytes read from
    stdin, bytes the device accepted and bytes echoed.
  - `RelayLoop` is a class holding the `obuf` and `ibuf` arrays and the two
    counters. Its `Step` method updates them in place and is proved equal
    to `Iterate`.
  - The invariant `Inv` says three things. First, `obuf` holds 512 bytes
    and 0 <= offset <= obuf_size <= 512. Second, the bytes delivered
    followed by the pending slice are exactly the bytes read from stdin:
    nothing lost, nothing duplicated, order kept. Third, `obuf[..offset]`
    is the last `offset` bytes the device accepted, which is what shows the
    byte sent twice after a failed write.

The loop treats a failed read from the device like end of file and exits 0
(ttycat.c:40-43). A failed read from stdin is not handled that way: the code
stores the -1 in `obuf_size` and keeps running, which breaks
0 <= offset <= obuf_size. A failed write is likewise added to `offset`.
`IterateAsWritten` models the code as written. `Iterate` models the
corrected behaviour, which the rest of the model uses. See Findings.

## Model

| member | source | states |
|---|---|---|
| Args.ParseChar | args.c:63-112 | the result is -1 or a value in [-0x80, 0x100); where char is unsigned, never negative except -1 |
| Args.MetaAloneRejected | args.c:69-74 | `M-` alone is rejected with -1 |
| Args.CaretNotation | args.c:75-102 | for every byte c, `^?` is 0x7F, `^c` is c - 0x40 for c in 0x40..0x5F and -1 otherwise; a lone `^` is `^` itself |
| Args.TooManyCharacters | args.c:75-92 | more than one character after the optional `M-` and `^` prefixes is rejected |
| Args.PlainCharacter | args.c:89-92 | a single character other than `^` stands for itself, read as a C char: negative for bytes 0x80..0xFF when char is signed |
| Args.MetaAddsHighBit | args.c:104-111 | `M-t` is parse_char(t) + 0x80 when that is a value below 0x80, and -1 otherwise; this holds for every t that does not itself start with `M-` (only one `M-` is stripped), except the literal byte 0xFF on signed char, which alone reads as -1 while `M-` accepts it as 0x7F |
| Args.ResultRange | args.c:104-111 | on ASCII input (or unsigned char), successful results are bytes; on ASCII input a result is at least 0x80 exactly when the `M-` prefix is present |
| Args.SignednessIrrelevantForAscii | args.c:84-92 | ASCII notations decode the same whatever the signedness of char |
| Args.SignednessMatters | args.c:84-111 | on signed char, `M-\xE9` is accepted as 0x69 and a lone 0xFF byte is indistinguishable from the error; on unsigned char the reverse |
| Args.NotationRoundTrip | args.c:63-112 | every byte value has an ASCII notation that parse_char decodes back to that value, on either signedness |
| Args.FirstMatchSpec | args.c:134-140 | the table scan with `break` stops at the first row with that name, or at the end when there is none |
| Args.LookupSpec | args.c:134-140 | a lookup fails exactly when no row has the name; a value found belongs to a row with that name |
| Args.Search | args.c:134-140 | the scan loop returns the value of the first row with that name |
| Args.FindFlag | args.c:134-155 | the three scans of iflags, oflags and lflags, each match overriding the earlier ones, pick the field and mask of FlagLookup |
| Args.NameShapes | args.c:17-62 | flag names start with e, i, o or t; control-character names start with v; all have at least four letters |
| Args.NoSuchName | args.c:17-62 | a name too short or with another initial (such as `attach`) is in no table |
| Args.CcNamesDistinct | args.c:167-188 | the control-character names are distinct, so the scan without `break` acts on one row at most |
| Args.Put | args.c:156-158 | writing the selected field replaces exactly that field; the other flag words, cflag and c_cc are unchanged |
| Args.Update | args.c:159-162 | after OR-ing the mask in every mask bit is set; after AND-ing its complement every mask bit is clear; all other bits are unchanged |
| Args.UpdateLastWins | args.c:159-162 | of two directives for the same mask, the later one alone decides the result |
| Args.SetFlagEffect | args.c:156-163 | a flag directive sets or clears the mask in its own field and leaves every other bit, field and control character unchanged |
| Args.ArgStep | args.c:120-202 | one pass of the loop body moves forward within argv; it sets the device name only to the current argument, and sets attach only for `-attach` |
| Args.OptionStep | args.c:128-197 | an option argument never changes the device name or end-of-options, and sets attach only for `-attach` |
| Args.CcStep | args.c:167-189 | a control-character directive that fails leaves the state unchanged; one that succeeds changes exactly its own c_cc slot, to _POSIX_VDISABLE for `-vname` (continuing at i + 1), and for `+vname` continues after the value argument |
| Args.CcByte | args.c:179 | the int from parse_char is stored as a cc_t by C's conversion to unsigned char: a byte keeps its value, a negative signed-char value gains 0x100 |
| Args.TakeFile | args.c:121-125 | a filename is taken exactly when no device name is set yet, and then continues with the next argument; otherwise the scan fails with the state unchanged |
| Args.ScanFrom | args.c:120-202 | the rest of the loop from argv[i], as a fold of the loop body; no directive names cflag, so it is never changed |
| Args.Run | args.c:116-202 | the whole loop from argv[1] with no device, no attach and end-of-options off; cflag is unchanged |
| Args.Parse | args.c:113-204 | parse_args' result: 0 or -1, with the configuration, device name and attach flag as the loop left them; cflag is unchanged |
| Args.ParseOption | args.c:128-197 | the option branch of the loop body, as statements, computes OptionStep |
| Args.ParseArgs | args.c:113-204 | the loop over argv returns the result, configuration, device name and attach flag of the specification Parse |
| Args.NoArguments | args.c:116-120 | with no arguments the result is 0, the configuration is unchanged, the device is NULL and attach is 0 |
| Args.StepExtends | args.c:120-202 | a pass that succeeds reads nothing beyond argv, so it is the same pass on any extension of argv |
| Args.ScanAppend | args.c:120-203 | a scan that succeeds on a prefix of argv leaves the scan of the whole argv at the end of that prefix, in the prefix's final state |
| Args.RunAppend | args.c:120-203 | a successful parse of a prefix, continued over the remaining arguments, is the parse of the whole argv |
| Args.FlagDirective | args.c:134-163 | `+name` / `-name` for a mode flag applies SetFlag and continues with the next argument, at any position and in any state |
| Args.OptionKeepsBits | args.c:128-197 | an option argument that names no flag of field f sharing a bit with m leaves those bits of f unchanged |
| Args.StepKeepsBits | args.c:120-202 | a pass over an argument that names no flag of field f sharing a bit with m leaves those bits of f unchanged |
| Args.LaterArgsKeepBits | args.c:120-203 | the rest of the scan leaves the bits m of field f unchanged when no remaining argument names a flag of f sharing a bit with m |
| Args.LastFlagDirectiveWins | args.c:120-163 | directives apply in argv order, so the last one naming a mask decides it: after `+name` all its bits are set, after `-name` all are clear, whatever arguments come in between and whether or not the scan succeeds |
| Args.DisableDirective | args.c:167-171 | `-vname` sets that slot to _POSIX_VDISABLE and continues |
| Args.AssignDirective | args.c:172-189 | `+vname X` fails with the state unchanged when X is empty or rejected by parse_char; otherwise it stores the decoded byte and continues after X, which is never taken as the device |
| Args.AssignMissingValue | args.c:172-174 | `+vname` as the last argument fails |
| Args.EndOfOptions | args.c:126-127 | `--` sets end-of-options and changes nothing else |
| Args.FilenameArgument | args.c:198-202 | a non-option argument, or any argument after `--` (lines 121-125), is accepted as the device exactly when none was given before; a second one fails |
| Args.AttachDirective | args.c:190-191 | `-attach` sets attach and nothing else |
| Args.UnrecognisedOption | args.c:192-196 | any other `+`/`-` argument that names no flag and no control character fails, with the state unchanged |
| Args.PlusAttachRejected | args.c:190-196 | `+attach` fails |
| Args.LoneSignRejected | args.c:128-130 | a lone `-` or `+` is an option with an empty name, so it fails rather than being taken as a filename |
| Args.OutputsComeFromArgv | args.c:113-204 | from any point of the scan, the device name is one of the arguments and attach is set only if `-attach` is one of them |
| Args.ParseOutputs | args.c:113-204 | parse_args returns 0 or -1, its device name is one of argv[1..], and attach is 1 only if `-attach` was given |
| TtyCat.Initial | ttycat.c:22-25 | the starting state, obuf_size = offset = 0 with no history, satisfies the invariant, asks for stdin and not for writing |
| TtyCat.ReadDevice | ttycat.c:37-45 | a device read of 0 bytes or -1 exits 0 with the state unchanged; otherwise the loop runs on and exactly the bytes read are appended to what went to stdout |
| TtyCat.ReadStdin | ttycat.c:46-52 | a stdin read resets offset to 0 and makes the chunk the new buffer and the tail of the input; a count of 0 exits 0 (a failed read too, corrected, see Findings); from a drained state the invariant is kept |
| TtyCat.WriteDevice | ttycat.c:53-57 | a write of x bytes delivers obuf[offset..offset+x) and advances offset by x, keeping the invariant |
| TtyCat.WriteKeepsInv | ttycat.c:53-57 | advancing offset over accepted bytes preserves the invariant |
| TtyCat.Iterate | ttycat.c:26-58 | every pass keeps 0 <= offset <= obuf_size <= 512 and "delivered + pending = read from stdin" |
| TtyCat.OneDirectionPerIteration | ttycat.c:31-35 | stdin and the device write are never both asked, so no pass both reads stdin and delivers to the device |
| TtyCat.IterateExtends | ttycat.c:26-58 | the bytes read, delivered and echoed only ever grow by appending |
| TtyCat.ChunkDeliveredBeforeNextRead | ttycat.c:31-32 | new stdin data is read only when the previous chunk is fully delivered |
| TtyCat.StdinReadResets | ttycat.c:46-52 | a stdin read sets offset to 0 and obuf_size to the count, with the chunk at the front of obuf; a count of 0 exits 0 |
| TtyCat.DeviceHangupExits | ttycat.c:37-43 | a device read of 0 or -1 exits 0 at once, regardless of pending output |
| TtyCat.EchoesDeviceBytes | ttycat.c:39-44 | stdout receives exactly the bytes read from the device, and nothing else |
| TtyCat.WriteDeliversPendingPrefix | ttycat.c:53-57 | a write delivers the first `accepted` pending bytes, and the rest stay pending |
| TtyCat.RunKeepsInvariant | ttycat.c:26-58 | over any run the invariant holds, the history grows by appending, and delivered + pending = read from stdin |
| TtyCat.DrainBy | ttycat.c:53-57 | a scenario, not a part of the loop: passes in which only the device is ready, for writing, accepting up to xs[j] bytes in pass j; they keep the invariant |
| TtyCat.SlowDeviceDrains | ttycat.c:53-57 | a device that accepts at least one byte per pass, and any number more, receives all pending bytes within obuf_size - offset passes, and the buffer is then drained (stdin is not ready in that scenario, so it is not read) |
| TtyCat.Startup | ttycat.c:10-17 | the relay starts only with exactly one argument (lines 60-64 otherwise) and a device that opens; every other case exits 1 |
| TtyCat.RelayLoop.constructor | ttycat.c:22-25 | fresh obuf and ibuf arrays, obuf_size = offset = 0 |
| TtyCat.RelayLoop.Echo | ttycat.c:39-44 | the bytes read land at the front of ibuf and exactly those go to stdout; nothing else in the state changes |
| TtyCat.RelayLoop.Refill | ttycat.c:48-51 | the in-place stdin read into obuf computes ReadStdin |
| TtyCat.RelayLoop.Deliver | ttycat.c:55-56 | the in-place offset update computes WriteDevice |
| TtyCat.RelayLoop.Step | ttycat.c:28-57 | one pass over the arrays and counters computes Iterate and keeps the invariant |
| TtyCat.RelayLoop.Run | ttycat.c:26-58 | the loop over a script of answers computes RunSpec |
| TtyCat.ReadStdinAsWritten | ttycat.c:48-51 | as written: a failed stdin read leaves obuf_size = -1 and offset = 0 and the loop runs on; a successful one is ReadStdin |
| TtyCat.WriteAsWritten | ttycat.c:55-56 | as written: offset grows by whatever write returned, -1 included; a failed write delivers nothing |
| TtyCat.IterateAsWritten | ttycat.c:26-58 | one pass exactly as written: it only ever exits 0, and offset can become negative only through a failed write |
| TtyCat.AgreesWithoutErrors | ttycat.c:46-57 | when no system call fails, the code as written and the corrected pass agree |
| TtyCat.StdinErrorAsWritten | ttycat.c:48-51 | as written, a failed stdin read leaves obuf_size = -1 < offset = 0 and keeps running; the invariant is broken and neither stdin nor the write is asked again |
| TtyCat.StdinNeverPolledAgain | ttycat.c:31-35 | as written, once obuf_size < offset, no later pass changes obuf_size, offset, the input or the delivered bytes |
| TtyCat.StdinErrorExits | ttycat.c:48-51 | corrected: a failed stdin read exits 0 with the invariant intact |
| TtyCat.WriteErrorAsWritten | ttycat.c:55-56 | as written, a failed write moves offset back by one; the last delivered byte becomes pending again (sent twice), or offset becomes -1 |
| TtyCat.WriteErrorRetries | ttycat.c:55-56 | corrected: a failed write leaves the state unchanged, so the pending bytes are offered again |

## Left out

- select, read, write, open, perror and fprintf are system calls. They are replaced by an Oracle parameter and by the Exit outcome. File descriptors and fd_set are not modelled.
- A select interrupted by a signal is not modelled. The Oracle's readiness flags are consulted only for the descriptors that were asked about.
- TtyCat.EchoesDeviceBytes: the result of the write to stdout is ignored by the code, so "echoed" means the bytes passed to that write, not the bytes stdout accepted.
- The attach protocol (fork, pipe, setsid, signal handler) and tcgetattr/tcsetattr are in neither file. The commented-out lines at ttycat.c:18-21 are not modelled.
- args.h is not part of this model.
- Mask values and `_POSIX_VDISABLE` are taken as on Linux. All `#ifdef` table entries are present. The model relies only on the tables, not on the values.
- The duplicate `ixoff` row is kept. The `break` makes it unreachable, and it needs no special treatment.
- The `offsetof` field selection becomes the Field enum, and the `~offset` sentinel becomes an Option.
- The configuration's cflag word is carried along and never changed. c_cc slots without a name are not modelled.
- Args.AssignDirective: `+vname ""` is modelled as failing with -1. In C, parse_char("") reads past the terminating NUL (`str[1]`), which is undefined behaviour.
- Args.ParseChar: it requires a non-empty string, as the comment at args.c:65 states.
- TtyCat.RelayLoop.Run: the `for (;;)` loop is infinite. The model runs it over a finite script of oracle answers, up to the first exit.
- TtyCat.SlowDeviceDrains covers only passes in which the device alone is ready, for writing. Passes that also read the device, or in which the device is not writable, are not part of that lemma.

## Findings

| source | as written | input that shows it | evidently intended | confidence | as-written member | corrected member |
|---|---|---|---|---|---|---|
| ttycat.c:48-51 | `obuf_size = read(0, obuf, BSIZE)`; only a count of 0 exits | stdin is polled while the buffer is drained, and read returns -1 | a read error on stdin ends the relay with status 0, as a failed read from the device does (ttycat.c:40-43); as written, obuf_size = -1 < offset breaks 0 <= offset <= obuf_size | medium, not executed | TtyCat.StdinErrorAsWritten | TtyCat.StdinErrorExits |
| ttycat.c:55-56 | `offset += x` with x the unchecked result of write | the device is writable with offset > 0, and write returns -1 | a failed write delivers nothing and leaves offset where it was | medium, not executed | TtyCat.WriteErrorAsWritten | TtyCat.WriteErrorRetries |
