# D3 record player, modelled in Dafny

The player replays a recorded science data file (records of type
Z_DATA_TYPE_SCI_L3_V3) as UDP datagrams. It reads the input one
1,152,064-byte record at a time. Each record holds a 28-byte header and
100 frames (FRAME_SPB_2_L3_V0) of 36 PMT blocks (PMT_3rd_L3_GEN), which end
at byte 1,152,028; the 36 bytes after the last frame are never read. A PMT
block is 320 bytes: 64 pixel words, then 8 KI words and 8 spare words. For
every frame the player concatenates the 256 pixel-data bytes of the 36 PMT
blocks, in ascending PMT order, and sends the 9,216-byte result as one
datagram. Before any of this, it checks that the destination argument has
the form `ip:port` with a port in 1..65535.

The model has four modules:

- `Layout` (`layout.dfy`): the format constants and the offset arithmetic
  (frame start `28 + f*11520`, PMT start `frame start + p*320`). It proves
  that every data slice of a full record lies inside the record and that
  the PMT blocks tile the frames.
- `Extractor` (`extractor.dfy`): Python's clamping slice `s[lo:hi]`, the
  payload of one frame as a specification function, and the method
  `BuildFramePayload`, which grows the payload PMT by PMT as the player's
  loop does. The lemmas give the exact length and contents of a payload.
  They show that it reads only the data bytes of its own frame (never the KI
  or spare words, nor another frame or record), and that every data byte of
  the frame is forwarded.
- `Destination` (`destination.dfy`): `str.split(':')`, `int()` on the port
  text, and the range check. Parsing is a function that returns a
  `Result` with the reason for a rejection. Split and join are proved
  inverse in both directions. A destination is proved accepted exactly when
  it has one ':' and an in-range port that `int()` reads, for any port text
  `int()` accepts, canonical or not. `int()` refuses a literal of more than
  4,300 digits, as current CPython does by default.
- `Replayer` (`replayer.dfy`): the input stream and the socket as classes.
  The input is the byte sequence that the file or standard input delivers.
  `sendto` appends to the socket's `sent` log. The driver `Replay` keeps the
  loop of the source: read a record, stop on an empty or short read,
  otherwise build and send 100 payloads and count them. Its contract ties
  the sent log to a specification function, `Replayed`, of the input. The
  lemmas about `Replayed` state the packet count `100 * (L / 1152064)`, the
  record-then-frame order, and that a trailing partial record sends
  nothing. A truncation is reported exactly when `L % 1152064 != 0`.
  `Play` puts it together: destination check, socket, replay, close.

Two points about the code that the model keeps:

- The code has a single variant: it forwards all 36 PMTs and sends every
  payload unconditionally. There is no channel filter and no rule that
  skips an empty payload.
- A truncated input only breaks the read loop (player.py:99-101), and
  `main` then returns normally, so the exit status is 0. `Play` states
  exit status 0 on truncation.

## Model

| member | source | states |
|---|---|---|
| `Layout.DerivedSizes` | player.py:13-31 | 36 PMTs per frame; 256 data bytes and 320 bytes per PMT block; 11,520 bytes per frame; 9,216 bytes per payload; the dropped 64 bytes are the KI and spare words; the frames end 36 bytes before the end of the record |
| `Layout.PmtDataInRecord` | player.py:113-120 | for every frame 0..99 and PMT 0..35 the data slice starts after the header and ends at or before byte 1,151,964, which lies inside the 1,152,064-byte record |
| `Layout.FramesTile` | player.py:113-118 | each PMT block lies inside its frame, and the 36 blocks end exactly where the next frame starts |
| `Extractor.PySliceSemantics` | player.py:120 | Python slicing: the exact slice when in range, clamped to the end when the end is past the sequence, empty for an empty range |
| `Extractor.BuildFramePayload` | player.py:108-122 | the payload grown by the PMT loop equals the frame's specified payload, and is 9,216 bytes for a full record |
| `Extractor.PmtDataExact` | player.py:118-120 | in a full record each PMT slice is taken whole: exactly 256 bytes from the PMT start, never shortened by clamping |
| `Extractor.PartialPayloadLength` | player.py:110-122 | after n PMTs the payload holds n*256 bytes |
| `Extractor.PartialPayloadAt` | player.py:116-122 | once PMT p has been appended, byte j of its data sits at payload position `p*256 + j` and is record byte `PMT start + j` |
| `Extractor.FramePayloadContents` | player.py:110-122 | a frame's payload is 9,216 bytes, and byte k is record byte `28 + f*11520 + (k/256)*320 + k%256`: PMTs 0..35 in ascending order |
| `Extractor.SourceOfPayloadByte` | player.py:118-120 | the record byte behind every payload position is a data byte of that frame, in the first 256 bytes of its PMT block |
| `Extractor.AuxBytesIgnored` | player.py:110-122 | two records that agree on frame f's data bytes give the same payload for f, whatever their header, KI/spare words and other frames hold |
| `Extractor.DataByteForwarded` | player.py:116-122 | every data byte of frame f appears in its payload, at position `(offset/320)*256 + offset%320` |
| `Destination.Split` | player.py:67 | `split(':')` yields one more piece than there are separators, and no piece contains the separator |
| `Destination.JoinSplit` | player.py:67 | joining the pieces of a split with the separator gives back the original string |
| `Destination.SplitJoin` | player.py:67 | splitting a join of separator-free pieces gives back the pieces |
| `Destination.TrimSurrounding` | player.py:68 | `int()` strips the whitespace on both sides of its argument and nothing else |
| `Destination.ParseIntAccepted` | player.py:68 | every text `int()` accepts is whitespace, an optional sign, a numeral of at most 4,300 digits and whitespace, and is read as that numeral's value, negated after '-' |
| `Destination.ParseIntNumeral` | player.py:68 | `int()` applied to a numeral (digits, single underscores between digits) with an optional sign and surrounding whitespace reads it as its value, negated after '-', when it has at most 4,300 digits, and refuses it when it has more |
| `Destination.UnsignedNumeral` | player.py:68 | `int()` reads a bare numeral as its value, or refuses it when it has more than 4,300 digits |
| `Destination.NegatedNumeral` | player.py:68 | `int()` reads '-' and a numeral as the negated value, or refuses it when the numeral has more than 4,300 digits |
| `Destination.ParseIntDecimal` | player.py:68 | `int()` reads the decimal rendering of n back as n when it has at most 4,300 digits, and refuses it otherwise |
| `Destination.ParseIntNegatedDecimal` | player.py:68 | `int()` reads '-' and the decimal rendering of n as -n when the rendering has at most 4,300 digits, and refuses it otherwise |
| `Destination.AcceptedDestination` | player.py:66-73 | an accepted destination is `ip:portText` with exactly one ':', and `int(portText)` is the accepted port, which is in 1..65535 |
| `Destination.FormattedDestination` | player.py:66-73 | `ip:port` with a ':'-free ip and a decimal port is accepted with exactly that ip and port when the port is in 1..65535, rejected as not an integer when the port has more than 4,300 digits, and rejected as out of range otherwise |
| `Destination.OverlongPortRejected` | player.py:67-73 | a port text of more than 4,300 digits is rejected as not an integer, whatever its value, so a zero-padded 80 of that length is refused |
| `Destination.DestinationDecided` | player.py:66-73 | `ip:portText` with no other ':' is rejected as not an integer when `int()` refuses the port text, accepted with the value `int()` reads when it is in 1..65535, and rejected as out of range otherwise |
| `Destination.WrongColonCountRejected` | player.py:67 | a destination with zero or several ':' is rejected because the split does not give two parts |
| `Destination.DocumentedDestinationAccepted` | player.py:54 | the documented example `127.0.0.1:9090` is accepted with port 9090 |
| `Destination.MissingPortRejected` | player.py:67 | `bad` is rejected: its split gives one part |
| `Destination.PortZeroRejected` | player.py:69-70 | `1.2.3.4:0` is rejected as out of range |
| `Destination.PortTooLargeRejected` | player.py:69-70 | `1.2.3.4:99999` is rejected as out of range |
| `Destination.PortTextNotIntegerRejected` | player.py:68 | `1.2.3.4:8o` is rejected because `int()` refuses its port text |
| `Destination.ParseIntNonCanonical` | player.py:68 | `int()` reads ` +8_0 ` as 80 |
| `Replayer.InputStream.constructor` | player.py:84-88 | a fresh input stream has not delivered anything yet |
| `Replayer.InputStream.Read` | player.py:96 | a read returns the next `min(size, remaining)` bytes, in order, and consumes exactly those |
| `Replayer.Socket.constructor` | player.py:78 | a new socket is open and has sent nothing |
| `Replayer.Socket.SendTo` | player.py:125 | a send appends exactly one datagram, carrying the payload and the destination, to the sent log |
| `Replayer.Socket.Close` | player.py:147 | closing leaves the sent log as it was |
| `Replayer.SendRecord` | player.py:108-136 | the frame loop of one record sends one datagram per frame, frames 0..99 in order, each the frame's payload, and adds exactly 100 to the packet counter |
| `Replayer.ReplayedLength` | player.py:95-126 | an input of length L yields exactly `100 * (L / 1152064)` datagrams |
| `Replayer.ReplayedAt` | player.py:108-126 | datagram `100*r + f` carries the payload of frame f built from record r's bytes alone: record order, then frame order |
| `Replayer.PartialTailSendsNothing` | player.py:96-101 | a trailing partial record sends nothing: the datagrams are those of the full records alone |
| `Replayer.TruncatedIff` | player.py:95-101 | the run ends on a truncation exactly when the input length is not a multiple of 1,152,064 |
| `Replayer.Replay` | player.py:92-136 | the loop consumes the whole input and sends exactly `Replayed(input)` to the destination. It stops as specified, counts `L / 1152064` records and sends 100 packets per record |
| `Replayer.Play` | player.py:66-147 | a bad destination exits with status 1 before any socket exists; otherwise a fresh socket sends `Replayed(input)` and is closed, with exit status 0 whether or not a truncation was reported |

## Left out

- Command-line parsing with `argparse` and the `-v` progress and summary
  lines: console I/O that does not affect the data sent. The `record_num`
  and `total_packets_sent` counters are kept, as outputs of `Replay`.
- The pause between datagrams (`time.sleep`, the millisecond-to-second
  float conversion): wall-clock timing. This includes the `ValueError` that a
  negative pause raises at the first `sleep`.
- Socket creation failure, network errors raised by `sendto` (an
  unresolvable ip part is only detected there) and the catch-all exception
  handler: network and process plumbing. `sendto` is modelled as always
  succeeding.
- Opening the named file, `FileNotFoundError`, and closing the file:
  resource handling. The input is the finite byte sequence it delivers. A
  read returns fewer bytes than requested only at the end of the input,
  which is the behaviour of a buffered binary read of a file or of
  standard input.
- `ZYNQ_BOARD_HEADER_SIZE` and `TIMESTAMP_DUAL_SIZE`: computed but never
  used.
- Destination.ParseInt: `int()` is modelled for ASCII text only: surrounding
  space, tab, line feed, vertical tab, form feed and carriage return, an
  optional sign, and decimal digits with single underscores between digits.
  The limit of 4,300 digits is the interpreter's default since CPython 3.11
  (and the 3.7-3.10 security releases that added it). Interpreters without
  the limit, and a limit changed with `PYTHONINTMAXSTRDIGITS`,
  `-X int_max_str_digits` or `sys.set_int_max_str_digits`, are not modelled.
  Non-ASCII digits and non-ASCII whitespace, which Python also accepts, are
  not modelled. `int()` does not strip U+001C..U+001F, although
  `str.isspace()` counts them as whitespace; the model does not strip them
  either.
