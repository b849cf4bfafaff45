# PongoOS stdio and USB loader, modelled in Dafny

This project models two sequential state machines of PongoOS, the pre-boot
environment for Apple devices. Locks, events and task yields are stripped
out; the bookkeeping they guard is kept and proved.

1. **The kernel's stdio layer**, from `src/kernel/support/io.c`.
   - **The stdout ring** (`StdoutRing.Ring`). One page of `STDOUT_BUFLEN`
     bytes, here the abstract positive capacity `cap`, is mapped three times
     back to back. The ring keeps a read offset and a length, and writes in
     one of two modes:
     - blocking: it copies only what fits and never drops a byte;
     - overwrite: it keeps the newest bytes of the write and evicts the
       oldest resident bytes.

     `fetch_stdoutbuf` drains the ring from its head. The ghost field
     `Contents` holds the resident bytes oldest first, and `Valid` ties it to
     the page as seen through the triple mapping.
   - **Write routing** (`StdioWrite.Stdio`). `_write_r` sends each byte to
     the serial port, the screen, or both, as the stream's `stdio_flags`
     entry says; the serial port gets a carriage return before every NUL.
     Writes to standard output then go into the ring.
   - **The `log` command** (`StdioLog`). Its argument parser is split into
     three parts:
     - the tokenising loop, `Tokenize`, specified by the word list `Words`;
     - the keyword matching, `Interpret`;
     - the flag update, `LogFlags.Apply`.
   - **The line input queue** (`StdinQueue.LineQueue`). `stdin_buf` holds
     512 bytes. `queue_rx_char` edits the queue: DEL erases the last byte,
     and any other byte is appended while there is room. `_read_r` returns
     the oldest bytes and moves the rest to the front.
2. **The USB loader**, from `src/shell/usbloader.c`.
   - **The upload buffer** (`UsbLoader.Loader`). It tracks the buffer size,
     the transfer length, the received count and the waiting flag. Requested
     sizes are rounded up to the 512-byte bulk packet size in 32-bit
     arithmetic, and the buffer never shrinks.
   - **The control-request dispatcher.** The pure function `Decide`
     classifies a setup packet. The method `DeviceRequest` then acts on it,
     and returns data stages and DMA starts as `Action` values.

Each operation that changes state is a method of a class over the source's
globals. Each such method is proved against a specification function:
- `Overwrite` and `WriteEffect` for the ring;
- `EditAll`, `EchoAll` and `UpToNul` for the input queue;
- `Words`, `Tokens`, `Interpret` and `Updated` for `log`;
- `UartEcho` for the serial sink;
- `RoundUp`, `LittleEndian32` and `Decide` for the loader.

The lemmas prove what those functions promise. Examples are round trips,
"newest bytes win" over any series of writes, "nothing is dropped" in
blocking mode, and the editing rules of the input queue.

The model follows the code where the code and its description differ:
- **Extra `log` tokens.** `log_cmd` never looks at slots after the `on`/`off`
  keyword, so `log on foo` is accepted like `log on`. `InterpretAccepted`
  states this.
- **Request recipient.** bmRequestType 0x21 and 0xA1 are class requests
  whose recipient field is 1, the interface, in the encoding of section 9.3
  of the USB 2.0 specification. `Decide` states it that way.
- **Upload size wrap.** The rounding of the upload size wraps to 0 for
  sizes above 0xFFFFFE00, and that size is accepted. The model does the
  same (`RoundUp`).

## Model

| member | source | states |
|---|---|---|
| Bytes.UpToNul | src/kernel/support/io.c:261-263 | the bytes before the first NUL (all bytes when there is none): a prefix with no NUL, followed by the NUL when it is shorter |
| StdoutRing.Mapped | src/kernel/support/io.c:122-126 | every position in the three back-to-back mappings of the page lands on a slot of the page, below STDOUT_BUFLEN; MappedIsMod says which |
| StdoutRing.MappedIsMod | src/kernel/support/io.c:122-126 | indexing the three back-to-back mappings of the page is indexing modulo STDOUT_BUFLEN |
| StdoutRing.MappedShift | src/kernel/support/io.c:147 | reading i bytes past an offset advanced by d reads the slot d + i bytes past the old offset |
| StdoutRing.Overwrite | src/kernel/support/io.c:209-225 | keeping only the newest cap bytes of the input and then evicting the oldest gives the newest cap bytes of old contents followed by the input, min(len, cap) of them |
| StdoutRing.LastOfLastSuffix | src/kernel/support/io.c:211-216 | truncating the input to its last cap bytes before appending loses nothing the ring keeps |
| StdoutRing.OverwriteAllKeepsNewest | src/kernel/support/io.c:209-225 | after any series of overwrite-mode writes the ring holds exactly the newest cap bytes of everything written |
| StdoutRing.OverwriteWindow | src/kernel/support/io.c:216-223 | after the tail copy and the offset advance, the page read from the new offset holds the newest cap bytes of old contents followed by the copied bytes |
| StdoutRing.EvictedOff | src/kernel/support/io.c:217-222 | the offset after an overwrite-mode write stays below STDOUT_BUFLEN |
| StdoutRing.WriteEffect | src/kernel/support/io.c:187-225 | in blocking mode the new contents followed by the unwritten rest are the old contents followed by the whole write, so no byte is dropped; in overwrite mode nothing is left over, the ring holds the newest cap bytes of the old contents followed by the write, and the offset stays put when everything fits |
| StdoutRing.Ring.constructor | src/kernel/support/io.c:44-46 | the ring starts empty, at offset 0, in overwrite mode |
| StdoutRing.Ring.SetBlocking | src/kernel/support/io.c:130-135 | sets the mode and keeps the ring invariant |
| StdoutRing.Ring.CopyToTail | src/kernel/support/io.c:204 | the copy to off + len stays within the three mappings, writes exactly the slots after the tail, and leaves the unevicted resident slots alone |
| StdoutRing.Ring.Head | src/kernel/support/io.c:145 | reading n bytes through the mapping from the offset gives the n oldest resident bytes |
| StdoutRing.Ring.Fetch | src/kernel/support/io.c:137-150 | returns the min(want, len) oldest bytes, removes exactly them, advances the offset by their count modulo STDOUT_BUFLEN, and keeps off < cap and len <= cap |
| StdoutRing.Ring.FetchTwice | src/kernel/support/io.c:137-150 | two fetches in a row return consecutive, non-overlapping prefixes of the resident bytes, min(n1, len) and then min(n2, what is left) of them, and leave the rest |
| StdoutRing.Ring.BlockingPass | src/kernel/support/io.c:190-207 | copies min(cap - len, remaining) bytes, appended to the contents in order; nothing on a full ring |
| StdoutRing.Ring.Evict | src/kernel/support/io.c:217-223 | the new length is min(len + n, cap); on overflow the offset moves past the overflow, wrapping at cap |
| StdoutRing.Ring.OverwritePass | src/kernel/support/io.c:209-225 | contents become Overwrite(old contents, str), with the clamped length and the advanced offset |
| StdoutRing.Ring.Write | src/kernel/support/io.c:187-228 | the ring part of a stdout write: WriteEffect for the ring's mode, with the invariant kept |
| StdoutRing.Ring.BlockingWrite | src/kernel/support/io.c:187-208 | blocking writes append the written prefix, stop only when the ring is full, and return the rest for after the yield |
| StdinQueue.Edit | src/kernel/support/io.c:239-256 | one received byte never takes the queue past 512 bytes |
| StdinQueue.EditAll | src/kernel/support/io.c:261-262 | any number of received bytes never takes the queue past 512 bytes |
| StdinQueue.Echo | src/kernel/support/io.c:243-254 | at most three bytes; nothing exactly for DEL on an empty queue or for another byte while receive echo is suppressed; a byte other than DEL echoes as itself |
| StdinQueue.EchoAll | src/kernel/support/io.c:243-254 | at most three echo bytes per received byte |
| StdinQueue.EditAllAppends | src/kernel/support/io.c:255-256 | bytes other than DEL are appended in order while they fit |
| StdinQueue.EditAllFull | src/kernel/support/io.c:255-256 | on a full queue, bytes other than DEL are dropped |
| StdinQueue.EchoAllPlain | src/kernel/support/io.c:251-254 | without DEL the echo is the received text, or nothing when receive echo is suppressed |
| StdinQueue.EraseUndoes | src/kernel/support/io.c:239-242 | a byte followed by DEL leaves the queue as it was, when there was room |
| StdinQueue.EditExample | src/kernel/support/io.c:239-258 | "ab", DEL, "c", newline queues exactly "ac" and the newline |
| StdinQueue.LineQueue.constructor | src/kernel/support/io.c:233-235 | the queue starts empty |
| StdinQueue.LineQueue.QueueRxChar | src/kernel/support/io.c:237-260 | the queue becomes Edit(old, c); the echo is a destructive backspace, the byte, or nothing; the event fires exactly on a newline; the page changes only in the freed (zeroed) or appended slot |
| StdinQueue.LineQueue.QueueRxString | src/kernel/support/io.c:261-263 | receiving a C string is receiving its bytes up to the NUL, one at a time; one event per newline |
| StdinQueue.LineQueue.ReadR | src/kernel/support/io.c:264-289 | len 0 changes nothing; an empty queue must wait; otherwise the min(bufoff, len) oldest bytes are returned and the rest stay in order at the front |
| StdinQueue.LineQueue.ShiftDown | src/kernel/support/io.c:282-284 | the unread bytes move to the front in order; slots beyond them are untouched |
| StdioLog.IndexOf | src/kernel/support/io.c:73 | strchr: the first position of the character, or none when it does not occur |
| StdioLog.WordsShape | src/kernel/support/io.c:70-82 | every word is non-empty and holds no space |
| StdioLog.Tokens | src/kernel/support/io.c:70-88 | too many arguments exactly when there are more than three words; otherwise one to three space-free slots; an empty first slot only for blank text |
| StdioLog.SkipSpaces | src/kernel/support/io.c:70 | skipping spaces lands on a non-space or the end, and skips no word |
| StdioLog.NextToken | src/kernel/support/io.c:73-81 | one iteration cuts off exactly the next word, or the text up to its end when no space follows |
| StdioLog.Tokenize | src/kernel/support/io.c:70-88 | the loop fills the slots Tokens describes and reports too many arguments exactly when Tokens does |
| StdioLog.Interpret | src/kernel/support/io.c:94-105 | every accepted command names one of the three stream sets and one of the three sink sets |
| StdioLog.ParseLog | src/kernel/support/io.c:70-105 | "no arguments" exactly for blank text and "too many arguments" exactly for more than three words; an accepted request is one of the canonical ones and came from one to three words |
| StdioLog.Diagnostic | src/kernel/support/io.c:85-117 | every rejection prints text that ends with the usage line, and the usage line alone exactly when no argument was given |
| StdioLog.InterpretRender | src/kernel/support/io.c:94-105 | every such request, written out in full, is accepted as itself |
| StdioLog.InterpretAccepted | src/kernel/support/io.c:94-105 | whatever is accepted begins with the full spelling of the request; later slots are ignored |
| StdioLog.ParseThree | src/kernel/support/io.c:70-105 | three space-separated words are parsed as the three slots |
| StdioLog.ParseStdoutUartOff | src/kernel/support/io.c:63-105 | "stdout uart off" asks to clear the UART bit of stdout |
| StdioLog.SelectedStreams | src/kernel/support/io.c:95-96 | the nameable stream sets never select stdin, select stdout unless "stderr" was named, and stderr unless "stdout" was named |
| StdioLog.UpdatedFlag | src/kernel/support/io.c:111 | "on" sets exactly the mask bits, "off" clears exactly them, and other bits stay |
| StdioLog.UpdatedSlot | src/kernel/support/io.c:109-112 | an unselected stream keeps its flags; a selected one has exactly its mask bits switched on or off |
| StdioLog.Updated | src/kernel/support/io.c:107-113 | three slots, each the old slot updated as UpdatedSlot states |
| StdioLog.UpdatedEffect | src/kernel/support/io.c:107-113 | an update leaves slot 0 alone, updates the selected streams and leaves the rest |
| StdioLog.LogFlags.constructor | src/kernel/support/io.c:57-61 | stdin logs nowhere; stdout and stderr log to both sinks |
| StdioLog.LogFlags.Apply | src/kernel/support/io.c:107-113 | the flags become Updated(old flags, request) |
| StdioLog.LogFlags.ApplyTo | src/kernel/support/io.c:109-112 | one iteration updates stream f if selected and no other stream |
| StdioLog.LogFlags.LogCmd | src/kernel/support/io.c:63-118 | an accepted command updates the flags and prints nothing; a rejected one prints its diagnostic and usage and changes nothing |
| StdioWrite.UartRoundTrip | src/kernel/support/io.c:166-173 | dropping the carriage return before each NUL of the serial output gives back the written bytes |
| StdioWrite.UartEcho | src/kernel/support/io.c:166-173 | the serial output is at least as long as the written bytes and ends with the last written byte, a NUL going out after its carriage return |
| StdioWrite.UartEchoLength | src/kernel/support/io.c:166-173 | the serial port receives one extra byte per NUL |
| StdioWrite.UartEchoNulFree | src/kernel/support/io.c:166-173 | data without NUL reaches the serial port unchanged |
| StdioWrite.Stream | src/kernel/support/io.c:154-159 | only fds 1 and 2 are accepted; fd 1 uses stdout's flags unless preemption is over |
| StdioWrite.AnySink | src/kernel/support/io.c:162 | the LOG_MAX test holds exactly when one of the two sink bits is set |
| StdioWrite.Stdio.constructor | src/kernel/support/io.c:57-61 | an empty overwrite-mode ring, the default flags and empty sinks |
| StdioWrite.Stdio.Route | src/kernel/support/io.c:162-179 | the serial port gets UartEcho of the bytes when its bit is set, the screen gets the bytes when its bit is set |
| StdioWrite.Stdio.PutByte | src/kernel/support/io.c:166-177 | one byte goes to the serial port when its bit is set, after a carriage return when it is NUL, and to the screen when its bit is set |
| StdioWrite.Stdio.WriteR | src/kernel/support/io.c:152-230 | an unknown fd panics; the sinks get what Route sends; only fd 1 with interrupts enabled touches the ring, with WriteEffect, returning 0 or suspending with bytes left; fd 2 returns the full count; fd 1 with interrupts disabled panics |
| UsbLoader.LittleEndian32 | src/shell/usbloader.c:92 | the 4-byte payload read as a 32-bit word is below 2^32 |
| UsbLoader.LittleEndianDecodeEncode | src/shell/usbloader.c:92 | reading back the four bytes of a word gives the word |
| UsbLoader.LittleEndianEncodeDecode | src/shell/usbloader.c:92 | writing out the word read from four bytes gives the bytes |
| UsbLoader.RoundUp | src/shell/usbloader.c:92 | a multiple of 512 below 2^32; the least such multiple not below v, except that v above 0xFFFFFE00 wraps to 0 |
| UsbLoader.RoundUpExamples | src/shell/usbloader.c:91-92 | 1 rounds to 512, 513 to 1024, 512 stays, and 0xFFFFFE01 wraps to 0 |
| UsbLoader.Decide | src/shell/usbloader.c:127-237 | handled requests are class requests to the interface with wIndex 0 that travel in the direction their type names, with the data-stage length each needs; each request kind comes only from its bmRequestType and bRequest (0x21 with 1 to 4, 0xA1 with 1 and 2); wValue is 0 except for a mode change, where 0, 1 and 0xFFFF select waiting for the command, blocking stdout and reset; no upload starts while one is pending |
| UsbLoader.DecideAccepts | src/shell/usbloader.c:127-237 | conversely, every packet meeting a request's type, number, wValue, wIndex and length conditions is accepted as that request, an upload only when none is pending |
| UsbLoader.Loader.constructor | src/shell/usbloader.c:44-50 | a 1 MiB buffer, 1 MiB transfers, nothing received, no upload pending |
| UsbLoader.Loader.Valid | src/shell/usbloader.c:34-42 | the received count and the transfer length fit in the upload buffer, which never exceeds 128 MiB |
| UsbLoader.Loader.Resize | src/shell/usbloader.c:52-68 | panics exactly above 128 MiB; grows only for a larger size, keeping the received bytes; never shrinks |
| UsbLoader.Loader.UploadStart | src/shell/usbloader.c:82-107 | a payload that is not 4 bytes panics; a rounded size above 128 MiB is refused with nothing changed; otherwise the count resets, the upload is pending, the size and buffer follow a given payload, and a bulk transfer of the transfer length starts on endpoint 2 |
| UsbLoader.Loader.UploadDone | src/shell/usbloader.c:70-80 | panics exactly when no upload is pending; otherwise records the received count and ends the upload |
| UsbLoader.Loader.WriteStdin | src/shell/usbloader.c:111-125 | queues the data stage's bytes up to the first NUL exactly as the receive path does, counting one event per newline, then waits for the command handler if so configured |
| UsbLoader.Loader.DeviceRequest | src/shell/usbloader.c:127-237 | a rejected request changes nothing; each accepted request has the effect and the action of its case, and reading stdout drains min(wLength, len) bytes from the ring's head |

## Left out

- Locks, `event_wait`/`event_fire` and `task_yield` are concurrency primitives and are not modelled. The blocking write's yield is the `Suspended` outcome: the writer resumes with `Ring.Write` of the returned rest. Calling `WriteR` again would route the rest to the sinks a second time and re-check the fd and interrupts, while the source yields and continues inside its copy loop. The `_read_r` wait is the `MustWait` outcome. The newline event is the `wake` result.
- `dis_int_count != 0` and `preemption_over` are boolean inputs. `enable_interrupts`/`disable_interrupts` are not modelled.
- The newlib stubs `_fstat_r`, `_isatty_r`, `_lseek_r` and `_close_r` are constant glue and are left out.
- `io_init`'s page allocation and `map_range` calls are MMU plumbing. The triple mapping is the function `Mapped` over one array of `cap` bytes, and `STDOUT_BUFLEN` is the abstract `cap`.
- `serial_putc` and `screen_putc` are sequences the writes append to. The `putc`/`fflush` echo to stderr is returned as bytes, not sent through `_write_r`. `iprintf` and `panic` messages become result values (`Diagnostic`, `Panicked`, `BadPayload`), and their formatting is not modelled.
- `alloc_contig`, `free_contig` and `vatophys` are not part of this model. The upload buffer is a sequence, and the contents of a new buffer past the kept bytes are taken as zeros.
- `usb_out_transfer_dma`, `ep0_begin_data_out_stage` and `ep0_begin_data_in_stage` are not part of this model. They are returned as `Action` values, and the data stages run through `UploadStart` and `WriteStdin` with their payload as an argument.
- `uart_should_drop_rx` and `command_in_progress` are parameters (`dropRx`, `commandInProgress`).
- `command_register` (the command dispatcher) and `command_handler_iter` are not part of this model.
- UploadDone: requires that the transfer delivered no more than the transfer length, which the USB stack guarantees; the buffer write itself is the DMA's.
- LineQueue.ShiftDown: models the overlapping `memcpy` in `_read_r` as a forward byte-by-byte copy, which is what moving bytes down to a lower address does.
- DeviceRequest: the tail-trim branch for a fetch longer than wLength is shown unreachable, because the fetch is capped at wLength.
