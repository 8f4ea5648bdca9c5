# USART1 echo firmware — Dafny model

This project models the buffering and line-echo core of a bare-metal STM32F103
firmware (`uart/main.c`). The firmware echoes every line received on USART1.
When the line is `"hello\r"`, it answers with `"Hello! I am working properly!\r"` instead.

Three contexts share the firmware's global state:

- the **RXNE branch** of `USART1_IRQHandler` puts each received byte into the
  80-byte circular buffer `RX_buf`, using the cursor `RX_buf_id_in` and the
  flags `RX_buf_empty_flag`, `RX_buf_full_flag` and the sticky
  `RX_buf_full_error_flag`;
- **one iteration of the `while(1)` loop** of `main` drains one byte into the
  80-byte linear buffer `TX_buf` at `TX_buf_id`. A carriage return (13) arms
  the line through `transmit_message_ready_flag`; the line is first replaced by
  the greeting when it is the command word. An input overflow or a full
  `TX_buf` loads a diagnostic, arms it and parks the loop for good;
- the **TXE branch** of the handler sends the armed message one byte per call
  and disarms it after the carriage return.

The model is the class `Firmware.Usart1Echo` (file `firmware.dfy`). Its fields
are the two arrays, the three cursors, the four flags, `txeEnabled` (the TXE
interrupt enable), `halted` (the `while(1) {}` at lines 173 and 182) and the
ghost log `sent` of bytes handed to `USART_SendData`. The methods are
`RxByte`, `MainStep` and `TxReady`, plus `UsartIrq`, which runs both branches
as the handler does. Each method is one atomic step. `firmware.dfy` relates
the state to two abstract values:

- `Unread()`: the bytes received and not yet drained, oldest first. `RxByte`
  appends to it and the drain removes its head. The flags report exactly when
  it is empty and when it holds 80 bytes.
- `Message()`: what the TXE branch sends from `TX_buf`, namely everything up
  to and including the first carriage return. `TxReady` sends it byte by
  byte and disarms after its last byte. Arming a line makes it `Response(line)`.

`protocol.dfy` (module `Protocol`) holds the value-level functions and lemmas
behind these contracts. They cover the circular index arithmetic, the framing
of a message, and models of `strncpy` and `strncmp`.

The validity invariant `Valid()` covers these facts:
- both receive cursors stay in `[0, 80)`;
- the empty and full flags are never both set, and the cursors are equal
  exactly when one of them is set;
- `TX_buf_id` stays in `[0, 80]`;
- TXE is enabled exactly while a message is armed;
- no carriage return lies below `TX_buf_id`;
- an armed message has its carriage return at or after the send cursor, so
  `TX_buf[TX_buf_id]` is always in bounds when the TXE branch reads it.

Once `halted` is set, `TX_buf` never changes again. `MainStep` is then a
no-op, and `RxByte` and `TxReady` do not modify `TX_buf`. So the diagnostic
loaded when halting is the only message transmitted afterwards.

The command test compares only the first six bytes of `TX_buf` (`strncmp(TX_buf, "hello\r", 6)`).
This cannot misfire on a longer line such as `"helloX\r"`. A line always
starts at index 0 and contains its only carriage return at its end, so
`HelloMatchExact` proves that the test succeeds exactly for the line `"hello\r"`.

## Model

| member | source | states |
|---|---|---|
| `Protocol.Advance` | uart/main.c:109-112 | a receive cursor moves to the next slot and wraps from 79 to 0, i.e. `(i + 1) % 80`, staying in `[0, 80)` |
| `Protocol.RingIndex` | uart/main.c:184-190 | the slot `k` places after the read cursor is `(start + k) % 80`, inside the buffer |
| `Protocol.Occupancy` | uart/main.c:45-49 | the number of unread bytes is 0 exactly when the empty flag is set (or the cursors are equal with no flag), 80 exactly when the full flag is set |
| `Protocol.RingSliceAppend` | uart/main.c:107-114 | storing a byte at the first free slot appends it to the unread bytes |
| `Protocol.RingSliceDrop` | uart/main.c:184-192 | reading the slot under the read cursor yields the oldest unread byte, and advancing the cursor removes exactly that byte |
| `Protocol.Frame` | uart/main.c:122-131 | what is sent from a buffer is a prefix of it that ends at its first carriage return and contains no other carriage return (the whole buffer if it has none) |
| `Protocol.FrameOfLine` | uart/main.c:194-200 | a line whose only carriage return is its last byte is sent intact, whatever follows it in `TX_buf` |
| `Protocol.SendStep` | uart/main.c:122-131 | sending one byte of an armed message sends the next message byte and keeps the TX invariant: past an ordinary byte the cursor advances; after the carriage return the message is disarmed with the cursor at 0 |
| `Protocol.Strncpy` | uart/main.c:196 | `strncpy(TX_buf, text, 80)` for a literal without NUL bytes (also lines 169 and 178): the 80 bytes of `TX_buf` are the text followed by NUL bytes |
| `Protocol.StrnEqual` | uart/main.c:195 | `strncmp(a, b, n) == 0` holds exactly when `a` and `b` agree at every index below `n` up to and including the first NUL of `a`; comparison stops at that NUL |
| `Protocol.StrnEqualWithoutNul` | uart/main.c:195 | `strncmp(a, b, n) == 0` against a pattern without NUL bytes is equality of the first `n` bytes |
| `Protocol.HelloMatchExact` | uart/main.c:194-197 | for a line held from index 0 and ending at its first carriage return, the six-byte prefix test succeeds exactly when the line is `"hello\r"` |
| `Protocol.EchoWrite` | uart/main.c:186-187 | writing a drained byte at `TX_buf_id` extends the line by that byte; the line stays free of carriage returns unless the byte is one |
| `Protocol.EchoTerminator` | uart/main.c:194-200 | once a carriage return completes the line, the command test is exact, the buffer holds an armed message with the cursor at 0, and that message is the line |
| `Protocol.FrameOfCanned` | uart/main.c:178 | a canned text (`...\r\n`) loaded by `strncpy` is an armed message sent up to its carriage return: its line feed is never sent |
| `Protocol.GreetingShape` | uart/main.c:196 | the greeting ends in `\r\n` and has no other carriage return |
| `Protocol.InputFullShape` | uart/main.c:169 | the input-overflow diagnostic ends in `\r\n` and has no other carriage return |
| `Protocol.OutputFullShape` | uart/main.c:178 | the output-full diagnostic ends in `\r\n` and has no other carriage return |
| `Protocol.HelloIsAscii` | uart/main.c:195 | the command-word bytes spell `"hello\r"` |
| `Protocol.GreetingIsAscii` | uart/main.c:196 | the greeting bytes spell `"Hello! I am working properly!\r\n"` |
| `Protocol.InputFullIsAscii` | uart/main.c:169 | the diagnostic bytes spell `"Input Buffer is full\r\n"` |
| `Protocol.OutputFullIsAscii` | uart/main.c:178 | the diagnostic bytes spell `"Output buffer is full\r\n"` |
| `Firmware.Usart1Echo.FlagsTrackOccupancy` | uart/main.c:41-49 | under the invariant, the empty flag is set exactly when nothing is unread, the full flag exactly when 80 bytes are unread, and otherwise the write cursor is the first free slot |
| `Firmware.Usart1Echo.constructor` | uart/main.c:18-53 | power-on state: cursors at 0, input buffer empty, no flag raised, nothing armed, TXE disabled, nothing sent |
| `Firmware.Usart1Echo.RxByte` | uart/main.c:104-116 | when not full: the byte is stored at `RX_buf_id_in` and appended to the unread bytes, the cursor advances with wrap, the empty flag is cleared and the full flag is set exactly when the cursors meet. When full: only the sticky overflow flag is set and the byte is dropped |
| `Firmware.Usart1Echo.DrainByte` | uart/main.c:184-192 | returns the oldest unread byte and removes it, advances the read cursor with wrap, clears the full flag and sets the empty flag exactly when the cursors meet |
| `Firmware.Usart1Echo.CopyToTxBuf` | uart/main.c:169 | `strncpy(TX_buf, text, 80)`: `TX_buf` holds the text followed by NUL padding |
| `Firmware.Usart1Echo.ReportAndHalt` | uart/main.c:168-174 | loads the diagnostic, arms it with the cursor at 0, enables TXE and halts; the message sent is the diagnostic without its line feed; the input side is untouched |
| `Firmware.Usart1Echo.MainStep` | uart/main.c:165-203 | no change while halted, while a message is armed, or with no input and no overflow. Otherwise an overflow reports `Input Buffer is full` and halts. Pending input with `TX_buf_id == 80` reports `Output buffer is full` and halts without draining. Otherwise the oldest byte is drained onto the line, and a carriage return arms `Response(line)` |
| `Firmware.Usart1Echo.EchoByte` | uart/main.c:186-201 | appends the drained byte at `TX_buf_id`. An ordinary byte extends the line. A carriage return arms the line or, for `"hello\r"`, the greeting, with the cursor at 0 and TXE enabled |
| `Firmware.Usart1Echo.ArmLine` | uart/main.c:194-201 | replaces `TX_buf` with the greeting exactly when the completed line is `"hello\r"`, otherwise leaves it as is, then arms it; the message to be sent is `Response(line)` |
| `Firmware.Usart1Echo.TxReady` | uart/main.c:120-133 | armed: sends byte `TX_buf_id` of the message and advances the cursor, disarming (cursor 0, TXE off) exactly after the message's last byte. Not armed: only disables TXE |
| `Firmware.Usart1Echo.UsartIrq` | uart/main.c:100-134 | the RXNE branch followed by the TXE branch. Receive side: the unread bytes grow by the received byte and `RX_buf_id_in` advances with wrap unless the buffer was full; the overflow flag becomes sticky; `RX_buf_id_out` is untouched. Transmit side: without TXE nothing is sent and the cursor and ready flag stay; with TXE and nothing armed only TXE is disabled; with a message armed, byte `TX_buf_id` of the message is sent and the cursor advances, disarming with cursor 0 exactly after the last byte. `TX_buf` is untouched |

## Left out

- Clock setup (`set_sys_clock_to_72`, lines 138-157) and peripheral, GPIO and
  NVIC setup (`usart_init`, lines 56-96). These are one-time register
  configuration through vendor calls whose code is not part of this model.
- Hardware register access. The RXNE and TXE status tests become the
  parameters of `UsartIrq`, and the received byte is a parameter.
  `USART_SendData` appends to the ghost `sent`, and `USART_ITConfig` on TXE
  sets `txeEnabled`. `USART_ClearITPendingBit` has no effect in the model;
  it names USART3 rather than USART1 (line 121).
- `RxByte` when the buffer is full: line 105 never calls `USART_ReceiveData`,
  so the byte stays in the data register, while the model drops the parameter.
  The modelled state is the same either way. On the hardware RXNE then stays
  set, so the handler would likely re-enter at once and could keep `main` from
  reaching the diagnostic at lines 168-173; that interrupt storm is not
  modelled.
- The busy-wait for transmission complete (line 126) is left out. The two
  `while(1) {}` halts (lines 173, 182) become the `halted` field.
- Preemption inside a step. Each handler branch and each main-loop iteration
  is one atomic step. The source has real interleaving hazards that a
  sequential model does not capture, for example the interrupt firing
  between lines 185 and 192 of the drain.
- The `volatile` qualifiers and the C `int` width of the cursors. Every
  cursor stays within `[0, 80]`, so no overflow can occur.
- `TX_val` and `RX_val` as separate globals. They are local values of the
  step that uses them.
