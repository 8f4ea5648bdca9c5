/** The global state of the USART1 echo firmware and the three pieces of
    code that update it: the receive (RXNE) branch and the transmit (TXE)
    branch of the USART1 interrupt handler, and one iteration of the main
    loop. Each method is one atomic step; preemption inside a step is not
    modelled. The received byte is a parameter, a sent byte is appended to
    the ghost log `sent`, and the TXE interrupt enable is a boolean. */
module Firmware {
  import opened Protocol

  class Usart1Echo {
    /** RX_buf: circular input buffer. */
    const rxBuf: array<byte>
    /** TX_buf: linear output buffer. */
    const txBuf: array<byte>
    /** RX_buf_id_in: next slot of RX_buf to fill. */
    var rxIn: int
    /** RX_buf_id_out: next slot of RX_buf to drain. */
    var rxOut: int
    /** TX_buf_id: next slot of TX_buf to fill (main loop) or to send (TXE). */
    var txId: int
    /** RX_buf_empty_flag. */
    var rxEmpty: bool
    /** RX_buf_full_flag. */
    var rxFull: bool
    /** RX_buf_full_error_flag: sticky, set when a byte arrives while full. */
    var rxOverflow: bool
    /** transmit_message_ready_flag: TX_buf holds an armed message. */
    var messageReady: bool
    /** Whether the TXE interrupt of USART1 is enabled. */
    var txeEnabled: bool
    /** The main loop is parked in one of its `while(1) {}` loops. */
    var halted: bool
    /** Every byte handed to USART_SendData so far. */
    ghost var sent: seq<byte>

    ghost predicate Valid()
      reads this, rxBuf, txBuf
    {
      rxBuf.Length == RxBufSize && txBuf.Length == TxBufSize && rxBuf != txBuf
      && RxCursors(rxIn, rxOut, rxEmpty, rxFull)
      // TXE is enabled exactly while a message is armed
      && txeEnabled == messageReady
      && TxCursor(txBuf[..], txId, messageReady)
    }

    /** The received bytes not yet drained, oldest first. */
    ghost function Unread(): seq<byte>
      reads this, rxBuf
      requires rxBuf.Length == RxBufSize && RxCursors(rxIn, rxOut, rxEmpty, rxFull)
    {
      RingSlice(rxBuf[..], rxOut, Occupancy(rxIn, rxOut, rxEmpty, rxFull))
    }

    /** The message the TXE branch transmits from TX_buf. */
    ghost function Message(): seq<byte>
      reads this, txBuf
    {
      Frame(txBuf[..])
    }

    /** The flags report the occupancy of the receive buffer exactly, and
        the write cursor is the first free slot after the unread bytes. */
    lemma FlagsTrackOccupancy()
      requires Valid()
      ensures rxEmpty <==> |Unread()| == 0
      ensures rxFull <==> |Unread()| == RxBufSize
      ensures !rxFull ==> rxIn == RingIndex(rxOut, |Unread()|)
    {
    }

    /** Power-on state: both buffers zeroed, all cursors at 0, the input
        buffer empty, nothing armed and the TXE interrupt disabled. */
    constructor ()
      ensures Valid() && fresh(rxBuf) && fresh(txBuf)
      ensures rxIn == 0 && rxOut == 0 && txId == 0
      ensures rxEmpty && !rxFull && !rxOverflow
      ensures !messageReady && !txeEnabled && !halted
      ensures Unread() == [] && sent == []
      ensures forall i | 0 <= i < TxBufSize :: txBuf[i] == 0
    {
      rxBuf := new byte[RxBufSize](_ => 0);
      txBuf := new byte[TxBufSize](_ => 0);
      rxIn, rxOut, txId := 0, 0, 0;
      rxEmpty, rxFull, rxOverflow := true, false, false;
      messageReady, txeEnabled, halted := false, false, false;
      sent := [];
    }

    /** RXNE branch: store the received byte at the write cursor, unless
        the buffer is full, in which case the byte is dropped and the sticky
        overflow flag is raised. */
    method RxByte(b: byte)
      requires Valid()
      modifies this, rxBuf
      ensures Valid()
      ensures old(rxFull) ==>
                rxOverflow && rxIn == old(rxIn) && rxEmpty == old(rxEmpty) && rxFull
                && rxBuf[..] == old(rxBuf[..]) && Unread() == old(Unread())
      ensures !old(rxFull) ==>
                rxOverflow == old(rxOverflow) && rxIn == Advance(old(rxIn))
                && rxBuf[..] == old(rxBuf[..])[old(rxIn) := b]
                && !rxEmpty && (rxFull <==> rxIn == rxOut)
                && Unread() == old(Unread()) + [b]
      ensures rxOut == old(rxOut) && txId == old(txId) && messageReady == old(messageReady)
      ensures txeEnabled == old(txeEnabled) && halted == old(halted) && sent == old(sent)
    {
      FlagsTrackOccupancy();
      ghost var n := Occupancy(rxIn, rxOut, rxEmpty, rxFull);
      ghost var before := rxBuf[..];
      if rxFull {
        rxOverflow := true;
      } else {
        RingSliceAppend(before, rxOut, n, b);
        rxBuf[rxIn] := b;
        rxIn := rxIn + 1;
        rxEmpty := false;
        if rxIn >= RxBufSize { rxIn := 0; }
        if rxIn == rxOut { rxFull := true; }
        assert Occupancy(rxIn, rxOut, rxEmpty, rxFull) == n + 1;
      }
    }

    /** Drains the oldest unread byte (the read side of the circular
        buffer in one main-loop iteration). */
    method DrainByte() returns (v: byte)
      requires Valid() && !rxEmpty
      modifies this
      ensures Valid()
      ensures v == old(Unread())[0] && Unread() == old(Unread())[1..]
      ensures rxOut == Advance(old(rxOut)) && !rxFull && (rxEmpty <==> rxIn == rxOut)
      ensures rxIn == old(rxIn) && rxOverflow == old(rxOverflow) && txId == old(txId)
      ensures messageReady == old(messageReady) && txeEnabled == old(txeEnabled)
      ensures halted == old(halted) && sent == old(sent)
    {
      FlagsTrackOccupancy();
      ghost var n := Occupancy(rxIn, rxOut, rxEmpty, rxFull);
      RingSliceDrop(rxBuf[..], rxOut, n);
      v := rxBuf[rxOut];
      rxOut := rxOut + 1;
      rxFull := false;
      if rxOut >= RxBufSize { rxOut := 0; }
      if rxIn == rxOut { rxEmpty := true; }
      assert Occupancy(rxIn, rxOut, rxEmpty, rxFull) == n - 1;
    }

    /** `strncpy(TX_buf, text, TX_BUF_SIZE)`. */
    method CopyToTxBuf(text: seq<byte>)
      requires txBuf.Length == TxBufSize && |text| <= TxBufSize
      modifies txBuf
      ensures txBuf[..] == Strncpy(text)
    {
      forall i | 0 <= i < TxBufSize {
        txBuf[i] := if i < |text| then text[i] else 0;
      }
    }

    /** Loads a diagnostic, arms it with the send cursor at 0, enables TXE
        and parks the main loop for good. */
    method ReportAndHalt(text: seq<byte>)
      requires Valid() && !messageReady
      requires CannedShape(text)
      modifies this, txBuf
      ensures Valid()
      ensures txBuf[..] == Strncpy(text) && Message() == text[..|text| - 1]
      ensures messageReady && txeEnabled && txId == 0 && halted
      ensures rxIn == old(rxIn) && rxOut == old(rxOut) && rxEmpty == old(rxEmpty)
      ensures rxFull == old(rxFull) && rxOverflow == old(rxOverflow) && sent == old(sent)
    {
      FrameOfCanned(text);
      CopyToTxBuf(text);
      messageReady := true;
      txId := 0;
      txeEnabled := true;
      halted := true;
    }

    /** One iteration of the main loop. While a message is armed it does
        nothing. Otherwise an input overflow is reported and halts; else, if
        a byte is pending, an output buffer with no room left is reported
        and halts, and any other byte is drained and appended to the line in
        TX_buf; a carriage return arms the line, replaced by the greeting
        when the line is the command word. */
    method MainStep()
      requires Valid()
      modifies this, txBuf
      ensures Valid()
      ensures rxIn == old(rxIn) && rxOverflow == old(rxOverflow) && sent == old(sent)
      ensures old(halted) ==> halted
      // parked, busy transmitting, or nothing to do: no change at all
      ensures old(halted || messageReady || (!rxOverflow && rxEmpty)) ==>
        unchanged(this) && unchanged(txBuf)
      // input overflow: report and halt, the input is left as it is
      ensures !old(halted) && !old(messageReady) && old(rxOverflow) ==>
        halted && messageReady && txeEnabled && txId == 0
        && txBuf[..] == Strncpy(InputFullText)
        && Message() == InputFullText[..|InputFullText| - 1]
        && rxOut == old(rxOut) && rxEmpty == old(rxEmpty) && rxFull == old(rxFull)
      // a byte pending with TX_buf already full: report and halt
      ensures (!old(halted) && !old(messageReady) && !old(rxOverflow) && !old(rxEmpty)
               && old(txId) == TxBufSize) ==>
        halted && messageReady && txeEnabled && txId == 0
        && txBuf[..] == Strncpy(OutputFullText)
        && Message() == OutputFullText[..|OutputFullText| - 1]
        && rxOut == old(rxOut) && rxEmpty == old(rxEmpty) && rxFull == old(rxFull)
      // a byte pending with room in TX_buf: drain it onto the line
      ensures (!old(halted) && !old(messageReady) && !old(rxOverflow) && !old(rxEmpty)
               && old(txId) < TxBufSize) ==>
        !halted && Unread() == old(Unread())[1..] && !rxFull
        && var v := old(Unread())[0];
           var line := old(txBuf[..txId]) + [v];
           (v != CR ==>
              !messageReady && !txeEnabled && txId == old(txId) + 1
              && txBuf[..] == old(txBuf[..])[old(txId) := v])
           && (v == CR ==>
              messageReady && txeEnabled && txId == 0
              && txBuf[..] == (if line == HelloCmd then Strncpy(GreetingText)
                               else old(txBuf[..])[old(txId) := v])
              && Message() == Response(line))
    {
      if halted || messageReady {
        return;
      }
      if rxOverflow {
        InputFullShape();
        ReportAndHalt(InputFullText);
        return;
      }
      if !rxEmpty {
        if txId >= TxBufSize {
          OutputFullShape();
          ReportAndHalt(OutputFullText);
          return;
        }
        var v := DrainByte();
        EchoByte(v);
      }
    }

    /** The transmit side of one main-loop iteration: append the drained
        byte to the line in TX_buf; on a carriage return replace the line by
        the greeting when it is the command word, then arm it with the send
        cursor at 0 and enable TXE. */
    method EchoByte(v: byte)
      requires Valid() && !messageReady && !halted && txId < TxBufSize
      modifies this, txBuf
      ensures Valid()
      ensures rxIn == old(rxIn) && rxOut == old(rxOut) && rxEmpty == old(rxEmpty)
      ensures rxFull == old(rxFull) && rxOverflow == old(rxOverflow)
      ensures !halted && sent == old(sent) && Unread() == old(Unread())
      ensures v != CR ==>
                !messageReady && !txeEnabled && txId == old(txId) + 1
                && txBuf[..] == old(txBuf[..])[old(txId) := v]
      ensures v == CR ==>
                var line := old(txBuf[..txId]) + [v];
                messageReady && txeEnabled && txId == 0
                && txBuf[..] == (if line == HelloCmd then Strncpy(GreetingText)
                                 else old(txBuf[..])[old(txId) := v])
                && Message() == Response(line)
    {
      ghost var buf, id := txBuf[..], txId;
      EchoWrite(buf, id, v);
      txBuf[txId] := v;
      assert txBuf[..] == buf[id := v];
      txId := txId + 1;
      if v == CR {
        ArmLine();
      }
    }

    /** Arms the line just completed by a carriage return in TX_buf,
        replaced by the greeting when the first six bytes of TX_buf are the
        command word; the send cursor goes back to 0 and TXE is enabled. */
    method ArmLine()
      requires rxBuf.Length == RxBufSize && txBuf.Length == TxBufSize && rxBuf != txBuf
      requires RxCursors(rxIn, rxOut, rxEmpty, rxFull)
      requires !messageReady && !txeEnabled && !halted
      requires 0 < txId <= TxBufSize && TxCursor(txBuf[..], txId - 1, false) && txBuf[txId - 1] == CR
      modifies this, txBuf
      ensures Valid()
      ensures rxIn == old(rxIn) && rxOut == old(rxOut) && rxEmpty == old(rxEmpty)
      ensures rxFull == old(rxFull) && rxOverflow == old(rxOverflow)
      ensures !halted && sent == old(sent) && Unread() == old(Unread())
      ensures messageReady && txeEnabled && txId == 0
      ensures txBuf[..] == (if old(txBuf[..txId]) == HelloCmd then Strncpy(GreetingText)
                            else old(txBuf[..]))
      ensures Message() == Response(old(txBuf[..txId]))
    {
      EchoTerminator(txBuf[..], txId - 1);
      if StrnEqual(txBuf[..], HelloCmd, 6) {
        GreetingShape();
        FrameOfCanned(GreetingText);
        CopyToTxBuf(GreetingText);
      }
      messageReady := true;
      txId := 0;
      txeEnabled := true;
    }

    /** TXE branch: with a message armed, send the byte under the send
        cursor and advance it; after the carriage return, rewind the cursor,
        disarm and disable TXE. With nothing armed, only disable TXE. */
    method TxReady()
      requires Valid()
      modifies this
      ensures Valid()
      ensures rxIn == old(rxIn) && rxOut == old(rxOut) && rxEmpty == old(rxEmpty)
      ensures rxFull == old(rxFull) && rxOverflow == old(rxOverflow) && halted == old(halted)
      ensures !old(messageReady) ==>
                !messageReady && !txeEnabled && txId == old(txId) && sent == old(sent)
      ensures old(messageReady) ==>
                old(txId) < |Message()|
                && sent == old(sent) + [Message()[old(txId)]]
                && (messageReady <==> old(txId) + 1 < |Message()|)
                && txId == (if messageReady then old(txId) + 1 else 0)
    {
      if messageReady {
        SendStep(txBuf[..], txId);
        var v := txBuf[txId];
        txId := txId + 1;
        sent := sent + [v];
        if v == CR {
          txId := 0;
          messageReady := false;
          txeEnabled := false;
        }
      } else {
        txeEnabled := false;
      }
    }

    /** USART1_IRQHandler: the RXNE branch when a byte was received, then
        the TXE branch when the transmit data register is empty. */
    method UsartIrq(rxne: bool, b: byte, txe: bool)
      requires Valid()
      modifies this, rxBuf
      ensures Valid()
      ensures Unread() == if rxne && !old(rxFull) then old(Unread()) + [b] else old(Unread())
      ensures rxOverflow == (old(rxOverflow) || (rxne && old(rxFull)))
      ensures halted == old(halted) && txBuf[..] == old(txBuf[..])
      ensures rxOut == old(rxOut)
      ensures rxIn == if rxne && !old(rxFull) then Advance(old(rxIn)) else old(rxIn)
      ensures !txe ==>
                sent == old(sent) && messageReady == old(messageReady) && txId == old(txId)
      ensures txe && !old(messageReady) ==>
                !messageReady && !txeEnabled && txId == old(txId) && sent == old(sent)
      ensures txe && old(messageReady) ==>
                old(txId) < |Message()|
                && sent == old(sent) + [Message()[old(txId)]]
                && (messageReady <==> old(txId) + 1 < |Message()|)
                && txId == (if messageReady then old(txId) + 1 else 0)
    {
      if rxne {
        RxByte(b);
      }
      if txe {
        TxReady();
      }
    }
  }
}
