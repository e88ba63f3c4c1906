/** src/usb_otg.c, enabled half: buffered transmission and reset detection by the RTS line. */
module UsbOtg {
  import opened Words

  const BYTES_PER_TX := 64

  /** What happens to the RTS bookkeeping, one entry per atomic step. */
  datatype LineEvent =
    | Clear             // the request flag is cleared
    | Attach(rts: nat)  // the line is read when the driver attaches
    | Sample(rts: nat)  // the line is read in the interrupt

  /** The level the last reading before position i saw; 0 before any reading. */
  function LevelBefore(h: seq<LineEvent>, i: nat): nat
    requires i <= |h|
  {
    if i == 0 then 0
    else match h[i - 1]
         case Clear => LevelBefore(h, i - 1)
         case Attach(rts) => rts
         case Sample(rts) => rts
  }

  /** At position i the interrupt saw the line fall from 1 to 0. */
  predicate FallsAt(h: seq<LineEvent>, i: nat)
    requires i < |h|
  {
    h[i] == Sample(0) && LevelBefore(h, i) == 1
  }

  /** A fall was seen and the flag has not been cleared since. */
  ghost predicate Requested(h: seq<LineEvent>) {
    exists i :: 0 <= i < |h| && FallsAt(h, i) && (forall j :: i < j < |h| ==> h[j] != Clear)
  }

  lemma {:induction false} LevelPrefix(h: seq<LineEvent>, e: LineEvent, i: nat)
    requires i <= |h|
    ensures LevelBefore(h + [e], i) == LevelBefore(h, i)
  {
    if i > 0 { LevelPrefix(h, e, i - 1); }
  }

  /** How one event changes the request: a clear withdraws it, a fall raises it, nothing else touches it. */
  lemma RequestedStep(h: seq<LineEvent>, e: LineEvent)
    ensures Requested(h + [e]) <==> e != Clear && (Requested(h) || (e == Sample(0) && LevelBefore(h, |h|) == 1))
  {
    var g := h + [e];
    forall i | 0 <= i <= |h|
      ensures LevelBefore(g, i) == LevelBefore(h, i)
    {
      LevelPrefix(h, e, i);
    }
    if Requested(h) && e != Clear {
      var i :| 0 <= i < |h| && FallsAt(h, i) && (forall j :: i < j < |h| ==> h[j] != Clear);
      assert FallsAt(g, i);
    }
    if e == Sample(0) && LevelBefore(h, |h|) == 1 {
      assert FallsAt(g, |h|);
    }
    if Requested(g) {
      var i :| 0 <= i < |g| && FallsAt(g, i) && (forall j :: i < j < |g| ==> g[j] != Clear);
      if i < |h| {
        assert g[|h|] == e;
        assert FallsAt(h, i);
        assert forall j :: i < j < |h| ==> h[j] == g[j];
      }
    }
  }

  /** The level is that of the last reading, whether at the attach or in the interrupt. */
  lemma {:induction false} LevelMeans(h: seq<LineEvent>, i: nat)
    requires i <= |h|
    ensures forall p :: 0 <= p < i && h[p] != Clear && (forall j :: p < j < i ==> h[j] == Clear) ==> LevelBefore(h, i) == h[p].rts
    ensures (forall j :: 0 <= j < i ==> h[j] == Clear) ==> LevelBefore(h, i) == 0
    ensures LevelBefore(h, i) != 0 ==> exists p :: 0 <= p < i && h[p] != Clear && (forall j :: p < j < i ==> h[j] == Clear)
  {
    if i > 0 {
      LevelMeans(h, i - 1);
      if h[i - 1] == Clear && LevelBefore(h, i - 1) != 0 {
        var p :| 0 <= p < i - 1 && h[p] != Clear && (forall j :: p < j < i - 1 ==> h[j] == Clear);
        assert forall j :: p < j < i ==> h[j] == Clear;
      }
    }
  }

  /** A fall is a reading of 0 in the interrupt whose previous reading, at an attach or in the interrupt, was 1. */
  lemma FallMeans(h: seq<LineEvent>, q: nat)
    requires q < |h|
    ensures FallsAt(h, q) <==>
              && h[q] == Sample(0)
              && (exists p :: 0 <= p < q && (h[p] == Attach(1) || h[p] == Sample(1)) && (forall j :: p < j < q ==> h[j] == Clear))
  {
    hide LevelBefore;
    LevelMeans(h, q);
    if FallsAt(h, q) {
      var p :| 0 <= p < q && h[p] != Clear && (forall j :: p < j < q ==> h[j] == Clear);
      assert h[p].rts == 1;
    }
  }

  /**
   * The request in terms of the events alone: a reading of 1, at an attach or in the
   * interrupt, whose next reading is a 0 in the interrupt, with no clear after that.
   */
  lemma RequestMeans(h: seq<LineEvent>)
    ensures Requested(h) <==>
              exists q :: && 0 <= q < |h| && h[q] == Sample(0)
                          && (exists p :: && 0 <= p < q && (h[p] == Attach(1) || h[p] == Sample(1))
                                          && (forall j :: p < j < q ==> h[j] == Clear))
                          && (forall j :: q < j < |h| ==> h[j] != Clear)
  {
    hide FallsAt;
    if Requested(h) {
      var q :| 0 <= q < |h| && FallsAt(h, q) && (forall j :: q < j < |h| ==> h[j] != Clear);
      FallMeans(h, q);
    }
    if q :| && 0 <= q < |h| && h[q] == Sample(0)
            && (exists p :: 0 <= p < q && (h[p] == Attach(1) || h[p] == Sample(1)) && (forall j :: p < j < q ==> h[j] == Clear))
            && (forall j :: q < j < |h| ==> h[j] != Clear) {
      FallMeans(h, q);
    }
  }

  /** ACM callback status codes. */
  datatype AcmStatus = LineStateChanged | Rx | Other

  class CdcAcm {
    const txbuf: array<byte>
    var txpos: nat
    var oldRts: nat
    var resetRequested: bool
    var attached: bool
    var fifo: seq<byte>             // received bytes waiting in the device
    ghost var delivered: seq<byte>  // bytes passed to the receive callback
    ghost var given: seq<byte>      // bytes passed to tx_one_char since the last attach
    ghost var sent: seq<byte>       // bytes passed to fifo_fill since the last attach
    ghost var bursts: seq<nat>      // the lengths of those fifo_fill calls
    ghost var history: seq<LineEvent>

    ghost predicate Valid()
      reads this, txbuf
    {
      && txbuf.Length == BYTES_PER_TX && txpos < BYTES_PER_TX
      && sent + txbuf[..txpos] == given
      && (resetRequested <==> Requested(history))
      && oldRts == LevelBefore(history, |history|)
    }

    constructor ()
      ensures Valid() && fresh(txbuf) && !attached && given == sent == [] && history == []
    {
      txbuf := new byte[BYTES_PER_TX](_ => 0);
      txpos, oldRts, resetRequested, attached, fifo := 0, 0, false, false, [];
      delivered, given, sent, bursts, history := [], [], [], [], [];
    }

    /** stub_lib_usb_otg_rominit_intr_attach, up to the clearing of the state. */
    method AttachClear()
      requires Valid()
      modifies this
      ensures Valid() && attached && txpos == 0 && !resetRequested && oldRts == old(oldRts)
      ensures given == sent == [] && bursts == [] && history == old(history) + [Clear]
      ensures fifo == old(fifo) && delivered == old(delivered)
    {
      RequestedStep(history, Clear);
      LevelPrefix(history, Clear, |history|);
      attached := true;
      txpos := 0;
      resetRequested := false;
      given, sent, bursts := [], [], [];
      history := history + [Clear];
    }

    /** The rest of stub_lib_usb_otg_rominit_intr_attach: the initial RTS level. */
    method AttachSample(rts: nat)
      requires Valid()
      modifies `oldRts, `history
      ensures Valid() && oldRts == rts && history == old(history) + [Attach(rts)]
    {
      RequestedStep(history, Attach(rts));
      oldRts := rts;
      history := history + [Attach(rts)];
    }

    /** stub_lib_usb_otg_cdcacm_callback; line is the level that the line control reads. */
    method Callback(status: AcmStatus, line: nat)
      requires Valid() && attached
      modifies `fifo, `delivered, `oldRts, `resetRequested, `history
      ensures Valid()
      ensures status.Rx? ==> fifo == [] && delivered == old(delivered) + old(fifo)
      ensures !status.Rx? ==> fifo == old(fifo) && delivered == old(delivered)
      ensures history == old(history) + if status.LineStateChanged? then [Sample(line)] else []
      ensures status.LineStateChanged? ==>
                oldRts == line && (resetRequested <==> old(resetRequested) || (line == 0 && old(oldRts) == 1))
      ensures !status.LineStateChanged? ==> oldRts == old(oldRts) && resetRequested == old(resetRequested)
    {
      if status == Rx {
        while |fifo| > 0
          invariant Valid() && delivered + fifo == old(delivered) + old(fifo)
          invariant history == old(history) && oldRts == old(oldRts) && resetRequested == old(resetRequested)
          decreases |fifo|
        {
          var c := fifo[0];
          fifo := fifo[1..];
          delivered := delivered + [c];
        }
      } else if status == LineStateChanged {
        RequestedStep(history, Sample(line));
        if line == 0 && oldRts == 1 {
          resetRequested := true;
        }
        oldRts := line;
        history := history + [Sample(line)];
      }
    }

    /** stub_lib_usb_otg_tx_flush. */
    method TxFlush()
      requires txbuf.Length == BYTES_PER_TX && txpos <= BYTES_PER_TX && sent + txbuf[..txpos] == given
      requires (resetRequested <==> Requested(history)) && oldRts == LevelBefore(history, |history|)
      modifies `txpos, `sent, `bursts
      ensures Valid() && txpos == 0 && sent == given && bursts == old(bursts) + [old(txpos)]
    {
      sent := sent + txbuf[..txpos];
      bursts := bursts + [txpos];
      txpos := 0;
    }

    /** stub_lib_usb_otg_tx_one_char: a full buffer goes out at once. */
    method TxOneChar(c: byte) returns (r: byte)
      requires Valid()
      modifies `txpos, `given, `sent, `bursts, txbuf
      ensures Valid() && r == 0 && given == old(given) + [c]
      ensures if old(txpos) == 63
              then txpos == 0 && sent == given && bursts == old(bursts) + [64]
              else txpos == old(txpos) + 1 && sent == old(sent) && bursts == old(bursts)
    {
      txbuf[txpos] := c;
      txpos := txpos + 1;
      given := given + [c];
      assert txbuf[..txpos] == old(txbuf[..txpos]) + [c];
      if txpos == BYTES_PER_TX {
        TxFlush();
      }
      r := 0;
    }

    /** stub_lib_usb_otg_is_reset_requested. */
    method IsResetRequested() returns (r: bool)
      requires Valid()
      ensures r == resetRequested && (r <==> Requested(history))
    {
      r := resetRequested;
    }

    /** stub_lib_usb_otg_handle_reset, up to the target's own reset. */
    method HandleReset()
      requires Valid()
      modifies `resetRequested, `history
      ensures Valid() && !resetRequested && history == old(history) + [Clear]
    {
      RequestedStep(history, Clear);
      LevelPrefix(history, Clear, |history|);
      resetRequested := false;
      history := history + [Clear];
    }
  }

  /** The steps of the main program and of the interrupt, in any order. */
  datatype Step =
    | DoAttachClear
    | DoAttachSample(rts: nat)
    | DoTx(c: byte)
    | DoFlush
    | DoHandleReset
    | DoCallback(status: AcmStatus, line: nat)

  function LineHistory(steps: seq<Step>): seq<LineEvent> {
    if steps == [] then []
    else
      LineHistory(steps[..|steps| - 1]) +
      match steps[|steps| - 1]
      case DoAttachClear => [Clear]
      case DoAttachSample(rts) => [Attach(rts)]
      case DoHandleReset => [Clear]
      case DoCallback(status, line) => if status.LineStateChanged? then [Sample(line)] else []
      case _ => []
  }

  function BytesGiven(steps: seq<Step>): seq<byte> {
    if steps == [] then []
    else match steps[|steps| - 1]
         case DoAttachClear => []
         case DoTx(c) => BytesGiven(steps[..|steps| - 1]) + [c]
         case _ => BytesGiven(steps[..|steps| - 1])
  }

  /**
   * Any interleaving of main program and interrupt steps: what was sent and what is
   * buffered are the bytes given since the last attach, in order, and the request flag
   * says exactly whether the line fell after the last clear.
   */
  method Run(steps: seq<Step>) returns (usb: CdcAcm)
    requires steps != [] && steps[0] == DoAttachClear
    ensures fresh(usb) && usb.Valid()
    ensures usb.sent + usb.txbuf[..usb.txpos] == BytesGiven(steps)
    ensures usb.txpos < 64
    ensures usb.resetRequested <==> Requested(LineHistory(steps))
  {
    usb := new CdcAcm();
    for i := 0 to |steps|
      invariant fresh(usb) && fresh(usb.txbuf) && usb.Valid() && (i > 0 ==> usb.attached)
      invariant usb.given == BytesGiven(steps[..i]) && usb.history == LineHistory(steps[..i])
    {
      assert steps[..i + 1][..i] == steps[..i];
      match steps[i] {
        case DoAttachClear => usb.AttachClear();
        case DoAttachSample(rts) => usb.AttachSample(rts);
        case DoTx(c) => var _ := usb.TxOneChar(c);
        case DoFlush => usb.TxFlush();
        case DoHandleReset => usb.HandleReset();
        case DoCallback(status, line) => usb.Callback(status, line);
      }
    }
    assert steps[..|steps|] == steps;
  }
}
