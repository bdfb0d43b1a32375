/** The bit engine of sim/verilated/uartsim.cpp: one tick of the receiver and one tick of the
    transmitter. The socket is abstracted: a tick is offered at most one incoming byte, which an
    idle transmitter takes, and reports at most one received byte. */
module Uart {
  import opened Bits
  import opened Wrappers

  datatype Config = Config(baud: nat, nbits: nat, nparity: nat, nstop: nat, fixdp: bool, evenp: nat) {
    /** Bits on the line after the start bit. */
    function Frame(): nat { nbits + nparity + nstop }

    ghost predicate Ok() {
      baud >= 1 && 5 <= nbits <= 8 && nparity <= 1 && 1 <= nstop <= 2 && evenp <= 1
    }
  }

  /** The fields of the 32-bit setup word. */
  function Setup(isetup: nat): (c: Config)
    requires isetup < 0x1_0000_0000
    ensures c.baud >= 1 ==> c.Ok()
  {
    Config(isetup % 0x100_0000,
           8 - isetup / 0x1000_0000 % 4,
           isetup / 0x400_0000 % 2,
           isetup / 0x800_0000 % 2 + 1,
           isetup / 0x200_0000 % 2 == 1,
           isetup / 0x100_0000 % 2)
  }

  /** Every configuration has its setup word, whatever the two top bits of the word are. */
  lemma SetupDecodes(c: Config, top: nat)
    requires c.Ok() && c.baud < 0x100_0000 && top < 4
    ensures var w := c.baud + c.evenp * 0x100_0000 + (if c.fixdp then 0x200_0000 else 0) + c.nparity * 0x400_0000
        + (c.nstop - 1) * 0x800_0000 + (8 - c.nbits) * 0x1000_0000 + top * 0x4000_0000;
      w < 0x1_0000_0000 && Setup(w) == c
  {
    var fixdp := if c.fixdp then 1 else 0;
    var w4 := 4 * top + (8 - c.nbits);
    var w3 := 2 * w4 + (c.nstop - 1);
    var w2 := 2 * w3 + c.nparity;
    var w1 := 2 * w2 + fixdp;
    var w0 := 2 * w1 + c.evenp;
    var w := w0 * 0x100_0000 + c.baud;
    DivModUnique(w, 0x100_0000, w0, c.baud);
    DivModUnique(w, 0x200_0000, w1, c.evenp * 0x100_0000 + c.baud);
    DivModUnique(w, 0x400_0000, w2, fixdp * 0x200_0000 + c.evenp * 0x100_0000 + c.baud);
    DivModUnique(w, 0x800_0000, w3, w - w3 * 0x800_0000);
    DivModUnique(w, 0x1000_0000, w4, w - w4 * 0x1000_0000);
    DivModUnique(w4, 4, top, 8 - c.nbits);
    DivModUnique(w3, 2, w4, c.nstop - 1);
    DivModUnique(w2, 2, w3, c.nparity);
    DivModUnique(w1, 2, w2, fixdp);
    DivModUnique(w0, 2, w1, c.evenp);
  }

  datatype Tx = Tx(active: bool, baud: int, busy: nat, data: nat)

  datatype Rx = Rx(active: bool, baud: int, busy: nat, data: nat, changectr: int, last: int)

  /** Xor of the low n bits of x: what folding a byte onto itself three times leaves in bit 0. */
  function Parity(x: nat, n: nat): (p: nat)
    ensures p <= 1
  {
    if n == 0 then 0 else (x % 2 + Parity(x / 2, n - 1)) % 2
  }

  /** The register `m_tx_data` for byte b: start bit 0, the byte, the parity bit if there is one,
      and ones above. */
  function Word(c: Config, b: nat): nat
    requires c.Ok() && b < 0x100
  {
    var w := BitOr(Shl(Ones(31 - c.nbits - c.nparity), c.nbits + c.nparity + 1), 2 * b);
    if c.nparity == 0 then w
    else
      var p := if c.fixdp then c.evenp else (Parity(w / 2, 8) + c.evenp) % 2;
      BitOr(w, Shl(p, c.nbits + c.nparity))
  }

  function RxTick(c: Config, rx: Rx, i: int): (r: (Rx, Option<nat>))
    requires c.Ok()
  {
    var ctr := if i == 0 && rx.last != 0 then 0 else rx.changectr + 1;
    var s := rx.(changectr := ctr, last := i);
    if !rx.active then
      (if i == 0 then s.(active := true, baud := c.baud + c.baud / 2 - 1 - ctr, busy := 0, data := 0) else s, None)
    else if rx.baud <= 0 then
      if rx.busy >= Shl(1, c.Frame() - 1) then
        (s.(active := false, baud := c.baud - 1), Some(Shr(rx.data, 32 - c.Frame()) % 0x100))
      else
        (s.(busy := 2 * rx.busy + 1, data := BitOr(Shl(i % 2, 31), rx.data / 2), baud := c.baud - 1), None)
    else (s.(baud := rx.baud - 1), None)
  }

  function TxTick(c: Config, tx: Tx, offer: Option<nat>): (r: (Tx, int))
    requires c.Ok() && (offer.Some? ==> offer.value < 0x100)
  {
    if !tx.active then
      if offer.None? then (tx, 1)
      else (Tx(true, c.baud - 1, Ones(c.Frame() + 1), Word(c, offer.value)), 0)
    else if tx.baud <= 0 then
      (Tx(tx.busy / 2 != 0, if tx.busy / 2 != 0 then c.baud - 1 else tx.baud, tx.busy / 2, tx.data / 2),
       tx.data / 2 % 2)
    else (tx.(baud := tx.baud - 1), tx.data % 2)
  }

  /** The simulator object. */
  class UartSim {
    const cfg: Config
    var txActive: bool
    var txBaud: int
    var txBusy: nat
    var txData: nat
    var rxActive: bool
    var rxBaud: int
    var rxBusy: nat
    var rxData: nat
    var rxChangectr: int
    var lastTx: int

    constructor (c: Config, ctr: int, last: int)
      ensures cfg == c && TxView() == Tx(false, 0, 0, 0) && RxView() == Rx(false, 0, 0, 0, ctr, last)
    {
      cfg := c;
      txActive, txBaud, txBusy, txData := false, 0, 0, 0;
      rxActive, rxBaud, rxBusy, rxData := false, 0, 0, 0;
      rxChangectr, lastTx := ctr, last;
    }

    ghost function TxView(): Tx reads this { Tx(txActive, txBaud, txBusy, txData) }

    ghost function RxView(): Rx reads this { Rx(rxActive, rxBaud, rxBusy, rxData, rxChangectr, lastTx) }

    /** The receiving half of `nettick`. */
    method Receive(i: int) returns (out: Option<nat>)
      requires cfg.Ok()
      modifies this
      ensures TxView() == old(TxView())
      ensures (RxView(), out) == RxTick(cfg, old(RxView()), i)
    {
      hide Shl, Shr, BitOr;
      out := None;
      if i == 0 && lastTx != 0 {
        rxChangectr := 0;
      } else {
        rxChangectr := rxChangectr + 1;
      }
      lastTx := i;
      if !rxActive {
        if i == 0 {
          rxActive := true;
          rxBaud := cfg.baud + cfg.baud / 2 - 1;
          rxBaud := rxBaud - rxChangectr;
          rxBusy := 0;
          rxData := 0;
        }
      } else if rxBaud <= 0 {
        if rxBusy >= Shl(1, cfg.Frame() - 1) {
          rxActive := false;
          out := Some(Shr(rxData, 32 - cfg.Frame()) % 0x100);
        } else {
          rxBusy := 2 * rxBusy + 1;
          rxData := BitOr(Shl(i % 2, 31), rxData / 2);
        }
        rxBaud := cfg.baud - 1;
      } else {
        rxBaud := rxBaud - 1;
      }
    }

    /** The transmitting half of `nettick`. */
    method Transmit(offer: Option<nat>) returns (o: int)
      requires cfg.Ok() && (offer.Some? ==> offer.value < 0x100)
      modifies this
      ensures RxView() == old(RxView())
      ensures (TxView(), o) == TxTick(cfg, old(TxView()), offer)
    {
      hide Word, Ones;
      o := 1;
      if !txActive {
        if offer.Some? {
          txData := Word(cfg, offer.value);
          txBusy := Ones(cfg.Frame() + 1);
          txActive := true;
          o := 0;
          txBaud := cfg.baud - 1;
        }
      } else if txBaud <= 0 {
        txData := txData / 2;
        txBusy := txBusy / 2;
        if txBusy == 0 {
          txActive := false;
        } else {
          txBaud := cfg.baud - 1;
        }
        o := txData % 2;
      } else {
        txBaud := txBaud - 1;
        o := txData % 2;
      }
    }

    /** One clock: sample the incoming wire, then drive the outgoing one. */
    method NetTick(i: int, offer: Option<nat>) returns (o: int, out: Option<nat>)
      requires cfg.Ok() && (offer.Some? ==> offer.value < 0x100)
      modifies this
      ensures (RxView(), out) == RxTick(cfg, old(RxView()), i)
      ensures (TxView(), o) == TxTick(cfg, old(TxView()), offer)
    {
      out := Receive(i);
      o := Transmit(offer);
    }
  }
}
