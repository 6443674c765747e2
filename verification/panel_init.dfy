/** Panel bring-up, `rm67162_init`: the reset pulse, the one-time bus
    configuration, then the replay of the transport's command table through
    the dispatcher, with a settling delay after the entries that ask for one. */
module PanelInit {
  import opened Bits
  import opened Bus
  import opened Dispatch

  /** One row of an initialisation table (`lcd_cmd_t`): the opcode, the
      parameter bytes as written in the table, and the length byte whose low
      seven bits count the parameters and whose bit 7 requests a settle. */
  datatype Entry = Entry(cmd: Byte, data: seq<Byte>, len: U32)

  const RESET_LOW_MS: nat := 300
  const RESET_HIGH_MS: nat := 200
  const SETTLE_MS: nat := 120

  /** `len & 0x7f`. */
  function PayloadLen(len: U32): U32 { len % 0x80 }

  /** `len & 0x80` is non-zero. */
  predicate Settles(len: U32) { (len / 0x80) % 2 == 1 }

  /** The table supplies every parameter byte its length byte announces. */
  predicate WellFormed(e: Entry) { PayloadLen(e.len) <= |e.data| }

  predicate TableWellFormed(table: seq<Entry>)
  {
    forall i | 0 <= i < |table| :: WellFormed(table[i])
  }

  /** `rm67162_spi_init`. */
  const SpiTable: seq<Entry> := [
    Entry(0xFE, [0x00], 0x01),          // page select
    Entry(0x36, [0x00], 0x01),          // scan direction
    Entry(0x3A, [0x75], 0x01),          // interface pixel format
    Entry(0x51, [0x00], 0x01),          // brightness
    Entry(0x11, [0x00], 0x01 + 0x80),   // sleep out
    Entry(0x29, [0x00], 0x01 + 0x80),   // display on
    Entry(0x51, [0xD0], 0x01)           // brightness
  ]

  /** `rm67162_qspi_init`. */
  const QspiTable: seq<Entry> := [
    Entry(0x11, [0x00], 0x80),          // sleep out
    Entry(0x3A, [0x55], 0x01),          // interface pixel format
    Entry(0x51, [0x00], 0x01),          // brightness
    Entry(0x29, [0x00], 0x80),          // display on
    Entry(0x51, [0xD0], 0x01)           // brightness
  ]

  function Table(t: Transport): (table: seq<Entry>)
    ensures TableWellFormed(table)
  {
    if t == Spi then SpiTable else QspiTable
  }

  /** One iteration of the replay loop. */
  function EntryEvents(t: Transport, e: Entry): seq<Event>
    requires WellFormed(e)
  {
    SendCmd(t, e.cmd, Buf(e.data), PayloadLen(e.len))
      + (if Settles(e.len) then [Delay(SETTLE_MS)] else [])
  }

  /** The replay loop over a table, first entry first. */
  function Replay(t: Transport, table: seq<Entry>): (r: seq<Event>)
    requires TableWellFormed(table)
    ensures Boundary(r)
  {
    if table == [] then []
    else EntryEvents(t, table[0]) + Replay(t, table[1..])
  }

  /** The reset pulse and the bus configuration that precede every command. */
  const Prologue: seq<Event> :=
    [ResetLine(false), Delay(RESET_LOW_MS), ResetLine(true), Delay(RESET_HIGH_MS), BusSetup]

  /** `rm67162_init()` on the given transport. */
  function Init(t: Transport): seq<Event>
  {
    Prologue + Replay(t, Table(t))
  }

  /** A command as the panel receives it, with whether a settling delay
      followed it before anything else. */
  datatype Issued = Issued(op: Byte, payload: seq<Byte>, settled: bool)

  /** Groups decoded actions into commands each optionally followed by a
      settling delay; `None` if anything else occurs. */
  function Settle(acts: seq<Action>): Option<seq<Issued>>
  {
    if acts == [] then Some([])
    else if !acts[0].Cmd? then None
    else
      var settled := |acts| > 1 && acts[1] == Wait(SETTLE_MS);
      var rest := Settle(acts[if settled then 2 else 1..]);
      if rest.Some? then Some([Issued(acts[0].op, acts[0].payload, settled)] + rest.value)
      else None
  }

  /** What a table promises: entry i issued as the i-th command, with the
      parameters its length byte counts, settled exactly when flagged. */
  function Schedule(table: seq<Entry>): seq<Issued>
    requires TableWellFormed(table)
  {
    seq(|table|, i requires 0 <= i < |table| =>
      Issued(table[i].cmd, table[i].data[..PayloadLen(table[i].len)], Settles(table[i].len)))
  }

  lemma {:induction false} EntryDecodes(t: Transport, e: Entry)
    requires WellFormed(e)
    ensures Decode(t, EntryEvents(t, e)) ==
      Some([Cmd(e.cmd, e.data[..PayloadLen(e.len)])] + (if Settles(e.len) then [Wait(SETTLE_MS)] else []))
  {
    var n := PayloadLen(e.len);
    SendCmdDecodes(t, e.cmd, Buf(e.data), n);
    assert Prefix(Buf(e.data), n) == e.data[..n];
    var tail: seq<Event> := if Settles(e.len) then [Delay(SETTLE_MS)] else [];
    DecodeAppend(t, SendCmd(t, e.cmd, Buf(e.data), n), tail);
    if Settles(e.len) {
      DecodePlain(t, Delay(SETTLE_MS));
    }
  }

  /** Grouping one command, its optional settle, and the commands after it. */
  lemma SettleStep(c: Action, settled: bool, tail: seq<Action>)
    requires c.Cmd?
    requires tail != [] ==> tail[0].Cmd?
    ensures Settle([c] + (if settled then [Wait(SETTLE_MS)] else []) + tail) ==
      (if Settle(tail).Some? then Some([Issued(c.op, c.payload, settled)] + Settle(tail).value) else None)
  {
    var acts := [c] + (if settled then [Wait(SETTLE_MS)] else []) + tail;
    if settled {
      assert acts[1] == Wait(SETTLE_MS);
      assert acts[2..] == tail;
    } else {
      assert |acts| > 1 ==> acts[1] == tail[0];
      assert acts[1..] == tail;
    }
  }

  lemma TailWellFormed(table: seq<Entry>)
    requires TableWellFormed(table) && table != []
    ensures TableWellFormed(table[1..])
    ensures Schedule(table) ==
      [Issued(table[0].cmd, table[0].data[..PayloadLen(table[0].len)], Settles(table[0].len))] + Schedule(table[1..])
  {
    var rest := table[1..];
    forall i | 0 <= i < |rest| ensures WellFormed(rest[i]) {
      assert rest[i] == table[i + 1];
    }
  }

  /** The replay issues every table entry exactly once and in table order,
      each with `len & 0x7f` parameters, and waits 120 ms right after an
      entry if and only if its `len & 0x80` flag is set. */
  lemma {:induction false} ReplayIssuesSchedule(t: Transport, table: seq<Entry>)
    requires TableWellFormed(table)
    ensures Decode(t, Replay(t, table)).Some?
    ensures Settle(Decode(t, Replay(t, table)).value) == Some(Schedule(table))
  {
    if table == [] {
      assert Schedule(table) == [];
    } else {
      var e := table[0];
      var rest := table[1..];
      TailWellFormed(table);
      ReplayIssuesSchedule(t, rest);
      EntryDecodes(t, e);
      DecodeAppend(t, EntryEvents(t, e), Replay(t, rest));
      var tailActs := Decode(t, Replay(t, rest)).value;
      var cmd := Cmd(e.cmd, e.data[..PayloadLen(e.len)]);
      var wait: seq<Action> := if Settles(e.len) then [Wait(SETTLE_MS)] else [];
      assert Decode(t, Replay(t, table)) == Some([cmd] + wait + tailActs);
      SettleStep(cmd, Settles(e.len), tailActs);
    }
  }

  /** What the controller sees of the prologue: reset low, a wait, reset
      high, a wait, the bus set-up. */
  const PrologueActions: seq<Action> :=
    [Level(false), Wait(RESET_LOW_MS), Level(true), Wait(RESET_HIGH_MS), Setup]

  /** Initialisation pulls reset low for 300 ms, releases it and waits
      200 ms, configures the bus once, and only then issues the transport's
      table as `ReplayIssuesSchedule` describes. */
  lemma InitSequence(t: Transport)
    ensures Decode(t, Init(t)).Some?
    ensures var acts := Decode(t, Init(t)).value;
      && |acts| >= 5
      && acts[..5] == PrologueActions
      && Settle(acts[5..]) == Some(Schedule(Table(t)))
  {
    PrologueThenReplay(t, Table(t));
  }

  lemma PrologueThenReplay(t: Transport, table: seq<Entry>)
    requires TableWellFormed(table)
    ensures Decode(t, Prologue + Replay(t, table)).Some?
    ensures var acts := Decode(t, Prologue + Replay(t, table)).value;
      && |acts| >= 5
      && acts[..5] == PrologueActions
      && Settle(acts[5..]) == Some(Schedule(table))
  {
    var r := Replay(t, table);
    ReplayIssuesSchedule(t, table);
    PrologueDecodes(t);
    DecodeAppend(t, Prologue, r);
    var acts := PrologueActions + Decode(t, r).value;
    assert acts[..5] == PrologueActions;
    assert acts[5..] == Decode(t, r).value;
  }

  lemma PrologueDecodes(t: Transport)
    ensures Decode(t, Prologue) == Some(PrologueActions)
  {
    DecodePlainPrefix(t, Prologue, []);
    assert Prologue + [] == Prologue;
    assert seq(5, i requires 0 <= i < 5 => PlainAction(Prologue[i])) == PrologueActions;
    assert Decode(t, []) == Some([]);
    assert PrologueActions + [] == PrologueActions;
  }

  /** In both tables the entries that wait for the panel to settle are
      exactly sleep-out (0x11) and display-on (0x29), and the pixel format
      (0x3A) and a brightness (0x51) are set before the display is switched
      on. */
  lemma TablesSettleOnSleepOutAndDisplayOn(t: Transport)
    ensures forall i | 0 <= i < |Table(t)| ::
      Settles(Table(t)[i].len) <==> Table(t)[i].cmd in {0x11, 0x29}
    ensures exists i, j | 0 <= i < j < |Table(t)| :: Table(t)[i].cmd == 0x3A && Table(t)[j].cmd == 0x29
    ensures exists i, j | 0 <= i < j < |Table(t)| :: Table(t)[i].cmd == 0x51 && Table(t)[j].cmd == 0x29
  {
    if t == Spi {
      assert Table(t)[2].cmd == 0x3A && Table(t)[5].cmd == 0x29;
      assert Table(t)[3].cmd == 0x51;
    } else {
      assert Table(t)[1].cmd == 0x3A && Table(t)[3].cmd == 0x29;
      assert Table(t)[2].cmd == 0x51;
    }
  }
}
