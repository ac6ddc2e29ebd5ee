/** The SSD1306 72x40 display driver: a page buffer, an orientation flag and
    the I2C command/data protocol, with the two calibrated vertical offsets
    (52 in normal orientation, 12 flipped) that `flip()` reprograms together
    with the scan-direction commands.

    The bus is an append-only log of `writeto` transfers. The panel's
    registers are a ghost `Panel` value that every command write steps
    through a small command decoder (`Command`): the registers this driver
    programs, as the SSD1306 datasheet defines them, so that "the offset in
    use matches the orientation" is a property of what the panel has been
    sent. Data writes (control byte 0x40) go to display RAM and leave the
    registers alone. */
module Ssd1306 {
  import opened Wrappers
  import opened MonoVlsb

  /** One `i2c.writeto(addr, bytes)`. */
  datatype Transfer = Transfer(addr: int, bytes: seq<bv8>)

  /** The I2C bus: every transfer ever written, oldest first. Bus faults are
      not modelled; every write is delivered. */
  class I2C {
    var log: seq<Transfer>

    constructor ()
      ensures log == []
    {
      log := [];
    }

    method WriteTo(addr: int, bytes: seq<bv8>)
      modifies this
      ensures log == old(log) + [Transfer(addr, bytes)]
    {
      log := log + [Transfer(addr, bytes)];
    }
  }

  // ---------------------------------------------------------------------
  // The panel's command decoder
  // ---------------------------------------------------------------------

  /** The panel registers this driver programs. `pending` is the one-byte
      command still waiting for its parameter. */
  datatype Panel = Panel(
    on: bool,            // 0xAE off / 0xAF on
    inverted: bool,      // 0xA6 normal / 0xA7 inverse
    segRemap: bool,      // 0xA0 column 0 at SEG0 / 0xA1 mirrored
    comReversed: bool,   // 0xC0 scan COM0 up / 0xC8 scan reversed
    offset: bv8,         // parameter of 0xD3, vertical display offset
    contrast: bv8,       // parameter of 0x81
    pending: Option<bv8>)

  /** The registers after the panel's reset, as the datasheet gives them. */
  const PowerOnReset: Panel := Panel(false, false, false, false, 0x00, 0x7F, None)

  /** Commands of this driver's vocabulary that take one parameter byte. */
  predicate TakesParameter(b: bv8) {
    b == 0xD5 || b == 0xA8 || b == 0xD3 || b == 0x8D || b == 0x20 || b == 0xDA || b == 0x81 || b == 0xD9 || b == 0xDB
  }

  /** The decoder's step on one command byte. */
  function Command(p: Panel, b: bv8): Panel {
    match p.pending
    case Some(c) =>
      var q := if c == 0xD3 then p.(offset := b) else if c == 0x81 then p.(contrast := b) else p;
      q.(pending := None)
    case None =>
      if b == 0xAE then p.(on := false)
      else if b == 0xAF then p.(on := true)
      else if b == 0xA6 then p.(inverted := false)
      else if b == 0xA7 then p.(inverted := true)
      else if b == 0xA0 then p.(segRemap := false)
      else if b == 0xA1 then p.(segRemap := true)
      else if b == 0xC0 then p.(comReversed := false)
      else if b == 0xC8 then p.(comReversed := true)
      else if TakesParameter(b) then p.(pending := Some(b))
      else p
  }

  /** The decoder run over a string of command bytes, first byte first. */
  function Commands(p: Panel, bs: seq<bv8>): Panel
    decreases |bs|
  {
    if bs == [] then p else Commands(Command(p, bs[0]), bs[1..])
  }

  /** Four command bytes decode one after another. */
  lemma Commands4(p: Panel, a: bv8, b: bv8, c: bv8, d: bv8)
    ensures Commands(p, [a, b, c, d]) == Command(Command(Command(Command(p, a), b), c), d)
  {
    assert [a, b, c, d][1..] == [b, c, d];
    assert [b, c, d][1..] == [c, d];
    assert [c, d][1..] == [d];
    assert [d][1..] == [];
    var p1 := Command(p, a);
    var p2 := Command(p1, b);
    var p3 := Command(p2, c);
    assert Commands(p, [a, b, c, d]) == Commands(p1, [b, c, d]);
    assert Commands(p1, [b, c, d]) == Commands(p2, [c, d]);
    assert Commands(p2, [c, d]) == Commands(p3, [d]);
    assert Commands(p3, [d]) == Commands(Command(p3, d), []);
  }

  /** Page selects and column-window commands do not touch the registers
      this model tracks. */
  lemma AddressingInert(p: Panel, page: nat)
    requires p.pending.None? && page < 5
    ensures Command(p, 0xB0 + page as bv8) == p
    ensures Command(p, 0x0E) == p && Command(p, 0x11) == p
  {
    var b := 0xB0 + page as bv8;
    assert b == 0xB0 || b == 0xB1 || b == 0xB2 || b == 0xB3 || b == 0xB4;
  }

  // ---------------------------------------------------------------------
  // The bus protocol
  // ---------------------------------------------------------------------

  /** write_cmd(c): one transfer of the control byte 0x00 and the command. */
  function CmdWrite(addr: int, c: bv8): Transfer {
    Transfer(addr, [0x00, c])
  }

  function CmdWrites(addr: int, cs: seq<bv8>): (r: seq<Transfer>)
    ensures |r| == |cs|
    ensures forall i :: 0 <= i < |cs| ==> r[i] == CmdWrite(addr, cs[i])
  {
    seq(|cs|, i requires 0 <= i < |cs| => CmdWrite(addr, cs[i]))
  }

  lemma CmdWritesAppend(addr: int, a: seq<bv8>, b: seq<bv8>)
    ensures CmdWrites(addr, a + b) == CmdWrites(addr, a) + CmdWrites(addr, b)
  {
  }

  /** init_display's command bytes, in order. */
  const InitCommands: seq<bv8> := [
    0xAE,
    0xD5, 0x80,
    0xA8, 0x27,
    0xD3, 52,
    0x40,
    0x8D, 0x14,
    0x20, 0x00,
    0xA0,
    0xC0,
    0xDA, 0x12,
    0x81, 0xCF,
    0xD9, 0xF1,
    0xDB, 0x40,
    0xA4, 0xA6,
    0xAF
  ]

  /** init_display's command bytes, in the four runs its body sends. */
  const InitTimingCommands: seq<bv8> := [0xAE, 0xD5, 0x80, 0xA8, 0x27, 0xD3, 52]
  const InitScanCommands: seq<bv8> := [0x40, 0x8D, 0x14, 0x20, 0x00, 0xA0, 0xC0]
  const InitAnalogCommands: seq<bv8> := [0xDA, 0x12, 0x81, 0xCF, 0xD9, 0xF1, 0xDB, 0x40]
  const InitEnableCommands: seq<bv8> := [0xA4, 0xA6, 0xAF]

  lemma InitWritesSplit(addr: int)
    ensures CmdWrites(addr, InitCommands) ==
      CmdWrites(addr, InitTimingCommands) + CmdWrites(addr, InitScanCommands)
      + CmdWrites(addr, InitAnalogCommands) + CmdWrites(addr, InitEnableCommands)
  {
    var t, s, a, e := InitTimingCommands, InitScanCommands, InitAnalogCommands, InitEnableCommands;
    assert InitCommands == t + s + a + e;
    CmdWritesAppend(addr, t, s);
    CmdWritesAppend(addr, t + s, a);
    CmdWritesAppend(addr, t + s + a, e);
  }

  lemma AppendAssoc<T>(a: seq<T>, b: seq<T>, c: seq<T>)
    ensures a + b + c == a + (b + c)
  {
  }

  /** The writes of each run of init_display's commands, in the groups its
      lines send them. */
  lemma InitTimingWrites(addr: int)
    ensures CmdWrites(addr, InitTimingCommands) == [CmdWrite(addr, 0xAE)] + [CmdWrite(addr, 0xD5), CmdWrite(addr, 0x80)]
      + [CmdWrite(addr, 0xA8), CmdWrite(addr, 0x27)] + [CmdWrite(addr, 0xD3), CmdWrite(addr, 52)]
  {
  }

  lemma InitScanWrites(addr: int)
    ensures CmdWrites(addr, InitScanCommands) == [CmdWrite(addr, 0x40)] + [CmdWrite(addr, 0x8D), CmdWrite(addr, 0x14)]
      + [CmdWrite(addr, 0x20), CmdWrite(addr, 0x00)] + [CmdWrite(addr, 0xA0), CmdWrite(addr, 0xC0)]
  {
  }

  lemma InitAnalogWrites(addr: int)
    ensures CmdWrites(addr, InitAnalogCommands) == [CmdWrite(addr, 0xDA), CmdWrite(addr, 0x12)] + [CmdWrite(addr, 0x81), CmdWrite(addr, 0xCF)]
      + [CmdWrite(addr, 0xD9), CmdWrite(addr, 0xF1)] + [CmdWrite(addr, 0xDB), CmdWrite(addr, 0x40)]
  {
  }

  /** What each run of init_display's commands does to an idle decoder. */
  lemma InitTimingRegisters(p: Panel)
    requires p.pending.None?
    ensures Command(Command(Command(Command(Command(Command(Command(
              p, 0xAE), 0xD5), 0x80), 0xA8), 0x27), 0xD3), 52)
            == p.(on := false, offset := 52)
  {
  }

  lemma InitScanRegisters(p: Panel)
    requires p.pending.None?
    ensures Command(Command(Command(Command(Command(Command(Command(
              p, 0x40), 0x8D), 0x14), 0x20), 0x00), 0xA0), 0xC0)
            == p.(segRemap := false, comReversed := false)
  {
  }

  lemma InitAnalogRegisters(p: Panel)
    requires p.pending.None?
    ensures Command(Command(Command(Command(Command(Command(Command(Command(
              p, 0xDA), 0x12), 0x81), 0xCF), 0xD9), 0xF1), 0xDB), 0x40)
            == p.(contrast := 0xCF)
  {
  }

  lemma InitEnableRegisters(p: Panel)
    requires p.pending.None?
    ensures Command(Command(Command(p, 0xA4), 0xA6), 0xAF) == p.(inverted := false, on := true)
  {
  }

  /** The panel after init_display, whatever idle state it started from:
      on, not inverted, plain scan directions, offset 52, contrast 0xCF. */
  const InitializedPanel: Panel := Panel(true, false, false, false, 52, 0xCF, None)

  /** The commands flip() sends, given the orientation it starts from. */
  function FlipCommands(wasFlipped: bool): seq<bv8> {
    if !wasFlipped then [0xA1, 0xC8, 0xD3, 12] else [0xA0, 0xC0, 0xD3, 52]
  }

  /** The four writes of one page of show(): page select, the two column
      window nibbles of window_x = 30 (0x00 + 0x0E, 0x10 + 0x01), and the
      page's 72 buffer bytes behind the data control byte 0x40. */
  function PageWrites(addr: int, buf: seq<bv8>, page: nat): (r: seq<Transfer>)
    requires |buf| == BufferSize && page < 5
    ensures |r| == 4
  {
    [CmdWrite(addr, 0xB0 + page as bv8), CmdWrite(addr, 0x0E), CmdWrite(addr, 0x11),
     Transfer(addr, [0x40] + buf[page * 72 .. page * 72 + 72])]
  }

  /** The writes of the first `n` pages of show(). */
  function ShowPages(addr: int, buf: seq<bv8>, n: nat): (r: seq<Transfer>)
    requires |buf| == BufferSize && n <= 5
  {
    if n == 0 then [] else ShowPages(addr, buf, n - 1) + PageWrites(addr, buf, n - 1)
  }

  function ShowWrites(addr: int, buf: seq<bv8>): seq<Transfer>
    requires |buf| == BufferSize
  {
    ShowPages(addr, buf, 5)
  }

  lemma {:induction false} ShowPagesLength(addr: int, buf: seq<bv8>, n: nat)
    requires |buf| == BufferSize && n <= 5
    ensures |ShowPages(addr, buf, n)| == 4 * n
  {
    if n > 0 {
      ShowPagesLength(addr, buf, n - 1);
    }
  }

  /** show()'s writes come four per page, in page order: writes 4p to 4p+3
      are page p's select, column window and 72 data bytes. */
  lemma {:induction false} ShowPagesPage(addr: int, buf: seq<bv8>, n: nat, p: nat)
    requires |buf| == BufferSize && p < n <= 5
    ensures |ShowPages(addr, buf, n)| == 4 * n
    ensures ShowPages(addr, buf, n)[4 * p .. 4 * p + 4] == PageWrites(addr, buf, p)
  {
    ShowPagesLength(addr, buf, n - 1);
    if p < n - 1 {
      ShowPagesPage(addr, buf, n - 1, p);
    }
  }

  /** Every byte of the buffer goes out: byte i travels in the data write of
      page i / 72, at position i % 72 behind the control byte. */
  lemma ShowSendsBuffer(addr: int, buf: seq<bv8>, i: nat)
    requires |buf| == BufferSize && i < BufferSize
    ensures |ShowWrites(addr, buf)| == 20
    ensures ShowWrites(addr, buf)[4 * (i / 72) + 3] == PageWrites(addr, buf, i / 72)[3]
    ensures ShowWrites(addr, buf)[4 * (i / 72) + 3].bytes[1 + i % 72] == buf[i]
  {
    var p := i / 72;
    ShowPagesPage(addr, buf, 5, p);
    assert ShowWrites(addr, buf)[4 * p + 3] == ShowWrites(addr, buf)[4 * p .. 4 * p + 4][3];
  }

  /** The orientation registers agree with the driver's `flipped` flag:
      mirrored columns, reversed COM scan and offset 12 when flipped; plain
      scan and offset 52 otherwise. */
  predicate Oriented(p: Panel, flipped: bool) {
    && p.segRemap == flipped
    && p.comReversed == flipped
    && p.offset == (if flipped then 12 else 52)
  }

  /** flip()'s commands leave the panel oriented for the new flag, whatever
      orientation it found, with the decoder idle again and every other
      register as it was. */
  lemma FlipOrients(p: Panel, wasFlipped: bool)
    requires p.pending.None?
    ensures Oriented(Commands(p, FlipCommands(wasFlipped)), !wasFlipped)
    ensures Commands(p, FlipCommands(wasFlipped)) ==
      p.(segRemap := !wasFlipped, comReversed := !wasFlipped, offset := if wasFlipped then 52 else 12)
  {
    var cs := FlipCommands(wasFlipped);
    Commands4(p, cs[0], cs[1], cs[2], cs[3]);
    assert cs == [cs[0], cs[1], cs[2], cs[3]];
  }

  /** Flipping twice gives an oriented panel back exactly as it was. */
  lemma FlipTwiceRestores(p: Panel, wasFlipped: bool)
    requires p.pending.None? && Oriented(p, wasFlipped)
    ensures Commands(Commands(p, FlipCommands(wasFlipped)), FlipCommands(!wasFlipped)) == p
  {
    FlipOrients(p, wasFlipped);
    FlipOrients(Commands(p, FlipCommands(wasFlipped)), !wasFlipped);
  }

  // ---------------------------------------------------------------------
  // The driver
  // ---------------------------------------------------------------------

  class SSD1306 {
    const i2c: I2C
    const address: int
    const windowX: int := 30
    const windowYNormal: bv8 := 52
    const windowYFlipped: bv8 := 12
    const width: int := 72
    const height: int := 40
    var flipped: bool
    /** The page buffer shared with the frame buffer (MONO_VLSB layout). */
    const buffer: array<bv8>
    /** The panel's registers as the command writes so far have set them. */
    ghost var panel: Panel

    /** The driver's standing invariant: a 360-byte buffer and a decoder not
        waiting for a parameter. */
    ghost predicate Ready()
      reads this
    {
      buffer.Length == BufferSize && panel.pending.None?
    }

    /** The orientation/offset coupling: the panel's scan direction and
        vertical offset match `flipped`. */
    ghost predicate Aligned()
      reads this
    {
      Oriented(panel, flipped)
    }

    /** `pixel(x, y)` as the frame buffer holds it. */
    ghost function Pixel(x: int, y: int): bool
      reads this, buffer
      requires buffer.Length == BufferSize && OnScreen(x, y)
    {
      PixelAt(buffer[..], x, y)
    }

    /** __init__: a 360-byte buffer, not flipped, then init_display(). */
    constructor (i2c: I2C, address: int := 0x3C)
      modifies i2c
      ensures this.i2c == i2c && this.address == address
      ensures fresh(buffer) && buffer.Length == BufferSize
      ensures !flipped
      ensures buffer[..] == Filled(false)
      ensures i2c.log == old(i2c.log) + CmdWrites(address, InitCommands) + ShowWrites(address, Filled(false))
      ensures Ready() && Aligned()
      ensures panel == InitializedPanel
    {
      this.i2c := i2c;
      this.address := address;
      this.flipped := false;
      this.buffer := new bv8[BufferSize];
      this.panel := PowerOnReset;
      new;
      InitDisplay();
    }

    /** write_cmd(c). */
    method WriteCmd(c: bv8)
      modifies i2c, this`panel
      ensures i2c.log == old(i2c.log) + [CmdWrite(address, c)]
      ensures panel == Command(old(panel), c)
    {
      i2c.WriteTo(address, [0x00, c]);
      panel := Command(panel, c);
    }

    /** init_display(): the bring-up commands, then clear() and show(). The
        registers end up as InitializedPanel whatever they were; `flipped`
        is left as it was, so the coupling holds afterwards only when the
        driver was not flipped. */
    method InitDisplay()
      requires Ready()
      modifies i2c, this`panel, buffer
      ensures Ready()
      ensures i2c.log == old(i2c.log) + CmdWrites(address, InitCommands) + ShowWrites(address, Filled(false))
      ensures buffer[..] == Filled(false)
      ensures panel == InitializedPanel
      ensures Aligned() <==> !flipped
    {
      SendInitCommands();
      Clear();
      Show();
    }

    /** init_display's 25 command writes, from the display-off to the
        display-on command. */
    method SendInitCommands()
      requires panel.pending.None?
      modifies i2c, this`panel
      ensures i2c.log == old(i2c.log) + CmdWrites(address, InitCommands)
      ensures panel == InitializedPanel
    {
      ghost var l0 := i2c.log;
      ghost var t, s, a := CmdWrites(address, InitTimingCommands), CmdWrites(address, InitScanCommands), CmdWrites(address, InitAnalogCommands);
      InitTiming();
      InitScan();
      AppendAssoc(l0, t, s);
      InitAnalog();
      AppendAssoc(l0, t + s, a);
      InitEnable();
      AppendAssoc(l0, t + s + a, CmdWrites(address, InitEnableCommands));
      InitWritesSplit(address);
    }

    /** init_display, first part: display off, clock divider, multiplex
        ratio for 40 rows, and the offset of the normal orientation. */
    method InitTiming()
      requires panel.pending.None?
      modifies i2c, this`panel
      ensures i2c.log == old(i2c.log) + CmdWrites(address, InitTimingCommands)
      ensures panel == old(panel).(on := false, offset := 52)
    {
      ghost var p0, l0 := panel, i2c.log;
      ghost var a, b, c, d := [CmdWrite(address, 0xAE)], [CmdWrite(address, 0xD5), CmdWrite(address, 0x80)],
        [CmdWrite(address, 0xA8), CmdWrite(address, 0x27)], [CmdWrite(address, 0xD3), CmdWrite(address, 52)];
      WriteCmd(0xAE);
      WriteCmd(0xD5); WriteCmd(0x80);
      AppendAssoc(l0, a, b);
      assert i2c.log == l0 + (a + b);
      WriteCmd(0xA8); WriteCmd(0x27);
      AppendAssoc(l0, a + b, c);
      assert i2c.log == l0 + (a + b + c);
      WriteCmd(0xD3); WriteCmd(windowYNormal);
      AppendAssoc(l0, a + b + c, d);
      InitTimingWrites(address);
      InitTimingRegisters(p0);
    }

    /** init_display, second part: start line 0, charge pump on, horizontal
        addressing, column 0 at SEG0, COM scan from COM0. */
    method InitScan()
      requires panel.pending.None?
      modifies i2c, this`panel
      ensures i2c.log == old(i2c.log) + CmdWrites(address, InitScanCommands)
      ensures panel == old(panel).(segRemap := false, comReversed := false)
    {
      ghost var p0, l0 := panel, i2c.log;
      ghost var a, b, c, d := [CmdWrite(address, 0x40)], [CmdWrite(address, 0x8D), CmdWrite(address, 0x14)],
        [CmdWrite(address, 0x20), CmdWrite(address, 0x00)], [CmdWrite(address, 0xA0), CmdWrite(address, 0xC0)];
      WriteCmd(0x40);
      WriteCmd(0x8D); WriteCmd(0x14);
      AppendAssoc(l0, a, b);
      assert i2c.log == l0 + (a + b);
      WriteCmd(0x20); WriteCmd(0x00);
      AppendAssoc(l0, a + b, c);
      assert i2c.log == l0 + (a + b + c);
      WriteCmd(0xA0);
      WriteCmd(0xC0);
      AppendAssoc(l0, a + b + c, d);
      InitScanWrites(address);
      InitScanRegisters(p0);
    }

    /** init_display, third part: COM pin layout, contrast 0xCF, pre-charge
        period and VCOMH level. */
    method InitAnalog()
      requires panel.pending.None?
      modifies i2c, this`panel
      ensures i2c.log == old(i2c.log) + CmdWrites(address, InitAnalogCommands)
      ensures panel == old(panel).(contrast := 0xCF)
    {
      ghost var p0, l0 := panel, i2c.log;
      ghost var a, b, c, d := [CmdWrite(address, 0xDA), CmdWrite(address, 0x12)], [CmdWrite(address, 0x81), CmdWrite(address, 0xCF)],
        [CmdWrite(address, 0xD9), CmdWrite(address, 0xF1)], [CmdWrite(address, 0xDB), CmdWrite(address, 0x40)];
      WriteCmd(0xDA); WriteCmd(0x12);
      WriteCmd(0x81); WriteCmd(0xCF);
      AppendAssoc(l0, a, b);
      assert i2c.log == l0 + (a + b);
      WriteCmd(0xD9); WriteCmd(0xF1);
      AppendAssoc(l0, a + b, c);
      assert i2c.log == l0 + (a + b + c);
      WriteCmd(0xDB); WriteCmd(0x40);
      AppendAssoc(l0, a + b + c, d);
      InitAnalogWrites(address);
      InitAnalogRegisters(p0);
    }

    /** init_display, last part: display follows RAM, normal (not inverted)
        pixels, display on. */
    method InitEnable()
      requires panel.pending.None?
      modifies i2c, this`panel
      ensures i2c.log == old(i2c.log) + CmdWrites(address, InitEnableCommands)
      ensures panel == old(panel).(inverted := false, on := true)
    {
      ghost var p0 := panel;
      WriteCmd(0xA4); WriteCmd(0xA6);
      WriteCmd(0xAF);
      InitEnableRegisters(p0);
    }

    /** show(): for each of the five pages, page select, column window and
        the page's 72 bytes. The registers are left as they were. */
    method Show()
      requires Ready()
      modifies i2c, this`panel
      ensures i2c.log == old(i2c.log) + ShowWrites(address, buffer[..])
      ensures panel == old(panel)
    {
      ghost var before := i2c.log;
      var pages := height / 8;
      var page := 0;
      while page < pages
        invariant 0 <= page <= pages == 5
        invariant i2c.log == before + ShowPages(address, buffer[..], page)
        invariant panel == old(panel)
      {
        ShowPage(page);
        page := page + 1;
      }
    }

    /** One pass of show()'s loop: the page select, the column window of
        window_x and the page's 72 buffer bytes. */
    method ShowPage(page: nat)
      requires Ready() && page < 5
      modifies i2c, this`panel
      ensures i2c.log == old(i2c.log) + PageWrites(address, buffer[..], page)
      ensures panel == old(panel)
    {
      var low, high := 0x00 + ((windowX as bv8) & 0x0F), 0x10 + ((windowX as bv8) >> 4);
      assert low == 0x0E && high == 0x11;
      AddressingInert(panel, page);
      WriteCmd(0xB0 + page as bv8);
      WriteCmd(low);
      WriteCmd(high);
      assert width == 72;
      var start := page * width;
      var data := [0x40] + buffer[start..start + width];
      assert data == [0x40] + buffer[..][page * 72 .. page * 72 + 72];
      i2c.WriteTo(address, data);
    }

    /** flip(): the scan-direction pair and the offset for the other
        orientation, toggle `flipped`, then show(). From any idle panel the
        coupling holds afterwards. */
    method Flip()
      requires Ready()
      modifies i2c, this`flipped, this`panel
      ensures Ready() && Aligned()
      ensures flipped == !old(flipped)
      ensures i2c.log == old(i2c.log) + CmdWrites(address, FlipCommands(old(flipped))) + ShowWrites(address, buffer[..])
      ensures panel == Commands(old(panel), FlipCommands(old(flipped)))
      ensures panel == old(panel).(segRemap := flipped, comReversed := flipped, offset := if flipped then 12 else 52)
    {
      SendFlipCommands();
      flipped := !flipped;
      Show();
    }

    /** flip()'s four command writes for the orientation it leaves. */
    method SendFlipCommands()
      requires Ready()
      modifies i2c, this`panel
      ensures Ready()
      ensures i2c.log == old(i2c.log) + CmdWrites(address, FlipCommands(flipped))
      ensures panel == Commands(old(panel), FlipCommands(flipped))
      ensures panel == old(panel).(segRemap := !flipped, comReversed := !flipped, offset := if flipped then 52 else 12)
    {
      ghost var before := i2c.log;
      ghost var p0 := panel;
      if !flipped {
        WriteCmd(0xA1);
        WriteCmd(0xC8);
        WriteCmd(0xD3); WriteCmd(windowYFlipped);
      } else {
        WriteCmd(0xA0);
        WriteCmd(0xC0);
        WriteCmd(0xD3); WriteCmd(windowYNormal);
      }
      ghost var cs := FlipCommands(flipped);
      assert i2c.log == before + CmdWrites(address, cs);
      FlipOrients(p0, flipped);
      Commands4(p0, cs[0], cs[1], cs[2], cs[3]);
      assert cs == [cs[0], cs[1], cs[2], cs[3]];
    }

    /** clear(): fill(0). */
    method Clear()
      requires buffer.Length == BufferSize
      modifies buffer
      ensures buffer[..] == Filled(false)
    {
      Fill(0);
    }

    /** fill(c): every pixel takes the colour (non-zero means lit). */
    method Fill(color: int := 1)
      requires buffer.Length == BufferSize
      modifies buffer
      ensures buffer[..] == Filled(color != 0)
      ensures forall x, y :: OnScreen(x, y) ==> Pixel(x, y) == (color != 0)
    {
      var b: bv8 := if color != 0 then 0xFF else 0x00;
      forall i | 0 <= i < buffer.Length {
        buffer[i] := b;
      }
      forall x, y | OnScreen(x, y) ensures Pixel(x, y) == (color != 0) {
        FilledPixels(color != 0, x, y);
      }
    }

    /** pixel(x, y, c): one pixel takes the colour; off-screen coordinates are
        ignored. */
    method SetPixel(x: int, y: int, color: int := 1)
      requires buffer.Length == BufferSize
      modifies buffer
      ensures buffer[..] == MonoVlsb.SetPixel(old(buffer[..]), x, y, color != 0)
      ensures forall px, py :: OnScreen(px, py) ==>
        Pixel(px, py) == if px == x && py == y then color != 0 else old(Pixel(px, py))
    {
      ghost var before := buffer[..];
      if OnScreen(x, y) {
        var i := (y / 8) * width + x;
        buffer[i] := WithBit(buffer[i], y % 8, color != 0);
      }
      assert buffer[..] == MonoVlsb.SetPixel(before, x, y, color != 0);
      forall px, py | OnScreen(px, py)
        ensures Pixel(px, py) == if px == x && py == y then color != 0 else PixelAt(before, px, py)
      {
        PixelEffect(before, x, y, color != 0, px, py);
      }
    }

    /** invert(b): 0xA7 when inverting, 0xA6 otherwise. */
    method Invert(invert: bool := true)
      requires Ready()
      modifies i2c, this`panel
      ensures Ready() && (Aligned() <==> old(Aligned()))
      ensures i2c.log == old(i2c.log) + [CmdWrite(address, if invert then 0xA7 else 0xA6)]
      ensures panel == old(panel).(inverted := invert)
    {
      WriteCmd(if invert then 0xA7 else 0xA6);
    }

    /** power(on): 0xAF to switch on, 0xAE to switch off. */
    method Power(on: bool := true)
      requires Ready()
      modifies i2c, this`panel
      ensures Ready() && (Aligned() <==> old(Aligned()))
      ensures i2c.log == old(i2c.log) + [CmdWrite(address, if on then 0xAF else 0xAE)]
      ensures panel == old(panel).(on := on)
    {
      WriteCmd(if on then 0xAF else 0xAE);
    }

    /** contrast(level): 0x81 and the level, which the panel takes as the
        parameter, whatever its value. */
    method Contrast(level: bv8)
      requires Ready()
      modifies i2c, this`panel
      ensures Ready() && (Aligned() <==> old(Aligned()))
      ensures i2c.log == old(i2c.log) + [CmdWrite(address, 0x81), CmdWrite(address, level)]
      ensures panel == old(panel).(contrast := level)
    {
      WriteCmd(0x81);
      WriteCmd(level);
    }
  }
}
