/** The firmware's display screens on top of the SSD1306 driver: bringing the
    display up (`init_display`), the 40x40 status icons (`get_icon_for_adc`,
    `draw_large_icon`, `show_icon_screen`) and blanking the display before
    deep sleep.

    An icon is 200 bytes: 40 rows of five bytes, the most significant bit of
    each byte leftmost. The six bitmaps are constants of the firmware whose
    contents do not matter here; they are an `IconAtlas` parameter. */
module Screens {
  import opened Wrappers
  import opened MonoVlsb
  import opened Ssd1306
  import Zones

  const IconSide: int := 40
  const RowBytes: int := 5
  const IconBytes: int := 200
  /** Positions in an icon, row by row: 40 * 40. */
  const IconPositions: int := 1600

  /** The firmware's I2C address of the display (the driver's default). */
  const DisplayAddress: int := 0x3C

  /** The icon bitmaps, by the zone they stand for. */
  datatype IconAtlas = IconAtlas(
    waves: seq<bv8>,       // icon 1, very wet
    flower1L: seq<bv8>,    // icon 2, wet
    flower2B: seq<bv8>,    // icon 3, optimal
    flower1R: seq<bv8>,    // icon 4, dry
    watering: seq<bv8>,    // icon 5, very dry
    warning: seq<bv8>)     // icon 6, out of range (overload and underload)

  predicate WellFormed(a: IconAtlas) {
    && |a.waves| == IconBytes && |a.flower1L| == IconBytes && |a.flower2B| == IconBytes
    && |a.flower1R| == IconBytes && |a.watering| == IconBytes && |a.warning| == IconBytes
  }

  // ---------------------------------------------------------------------
  // get_icon_for_adc
  // ---------------------------------------------------------------------

  /** `icons[icon_id]`: the dictionary of get_icon_for_adc, keys 1 to 6;
      `None` is the KeyError of any other key. */
  function IconFor(a: IconAtlas, id: int): (r: Option<seq<bv8>>)
    ensures r.Some? <==> 1 <= id <= 6
    ensures r.Some? && WellFormed(a) ==> |r.value| == IconBytes
    ensures id == 6 ==> r == Some(a.warning)
  {
    if id == 1 then Some(a.waves)
    else if id == 2 then Some(a.flower1L)
    else if id == 3 then Some(a.flower2B)
    else if id == 4 then Some(a.flower1R)
    else if id == 5 then Some(a.watering)
    else if id == 6 then Some(a.warning)
    else None
  }

  /** get_icon_for_adc: the bitmap of the zone's icon id and the zone's status
      text, or `None` where the lookup would raise. */
  function GetIconForAdc(a: IconAtlas, v: int): (r: Option<(seq<bv8>, string)>)
    ensures r.Some? <==> 1 <= Zones.GetMoistureZone(v).iconId <= 6
    ensures r.Some? ==> r.value.1 == Zones.GetMoistureZone(v).status
  {
    var zone := Zones.GetMoistureZone(v);
    match IconFor(a, zone.iconId)
    case Some(icon) => Some((icon, zone.status))
    case None => None
  }

  /** The lookup never fails: every icon id the classifier can produce,
      fallbacks included, is a key of the dictionary, and every bitmap it
      hands out is a whole icon. */
  lemma IconLookupTotal(a: IconAtlas, v: int)
    requires WellFormed(a)
    ensures GetIconForAdc(a, v).Some?
    ensures |GetIconForAdc(a, v).value.0| == IconBytes
  {
    Zones.IconIdsInRange(v);
  }

  /** The bitmap the firmware's symbol table pairs with each zone: waves for
      very wet, the flower with a left leaf for wet, the flower with two
      leaves for optimal, the flower with a right leaf for dry, the watering
      can for very dry, the warning sign for overload and underload. */
  function IconOfZone(a: IconAtlas, z: Zones.MoistureZone): seq<bv8> {
    match z
    case VeryWet => a.waves
    case Wet => a.flower1L
    case Optimal => a.flower2B
    case Dry => a.flower1R
    case VeryDry => a.watering
    case Overload => a.warning
    case Underload => a.warning
  }

  /** get_icon_for_adc hands out the bitmap of the reading's zone: on 0..9999
      the zone of the header's thresholds, with its status text; beyond the
      table the fallback zone's bitmap, the watering can above 9999 and the
      waves below 0. */
  lemma IconMatchesZone(a: IconAtlas, v: int)
    ensures GetIconForAdc(a, v).Some?
    ensures 0 <= v <= 9999 ==>
      GetIconForAdc(a, v).value == (IconOfZone(a, Zones.ZoneByThreshold(v)), Zones.StatusCode(Zones.ZoneByThreshold(v)))
    ensures v > 9999 ==> GetIconForAdc(a, v).value == (a.watering, "sDRY")
    ensures v < 0 ==> GetIconForAdc(a, v).value == (a.waves, "sWET")
  {
    if 0 <= v <= 9999 {
      Zones.ClassifierMatchesThresholds(v);
    } else {
      Zones.OutOfTable(v);
    }
  }

  /** Overload and underload readings show the same warning icon, each with
      its own status text. Readings beyond the table (above 9999 or negative)
      take the classifier's fallback zone and so its icon: the watering can
      or the waves, not the warning. */
  lemma OutOfRangeSharesIcon(a: IconAtlas, v: int)
    requires v > 850 || v < 420
    ensures GetIconForAdc(a, v).Some?
    ensures GetIconForAdc(a, v).value ==
      if 0 <= v <= 9999 then (a.warning, if v > 850 then "OL" else "UL")
      else if v > 850 then (a.watering, "sDRY")
      else (a.waves, "sWET")
  {
    if v > 9999 || v < 0 {
      Zones.OutOfTable(v);
    } else {
      Zones.ClassifierMatchesThresholds(v);
    }
  }

  /** The icon shown for a reading: the bitmap get_icon_for_adc picks. */
  function ZoneIcon(a: IconAtlas, v: int): (icon: seq<bv8>)
    requires WellFormed(a)
    ensures |icon| == IconBytes
    ensures GetIconForAdc(a, v) == Some((icon, Zones.GetMoistureZone(v).status))
  {
    IconLookupTotal(a, v);
    GetIconForAdc(a, v).value.0
  }

  // ---------------------------------------------------------------------
  // draw_large_icon
  // ---------------------------------------------------------------------

  /** Bit `0x80 >> bit` of the byte for `row` and byte column `col`. */
  predicate IconBit(icon: seq<bv8>, row: int, col: int, bit: int)
    requires |icon| >= IconBytes && 0 <= row < IconSide && 0 <= col < RowBytes && 0 <= bit < 8
  {
    icon[row * 5 + col] & ((0x80 as bv8) >> bit) != 0
  }

  /** The icon's pixel `dx` from the left edge and `dy` from the top. */
  predicate IconLit(icon: seq<bv8>, dx: int, dy: int)
    requires |icon| >= IconBytes && 0 <= dx < IconSide && 0 <= dy < IconSide
  {
    IconBit(icon, dy, dx / 8, dx % 8)
  }

  /** Among its first `n` positions (row by row), the icon placed at (x, y)
      has a set bit at the screen position (px, py). */
  predicate Covers(icon: seq<bv8>, x: int, y: int, px: int, py: int, n: int)
    requires |icon| >= IconBytes
  {
    var dx, dy := px - x, py - y;
    0 <= dx < 40 && 0 <= dy < 40 && dy * 40 + dx < n && IconLit(icon, dx, dy)
  }

  /** Position `n` = row * 40 + col * 8 + bit is the icon pixel (col * 8 + bit, row). */
  lemma PositionOf(dx: int, dy: int, row: int, col: int, bit: int)
    requires 0 <= dx < IconSide && 0 <= dy < IconSide
    requires 0 <= row < IconSide && 0 <= col < RowBytes && 0 <= bit < 8
    ensures dy * 40 + dx == row * 40 + col * 8 + bit <==> dx == col * 8 + bit && dy == row
    ensures dx == col * 8 + bit ==> dx / 8 == col && dx % 8 == bit
  {
  }

  /** One pass of the innermost loop at one screen position: setting the
      pixel of a set bit (or nothing for a clear bit) extends the drawn part
      by one position. */
  lemma DrawStepAt(cur: seq<bv8>, before: seq<bv8>, icon: seq<bv8>, x: int, y: int, row: int, col: int, bit: int, px: int, py: int)
    requires |cur| == BufferSize && |before| == BufferSize && |icon| >= IconBytes
    requires 0 <= row < IconSide && 0 <= col < RowBytes && 0 <= bit < 8 && OnScreen(px, py)
    requires PixelAt(cur, px, py) == (PixelAt(before, px, py) || Covers(icon, x, y, px, py, row * 40 + col * 8 + bit))
    ensures var next := if IconBit(icon, row, col, bit) then MonoVlsb.SetPixel(cur, x + col * 8 + bit, y + row, true) else cur;
      PixelAt(next, px, py) == (PixelAt(before, px, py) || Covers(icon, x, y, px, py, row * 40 + col * 8 + bit + 1))
  {
    CoversStep(icon, x, y, px, py, row, col, bit);
    if IconBit(icon, row, col, bit) {
      PixelEffect(cur, x + col * 8 + bit, y + row, true, px, py);
    }
  }

  /** Extending the drawn part by position row * 40 + col * 8 + bit adds
      exactly the screen pixel that position lands on, when its bit is set. */
  lemma CoversStep(icon: seq<bv8>, x: int, y: int, px: int, py: int, row: int, col: int, bit: int)
    requires |icon| >= IconBytes
    requires 0 <= row < IconSide && 0 <= col < RowBytes && 0 <= bit < 8
    ensures Covers(icon, x, y, px, py, row * 40 + col * 8 + bit + 1) ==
      (Covers(icon, x, y, px, py, row * 40 + col * 8 + bit) ||
       (px == x + col * 8 + bit && py == y + row && IconBit(icon, row, col, bit)))
  {
    var dx, dy := px - x, py - y;
    if 0 <= dx < IconSide && 0 <= dy < IconSide {
      PositionOf(dx, dy, row, col, bit);
    }
  }

  /** DrawStepAt at every screen position. */
  lemma DrawStep(cur: seq<bv8>, before: seq<bv8>, icon: seq<bv8>, x: int, y: int, row: int, col: int, bit: int)
    requires |cur| == BufferSize && |before| == BufferSize && |icon| >= IconBytes
    requires 0 <= row < IconSide && 0 <= col < RowBytes && 0 <= bit < 8
    requires forall px, py :: OnScreen(px, py) ==>
      PixelAt(cur, px, py) == (PixelAt(before, px, py) || Covers(icon, x, y, px, py, row * 40 + col * 8 + bit))
    ensures var next := if IconBit(icon, row, col, bit) then MonoVlsb.SetPixel(cur, x + col * 8 + bit, y + row, true) else cur;
      forall px, py :: OnScreen(px, py) ==>
        PixelAt(next, px, py) == (PixelAt(before, px, py) || Covers(icon, x, y, px, py, row * 40 + col * 8 + bit + 1))
  {
    forall px, py | OnScreen(px, py)
      ensures var next := if IconBit(icon, row, col, bit) then MonoVlsb.SetPixel(cur, x + col * 8 + bit, y + row, true) else cur;
        PixelAt(next, px, py) == (PixelAt(before, px, py) || Covers(icon, x, y, px, py, row * 40 + col * 8 + bit + 1))
    {
      DrawStepAt(cur, before, icon, x, y, row, col, bit, px, py);
    }
  }

  /** draw_large_icon(display, icon, x, y): for every set bit of the 40x40
      bitmap, pixel (x + 8 * col + bit, y + row) is set; clear bits draw
      nothing, so no pixel is ever cleared, and positions off the screen are
      dropped. Only the first 200 bytes of `icon` are read. */
  method DrawLargeIcon(display: SSD1306, icon: seq<bv8>, x: int, y: int)
    requires display.buffer.Length == BufferSize && |icon| >= IconBytes
    modifies display.buffer
    ensures forall px, py :: OnScreen(px, py) ==>
      display.Pixel(px, py) == (old(display.Pixel(px, py)) || Covers(icon, x, y, px, py, IconPositions))
  {
    ghost var before := display.buffer[..];
    for row := 0 to IconSide
      invariant forall px, py :: OnScreen(px, py) ==>
        PixelAt(display.buffer[..], px, py) == (PixelAt(before, px, py) || Covers(icon, x, y, px, py, row * 40))
    {
      for byteCol := 0 to RowBytes
        invariant forall px, py :: OnScreen(px, py) ==>
          PixelAt(display.buffer[..], px, py) == (PixelAt(before, px, py) || Covers(icon, x, y, px, py, row * 40 + byteCol * 8))
      {
        var byte := icon[row * 5 + byteCol];
        for bit := 0 to 8
          invariant forall px, py :: OnScreen(px, py) ==>
            PixelAt(display.buffer[..], px, py) == (PixelAt(before, px, py) || Covers(icon, x, y, px, py, row * 40 + byteCol * 8 + bit))
        {
          ghost var cur := display.buffer[..];
          if byte & ((0x80 as bv8) >> bit) != 0 {
            display.SetPixel(x + byteCol * 8 + bit, y + row, 1);
          }
          DrawStep(cur, before, icon, x, y, row, byteCol, bit);
        }
      }
    }
  }

  /** Only the first 200 bytes of a bitmap decide what is drawn. */
  lemma CoversReadsIconOnly(icon: seq<bv8>, x: int, y: int, px: int, py: int, n: int)
    requires |icon| >= IconBytes
    ensures Covers(icon, x, y, px, py, n) == Covers(icon[..IconBytes], x, y, px, py, n)
  {
    var dx, dy := px - x, py - y;
    if 0 <= dx < IconSide && 0 <= dy < IconSide {
      assert dy * 5 + dx / 8 < IconBytes;
    }
  }

  /** An icon drawn at (16, 0) lies wholly on the 72x40 screen: every lit
      position is inside x in [16, 55], y in [0, 39]. */
  lemma IconPlacementOnScreen(icon: seq<bv8>, px: int, py: int)
    requires |icon| >= IconBytes
    ensures Covers(icon, 16, 0, px, py, IconPositions) ==> 16 <= px <= 55 && 0 <= py <= 39 && OnScreen(px, py)
    ensures 0 <= px - 16 < IconSide && 0 <= py < IconSide ==>
      OnScreen(px, py) && (Covers(icon, 16, 0, px, py, IconPositions) <==> IconLit(icon, px - 16, py))
  {
  }

  /** show_icon_screen(display, adc): clear, draw the zone's icon at (16, 0),
      flush. The lit pixels are exactly the icon's set bits, and the whole
      icon is visible. The status text drawn at (38, 56) is not part of this
      model. */
  method ShowIconScreen(display: SSD1306, atlas: IconAtlas, adc: int)
    requires display.Ready() && WellFormed(atlas)
    modifies display.buffer, display.i2c, display`panel
    ensures display.panel == old(display.panel)
    ensures display.i2c.log == old(display.i2c.log) + ShowWrites(display.address, display.buffer[..])
    ensures forall px, py :: OnScreen(px, py) ==>
      display.Pixel(px, py) == Covers(ZoneIcon(atlas, adc), 16, 0, px, py, IconPositions)
    ensures forall dx, dy :: 0 <= dx < IconSide && 0 <= dy < IconSide ==>
      OnScreen(16 + dx, dy) && display.Pixel(16 + dx, dy) == IconLit(ZoneIcon(atlas, adc), dx, dy)
  {
    display.Fill(0);
    IconLookupTotal(atlas, adc);
    var (icon, text) := GetIconForAdc(atlas, adc).value;
    DrawLargeIcon(display, icon, 16, 0);
    display.Show();
    forall dx, dy | 0 <= dx < IconSide && 0 <= dy < IconSide
      ensures OnScreen(16 + dx, dy) && display.Pixel(16 + dx, dy) == IconLit(icon, dx, dy)
    {
      IconPlacementOnScreen(icon, 16 + dx, dy);
    }
  }

  // ---------------------------------------------------------------------
  // init_display and the display before deep sleep
  // ---------------------------------------------------------------------

  /** The firmware's init_display: without an I2C bus there is no display;
      otherwise a fresh driver is constructed (its own bring-up and a blank
      flush), switched on with power(True) because the driver has no
      poweron(), cleared, given the four splash lines and flushed. Text
      rendering is not part of this model: `splash` is the frame buffer the
      four `text` calls leave on the cleared buffer. */
  method InitDisplay(i2c: I2C?, splash: seq<bv8>) returns (display: SSD1306?)
    requires |splash| == BufferSize
    modifies i2c
    ensures i2c == null <==> display == null
    ensures display != null ==> fresh(display) && fresh(display.buffer)
    ensures display != null ==> display.i2c == i2c && display.address == DisplayAddress
    ensures display != null ==> display.Ready() && display.Aligned() && !display.flipped
    ensures display != null ==> display.panel == InitializedPanel && display.panel.on
    ensures display != null ==> display.buffer[..] == splash
    ensures display != null ==> (i2c.log == old(i2c.log)
      + CmdWrites(DisplayAddress, InitCommands) + ShowWrites(DisplayAddress, Filled(false))
      + [CmdWrite(DisplayAddress, 0xAF)] + ShowWrites(DisplayAddress, splash))
  {
    if i2c == null {
      return null;
    }
    display := new SSD1306(i2c);
    display.Power(true);
    display.Fill(0);
    DrawSplash(display, splash);
    display.Show();
  }

  /** The four splash lines drawn on the cleared buffer, as their rendering
      `splash`. */
  method DrawSplash(display: SSD1306, splash: seq<bv8>)
    requires display.buffer.Length == BufferSize && |splash| == BufferSize
    modifies display.buffer
    ensures display.buffer[..] == splash
  {
    forall i | 0 <= i < BufferSize {
      display.buffer[i] := splash[i];
    }
  }

  /** The display block of the sleep path as written (in main, and again in
      enter_deep_sleep): fill(0) and show(), then poweroff(), which the
      driver does not define. The AttributeError is swallowed by the bare
      `except`, so no command reaches the panel: it is left switched on. */
  method BlankBeforeSleepAsWritten(display: SSD1306)
    requires display.Ready()
    modifies display.buffer, display.i2c, display`panel
    ensures display.Ready()
    ensures display.buffer[..] == Filled(false)
    ensures display.i2c.log == old(display.i2c.log) + ShowWrites(display.address, Filled(false))
    ensures display.panel == old(display.panel)
  {
    display.Fill(0);
    display.Show();
  }

  /** After start-up, main's blanking block and then enter_deep_sleep's, as
      written, leave the panel on, and the last transfer before deep sleep
      is page data, not the display-off command. */
  method SleepLeavesPanelOn(i2c: I2C, splash: seq<bv8>) returns (display: SSD1306)
    requires |splash| == BufferSize
    modifies i2c
    ensures display.panel.on
    ensures |display.i2c.log| > 0 && display.i2c.log[|display.i2c.log| - 1] != CmdWrite(DisplayAddress, 0xAE)
  {
    var d := InitDisplay(i2c, splash);
    display := d;
    BlankBeforeSleepAsWritten(display);
    BlankBeforeSleepAsWritten(display);
    ShowSendsBuffer(display.address, Filled(false), BufferSize - 1);
  }

  /** The sleep path as intended: fill(0), show(), then power(False), which
      sends 0xAE and switches the panel off; orientation is untouched. */
  method BlankBeforeSleep(display: SSD1306)
    requires display.Ready()
    modifies display.buffer, display.i2c, display`panel
    ensures display.Ready() && (display.Aligned() <==> old(display.Aligned()))
    ensures display.buffer[..] == Filled(false)
    ensures display.i2c.log == old(display.i2c.log) + ShowWrites(display.address, Filled(false)) + [CmdWrite(display.address, 0xAE)]
    ensures display.panel == old(display.panel).(on := false)
    ensures !display.panel.on
  {
    display.Fill(0);
    display.Show();
    display.Power(false);
  }

  /** With the intended block in main and in enter_deep_sleep the panel is
      off when the chip goes to sleep, and the display-off command is the
      last transfer. */
  method SleepSwitchesPanelOff(i2c: I2C, splash: seq<bv8>) returns (display: SSD1306)
    requires |splash| == BufferSize
    modifies i2c
    ensures !display.panel.on
    ensures |display.i2c.log| > 0 && display.i2c.log[|display.i2c.log| - 1] == CmdWrite(DisplayAddress, 0xAE)
  {
    var d := InitDisplay(i2c, splash);
    display := d;
    BlankBeforeSleep(display);
    BlankBeforeSleep(display);
  }
}
