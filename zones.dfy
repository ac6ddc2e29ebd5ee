/** The moisture-zone classifier of the sensor firmware: the seven-row zone
    table, the two linear scans over it (`get_moisture_zone`, which falls back
    to a very-dry or very-wet zone when nothing matches, and
    `determine_moisture_status`, which answers "ERR" instead), and the
    threshold description of the zones that the firmware's header documents. */
module Zones {
  import opened Wrappers

  /** One row of MOISTURE_ZONES: name, inclusive ADC range, icon id, status text. */
  datatype ZoneRow = ZoneRow(name: string, adcMin: int, adcMax: int, iconId: int, status: string)

  /** The triple get_moisture_zone returns: (name, icon id, status text). */
  datatype ZoneInfo = ZoneInfo(name: string, iconId: int, status: string)

  predicate InRow(row: ZoneRow, v: int) {
    row.adcMin <= v <= row.adcMax
  }

  function InfoOf(row: ZoneRow): ZoneInfo {
    ZoneInfo(row.name, row.iconId, row.status)
  }

  /** The zone table, scanned top to bottom. */
  const MoistureZones: seq<ZoneRow> := [
    ZoneRow("ERROR_OVERLOAD", 851, 9999, 6, "OL"),
    ZoneRow("SEHR_TROCKEN", 767, 850, 5, "sDRY"),
    ZoneRow("TROCKEN", 684, 766, 4, "DRY"),
    ZoneRow("OPTIMAL", 587, 683, 3, "OK"),
    ZoneRow("FEUCHT", 504, 586, 2, "WET"),
    ZoneRow("SEHR_FEUCHT", 420, 503, 1, "sWET"),
    ZoneRow("ERROR_UNDERLOAD", 0, 419, 6, "UL")
  ]

  /** The status text `determine_moisture_status` answers for a missing or
      unclassifiable reading. */
  const ErrStatus: string := "ERR"

  // ---------------------------------------------------------------------
  // The scan
  // ---------------------------------------------------------------------

  /** Index of the first row at or after `k` whose range contains `v`:
      the early-return `for` loop of both scans. */
  function FirstMatch(rows: seq<ZoneRow>, v: int, k: nat): (r: Option<nat>)
    requires k <= |rows|
    decreases |rows| - k
    ensures r.Some? ==> k <= r.value < |rows| && InRow(rows[r.value], v)
  {
    if k == |rows| then None
    else if InRow(rows[k], v) then Some(k)
    else FirstMatch(rows, v, k + 1)
  }

  /** The scan reports the first containing row, and nothing only when no
      row from `k` on contains `v`. */
  lemma {:induction false} FirstMatchIsFirst(rows: seq<ZoneRow>, v: int, k: nat)
    requires k <= |rows|
    ensures FirstMatch(rows, v, k).Some? ==> forall j :: k <= j < FirstMatch(rows, v, k).value ==> !InRow(rows[j], v)
    ensures FirstMatch(rows, v, k).None? ==> forall j :: k <= j < |rows| ==> !InRow(rows[j], v)
    decreases |rows| - k
  {
    if k < |rows| && !InRow(rows[k], v) {
      FirstMatchIsFirst(rows, v, k + 1);
    }
  }

  /** get_moisture_zone: the first matching row, or the fallback that picks
      the very-dry zone above 850 and the very-wet zone otherwise. Whatever
      the reading, the answer is one of the seven zones of the header, with
      an icon id the icon dictionary has. */
  function GetMoistureZone(v: int): (r: ZoneInfo)
    ensures exists z :: r == Describe(z)
    ensures 1 <= r.iconId <= 6
  {
    match FirstMatch(MoistureZones, v, 0)
    case Some(i) =>
      RowIsZone(i);
      InfoOf(MoistureZones[i])
    case None =>
      assert DryFallback() == Describe(VeryDry) && WetFallback() == Describe(VeryWet);
      if v > 850 then DryFallback() else WetFallback()
  }

  function DryFallback(): ZoneInfo { ZoneInfo("SEHR_TROCKEN", 5, "sDRY") }
  function WetFallback(): ZoneInfo { ZoneInfo("SEHR_FEUCHT", 1, "sWET") }

  /** determine_moisture_status: "ERR" for a missing reading (`None`) and for
      a reading no row contains, else the status text of the first match. */
  function DetermineMoistureStatus(reading: Option<int>): (r: string)
    ensures reading.None? ==> r == ErrStatus
  {
    match reading
    case None => ErrStatus
    case Some(v) =>
      match FirstMatch(MoistureZones, v, 0)
      case Some(i) => MoistureZones[i].status
      case None => ErrStatus
  }

  // ---------------------------------------------------------------------
  // Table shape: the rows are non-empty, listed from high to low, and each
  // starts one above where the next one ends.
  // ---------------------------------------------------------------------

  predicate Contiguous(rows: seq<ZoneRow>) {
    && (forall i :: 0 <= i < |rows| ==> rows[i].adcMin <= rows[i].adcMax)
    && (forall i :: 0 < i < |rows| ==> rows[i].adcMax + 1 == rows[i - 1].adcMin)
  }

  /** In a contiguous table a later row lies entirely below an earlier one. */
  lemma {:induction false} ContiguousBelow(rows: seq<ZoneRow>, i: nat, j: nat)
    requires Contiguous(rows)
    requires i < j < |rows|
    ensures rows[j].adcMax < rows[i].adcMin
    decreases j - i
  {
    if j > i + 1 {
      ContiguousBelow(rows, i + 1, j);
    }
  }

  /** In a contiguous table the rows are pairwise disjoint. */
  lemma ContiguousDisjoint(rows: seq<ZoneRow>, v: int, i: nat, j: nat)
    requires Contiguous(rows)
    requires i < |rows| && j < |rows|
    requires InRow(rows[i], v) && InRow(rows[j], v)
    ensures i == j
  {
    if i < j {
      ContiguousBelow(rows, i, j);
    } else if j < i {
      ContiguousBelow(rows, j, i);
    }
  }

  /** A contiguous table covers every value between its last row's minimum and
      its first row's maximum, and nothing outside. */
  lemma {:induction false} ContiguousCovers(rows: seq<ZoneRow>, v: int, k: nat)
    requires Contiguous(rows)
    requires k < |rows|
    requires rows[|rows| - 1].adcMin <= v <= rows[k].adcMax
    ensures exists i :: k <= i < |rows| && InRow(rows[i], v)
    decreases |rows| - k
  {
    if v < rows[k].adcMin {
      assert k + 1 < |rows| by {
        if k + 1 == |rows| {
          assert false;
        }
      }
      ContiguousCovers(rows, v, k + 1);
    } else {
      assert InRow(rows[k], v);
    }
  }

  lemma {:induction false} ContiguousBounds(rows: seq<ZoneRow>, v: int, i: nat)
    requires Contiguous(rows)
    requires i < |rows| && InRow(rows[i], v)
    ensures rows[|rows| - 1].adcMin <= v <= rows[0].adcMax
  {
    if i > 0 {
      ContiguousBelow(rows, 0, i);
    }
    if i < |rows| - 1 {
      ContiguousBelow(rows, i, |rows| - 1);
    }
  }

  /** The zone table is contiguous and spans exactly [0, 9999]. */
  lemma MoistureZonesShape()
    ensures Contiguous(MoistureZones)
    ensures MoistureZones[|MoistureZones| - 1].adcMin == 0
    ensures MoistureZones[0].adcMax == 9999
  {
  }

  /** Every ADC value in [0, 9999] lies in exactly one row of the table, and
      no value outside [0, 9999] lies in any row. */
  lemma {:induction false} ZonesPartition(v: int)
    ensures (0 <= v <= 9999) <==> (exists i :: 0 <= i < |MoistureZones| && InRow(MoistureZones[i], v))
    ensures forall i, j ::
      (0 <= i < |MoistureZones| && 0 <= j < |MoistureZones| &&
       InRow(MoistureZones[i], v) && InRow(MoistureZones[j], v)) ==> i == j
  {
    MoistureZonesShape();
    if 0 <= v <= 9999 {
      ContiguousCovers(MoistureZones, v, 0);
    }
    forall i | 0 <= i < |MoistureZones| && InRow(MoistureZones[i], v)
      ensures 0 <= v <= 9999
    {
      ContiguousBounds(MoistureZones, v, i);
    }
    forall i, j | 0 <= i < |MoistureZones| && 0 <= j < |MoistureZones|
      && InRow(MoistureZones[i], v) && InRow(MoistureZones[j], v)
      ensures i == j
    {
      ContiguousDisjoint(MoistureZones, v, i, j);
    }
  }

  /** Scan order does not matter: whichever row contains `v` is the one both
      scans report. */
  lemma ScanFindsContainingRow(v: int, i: nat)
    requires i < |MoistureZones| && InRow(MoistureZones[i], v)
    ensures FirstMatch(MoistureZones, v, 0) == Some(i)
    ensures GetMoistureZone(v) == InfoOf(MoistureZones[i])
    ensures DetermineMoistureStatus(Some(v)) == MoistureZones[i].status
  {
    ZonesPartition(v);
    FirstMatchIsFirst(MoistureZones, v, 0);
  }

  // ---------------------------------------------------------------------
  // The zones as the firmware's header describes them by thresholds
  // ---------------------------------------------------------------------

  datatype MoistureZone = Overload | VeryDry | Dry | Optimal | Wet | VeryWet | Underload

  /** Header description: above 850 overload, 767-850 very dry, 684-766 dry,
      587-683 optimal, 504-586 wet, 420-503 very wet, below 420 underload. */
  function ZoneByThreshold(v: int): MoistureZone {
    if v > 850 then Overload
    else if v >= 767 then VeryDry
    else if v >= 684 then Dry
    else if v >= 587 then Optimal
    else if v >= 504 then Wet
    else if v >= 420 then VeryWet
    else Underload
  }

  function StatusCode(z: MoistureZone): string {
    match z
    case Overload => "OL"
    case VeryDry => "sDRY"
    case Dry => "DRY"
    case Optimal => "OK"
    case Wet => "WET"
    case VeryWet => "sWET"
    case Underload => "UL"
  }

  function IconId(z: MoistureZone): int {
    match z
    case Overload => 6
    case VeryDry => 5
    case Dry => 4
    case Optimal => 3
    case Wet => 2
    case VeryWet => 1
    case Underload => 6
  }

  function ZoneName(z: MoistureZone): string {
    match z
    case Overload => "ERROR_OVERLOAD"
    case VeryDry => "SEHR_TROCKEN"
    case Dry => "TROCKEN"
    case Optimal => "OPTIMAL"
    case Wet => "FEUCHT"
    case VeryWet => "SEHR_FEUCHT"
    case Underload => "ERROR_UNDERLOAD"
  }

  function Describe(z: MoistureZone): ZoneInfo {
    ZoneInfo(ZoneName(z), IconId(z), StatusCode(z))
  }

  /** The zone of each row of the table, from the top. */
  function ZoneAtRow(i: nat): MoistureZone
    requires i < |MoistureZones|
  {
    [Overload, VeryDry, Dry, Optimal, Wet, VeryWet, Underload][i]
  }

  /** Each row of the table describes the zone of its position. */
  lemma RowIsZone(i: nat)
    requires i < |MoistureZones|
    ensures InfoOf(MoistureZones[i]) == Describe(ZoneAtRow(i))
  {
  }

  /** Index of the row for each zone, from the top of the table. */
  function RowOf(z: MoistureZone): nat {
    match z
    case Overload => 0
    case VeryDry => 1
    case Dry => 2
    case Optimal => 3
    case Wet => 4
    case VeryWet => 5
    case Underload => 6
  }

  /** Inside [0, 9999] the table scan agrees with the header's thresholds,
      in all three components. */
  lemma ClassifierMatchesThresholds(v: int)
    requires 0 <= v <= 9999
    ensures GetMoistureZone(v) == Describe(ZoneByThreshold(v))
    ensures DetermineMoistureStatus(Some(v)) == StatusCode(ZoneByThreshold(v))
  {
    var z := ZoneByThreshold(v);
    ScanFindsContainingRow(v, RowOf(z));
  }

  /** Outside [0, 9999] the two scans disagree: determine_moisture_status
      answers "ERR" while get_moisture_zone falls back to very dry above 850
      and to very wet otherwise (so a negative reading reads as "sWET"). */
  lemma OutOfTable(v: int)
    requires v < 0 || v > 9999
    ensures DetermineMoistureStatus(Some(v)) == ErrStatus
    ensures GetMoistureZone(v) == (if v > 850 then DryFallback() else WetFallback())
    ensures v > 9999 ==> GetMoistureZone(v).status == "sDRY" && ZoneByThreshold(v) == Overload
    ensures v < 0 ==> GetMoistureZone(v).status == "sWET" && ZoneByThreshold(v) == Underload
  {
    ZonesPartition(v);
  }

  /** For every reading that is present and within [0, 9999], the status is
      the status component of get_moisture_zone; everywhere else it is "ERR". */
  lemma StatusMatchesZone(reading: Option<int>)
    ensures DetermineMoistureStatus(reading) ==
      if reading.Some? && 0 <= reading.value <= 9999 then GetMoistureZone(reading.value).status
      else ErrStatus
  {
    if reading.Some? {
      var v := reading.value;
      if 0 <= v <= 9999 {
        ClassifierMatchesThresholds(v);
      } else {
        OutOfTable(v);
      }
    }
  }

  /** The boundary values of the table. */
  lemma Boundaries()
    ensures GetMoistureZone(419) == ZoneInfo("ERROR_UNDERLOAD", 6, "UL")
    ensures GetMoistureZone(420) == ZoneInfo("SEHR_FEUCHT", 1, "sWET")
    ensures GetMoistureZone(586).status == "WET" && GetMoistureZone(587).status == "OK"
    ensures GetMoistureZone(683).status == "OK" && GetMoistureZone(684).status == "DRY"
    ensures GetMoistureZone(850) == ZoneInfo("SEHR_TROCKEN", 5, "sDRY")
    ensures GetMoistureZone(851) == ZoneInfo("ERROR_OVERLOAD", 6, "OL")
  {
    ClassifierMatchesThresholds(419);
    ClassifierMatchesThresholds(420);
    ClassifierMatchesThresholds(586);
    ClassifierMatchesThresholds(587);
    ClassifierMatchesThresholds(683);
    ClassifierMatchesThresholds(684);
    ClassifierMatchesThresholds(850);
    ClassifierMatchesThresholds(851);
  }

  /** Every icon id get_moisture_zone can return, fallbacks included, is one
      of 1..6; the overload and underload rows share icon 6. */
  lemma IconIdsInRange(v: int)
    ensures 1 <= GetMoistureZone(v).iconId <= 6
    ensures MoistureZones[0].iconId == MoistureZones[6].iconId == 6
  {
    match FirstMatch(MoistureZones, v, 0)
    case Some(i) =>
      assert GetMoistureZone(v) == InfoOf(MoistureZones[i]);
    case None =>
  }
}
