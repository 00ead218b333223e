/** The alert table (alerts.h). */
module Alerts {

  /** One alert type. The fixed fields say when the alert fires; the marks
      record the last firing. `iteratorMark` is the bin index the matching
      rule compares against: the firmware reads a field of that name that the
      record does not declare, so the model keeps it as an opaque per-alert
      integer. Image positions and bitmaps are display data and are omitted. */
  datatype AlertElement = AlertElement(
    freq: nat,
    minIntensity: int,
    iteratorRangeMin: int,
    iteratorRangeMax: int,
    iteratorMark: int,
    intensityMark: int,
    alertStatus: bool)

  /** Number of alert types in the table. */
  const N_ALERT_TYPES: nat := 2

  /** Upper bound of `unsigned short`, the type of `freq`. */
  const FREQ_LIMIT: nat := 0x1_0000

  /** The fields `alertMatching` never writes. */
  function FixedPart(a: AlertElement): (int, int, int, int, nat) {
    (a.minIntensity, a.iteratorRangeMin, a.iteratorRangeMax, a.iteratorMark, a.freq)
  }

  /** `initAlerts` on the zero-initialised static table. `iteratorMark` is not
      set by the firmware, so its values are a parameter; `intensityMark` keeps
      the static zero. Every alert starts inactive with a nonempty iterator
      range and an informational frequency that fits an `unsigned short`. */
  function InitAlerts(marks: seq<int>): (table: seq<AlertElement>)
    requires |marks| == N_ALERT_TYPES
    ensures |table| == N_ALERT_TYPES
    ensures forall i :: 0 <= i < |table| ==>
      && !table[i].alertStatus
      && table[i].intensityMark == 0
      && table[i].iteratorMark == marks[i]
      && table[i].iteratorRangeMin < table[i].iteratorRangeMax
      && table[i].freq < FREQ_LIMIT
      && table[i].minIntensity > 0
  {
    [ AlertElement(1400, 40000, 92, 93, marks[0], 0, false),
      AlertElement(1300, 20000, 85, 86, marks[1], 0, false) ]
  }

  /** The table's two entries: the door alert at bins 92..93 with threshold
      40000 (1400 Hz), and the phone alert at bins 85..86 with threshold
      20000 (1300 Hz). The two ranges do not overlap. */
  lemma InitialTable(marks: seq<int>)
    requires |marks| == N_ALERT_TYPES
    ensures var t := InitAlerts(marks);
      && (t[0].iteratorRangeMin, t[0].iteratorRangeMax, t[0].minIntensity, t[0].freq) == (92, 93, 40000, 1400)
      && (t[1].iteratorRangeMin, t[1].iteratorRangeMax, t[1].minIntensity, t[1].freq) == (85, 86, 20000, 1300)
      && t[1].iteratorRangeMax < t[0].iteratorRangeMin
  {
  }
}
