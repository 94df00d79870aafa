/**
 * The tabular view of the log that the precursor miner and the exploratory
 * profiler read: one row per event, with its timestamp, its `EventName` and
 * its raw `details.AlarmID` cell. A column the table lacks altogether is
 * represented as a column whose every cell is missing. The two agree in the
 * column tests of the miner and of the event-name tally, but not in the
 * projection of the alarm rows, which raises when `EventName` is missing.
 */
module EventFrame {
  import opened Wrappers

  /**
   * A raw `details.AlarmID` cell: missing (NaN or None), a number, or a
   * value that numeric coercion cannot read.
   */
  datatype RawAlarm = NoAlarm | Num(id: int) | Unparseable

  datatype Row = Row(timestamp: string, eventName: Option<string>, alarmId: RawAlarm)

  /** Numeric coercion with errors turned into missing values (`to_numeric(errors='coerce')`). */
  function Coerce(a: RawAlarm): Option<int> {
    match a
    case Num(id) => Some(id)
    case _ => None
  }
}
