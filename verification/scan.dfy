/** One attendance scan, as `scanAttendance` and the click handlers of
`attachScanButtons` in script.js run it: pick the mode label, classify the
current time, build the log entry and append it. The toast, the status
badges and the alert list only display the result and are not modelled.

The clock reading, its ISO text and its locale time text are parameters,
as is whether the store accepts the write.
 */
module Scan {
  import opened Clock
  import opened AttendanceLog
  import opened Args

  /** `mode = 'QR/Face Scan'`: the default applies when the argument is left
      out or `undefined`; an explicit empty label is kept. */
  function ModeOf(arg: Arg<string>): (m: string)
    ensures arg.Given? ==> m == arg.value
    ensures arg.Omitted? ==> m == "QR/Face Scan"
  {
    OrDefault(arg, "QR/Face Scan")
  }

  /** `el.getAttribute('data-scan') || el.id || 'Scan'`, with a missing
      attribute read as the empty string: the first non-empty label wins. */
  function ButtonMode(dataScan: string, id: string): (m: string)
    ensures m != ""
    ensures dataScan != "" ==> m == dataScan
    ensures dataScan == "" && id != "" ==> m == id
    ensures dataScan == "" && id == "" ==> m == "Scan"
  {
    if dataScan != "" then dataScan else if id != "" then id else "Scan"
  }

  /** What one scan produces: the status shown to the user, the entry built
      for the log, and the store afterwards. */
  datatype Outcome = Outcome(status: Status, entry: Entry, store: Storage)

  /** `scanAttendance(mode)` at the instant `now`. */
  function ScanAttendance(st: Storage, arg: Arg<string>, now: Instant, isoTime: string,
                          displayTime: string, writable: bool): (r: Outcome)
    ensures r.status == Late <==> now.ms > CutoffMs
    ensures r.entry == Entry(isoTime, r.status, ModeOf(arg), displayTime)
    ensures r.store.notes == st.notes
    ensures r.store == Append(st, r.entry, writable)
    ensures (st.log.Missing? || st.log.Blank? || st.log.Arr?) && writable ==>
      && r.store.log.Arr? && |r.store.log.items| > 0
      && ReadLog(r.store) == JArray(r.store.log.items)
      && r.store.log.items[0] == Logged(r.entry)
    ensures st.log.Arr? && writable ==>
      && r.store.log.Arr?
      && |r.store.log.items| == Min(|st.log.items| + 1, Capacity)
      && (forall i :: 0 <= i < |r.store.log.items| - 1 ==> r.store.log.items[i + 1] == st.log.items[i])
    ensures st.log.OtherJson? || st.log.Unparsable? || !writable ==> r.store == st
  {
    var status := Classify(now);
    var entry := Entry(isoTime, status, ModeOf(arg), displayTime);
    Outcome(status, entry, Append(st, entry, writable))
  }

  /** A button click passes its label to `scanAttendance`, so the logged
      mode is never empty and is never the default label unless the button
      itself carries it. */
  lemma ButtonClickMode(st: Storage, dataScan: string, id: string, now: Instant,
                        isoTime: string, displayTime: string, writable: bool)
    ensures var r := ScanAttendance(st, Given(ButtonMode(dataScan, id)), now, isoTime, displayTime, writable);
      && r.entry.mode != ""
      && (dataScan != "" ==> r.entry.mode == dataScan)
      && (r.entry.mode == "QR/Face Scan" ==> dataScan == "QR/Face Scan" || id == "QR/Face Scan")
  {
  }

  /** At 08:00 a QR scan on an empty store is present and is the only entry. */
  lemma MorningScan(notes: map<string, string>, day: int, iso: string, shown: string)
    ensures var r := ScanAttendance(Storage(Missing, notes), Given("QR"),
                                    Instant(day, 8 * 60 * 60 * 1000), iso, shown, true);
      && r.status == Present
      && ReadLog(r.store) == JArray([Logged(Entry(iso, Present, "QR", shown))])
  {
  }

  /** At 09:06 a face scan is late, and the log grows by one with the new
      entry in front. */
  lemma LateScan(st: Storage, day: int, iso: string, shown: string)
    requires st.log.Arr? && |st.log.items| < Capacity
    ensures var r := ScanAttendance(st, Given("Face"), Instant(day, (9 * 60 + 6) * 60 * 1000),
                                    iso, shown, true);
      && r.status == Late
      && r.store.log.Arr?
      && |r.store.log.items| == |st.log.items| + 1
      && r.store.log.items[0] == Logged(Entry(iso, Late, "Face", shown))
  {
  }
}
