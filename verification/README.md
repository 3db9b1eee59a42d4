# Campus portal attendance core, in Dafny

This project models the pure logic inside `script.js`, the browser script of a
campus-portal demo. There are three pieces:

- **CSV export** (module `Csv`, `csv.dfy`). `exportCSV` escapes each cell in the
  style of section 2 (rules 6 and 7) of RFC 4180. A field holding `"`, `,` or a
  line feed is quoted, and inner quotes are doubled. Cells are joined with `,`
  and rows with a bare line feed. A non-array or empty argument takes the early
  return. The module also has a small reference decoder. The serialiser is
  proved to be its inverse cell by cell, and also row by row and for whole
  tables whenever no row is empty. An empty row prints like a row holding one
  empty cell, so no decoder can tell those two apart; for every table, the
  text decodes back to its cells' texts with each empty row read as one
  empty cell.
  Two deviations from RFC 4180 are modelled as written: records are separated
  by LF, not CRLF, and a lone carriage return does not force quoting.
- **Attendance rule** (module `Clock`, `clock.dfy`). A moment is a local calendar
  day plus the milliseconds since local midnight. `scanAttendance` sets a copy
  of the current time to 09:05:00.000 on the same day. The scan is `Late` when
  the current time is strictly later than that copy, and `Present` otherwise.
  Dafny compares the two as millisecond counts, as JavaScript does, and proves
  that only the time of day matters.
- **Attendance log and notes** (module `AttendanceLog`, `attendance_log.dfy`, and
  module `Scan`, `scan.dfy`). This is the key-value store behind the log key
  `campus_attendance_log_v1` and behind the note keys.
  - Append reads the stored value. A missing value or an empty string counts as
    `[]`. The new entry goes in front, the array is cut to 200 entries, and the
    result is written back.
  - Unparsable text, or a parsed value that is not an array, throws inside the
    `try`. Nothing is written in that case.
  - `getAttendanceLog`, `clearAttendanceLog`, `saveNote` and `loadNote` are
    modelled too.
  - `Scan.ScanAttendance` composes classification, entry building and append.

JSON is abstracted. The value under the log key is described by what
`JSON.parse` makes of it: missing, blank, an array, another JSON value, or
unparsable text. A written array is stored as that array. The clock reading,
its ISO text (`toISOString`) and its locale time text (`formatTime`) are
parameters of the scan. Whether `setItem` accepts a write is a `writable` flag.
Reads (`getItem`) and removals (`removeItem`) are assumed to succeed; see
"Left out". The script's optional arguments are modelled by `Args.Arg`, whose
`Omitted` case stands for an argument that is left out and also for an
explicit `undefined`, since a JavaScript default applies in both cases.

Two behaviours of the code are easy to miss. The model follows the code in
both:
- `getAttendanceLog` returns the parsed value when it is a non-array JSON value
  such as an object. It does not return `[]` (`script.js:226`).
- Appending to an unparsable or non-array value writes nothing. A corrupted log
  therefore stays as it is; it is not replaced by a fresh one-entry log
  (`script.js:90-95`). See `AttendanceLog.CorruptionPersists`.

## Model

| member | source | states |
|---|---|---|
| Csv.EscapeCell | script.js:72-75 | null and undefined print as the empty string. A text with no `"`, `,` or LF prints unchanged. Any other text is wrapped in double quotes. |
| Csv.QuotedCellRoundTrip | script.js:74 | for a quoted cell, stripping the outer quotes and collapsing `""` to `"` gives back exactly the cell's text |
| Csv.CollapseDoubled | script.js:74 | collapsing `""` to `"` undoes the doubling for every string, so the per-cell escaping loses nothing |
| Csv.ParseQuotedField | script.js:74 | decoding a quoted cell that is followed by a separator or the end gives exactly the cell's text, and leaves the separator in place |
| Csv.ParseBareField | script.js:72-75 | decoding an unquoted cell that is followed by a separator or the end gives exactly the cell's text, and leaves the separator in place |
| Csv.ParseFieldEscaped | script.js:72-75 | decoding an escaped cell that is followed by a separator or the end gives exactly the cell's text, and leaves the separator in place |
| Csv.ParseRowEscaped | script.js:71-76 | decoding a non-empty row's comma-joined escaped cells gives the cells' texts in order |
| Csv.TableRoundTrip | script.js:71-76 | decoding the whole output gives back every row and every cell text. This holds when no row is empty. It shows there is exactly one separator between cells and between rows, and none trailing. |
| Csv.ExportCsv | script.js:66-76 | a non-array or empty argument takes the early return and yields no CSV. Any other argument yields text that decodes back to the table's cell texts, with each empty row read back as one empty cell; when no row is empty, exactly the table's cell texts. |
| Csv.LinesFilled | script.js:71-76 | an empty row prints exactly like a row holding one empty cell, so filling empty rows changes no line of the output |
| Csv.FilledUnchanged | script.js:71-76 | a table without an empty row reads back exactly as itself, since filling empty rows leaves it unchanged |
| Csv.RoundTripFilled | script.js:71-76 | for every non-empty table, decoding the output gives the texts of the table with each empty row replaced by one empty cell |
| Csv.ReadBackRow | script.js:71-76 | row `i` of the decoded output is `[""]` where row `i` of the table is empty, and that row's cell texts otherwise |
| Csv.LineFeedSeparator | script.js:76 | rows are separated by a bare line feed (not CRLF), with nothing after the last row |
| Csv.CarriageReturnUnquoted | script.js:74 | a lone carriage return does not force quoting |
| Clock.FromEpoch | script.js:83 | every millisecond count splits into a day and a time of day that add back up to it |
| Clock.EpochRoundTrip | script.js:83-85 | a calendar moment and its millisecond count determine each other |
| Clock.Classify | script.js:84-87 | comparing `now` with the same day's 09:05:00.000 gives `Late` exactly when the time of day is strictly after 09:05:00.000 |
| Clock.CutoffBoundary | script.js:85-87 | exactly 09:05:00.000 is `Present`, and 09:05:00.001 is `Late` |
| Clock.LateStaysLate | script.js:87 | on one day, once a scan is late every later scan is late |
| Clock.SameRuleEveryDay | script.js:84-85 | the cutoff is the same on every calendar day |
| Clock.ClassifyCount | script.js:83-87 | for a raw millisecond count, only the remainder within its day decides the status |
| AttendanceLog.WriteLog | script.js:94-95 | a refused `setItem` is swallowed and leaves the store as it was. An accepted one replaces only the log key. |
| AttendanceLog.Append | script.js:90-95 | from a missing or empty value, append writes `[e]`. From an array `L`, it writes `e` at index 0, old entry `i` at index `i+1`, and length `min(length of L + 1, 200)`. From an unparsable or non-array value, or on a refused write, it changes nothing. Notes are never touched. |
| AttendanceLog.ReadLog | script.js:226 | a missing, blank or unparsable value reads as `[]`. An array reads as itself. Any other JSON value is returned as it is. |
| AttendanceLog.Clear | script.js:227 | clearing removes the log key and touches no note |
| AttendanceLog.SaveNote | script.js:117-120 | the key defaults to `campus_note` and the text to `''`. The key must not be the log key. An accepted write sets exactly that key of the notes to that text, so the note reads back as written, and no other note and not the log change. A store with no note under the log key keeps none. A refused write changes nothing and is reported as not saved. |
| AttendanceLog.LoadNote | script.js:122-124 | the key defaults to `campus_note` and must not be the log key. A missing note reads as `''`, and a present one as its text |
| AttendanceLog.PageNoteKeys | script.js:117-133 | the keys the page itself passes, `campus_note` and `'campus_note_' + id`, are never the log key, so every in-page call meets the note functions' precondition |
| AttendanceLog.DefaultNoteKeys | script.js:117-124 | saving and loading with the key left out both use `campus_note`, and saving with the text left out stores `''` |
| AttendanceLog.ReadAfterAppend | script.js:90-94 | after a successful append to a usable log, reading gives the new entry followed by the old entries, cut to 200 |
| AttendanceLog.AppendDropsOldest | script.js:93-94 | what an append keeps is a prefix of the new entry followed by the old log, so only the oldest entries are ever dropped |
| AttendanceLog.CorruptionPersists | script.js:90-95 | an unparsable or non-array value survives every append unchanged |
| AttendanceLog.ClearProperties | script.js:226-227 | after a clear the log reads as `[]`, and clearing twice equals clearing once |
| AttendanceLog.AppendAfterClear | script.js:90-94 | a successful append after a clear starts a one-entry log |
| AttendanceLog.AppendKeepsBound | script.js:94 | a log of at most 200 entries stays at most 200 entries after any append |
| AttendanceLog.AppendAllOnArray | script.js:90-94 | a run of successful appends onto an array gives the new entries newest-first in front of the old ones, cut to 200 |
| AttendanceLog.NewestFirstAt | script.js:93 | in the newest-first view of a run of appends, index `i` holds the entry appended `i` calls before the last |
| AttendanceLog.AppendAllFromMissing | script.js:90-94 | starting from no log, the last `min(n, 200)` appended entries are kept. Index `i` holds the entry appended `i` calls before the last, so a smaller index always means a later append. |
| AttendanceLog.TwoHundredFive | script.js:94 | 205 appends from no log keep exactly the last 200, newest first |
| AttendanceLog.ThreeAppends | script.js:93 | appending A, B and C to no log reads back as C, B, A |
| Args.OrDefault | script.js:82 | a default parameter value is used exactly when the argument is left out or `undefined`; any given value is kept |
| Scan.ModeOf | script.js:82 | the default label `QR/Face Scan` applies when the mode argument is left out or `undefined`. Any given string, the empty one included, is kept. |
| Scan.ButtonMode | script.js:110 | a button's mode is its `data-scan` value, else its id, else `Scan`, and is never empty |
| Scan.ButtonClickMode | script.js:108-112 | a scan started by a button logs that button's label, which is never empty, and logs the default label only when the button itself carries it |
| Scan.ScanAttendance | script.js:82-95 | the status is `Late` exactly when the scan is after 09:05:00.000. The entry carries that status and the mode. The store afterwards is exactly what appending that entry gives. On an array and an accepted write, the entry is at index 0, old entry `i` moves to index `i+1`, and the length is `min(old length + 1, 200)`. On a missing or blank value the entry starts a log. Otherwise the store is unchanged. |
| Scan.MorningScan | script.js:83-94 | a QR scan at 08:00 on an empty store is `Present` and becomes the only entry |
| Scan.LateScan | script.js:83-94 | a Face scan at 09:06 is `Late`, the log grows by one, and the new entry is at index 0 |

## Left out

- Csv.ExportCsv: an empty row reads back as one empty cell, not as an empty row. Both print as nothing, so no decoder can tell them apart; the exact decode-back is stated for tables without an empty row.
- Csv.ExportCsv: a row that is not itself an array makes `r.map` throw. Rows here are always arrays of cells.
- `String(cell)` for numbers, booleans and objects is not modelled. A non-null cell is given by its text.
- The scan mode, the note key and the note text are modelled as strings only (or as left out). Through `window` a caller can pass other values. `scanAttendance(null)` keeps `null` as the mode, since a default applies only to `undefined`. A BigInt mode makes `JSON.stringify` throw inside the `try` (`script.js:94`), so nothing is written although `setItem` never refused. `saveNote` hands a non-string key or text to `setItem`, which stores its text form (`script.js:118`).
- The Blob download, the toasts and their timers (`script.js:15-64`, 77-78, 97) are browser side effects with no stateable behaviour.
- The status badges and the alert list (`script.js:98-104`) only display the status.
- Locale formatting (`formatDateLong`, `formatTime`, `toISOString`) is left out: the texts are opaque parameters.
- Time zones and daylight-saving shifts in `setHours` are not modelled. Local time is one fixed zone.
- JSON text is not modelled character by character. Stored values are classified by what `JSON.parse` makes of them.
- `console.warn` is left out because it is diagnostics only.
- Storage reads are assumed to succeed. A `getItem` that throws inside `loadNote` is caught and yields `''` (`script.js:123`). That case is not modelled.
- Likewise, a `getItem` that throws inside `getAttendanceLog` is caught and yields `[]` (`script.js:226`). That case is not modelled.
- A `getItem` that throws inside the `try` of `scanAttendance` is caught, and nothing is written (`script.js:90-95`). That case is not modelled either. Only the write fault of `setItem` is a parameter.
- A `removeItem` that throws in `clearAttendanceLog` (`script.js:227`) would escape to the caller. Removal is assumed to succeed.
- AttendanceLog.SaveNote: requires a key other than the log key. Through `window` a caller can pass the log key. The note text then overwrites the log (`script.js:118`), so the log reads as whatever `JSON.parse` makes of that text. The model does not keep raw text for the log, so it does not describe that call.
- AttendanceLog.LoadNote: requires a key other than the log key. Through `window`, `loadNote` with the log key returns the log's JSON text (`script.js:123`). That text is not modelled, since JSON is abstracted.
- `_campus.getNotes` (`script.js:228`) is `loadNote` and is covered by `AttendanceLog.LoadNote`.
- `_campus.clearAll` (`script.js:229`) is left out: it wipes the whole store and belongs to the debug surface.
- Clipboard copy, keyboard shortcuts, the sidebar toggle and table scraping for the CSV button (`script.js:139-185`) are event plumbing over browser APIs.
- The profile-picture upload (`script.js:198-221`) is asynchronous file reading and is left out.
