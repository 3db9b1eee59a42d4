/** The attendance log and the notes kept in the browser's key-value store
by script.js: the log-append part of `scanAttendance`, the debug helpers
`getAttendanceLog` and `clearAttendanceLog`, and `saveNote` / `loadNote`.

JSON is not modelled character by character. The value under the log key
is described by what `JSON.parse` makes of it (`Stored`), and a written
array is stored as that array. Note texts live under their own keys.
 */
module AttendanceLog {
  import opened Clock
  import opened Args

  /** `saveNote` and `loadNote` use this key when none is given. */
  const DefaultNoteKey: string := "campus_note"

  /** The key `campus_attendance_log_v1` holds the log. */
  const LogKey: string := "campus_attendance_log_v1"

  /** `arr.slice(0, 200)`: the most entries a write keeps. */
  const Capacity: nat := 200

  /** `{ timestamp, status, mode, time }`. The ISO timestamp and the locale
      time text are opaque strings here. */
  datatype Entry = Entry(timestamp: string, status: Status, mode: string, time: string)

  /** An element of the stored array: one the page wrote, or any other JSON
      value someone else put there. */
  datatype Item = Logged(entry: Entry) | Foreign

  /** The value under the log key, as `JSON.parse` sees it. */
  datatype Stored =
    | Missing               // `getItem` returns null
    | Blank                 // the empty string, which is falsy
    | Arr(items: seq<Item>) // the JSON text of an array
    | OtherJson             // the JSON text of an object, null, a number, a string or a boolean
    | Unparsable            // text `JSON.parse` rejects

  /** What `getAttendanceLog` hands back: an array, or the parsed non-array value. */
  datatype Json = JArray(items: seq<Item>) | JOther

  /** The whole store: the log key, and the note texts under the other keys. */
  datatype Storage = Storage(log: Stored, notes: map<string, string>)

  function Min(a: int, b: int): int
  {
    if a <= b then a else b
  }

  /** `xs.slice(0, n)`: the first `n` elements, or all of them. */
  function Take<T>(xs: seq<T>, n: nat): (r: seq<T>)
    ensures |r| == Min(|xs|, n)
    ensures r <= xs
  {
    if |xs| <= n then xs else xs[..n]
  }

  /** `setItem(LogKey, ...)`; a refused write (quota exceeded, storage
      disabled) throws and is swallowed, leaving the store as it was. */
  function WriteLog(st: Storage, items: seq<Item>, writable: bool): (r: Storage)
    ensures r.notes == st.notes
    ensures writable ==> r.log == Arr(items)
    ensures !writable ==> r == st
  {
    if writable then st.(log := Arr(items)) else st
  }

  /** The log-saving `try` block of `scanAttendance`. A missing or empty
      value counts as `[]`; an array gets the entry in front and is cut to
      200; unparsable text (`JSON.parse` throws) or a non-array value (it
      has no `unshift`) throws inside the `try`, and nothing is written. */
  function Append(st: Storage, e: Entry, writable: bool): (r: Storage)
    ensures r.notes == st.notes
    ensures (st.log.Missing? || st.log.Blank?) && writable ==> r.log == Arr([Logged(e)])
    ensures st.log.Arr? && writable ==>
      && r.log.Arr?
      && |r.log.items| == Min(|st.log.items| + 1, Capacity)
      && r.log.items[0] == Logged(e)
      && (forall i :: 0 <= i < |r.log.items| - 1 ==> r.log.items[i + 1] == st.log.items[i])
    ensures st.log.OtherJson? || st.log.Unparsable? || !writable ==> r == st
  {
    match st.log
    case Missing => WriteLog(st, [Logged(e)], writable)
    case Blank => WriteLog(st, [Logged(e)], writable)
    case Arr(items) => WriteLog(st, Take([Logged(e)] + items, Capacity), writable)
    case OtherJson => st
    case Unparsable => st
  }

  /** `getAttendanceLog`: `JSON.parse(getItem(LogKey) || '[]')`, with a
      parse failure turned into `[]`. */
  function ReadLog(st: Storage): (r: Json)
    ensures r.JOther? <==> st.log.OtherJson?
    ensures st.log.Arr? ==> r == JArray(st.log.items)
    ensures !st.log.Arr? && !st.log.OtherJson? ==> r == JArray([])
  {
    match st.log
    case Arr(items) => JArray(items)
    case OtherJson => JOther
    case _ => JArray([])
  }

  /** `clearAttendanceLog`: `removeItem(LogKey)`. */
  function Clear(st: Storage): (r: Storage)
    ensures r.log.Missing?
    ensures r.notes == st.notes
  {
    st.(log := Missing)
  }

  /** A key the notes may use: any key but the log's. Saving a note under
      the log key would overwrite the log with raw text, which this model
      does not describe. */
  predicate NoteKey(k: string)
  {
    k != LogKey
  }

  /** The keys the page itself uses for notes, `campus_note` and
      `'campus_note_' + id`, are never the log key. */
  lemma PageNoteKeys(id: string)
    ensures NoteKey(DefaultNoteKey)
    ensures NoteKey("campus_note_" + id)
  {
    assert ("campus_note_" + id)[7] == 'n' != LogKey[7];
  }

  /** `saveNote(key = 'campus_note', text = '')`: stores the text under the
      key, or keeps the store as it was when the write is refused. Answers
      whether it was saved, which picks the toast. */
  function SaveNote(st: Storage, key: Arg<string>, text: Arg<string>, writable: bool): (r: (Storage, bool))
    requires NoteKey(OrDefault(key, DefaultNoteKey))
    ensures r.1 == writable
    ensures r.0.log == st.log
    ensures writable ==> r.0.notes == st.notes[OrDefault(key, DefaultNoteKey) := OrDefault(text, "")]
    ensures writable ==> LoadNote(r.0, key) == OrDefault(text, "")
    ensures forall k :: k != OrDefault(key, DefaultNoteKey) && NoteKey(k) ==>
      LoadNote(r.0, Given(k)) == LoadNote(st, Given(k))
    ensures LogKey !in st.notes ==> LogKey !in r.0.notes
    ensures !writable ==> r.0 == st
  {
    var k := OrDefault(key, DefaultNoteKey);
    if writable then (st.(notes := st.notes[k := OrDefault(text, "")]), true) else (st, false)
  }

  /** `loadNote(key = 'campus_note')`: `getItem(key) || ''`. */
  function LoadNote(st: Storage, key: Arg<string>): (r: string)
    requires NoteKey(OrDefault(key, DefaultNoteKey))
    ensures OrDefault(key, DefaultNoteKey) !in st.notes ==> r == ""
    ensures OrDefault(key, DefaultNoteKey) in st.notes ==> r == st.notes[OrDefault(key, DefaultNoteKey)]
  {
    var k := OrDefault(key, DefaultNoteKey);
    if k in st.notes then st.notes[k] else ""
  }

  /** With both defaults, `saveNote()` stores the empty text under
      `campus_note`, and `loadNote()` then reads it back as `''`; a saved
      text under the default key is what `loadNote()` reads. */
  lemma DefaultNoteKeys(st: Storage, t: string)
    ensures LoadNote(SaveNote(st, Omitted, Omitted, true).0, Omitted) == ""
    ensures LoadNote(SaveNote(st, Omitted, Given(t), true).0, Omitted) == t
    ensures LoadNote(SaveNote(st, Omitted, Given(t), true).0, Given("campus_note")) == t
  {
  }

  // ---------------------------------------------------------------------
  // Properties of the log

  /** Reading right after a successful append to a usable value sees the
      new entry first, followed by the newest entries that were there. */
  lemma ReadAfterAppend(st: Storage, e: Entry)
    requires st.log.Missing? || st.log.Blank? || st.log.Arr?
    ensures ReadLog(Append(st, e, true)) == JArray(Take([Logged(e)] + ReadLog(st).items, Capacity))
  {
  }

  /** Appending never drops a newer entry while keeping an older one: what
      survives is a prefix of the new entry followed by the old log. */
  lemma AppendDropsOldest(st: Storage, e: Entry, writable: bool)
    requires st.log.Arr?
    ensures Append(st, e, writable).log.Arr?
    ensures Append(st, e, writable).log.items <= [Logged(e)] + st.log.items
      || Append(st, e, writable) == st
  {
  }

  /** A value `JSON.parse` rejects, or a non-array value, stays as it is:
      scanning never repairs it, and reading keeps reporting it. */
  lemma CorruptionPersists(st: Storage, e: Entry, writable: bool)
    requires st.log.OtherJson? || st.log.Unparsable?
    ensures Append(st, e, writable) == st
    ensures ReadLog(Append(st, e, writable)) == ReadLog(st)
  {
  }

  /** After a clear the log reads as empty, and clearing twice is clearing once. */
  lemma ClearProperties(st: Storage)
    ensures ReadLog(Clear(st)) == JArray([])
    ensures Clear(Clear(st)) == Clear(st)
  {
  }

  /** A clear followed by an append starts a fresh one-entry log. */
  lemma AppendAfterClear(st: Storage, e: Entry)
    ensures ReadLog(Append(Clear(st), e, true)) == JArray([Logged(e)])
  {
  }

  /** The number of entries under the log key never passes the capacity
      once it is within it. */
  ghost predicate Bounded(st: Storage)
  {
    st.log.Arr? ==> |st.log.items| <= Capacity
  }

  lemma AppendKeepsBound(st: Storage, e: Entry, writable: bool)
    requires Bounded(st)
    ensures Bounded(Append(st, e, writable))
  {
  }

  /** Appending the entries `es` one after another, oldest first. */
  function AppendAll(st: Storage, es: seq<Entry>): Storage
    decreases |es|
  {
    if es == [] then st
    else AppendAll(Append(st, es[0], true), es[1..])
  }

  /** The entries `es` as stored items, newest first. */
  function NewestFirst(es: seq<Entry>): (r: seq<Item>)
    ensures |r| == |es|
  {
    if es == [] then [] else NewestFirst(es[1..]) + [Logged(es[0])]
  }

  /** Index `i` of the newest-first view holds the entry appended `i` calls
      before the last one. */
  lemma {:induction false} NewestFirstAt(es: seq<Entry>, i: nat)
    requires i < |es|
    ensures NewestFirst(es)[i] == Logged(es[|es| - 1 - i])
    decreases |es|
  {
    if i < |es| - 1 {
      NewestFirstAt(es[1..], i);
      assert NewestFirst(es)[i] == NewestFirst(es[1..])[i];
    }
  }

  /** The first of a run of successful appends onto an array. */
  lemma AppendAllStep(items: seq<Item>, notes: map<string, string>, es: seq<Entry>)
    requires es != []
    ensures AppendAll(Storage(Arr(items), notes), es)
      == AppendAll(Storage(Arr(Take([Logged(es[0])] + items, Capacity)), notes), es[1..])
  {
  }

  /** Putting the newest-first view of the later entries in front of the
      first entry and the old items gives the newest-first view of all. */
  lemma NewestFirstFront(es: seq<Entry>, items: seq<Item>)
    requires es != []
    ensures NewestFirst(es[1..]) + ([Logged(es[0])] + items) == NewestFirst(es) + items
  {
  }

  /** A run of successful appends onto an array leaves the appended entries
      newest first, followed by the old ones, cut to the capacity. */
  lemma {:induction false} AppendAllOnArray(items: seq<Item>, notes: map<string, string>, es: seq<Entry>)
    requires es != []
    ensures AppendAll(Storage(Arr(items), notes), es)
      == Storage(Arr(Take(NewestFirst(es) + items, Capacity)), notes)
    decreases |es|
  {
    var front := [Logged(es[0])] + items;
    var next := Take(front, Capacity);
    AppendAllStep(items, notes, es);
    if es[1..] == [] {
      assert NewestFirst(es) == [Logged(es[0])] by {
        assert es == [es[0]];
      }
    } else {
      var rest := NewestFirst(es[1..]);
      AppendAllOnArray(next, notes, es[1..]);
      TakeAppendTake(rest, front, Capacity);
      NewestFirstFront(es, items);
    }
  }

  /** Cutting the tail before putting a prefix in front changes nothing
      once the result is cut again. */
  lemma TakeAppendTake<T>(front: seq<T>, xs: seq<T>, n: nat)
    ensures Take(front + Take(xs, n), n) == Take(front + xs, n)
  {
    if |xs| > n {
      if |front| >= n {
        assert (front + xs[..n])[..n] == front[..n] == (front + xs)[..n];
      } else {
        assert (front + xs[..n])[..n] == (front + xs)[..n];
      }
    }
  }

  /** From a missing (or cleared) log, a run of successful appends leaves
      the last 200 entries appended, newest first: the entry at index `i` is
      the one appended `i` calls before the last, so a smaller index always
      means a later append. */
  lemma {:induction false} AppendAllFromMissing(notes: map<string, string>, es: seq<Entry>)
    requires es != []
    ensures AppendAll(Storage(Missing, notes), es).log.Arr?
    ensures AppendAll(Storage(Missing, notes), es).log == Arr(Take(NewestFirst(es), Capacity))
    ensures |AppendAll(Storage(Missing, notes), es).log.items| == Min(|es|, Capacity)
    ensures forall i :: 0 <= i < |AppendAll(Storage(Missing, notes), es).log.items| ==>
      AppendAll(Storage(Missing, notes), es).log.items[i] == Logged(es[|es| - 1 - i])
  {
    var st := Storage(Missing, notes);
    assert Append(st, es[0], true) == Storage(Arr([Logged(es[0])]), notes);
    if es[1..] == [] {
      assert es == [es[0]];
      assert NewestFirst(es) == [Logged(es[0])];
    } else {
      AppendAllOnArray([Logged(es[0])], notes, es[1..]);
      assert NewestFirst(es[1..]) + [Logged(es[0])] == NewestFirst(es);
    }
    assert AppendAll(st, es).log == Arr(Take(NewestFirst(es), Capacity));
    var items := AppendAll(st, es).log.items;
    forall i | 0 <= i < |items|
      ensures items[i] == Logged(es[|es| - 1 - i])
    {
      NewestFirstAt(es, i);
    }
  }

  /** 205 appends from an empty store keep exactly 200 entries: the last
      200 appended, newest first. */
  lemma TwoHundredFive(notes: map<string, string>, es: seq<Entry>)
    requires |es| == 205
    ensures AppendAll(Storage(Missing, notes), es).log.Arr?
    ensures |AppendAll(Storage(Missing, notes), es).log.items| == 200
    ensures forall i :: 0 <= i < 200 ==>
      AppendAll(Storage(Missing, notes), es).log.items[i] == Logged(es[204 - i])
  {
    AppendAllFromMissing(notes, es);
  }

  /** Appending A, B and C to an empty store reads back as C, B, A. */
  lemma ThreeAppends(notes: map<string, string>, a: Entry, b: Entry, c: Entry)
    ensures ReadLog(AppendAll(Storage(Missing, notes), [a, b, c]))
      == JArray([Logged(c), Logged(b), Logged(a)])
  {
    AppendAllFromMissing(notes, [a, b, c]);
  }
}
