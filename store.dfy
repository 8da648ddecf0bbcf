/**
 * The record store of main.c: the `students` buffer and its `size`, which `main` owns and
 * passes to `addStudents`, `printStudents`, `getStudentsFile` and `writeStudentsFile`.
 */
module Store {
  import opened Students
  import opened TextFormat

  /** Names typed in for the new records, first name then last name, one pair per new slot. */
  type NamePair = (string, string)

  predicate ValidNames(names: seq<NamePair>) {
    forall j :: 0 <= j < |names| ==> ValidName(names[j].0) && ValidName(names[j].1)
  }

  /**
   * The collection after `addStudents` with count `count`: the size becomes `|before| + count`,
   * the records that still fit are kept, and the record in new slot `i` is numbered `i + 1`.
   * A negative count is not clamped, so it drops records from the end.
   */
  function Appended(before: seq<Student>, count: int, names: seq<NamePair>): (r: seq<Student>)
    requires |before| + count >= 0
    requires |names| == Max(count, 0)
    ensures |r| == |before| + count
    ensures forall i :: 0 <= i < |r| && i < |before| ==> r[i] == before[i]
    ensures forall i :: |before| <= i < |r| ==> r[i] == Student(i + 1, names[i - |before|].0, names[i - |before|].1)
  {
    if count <= 0 then before[..|before| + count]
    else before + seq(count, j requires 0 <= j < count => Student(|before| + j + 1, names[j].0, names[j].1))
  }

  /** Adding keeps the records well formed when the names typed in are valid. */
  lemma AppendedWellFormed(before: seq<Student>, count: int, names: seq<NamePair>)
    requires |before| + count >= 0
    requires |names| == Max(count, 0)
    requires AllWellFormed(before) && ValidNames(names)
    ensures AllWellFormed(Appended(before, count, names))
  {
  }

  /** One line of `printStudents`: `"Schueler %i: Nummer: %d, Vorname: %s, Nachname: %s\n"`. */
  function ListingLine(position: int, st: Student): string {
    "Schueler " + IntToText(position) + ": Nummer: " + IntToText(st.number)
      + ", Vorname: " + st.firstName + ", Nachname: " + st.lastName + "\n"
  }

  /**
   * What `printStudents` writes: record `i` on a line of its own, labelled with `i + 1`,
   * in index order; an empty collection prints nothing at all.
   */
  function Listing(ss: seq<Student>): (r: string)
    ensures r == [] <==> ss == []
  {
    if ss == [] then "" else Listing(ss[..|ss| - 1]) + ListingLine(|ss|, ss[|ss| - 1])
  }

  lemma NumberHasNoNewlines(n: int)
    ensures CountNewlines(IntToText(n)) == 0
  {
    NoNewlines(IntToText(n));
  }

  lemma NameHasNoNewlines(s: string)
    requires ValidName(s)
    ensures CountNewlines(s) == 0
  {
    NoNewlines(s);
  }

  /** The fixed text of a listing line holds no line break. */
  lemma LabelHasNoNewlines(text: string)
    requires text in {"Schueler ", ": Nummer: ", ", Vorname: ", ", Nachname: "}
    ensures CountNewlines(text) == 0
  {
    NoNewlines(text);
  }

  lemma ListingLineIsOneLine(position: int, st: Student)
    requires WellFormed(st)
    ensures CountNewlines(ListingLine(position, st)) == 1
  {
    var p1 := "Schueler " + IntToText(position);
    var p2 := p1 + ": Nummer: " + IntToText(st.number);
    var p3 := p2 + ", Vorname: " + st.firstName;
    var p4 := p3 + ", Nachname: " + st.lastName;
    LabelHasNoNewlines("Schueler ");
    LabelHasNoNewlines(": Nummer: ");
    LabelHasNoNewlines(", Vorname: ");
    LabelHasNoNewlines(", Nachname: ");
    NumberHasNoNewlines(position);
    NumberHasNoNewlines(st.number);
    NameHasNoNewlines(st.firstName);
    NameHasNoNewlines(st.lastName);
    CountNewlinesConcat("Schueler ", IntToText(position));
    CountNewlinesConcat(p1, ": Nummer: ");
    CountNewlinesConcat(p1 + ": Nummer: ", IntToText(st.number));
    CountNewlinesConcat(p2, ", Vorname: ");
    CountNewlinesConcat(p2 + ", Vorname: ", st.firstName);
    CountNewlinesConcat(p3, ", Nachname: ");
    CountNewlinesConcat(p3 + ", Nachname: ", st.lastName);
    CountNewlinesConcat(p4, "\n");
  }

  /** `printStudents` writes one line per record: no name holds a line break. */
  lemma {:induction false} ListingLineCount(ss: seq<Student>)
    requires AllWellFormed(ss)
    ensures CountNewlines(Listing(ss)) == |ss|
    decreases |ss|
  {
    if ss != [] {
      ListingLineIsOneLine(|ss|, ss[|ss| - 1]);
      CountNewlinesConcat(Listing(ss[..|ss| - 1]), ListingLine(|ss|, ss[|ss| - 1]));
      ListingLineCount(ss[..|ss| - 1]);
    }
  }

  /** The elements of a buffer that may be NULL. */
  ghost function Elements(a: array?<Student>): seq<Student>
    reads a
  {
    if a == null then [] else a[..]
  }

  /** `realloc`: a buffer of the new length that holds the old elements that fit. */
  method Realloc(a: array?<Student>, n: nat) returns (b: array<Student>)
    ensures fresh(b) && b.Length == n
    ensures a != null ==> forall j :: 0 <= j < n && j < a.Length ==> b[j] == a[j]
  {
    b := new Student[n];
    if a != null {
      var m := Min(a.Length, n);
      forall j | 0 <= j < m {
        b[j] := a[j];
      }
    }
  }

  /** One turn of the read loop: the buffer grows by one slot, and the scanned record goes into that last slot. */
  method GrowBy(a: array?<Student>, count: nat, st: Student) returns (b: array<Student>)
    requires a == null ==> count == 1
    requires a != null ==> a.Length + 1 == count
    ensures fresh(b) && b.Length == count
    ensures Elements(b) == Elements(a) + [st]
  {
    b := Realloc(a, count);
    b[count - 1] := st;
    assert b[..count - 1] == Elements(a);
    assert b[..] == b[..count - 1] + [st];
  }

  lemma SnocThenRest(done: seq<Student>, st: Student, rest: seq<Student>)
    ensures done + [st] + rest == done + ([st] + rest)
  {
  }

  lemma ParseStep(s: string)
    requires ScanStudent(s).Some?
    ensures ParseStudents(s) == [ScanStudent(s).value.0] + ParseStudents(ScanStudent(s).value.1)
  {
  }

  /** One turn of the read loop keeps "records read so far, then what the rest yields" fixed. */
  lemma ReadStep(done: seq<Student>, rest: string, text: string)
    requires ScanStudent(rest).Some?
    requires done + ParseStudents(rest) == ParseStudents(text)
    ensures done + [ScanStudent(rest).value.0] + ParseStudents(ScanStudent(rest).value.1) == ParseStudents(text)
  {
    ParseStep(rest);
    SnocThenRest(done, ScanStudent(rest).value.0, ParseStudents(ScanStudent(rest).value.1));
  }

  lemma ParseEnd(s: string)
    requires ScanStudent(s).None?
    ensures ParseStudents(s) == []
  {
  }

  /**
   * The read loop of `getStudentsFile`: each complete triple grows the buffer by one slot and
   * is stored in it; the buffer stays NULL when no triple matches.
   */
  method ReadStudents(text: string) returns (loaded: array?<Student>, count: nat)
    ensures loaded == null <==> count == 0
    ensures loaded != null ==> fresh(loaded) && loaded.Length == count
    ensures Elements(loaded) == ParseStudents(text)
  {
    loaded := null;
    count := 0;
    var rest := text;
    var scanned := ScanStudent(rest);
    while scanned.Some?
      invariant loaded == null <==> count == 0
      invariant loaded != null ==> fresh(loaded) && loaded.Length == count
      invariant scanned == ScanStudent(rest)
      invariant Elements(loaded) + ParseStudents(rest) == ParseStudents(text)
      decreases |rest|
    {
      ghost var done := Elements(loaded);
      ReadStep(done, rest, text);
      count := count + 1;
      loaded := GrowBy(loaded, count, scanned.value.0);
      rest := scanned.value.1;
      scanned := ScanStudent(rest);
    }
    ParseEnd(rest);
    assert Elements(loaded) + [] == Elements(loaded);
  }

  /** The `students` pointer and the `size` counter that `main` threads through the menu. */
  class StudentStore {
    var students: array?<Student>
    var size: int

    /** The buffer holds exactly `size` records (none when it is NULL), each with proper names. */
    ghost predicate Valid()
      reads this, students
    {
      0 <= size &&
      (students == null ==> size == 0) &&
      (students != null ==> students.Length == size && AllWellFormed(students[..]))
    }

    function Contents(): (s: seq<Student>)
      reads this, students
      requires Valid()
      ensures |s| == size && AllWellFormed(s)
    {
      if students == null then [] else students[..]
    }

    /** The start of `main`: no buffer yet, and no records. */
    constructor ()
      ensures students == null && size == 0
      ensures Valid() && Contents() == []
    {
      students := null;
      size := 0;
    }

    /**
     * `addStudents`: reallocate to `size + count` slots, number each new slot `i` as `i + 1`
     * and fill in the names typed for it.
     */
    method AddStudents(count: int, names: seq<NamePair>)
      requires Valid()
      requires size + count >= 0
      requires |names| == Max(count, 0)
      requires ValidNames(names)
      modifies this
      ensures Valid()
      ensures Contents() == Appended(old(Contents()), count, names)
    {
      ghost var before := Contents();
      var oldSize := size;
      var newSize := size + count;
      var grown := Realloc(students, newSize);
      var i := oldSize;
      while i < newSize
        invariant oldSize <= i && (i <= newSize || i == oldSize)
        invariant forall j :: 0 <= j < newSize && j < oldSize ==> grown[j] == before[j]
        invariant forall j :: oldSize <= j < i ==> grown[j] == Student(j + 1, names[j - oldSize].0, names[j - oldSize].1)
      {
        grown[i] := Student(i + 1, names[i - oldSize].0, names[i - oldSize].1);
        i := i + 1;
      }
      students := grown;
      size := newSize;
      assert grown[..] == Appended(before, count, names);
      AppendedWellFormed(before, count, names);
    }

    /** `printStudents`: the text it writes to the console. */
    method PrintStudents() returns (screen: string)
      requires Valid()
      ensures screen == Listing(Contents())
    {
      screen := "";
      for i := 0 to size
        invariant screen == Listing(Contents()[..i])
      {
        assert Contents()[..i + 1][..i] == Contents()[..i];
        screen := screen + ListingLine(i + 1, students[i]);
      }
      assert Contents()[..size] == Contents();
    }

    /**
     * `getStudentsFile` and the assignment in `main`, with the evidently intended outcome of a
     * file that cannot be opened: the store becomes empty, so buffer and size agree again.
     * `file` is the text of the file, or None when `fopen` fails.
     */
    method LoadStudents(file: Option<string>)
      requires Valid()
      modifies this
      ensures Valid()
      ensures file.None? ==> Contents() == []
      ensures file.Some? ==> Contents() == ParseStudents(file.value)
    {
      if file.None? {
        students, size := null, 0;
        return;
      }
      var loaded, count := ReadStudents(file.value);
      students, size := loaded, count;
    }

    /**
     * `getStudentsFile` and the assignment in `main` as written: when `fopen` fails the
     * function returns NULL without touching `*size`, and `main` still stores the NULL, so a
     * non-empty store is left with a size but no buffer.
     */
    method LoadStudentsAsWritten(file: Option<string>)
      requires Valid()
      modifies this
      ensures file.Some? ==> Valid() && Contents() == ParseStudents(file.value)
      ensures file.None? ==> students == null && size == old(size)
      ensures file.None? && old(size) > 0 ==> !Valid()
    {
      if file.None? {
        students := null;
        return;
      }
      var loaded, count := ReadStudents(file.value);
      students, size := loaded, count;
    }

    /**
     * `writeStudentsFile`: the text the file holds afterwards, one line per record in index
     * order, or None when the file cannot be opened for writing.
     */
    method SaveStudents(canOpen: bool) returns (written: Option<string>)
      requires Valid()
      ensures canOpen ==> written == Some(Serialize(Contents()))
      ensures !canOpen ==> written == None
    {
      if !canOpen {
        return None;
      }
      var text := "";
      var i := 0;
      while i < size
        invariant 0 <= i <= size
        invariant text == Serialize(Contents()[..i])
      {
        SerializeSnoc(Contents(), i);
        text := text + FormatStudent(students[i]);
        i := i + 1;
      }
      assert Contents()[..size] == Contents();
      return Some(text);
    }
  }

  /** Saving the store and loading the file back restores every record, in order. */
  method SaveThenLoad(store: StudentStore)
    requires store.Valid()
    modifies store
    ensures store.Valid() && store.Contents() == old(store.Contents())
  {
    var written := store.SaveStudents(true);
    RoundTrip(store.Contents());
    store.LoadStudents(written);
  }
}
