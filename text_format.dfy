/**
 * The persisted text format of the store: what `fprintf(file, "%d %s %s\n", ...)` writes
 * and what `fscanf(file, "%d %19s %19s", ...)` reads back, as functions over the text.
 * A scan returns the value it read and the rest of the text that follows it.
 */
module TextFormat {
  import opened Students

  // ---------------------------------------------------------------- numbers

  function DigitValue(c: char): (d: nat)
    requires IsDigit(c)
    ensures d < 10
  {
    (c as int) - ('0' as int)
  }

  function DigitChar(d: nat): (c: char)
    requires d < 10
    ensures IsDigit(c) && DigitValue(c) == d
  {
    (('0' as int) + d) as char
  }

  /** The decimal digits of `n` as `%d` writes them: no sign, no leading zeros. */
  function NatToText(n: nat): (s: string)
    ensures 0 < |s| && forall i :: 0 <= i < |s| ==> IsDigit(s[i])
    decreases n
  {
    if n < 10 then [DigitChar(n)] else NatToText(n / 10) + [DigitChar(n % 10)]
  }

  /** `%d` output: a minus sign for negative numbers, then the digits of the magnitude. */
  function IntToText(n: int): (s: string)
    ensures 0 < |s| && (s[0] == '-' || IsDigit(s[0]))
    ensures forall i :: 0 < i < |s| ==> IsDigit(s[i])
  {
    if n < 0 then "-" + NatToText(-n) else NatToText(n)
  }

  /** The number a run of decimal digits denotes (leading zeros allowed). */
  function DigitsValue(s: string): nat
    requires forall i :: 0 <= i < |s| ==> IsDigit(s[i])
  {
    if s == [] then 0 else 10 * DigitsValue(s[..|s| - 1]) + DigitValue(s[|s| - 1])
  }

  lemma {:induction false} DigitsValueOfNatToText(n: nat)
    ensures DigitsValue(NatToText(n)) == n
    decreases n
  {
    if n >= 10 {
      var s := NatToText(n);
      assert s[..|s| - 1] == NatToText(n / 10);
      DigitsValueOfNatToText(n / 10);
    }
  }

  // ---------------------------------------------------------------- scanning

  /** What a white-space directive (and every `%d`/`%s`) skips first: the leading white space. */
  function SkipSpace(s: string): (r: string)
    ensures |r| <= |s|
    ensures r == [] || !IsSpace(r[0])
    ensures forall i :: 0 <= i < |s| - |r| ==> IsSpace(s[i])
  {
    if s != [] && IsSpace(s[0]) then SkipSpace(s[1..]) else s
  }

  /** The length of the run of decimal digits at the front of `s`. */
  function DigitRun(s: string): (k: nat)
    ensures k <= |s|
    ensures forall i :: 0 <= i < k ==> IsDigit(s[i])
    ensures k == |s| || !IsDigit(s[k])
  {
    if s != [] && IsDigit(s[0]) then 1 + DigitRun(s[1..]) else 0
  }

  /** The length of the run of non-white-space characters at the front of `s`. */
  function WordRun(s: string): (k: nat)
    ensures k <= |s|
    ensures forall i :: 0 <= i < k ==> !IsSpace(s[i])
    ensures k == |s| || IsSpace(s[k])
  {
    if s != [] && !IsSpace(s[0]) then 1 + WordRun(s[1..]) else 0
  }

  /** The conversion part of `%d`, once white space is skipped: an optional sign, then digits. */
  function ScanNumber(t: string): (r: Option<(int, string)>)
    ensures r.Some? ==> |r.value.1| < |t|
  {
    var signed := t != [] && (t[0] == '-' || t[0] == '+');
    var u := if signed then t[1..] else t;
    var k := DigitRun(u);
    if k == 0 then None
    else
      var magnitude: int := DigitsValue(u[..k]);
      Some((if signed && t[0] == '-' then -magnitude else magnitude, u[k..]))
  }

  /**
   * `%d`: skip white space, accept one optional sign, then the longest run of decimal
   * digits; without a digit the conversion fails.
   */
  function ScanInt(s: string): (r: Option<(int, string)>)
    ensures r.Some? ==> |r.value.1| < |s|
  {
    ScanNumber(SkipSpace(s))
  }

  /** The conversion part of `%19s`, once white space is skipped: up to 19 non-white-space characters. */
  function TakeWord(t: string): (r: Option<(string, string)>)
    ensures r.Some? <==> t != [] && !IsSpace(t[0])
    ensures r.Some? ==> ValidName(r.value.0) && t == r.value.0 + r.value.1
  {
    var k := Min(WordRun(t), NameCapacity);
    if k == 0 then None else Some((t[..k], t[k..]))
  }

  /**
   * `%19s`: skip white space, then take at most 19 non-white-space characters; at the end
   * of the text the conversion fails.
   */
  function ScanName(s: string): (r: Option<(string, string)>)
    ensures r.Some? ==> ValidName(r.value.0) && |r.value.1| < |s|
  {
    TakeWord(SkipSpace(s))
  }

  /** One call of `fscanf(file, "%d %19s %19s", ...)` that returns 3. */
  function ScanStudent(s: string): (r: Option<(Student, string)>)
    ensures r.Some? ==> WellFormed(r.value.0) && |r.value.1| < |s|
  {
    match ScanInt(s)
    case None => None
    case Some((n, afterNumber)) =>
      match ScanName(afterNumber)
      case None => None
      case Some((first, afterFirst)) =>
        match ScanName(afterFirst)
        case None => None
        case Some((last, rest)) => Some((Student(n, first, last), rest))
  }

  /**
   * The records the load loop of main.c collects: triples are read in order for as long
   * as all three fields of a triple match; the first incomplete triple ends the load.
   */
  function ParseStudents(s: string): (r: seq<Student>)
    ensures AllWellFormed(r)
    decreases |s|
  {
    match ScanStudent(s)
    case None => []
    case Some((st, rest)) => [st] + ParseStudents(rest)
  }

  // ---------------------------------------------------------------- writing

  /** One line `"%d %s %s\n"` of the saved file. */
  function FormatStudent(st: Student): string {
    IntToText(st.number) + " " + st.firstName + " " + st.lastName + "\n"
  }

  /** The whole saved file: one line per record, in index order. */
  function Serialize(ss: seq<Student>): string {
    if ss == [] then "" else FormatStudent(ss[0]) + Serialize(ss[1..])
  }

  // ---------------------------------------------------------------- lemmas

  lemma {:induction false} SerializeConcat(a: seq<Student>, b: seq<Student>)
    ensures Serialize(a + b) == Serialize(a) + Serialize(b)
    decreases |a|
  {
    if a != [] {
      assert (a + b)[0] == a[0];
      assert (a + b)[1..] == a[1..] + b;
      SerializeConcat(a[1..], b);
    } else {
      assert a + b == b;
    }
  }

  lemma SplitAt(ss: seq<Student>, i: nat)
    requires i < |ss|
    ensures ss == ss[..i] + ([ss[i]] + ss[i + 1..])
    ensures ([ss[i]] + ss[i + 1..])[0] == ss[i] && ([ss[i]] + ss[i + 1..])[1..] == ss[i + 1..]
  {
  }

  lemma StringAssoc(a: string, b: string, c: string)
    ensures a + (b + c) == a + b + c
  {
  }

  /** Line `i` of the saved file is the line of record `i`, preceded by the lines of records `0..i-1`. */
  lemma SerializeLineAt(ss: seq<Student>, i: nat)
    requires i < |ss|
    ensures Serialize(ss) == Serialize(ss[..i]) + FormatStudent(ss[i]) + Serialize(ss[i + 1..])
  {
    SplitAt(ss, i);
    SerializeConcat(ss[..i], [ss[i]] + ss[i + 1..]);
    StringAssoc(Serialize(ss[..i]), FormatStudent(ss[i]), Serialize(ss[i + 1..]));
  }

  /** What the write loop relies on: appending one record appends its line. */
  lemma SerializeSnoc(ss: seq<Student>, i: nat)
    requires i < |ss|
    ensures Serialize(ss[..i + 1]) == Serialize(ss[..i]) + FormatStudent(ss[i])
  {
    assert ss[..i + 1] == ss[..i] + [ss[i]];
    SerializeConcat(ss[..i], [ss[i]]);
    assert [ss[i]][1..] == [];
  }

  function CountNewlines(s: string): nat {
    if s == [] then 0 else (if s[0] == '\n' then 1 else 0) + CountNewlines(s[1..])
  }

  lemma {:induction false} CountNewlinesConcat(a: string, b: string)
    ensures CountNewlines(a + b) == CountNewlines(a) + CountNewlines(b)
    decreases |a|
  {
    if a != [] {
      assert (a + b)[0] == a[0];
      assert (a + b)[1..] == a[1..] + b;
      CountNewlinesConcat(a[1..], b);
    } else {
      assert a + b == b;
    }
  }

  lemma {:induction false} NoNewlines(s: string)
    requires forall i :: 0 <= i < |s| ==> s[i] != '\n'
    ensures CountNewlines(s) == 0
    decreases |s|
  {
    if s != [] {
      NoNewlines(s[1..]);
    }
  }

  /** Saving `ss` writes exactly `|ss|` lines: the names of a record hold no line break. */
  lemma {:induction false} SerializedLineCount(ss: seq<Student>)
    requires AllWellFormed(ss)
    ensures CountNewlines(Serialize(ss)) == |ss|
    decreases |ss|
  {
    if ss != [] {
      var st := ss[0];
      NoNewlines(IntToText(st.number));
      NoNewlines(st.firstName);
      NoNewlines(st.lastName);
      var a := IntToText(st.number) + " " + st.firstName + " " + st.lastName;
      CountNewlinesConcat(IntToText(st.number), " ");
      CountNewlinesConcat(IntToText(st.number) + " ", st.firstName);
      CountNewlinesConcat(IntToText(st.number) + " " + st.firstName, " ");
      CountNewlinesConcat(IntToText(st.number) + " " + st.firstName + " ", st.lastName);
      CountNewlinesConcat(a, "\n");
      CountNewlinesConcat(FormatStudent(st), Serialize(ss[1..]));
      SerializedLineCount(ss[1..]);
    }
  }

  lemma SkipSpaceCons(c: char, s: string)
    requires IsSpace(c)
    ensures SkipSpace([c] + s) == SkipSpace(s)
  {
    assert ([c] + s)[1..] == s;
  }

  lemma SkipSpaceNone(s: string)
    requires s != [] && !IsSpace(s[0])
    ensures SkipSpace(s) == s
  {
  }

  lemma DigitRunOf(d: string, t: string)
    requires forall i :: 0 <= i < |d| ==> IsDigit(d[i])
    requires t == [] || !IsDigit(t[0])
    ensures DigitRun(d + t) == |d|
  {
    var u := d + t;
    assert forall i :: 0 <= i < |d| ==> u[i] == d[i];
    assert t != [] ==> u[|d|] == t[0];
  }

  lemma WordRunAtLeast(w: string, t: string)
    requires forall i :: 0 <= i < |w| ==> !IsSpace(w[i])
    ensures WordRun(w + t) >= |w|
  {
    var s := w + t;
    assert forall i :: 0 <= i < |w| ==> s[i] == w[i];
  }

  lemma WordRunOf(w: string, t: string)
    requires forall i :: 0 <= i < |w| ==> !IsSpace(w[i])
    requires t == [] || IsSpace(t[0])
    ensures WordRun(w + t) == |w|
  {
    WordRunAtLeast(w, t);
    var s := w + t;
    assert t != [] ==> s[|w|] == t[0];
  }

  /** `%d` reads back exactly what `%d` wrote, when no digit follows it. */
  lemma ScanIntOfText(n: int, t: string)
    requires t == [] || !IsDigit(t[0])
    ensures ScanInt(IntToText(n) + t) == Some((n, t))
  {
    var m: nat := if n < 0 then -n else n;
    var d := NatToText(m);
    var s := IntToText(n) + t;
    SkipSpaceNone(s);
    var u := d + t;
    if n < 0 {
      assert s == ['-'] + u;
      assert s[1..] == u;
    } else {
      assert s == u;
    }
    DigitRunOf(d, t);
    assert u[..|d|] == d;
    assert u[|d|..] == t;
    DigitsValueOfNatToText(m);
  }

  /** `%19s` reads a valid name back whole when white space or the end of the text follows it. */
  lemma ScanNameOf(w: string, t: string)
    requires ValidName(w)
    requires t == [] || IsSpace(t[0])
    ensures ScanName(w + t) == Some((w, t))
  {
    var s := w + t;
    assert s[0] == w[0];
    SkipSpaceNone(s);
    WordRunOf(w, t);
    assert s[..|w|] == w;
    assert s[|w|..] == t;
  }

  /**
   * `%19s` on a word longer than 19 characters stops after 19 of them; the rest of the
   * word stays in the text and is what the next conversion reads.
   */
  lemma LongWordTruncated(w: string, t: string)
    requires |w| > NameCapacity
    requires forall i :: 0 <= i < |w| ==> !IsSpace(w[i])
    ensures ScanName(w + t) == Some((w[..NameCapacity], w[NameCapacity..] + t))
  {
    var s := w + t;
    assert s[0] == w[0];
    SkipSpaceNone(s);
    WordRunAtLeast(w, t);
    assert s[..NameCapacity] == w[..NameCapacity];
    assert s[NameCapacity..] == w[NameCapacity..] + t;
  }

  /**
   * A first name of 20 to 38 characters is cut at 19 and its remainder is read as the last
   * name; the real last name is left in the text for the next `%d`.
   */
  lemma OverlongFirstNameShiftsFields(n: int, w: string, t: string)
    requires NameCapacity < |w| <= 2 * NameCapacity
    requires forall i :: 0 <= i < |w| ==> !IsSpace(w[i])
    requires t == [] || IsSpace(t[0])
    ensures ScanStudent(IntToText(n) + " " + w + t)
         == Some((Student(n, w[..NameCapacity], w[NameCapacity..]), t))
  {
    var afterNumber := [' '] + (w + t);
    StringAssoc(IntToText(n) + " ", w, t);
    StringAssoc(IntToText(n), " ", w + t);
    ScanIntOfText(n, afterNumber);
    SkipSpaceCons(' ', w + t);
    LongWordTruncated(w, t);
    ScanNameOf(w[NameCapacity..], t);
  }

  lemma ScanNameAfterSpace(w: string, t: string)
    requires ValidName(w)
    requires t == [] || IsSpace(t[0])
    ensures ScanName([' '] + (w + t)) == Some((w, t))
  {
    SkipSpaceCons(' ', w + t);
    ScanNameOf(w, t);
  }

  lemma FormatStudentShape(st: Student, t: string)
    ensures FormatStudent(st) + t
         == IntToText(st.number) + ([' '] + (st.firstName + ([' '] + (st.lastName + ("\n" + t)))))
  {
  }

  lemma ScanFormatted(st: Student, t: string)
    requires WellFormed(st)
    ensures ScanStudent(FormatStudent(st) + t) == Some((st, "\n" + t))
  {
    var rest := "\n" + t;
    var afterFirst := [' '] + (st.lastName + rest);
    var afterNumber := [' '] + (st.firstName + afterFirst);
    FormatStudentShape(st, t);
    ScanIntOfText(st.number, afterNumber);
    ScanNameAfterSpace(st.firstName, afterFirst);
    ScanNameAfterSpace(st.lastName, rest);
  }

  /** White space in front of the next triple does not change what is loaded. */
  lemma ParseSkipsSpace(c: char, t: string)
    requires IsSpace(c)
    ensures ParseStudents([c] + t) == ParseStudents(t)
  {
    SkipSpaceCons(c, t);
    assert ScanInt([c] + t) == ScanInt(t);
  }

  /** Loading a saved line followed by more text yields its record, then what the text holds. */
  lemma ParseFormatted(st: Student, more: string)
    requires WellFormed(st)
    ensures ParseStudents(FormatStudent(st) + more) == [st] + ParseStudents(more)
  {
    ScanFormatted(st, more);
    ParseSkipsSpace('\n', more);
  }

  lemma ConsSplit(ss: seq<Student>, rest: seq<Student>)
    requires ss != []
    ensures [ss[0]] + (ss[1..] + rest) == ss + rest
  {
    assert [ss[0]] + ss[1..] == ss;
  }

  lemma SerializeCons(ss: seq<Student>, tail: string)
    requires ss != []
    ensures Serialize(ss) + tail == FormatStudent(ss[0]) + (Serialize(ss[1..]) + tail)
  {
  }

  /**
   * Loading a saved file followed by any text gives the saved records, in order, then
   * whatever the following text holds.
   */
  lemma {:induction false} ParseSerialized(ss: seq<Student>, tail: string)
    requires AllWellFormed(ss)
    ensures ParseStudents(Serialize(ss) + tail) == ss + ParseStudents(tail)
    decreases |ss|
  {
    if ss == [] {
      assert Serialize(ss) + tail == tail;
    } else {
      var more := Serialize(ss[1..]) + tail;
      SerializeCons(ss, tail);
      ParseFormatted(ss[0], more);
      ParseSerialized(ss[1..], tail);
      ConsSplit(ss, ParseStudents(tail));
    }
  }

  /** Save then load: the records come back with the same numbers and names in the same order. */
  lemma RoundTrip(ss: seq<Student>)
    requires AllWellFormed(ss)
    ensures ParseStudents(Serialize(ss)) == ss
  {
    ParseSerialized(ss, "");
    assert Serialize(ss) + "" == Serialize(ss);
    assert ScanInt("").None?;
  }

  /** A trailing incomplete triple is dropped without affecting the complete ones before it. */
  lemma IncompleteTailDropped(ss: seq<Student>, tail: string)
    requires AllWellFormed(ss)
    requires ScanStudent(tail).None?
    ensures ParseStudents(Serialize(ss) + tail) == ss
  {
    ParseSerialized(ss, tail);
  }
}
