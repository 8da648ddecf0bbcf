/** The student record of main.c and the rules its names obey. */
module Students {

  datatype Option<T> = None | Some(value: T)

  /** `struct Student`: a number and two names, each held in a `char[20]`. */
  datatype Student = Student(number: int, firstName: string, lastName: string)

  /** A `char[20]` holds at most 19 characters in front of its terminating NUL. */
  const NameCapacity: nat := 19

  /** The characters that C's `isspace` accepts in the "C" locale. */
  predicate IsSpace(c: char) {
    c == ' ' || c == '\t' || c == '\n' || c == '\U{000B}' || c == '\U{000C}' || c == '\r'
  }

  predicate IsDigit(c: char) {
    '0' <= c <= '9'
  }

  /** A name as `%s` or `%19s` stores it: at least one character, no white space, and room in a `char[20]`. */
  predicate ValidName(s: string) {
    0 < |s| <= NameCapacity && forall i :: 0 <= i < |s| ==> !IsSpace(s[i])
  }

  predicate WellFormed(st: Student) {
    ValidName(st.firstName) && ValidName(st.lastName)
  }

  predicate AllWellFormed(ss: seq<Student>) {
    forall i :: 0 <= i < |ss| ==> WellFormed(ss[i])
  }

  function Max(a: int, b: int): int {
    if a < b then b else a
  }

  function Min(a: int, b: int): int {
    if a < b then a else b
  }
}
