/**
 * The `do { ... } while (option != 0)` loop of `main`: read an option, dispatch options 1 to 4
 * to the store, ignore every other value, and stop after option 0.
 */
module Menu {
  import opened Students
  import opened TextFormat
  import opened Store

  /**
   * What the user supplies in one pass of the loop: the menu option, then what the chosen
   * operation reads (the count and the names for option 1, the path for options 3 and 4).
   * `writable` says whether `fopen(path, "w")` succeeds.
   */
  datatype Entry = Entry(option: int, count: int, names: seq<NamePair>, path: string, writable: bool)

  /** The files the program can see; a path that is present can be opened for reading. */
  type Files = map<string, string>

  /** What the loop acts on: the collection, the files, and what was printed so far. */
  datatype Session = Session(records: seq<Student>, files: Files, screen: string)

  /** Option 1 needs a count that leaves a size of at least zero and a valid name pair per new slot. */
  predicate StepAllowed(s: Session, e: Entry) {
    e.option == 1 ==> |s.records| + e.count >= 0 && |e.names| == Max(e.count, 0) && ValidNames(e.names)
  }

  /**
   * One pass of the `switch`: only add and load change the records, only save changes the
   * files, only print writes to the screen, and every option outside 1 to 4 changes nothing.
   */
  function Step(s: Session, e: Entry): (r: Session)
    requires StepAllowed(s, e)
    ensures e.option != 1 && e.option != 3 ==> r.records == s.records
    ensures e.option != 4 ==> r.files == s.files
    ensures e.option != 2 ==> r.screen == s.screen
    ensures (e.option < 1 || 4 < e.option) ==> r == s
  {
    if e.option == 1 then s.(records := Appended(s.records, e.count, e.names))
    else if e.option == 2 then s.(screen := s.screen + Listing(s.records))
    else if e.option == 3 then s.(records := if e.path in s.files then ParseStudents(s.files[e.path]) else [])
    else if e.option == 4 then (if e.writable then s.(files := s.files[e.path := Serialize(s.records)]) else s)
    else s
  }

  /** Every pass up to the first option 0 is one the store can carry out. */
  predicate Admissible(s: Session, script: seq<Entry>)
    decreases |script|
  {
    script == [] || script[0].option == 0 ||
    (StepAllowed(s, script[0]) && Admissible(Step(s, script[0]), script[1..]))
  }

  /**
   * The whole loop: passes run in order until option 0 is read; running out of input ends
   * it as well, because `printMenu` returns its initial 0 when `scanf` reads nothing.
   */
  function Run(s: Session, script: seq<Entry>): Session
    requires Admissible(s, script)
    decreases |script|
  {
    if script == [] || script[0].option == 0 then s
    else Run(Step(s, script[0]), script[1..])
  }

  /** Every record the session holds has proper names, whatever the user does. */
  lemma {:induction false} RunKeepsRecordsWellFormed(s: Session, script: seq<Entry>)
    requires Admissible(s, script)
    requires AllWellFormed(s.records)
    ensures AllWellFormed(Run(s, script).records)
    decreases |script|
  {
    if script != [] && script[0].option != 0 {
      var e := script[0];
      if e.option == 1 {
        AppendedWellFormed(s.records, e.count, e.names);
      }
      RunKeepsRecordsWellFormed(Step(s, e), script[1..]);
    }
  }

  /** A session made only of options outside 1 to 4 leaves everything as it was. */
  lemma {:induction false} OtherOptionsChangeNothing(s: Session, script: seq<Entry>)
    requires forall j :: 0 <= j < |script| ==> script[j].option < 1 || 4 < script[j].option
    ensures Admissible(s, script) && Run(s, script) == s
    decreases |script|
  {
    if script != [] && script[0].option != 0 {
      OtherOptionsChangeNothing(s, script[1..]);
    }
  }

  /** Nothing typed after option 0 is ever read: the session ends there. */
  lemma {:induction false} InputAfterExitIgnored(s: Session, before: seq<Entry>, exit: Entry, rest: seq<Entry>, other: seq<Entry>)
    requires exit.option == 0
    requires Admissible(s, before + [exit] + rest)
    ensures Admissible(s, before + [exit] + other)
    ensures Run(s, before + [exit] + rest) == Run(s, before + [exit] + other)
    decreases |before|
  {
    var a := before + [exit] + rest;
    var b := before + [exit] + other;
    if before == [] {
      assert a[0] == exit && b[0] == exit;
    } else {
      assert a[0] == before[0] && b[0] == before[0];
      assert a[1..] == before[1..] + [exit] + rest;
      assert b[1..] == before[1..] + [exit] + other;
      if before[0].option != 0 {
        InputAfterExitIgnored(Step(s, before[0]), before[1..], exit, rest, other);
      }
    }
  }

  /** Option 4 followed by option 3 on the same path gives back the records that were saved. */
  lemma SaveThenLoadRestores(s: Session, path: string, count: int, names: seq<NamePair>)
    requires AllWellFormed(s.records)
    ensures Step(Step(s, Entry(4, count, names, path, true)), Entry(3, count, names, path, false)).records
         == s.records
  {
    RoundTrip(s.records);
  }

  lemma RunUnfold(s: Session, script: seq<Entry>, c: nat)
    requires c < |script| && script[c].option != 0
    requires Admissible(s, script[c..])
    ensures StepAllowed(s, script[c])
    ensures Admissible(Step(s, script[c]), script[c + 1..])
    ensures Run(s, script[c..]) == Run(Step(s, script[c]), script[c + 1..])
  {
    assert script[c..][0] == script[c];
    assert script[c..][1..] == script[c + 1..];
  }

  lemma RunStops(s: Session, script: seq<Entry>, c: nat)
    requires c <= |script|
    requires c == |script| || script[c].option == 0
    ensures Admissible(s, script[c..]) && Run(s, script[c..]) == s
  {
    if c < |script| {
      assert script[c..][0] == script[c];
    }
  }

  /** The `switch (option)` in `main`: one pass of the loop, carried out on the store. */
  method Dispatch(store: StudentStore, e: Entry, files: Files, screen: string) returns (files': Files, screen': string)
    requires store.Valid()
    requires StepAllowed(Session(store.Contents(), files, screen), e)
    modifies store
    ensures store.Valid()
    ensures Session(store.Contents(), files', screen')
         == Step(Session(old(store.Contents()), files, screen), e)
  {
    files', screen' := files, screen;
    if e.option == 1 {
      store.AddStudents(e.count, e.names);
    } else if e.option == 2 {
      var out := store.PrintStudents();
      screen' := screen + out;
    } else if e.option == 3 {
      store.LoadStudents(if e.path in files then Some(files[e.path]) else None);
    } else if e.option == 4 {
      var written := store.SaveStudents(e.writable);
      if written.Some? {
        files' := files[e.path := written.value];
      }
    }
  }

  /**
   * `main`: start with an empty store, then run the loop over the user's input. Returns the
   * final collection, the files, the console output of option 2, and how many menu entries
   * were read: up to and including the first option 0, or all of them.
   */
  method RunMain(script: seq<Entry>, files: Files) returns (records: seq<Student>, saved: Files, screen: string, consumed: nat)
    requires Admissible(Session([], files, ""), script)
    ensures Session(records, saved, screen) == Run(Session([], files, ""), script)
    ensures consumed <= |script|
    ensures forall j :: 0 <= j < consumed - 1 ==> script[j].option != 0
    ensures consumed == |script| || (0 < consumed && script[consumed - 1].option == 0)
  {
    var store := new StudentStore();
    saved := files;
    screen := "";
    consumed := 0;
    assert script[0..] == script;
    while consumed < |script| && script[consumed].option != 0
      invariant store.Valid()
      invariant consumed <= |script|
      invariant forall j :: 0 <= j < consumed ==> script[j].option != 0
      invariant Admissible(Session(store.Contents(), saved, screen), script[consumed..])
      invariant Run(Session(store.Contents(), saved, screen), script[consumed..])
                == Run(Session([], files, ""), script)
      decreases |script| - consumed
    {
      RunUnfold(Session(store.Contents(), saved, screen), script, consumed);
      saved, screen := Dispatch(store, script[consumed], saved, screen);
      consumed := consumed + 1;
    }
    // option 0 was read, or a failed read left printMenu's option at 0
    RunStops(Session(store.Contents(), saved, screen), script, consumed);
    if consumed < |script| {
      consumed := consumed + 1;
    }
    records := store.Contents();
  }
}
