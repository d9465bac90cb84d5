/**
 * The program's `store_manipulation` namespace: the note list written to and read
 * back from its text file, one note per line as `code,title,description`. The file
 * is modelled by its contents; opening, creating and truncating it are not.
 */
module Store {
  import opened Wrappers
  import opened Decimal
  import opened Utilities
  import opened NoteList
  import opened Sequences

  /** The first position at or after `i` holding `c`. */
  function FirstIndex(s: string, c: char, i: nat): (r: Option<nat>)
    requires i <= |s|
    decreases |s| - i
    ensures r.Some? ==> i <= r.value < |s| && s[r.value] == c
    ensures r.Some? ==> forall k :: i <= k < r.value ==> s[k] != c
    ensures r.None? ==> forall k :: i <= k < |s| ==> s[k] != c
  {
    if i == |s| then None
    else if s[i] == c then Some(i)
    else FirstIndex(s, c, i + 1)
  }

  lemma FirstIndexAfter(a: string, c: char, b: string)
    requires c !in a
    ensures FirstIndex(a + [c] + b, c, 0) == Some(|a|)
  {
    var s := a + [c] + b;
    assert s[|a|] == c;
    assert forall k :: 0 <= k < |a| ==> s[k] == a[k];
  }

  /**
   * The lines `std::getline(file, line)` yields: the text between newlines, the newline
   * itself dropped. A final line without a newline is still a line; a final newline
   * does not start an empty one.
   */
  function SplitLines(text: string): (r: seq<string>)
    decreases |text|
    ensures forall i :: 0 <= i < |r| ==> '\n' !in r[i]
    ensures |text| > 0 && '\n' !in text ==> r == [text]
  {
    if |text| == 0 then []
    else
      match FirstIndex(text, '\n', 0)
      case None => [text]
      case Some(k) => [text[..k]] + SplitLines(text[k + 1..])
  }

  /** Each line followed by a newline, as `writeCSV` emits them. */
  function JoinLines(lines: seq<string>): string
    decreases |lines|
  {
    if |lines| == 0 then "" else lines[0] + "\n" + JoinLines(lines[1..])
  }

  /** Reading the lines back splits the text exactly where writing joined it. */
  lemma {:induction false} SplitJoinLines(lines: seq<string>)
    requires forall i :: 0 <= i < |lines| ==> '\n' !in lines[i]
    ensures SplitLines(JoinLines(lines)) == lines
    decreases |lines|
  {
    if |lines| > 0 {
      var rest := JoinLines(lines[1..]);
      var text := JoinLines(lines);
      assert text == lines[0] + ['\n'] + rest;
      FirstIndexAfter(lines[0], '\n', rest);
      assert text[..|lines[0]|] == lines[0];
      assert text[|lines[0]| + 1..] == rest;
      SplitJoinLines(lines[1..]);
    }
  }

  /**
   * A text whose last line has no newline after it: that line is still read, after
   * all the newline-terminated ones.
   */
  lemma {:induction false} SplitLinesLast(lines: seq<string>, last: string)
    requires forall i :: 0 <= i < |lines| ==> '\n' !in lines[i]
    requires '\n' !in last && |last| > 0
    ensures SplitLines(JoinLines(lines) + last) == lines + [last]
    decreases |lines|
  {
    if |lines| == 0 {
      assert JoinLines(lines) + last == last;
    } else {
      var rest := JoinLines(lines[1..]) + last;
      var text := JoinLines(lines) + last;
      assert text == lines[0] + ['\n'] + rest;
      FirstIndexAfter(lines[0], '\n', rest);
      assert text[..|lines[0]|] == lines[0];
      assert text[|lines[0]| + 1..] == rest;
      SplitLinesLast(lines[1..], last);
      assert lines == [lines[0]] + lines[1..];
    }
  }

  /** The three text fields of a line, before the code is parsed. */
  datatype Fields = Fields(code: string, title: string, description: string)

  /**
   * The three `std::getline` calls on one line: the code up to the first comma, the
   * title up to the second, and the rest of the line, commas included, as the
   * description. A `getline` that extracts nothing fails, so a line with fewer than
   * two commas, or with nothing after the second, yields no fields. An empty code
   * or title does not fail here. The last `getline` would stop at a newline; every
   * line given here comes from `SplitLines` or is a written record of newline-free
   * fields, so it holds none and the rest of the line is the whole description.
   */
  function ParseLine(line: string): (r: Option<Fields>)
    ensures r.Some? ==> ',' !in r.value.code && ',' !in r.value.title && |r.value.description| > 0
    ensures r.Some? ==> |r.value.code| + |r.value.title| + |r.value.description| + 2 == |line|
  {
    match FirstIndex(line, ',', 0)
    case None => None
    case Some(i) =>
      var rest := line[i + 1..];
      match FirstIndex(rest, ',', 0)
      case None => None
      case Some(j) => if j + 1 == |rest| then None else Some(Fields(line[..i], rest[..j], rest[j + 1..]))
  }

  /** Whatever fields a line yields are its own text, split at its first two commas. */
  lemma ParseLineSplits(line: string)
    ensures ParseLine(line).Some? ==>
              var f := ParseLine(line).value;
              && line == f.code + "," + f.title + "," + f.description
              && ',' !in f.code && ',' !in f.title && |f.description| > 0
  {
    var first := FirstIndex(line, ',', 0);
    if first.Some? {
      var i := first.value;
      var rest := line[i + 1..];
      var second := FirstIndex(rest, ',', 0);
      if second.Some? && second.value + 1 < |rest| {
        var j := second.value;
        SplitAtFirst(line, ',', i);
        SplitAtFirst(rest, ',', j);
        JoinThree(line[..i], rest[..j], rest[j + 1..]);
        assert ParseLine(line) == Some(Fields(line[..i], rest[..j], rest[j + 1..]));
      }
    }
  }

  lemma JoinThree(a: string, b: string, c: string)
    ensures a + [','] + (b + [','] + c) == a + "," + b + "," + c
  {
  }

  /** Text cut at the first position holding `c`: the part before it does not hold `c`. */
  lemma SplitAtFirst(s: string, c: char, i: nat)
    requires FirstIndex(s, c, 0) == Some(i)
    ensures s == s[..i] + [c] + s[i + 1..]
    ensures c !in s[..i]
  {
    assert forall k :: 0 <= k < i ==> s[..i][k] == s[k];
  }

  /**
   * Fields joined by commas are recovered, provided neither of the first two holds a
   * comma and the last is not empty. With the decomposition `ParseLine` promises,
   * this says a line yields fields exactly when it splits this way.
   */
  lemma ParseJoinedFields(code: string, title: string, description: string)
    requires ',' !in code && ',' !in title
    requires |description| > 0
    ensures ParseLine(code + "," + title + "," + description) == Some(Fields(code, title, description))
  {
    var line := code + "," + title + "," + description;
    var rest := title + "," + description;
    assert line == code + [','] + rest;
    FirstIndexAfter(code, ',', rest);
    assert line[|code| + 1..] == rest;
    assert rest == title + [','] + description;
    FirstIndexAfter(title, ',', description);
    assert line[..|code|] == code;
    assert rest[..|title|] == title;
    assert rest[|title| + 1..] == description;
  }

  /**
   * One pass of `readCSV`'s loop: the note a line stands for, or nothing when the line
   * is skipped because its fields are missing or `safe_stoi` returns `INT_MAX`.
   * The code read here is only provisional: pushing renumbers it.
   */
  function ParseNote(line: string): (r: Option<Note>)
    ensures ParseLine(line).None? ==> r.None?
    ensures r.Some? ==> IsInt32(r.value.code) && r.value.code != IntMax
    ensures r.Some? ==> r.value.title == ParseLine(line).value.title
                        && r.value.description == ParseLine(line).value.description
  {
    match ParseLine(line)
    case None => None
    case Some(f) =>
      var code := SafeStoi(f.code);
      if code == IntMax then None else Some(Note(code, f.title, f.description))
  }

  /**
   * A line is kept exactly when it yields fields and `stoi` reads its code field as an
   * `int` other than `INT_MAX`; the note kept carries that value and the other two
   * fields. A code field that does not parse, is out of range, or spells `INT_MAX`
   * drops the line.
   */
  lemma ParseNoteKeeps(line: string)
    ensures ParseNote(line).Some? <==>
              ParseLine(line).Some? && Stoi(ParseLine(line).value.code).Success?
              && Stoi(ParseLine(line).value.code).value != IntMax
    ensures ParseNote(line).Some? ==>
              var f := ParseLine(line).value;
              ParseNote(line).value == Note(Stoi(f.code).value, f.title, f.description)
  {
  }

  /** A line holding the sentinel's text as its code is dropped, whatever else it says. */
  lemma SentinelLineSkipped(rest: string)
    ensures ParseNote(IntToString(IntMax) + "," + rest) == None
  {
    var c := IntToString(IntMax);
    var line := c + "," + rest;
    assert line == c + [','] + rest;
    FirstIndexAfter(c, ',', rest);
    assert line[..|c|] == c;
    SentinelCollision();
  }

  /** Reference definition: the notes of the lines `readCSV` keeps, in file order. */
  function AcceptedNotes(lines: seq<string>): seq<Note> {
    FlatMap(Kept, lines)
  }

  /** The note a line contributes: one, or none when the line is skipped. */
  function Kept(line: string): seq<Note> {
    match ParseNote(line)
    case Some(n) => [n]
    case None => []
  }

  /** The body of `readCSV`'s loop for one line. */
  function ReadLine(list: seq<Note>, line: string): (r: seq<Note>)
    ensures ParseNote(line).None? ==> r == list
    ensures ParseNote(line).Some? ==>
              && |r| == |list| + 1 && Numbered(r)
              && Entries(r) == Entries(list) + [Entry(ParseNote(line).value)]
  {
    match ParseNote(line)
    case Some(n) => Push(list, n)
    case None => list
  }

  /**
   * `readCSV`'s loop over the lines: each kept line is pushed at the tail, so the list
   * grows by exactly the number of kept lines and stays numbered.
   */
  function ReadLines(list: seq<Note>, lines: seq<string>): (r: seq<Note>)
    decreases |lines|
    ensures |r| == |list| + |AcceptedNotes(lines)|
    ensures Numbered(list) ==> Numbered(r)
  {
    if |lines| == 0 then list
    else ReadLines(ReadLine(list, lines[0]), lines[1..])
  }

  /**
   * `store_manipulation::readCSV`: `None` stands for a file that cannot be opened, in
   * which case the list is left as it was.
   */
  function ReadCSV(list: seq<Note>, file: Option<string>): (r: seq<Note>)
    ensures file.None? ==> r == list
    ensures file.Some? ==> |r| == |list| + |AcceptedNotes(SplitLines(file.value))|
  {
    match file
    case None => list
    case Some(text) => ReadLines(list, SplitLines(text))
  }

  /**
   * Read into a numbered list, the result is that list followed by the kept notes,
   * renumbered: the list's own notes are untouched and the kept lines' entries follow
   * in file order.
   */
  lemma {:induction false} ReadLinesRenumbers(list: seq<Note>, lines: seq<string>)
    requires Numbered(list)
    ensures ReadLines(list, lines) == Renumber(list + AcceptedNotes(lines))
    decreases |lines|
  {
    if |lines| == 0 {
      assert list + [] == list;
      RenumberNumbered(list);
    } else {
      ReadLinesRenumbers(ReadLine(list, lines[0]), lines[1..]);
      ReadLineStep(list, lines[0], lines[1..]);
      assert [lines[0]] + lines[1..] == lines;
    }
  }

  /** One line read, then the rest: the same as reading all the kept notes at once. */
  lemma ReadLineStep(list: seq<Note>, line: string, rest: seq<string>)
    requires Numbered(list)
    ensures Renumber(ReadLine(list, line) + AcceptedNotes(rest))
         == Renumber(list + AcceptedNotes([line] + rest))
  {
    var acc := AcceptedNotes(rest);
    FlatMapCons(Kept, line, rest);
    match ParseNote(line)
    case Some(n) =>
      assert list + [n] + acc == list + ([n] + acc);
      RenumberAppend(list + [n], acc);
    case None =>
      assert [] + acc == acc;
  }

  /**
   * One note as `writeCSV` writes it, without the line's newline. The code's text
   * holds no comma, so the first comma of the line ends the code field.
   */
  function RecordLine(n: Note): (r: string)
    ensures FirstIndex(r, ',', 0) == Some(|IntToString(n.code)|)
    ensures '\n' !in n.title && '\n' !in n.description ==> '\n' !in r
  {
    var code := IntToString(n.code);
    var rest := n.title + "," + n.description;
    FirstIndexAfter(code, ',', rest);
    assert code + [','] + rest == code + "," + n.title + "," + n.description;
    code + "," + n.title + "," + n.description
  }

  function Records(s: seq<Note>): (r: seq<string>)
    ensures |r| == |s|
    ensures forall i :: 0 <= i < |s| ==> r[i] == RecordLine(s[i])
  {
    seq(|s|, i requires 0 <= i < |s| => RecordLine(s[i]))
  }

  /**
   * `store_manipulation::writeCSV`: every note's line, head to tail, each ended by a
   * newline. When no title or description holds a newline, reading the text back
   * line by line gives exactly one record per note, in list order.
   */
  function WriteCSV(s: seq<Note>): (r: string)
    ensures (forall i :: 0 <= i < |s| ==> '\n' !in s[i].title && '\n' !in s[i].description)
              ==> SplitLines(r) == Records(s)
  {
    RecordsSplit(s);
    JoinLines(Records(s))
  }

  lemma RecordsSplit(s: seq<Note>)
    ensures (forall i :: 0 <= i < |s| ==> '\n' !in s[i].title && '\n' !in s[i].description)
              ==> SplitLines(JoinLines(Records(s))) == Records(s)
  {
    if forall i :: 0 <= i < |s| ==> '\n' !in s[i].title && '\n' !in s[i].description {
      var r := Records(s);
      forall i | 0 <= i < |r|
        ensures '\n' !in r[i]
      {
        assert r[i] == RecordLine(s[i]);
      }
      SplitJoinLines(r);
    }
  }

  /**
   * The notes the format can carry: a code `safe_stoi` reads back, a title with no
   * comma or newline, and a non-empty description with no newline.
   */
  predicate Storable(n: Note) {
    && IsInt32(n.code) && n.code != IntMax
    && ',' !in n.title && '\n' !in n.title
    && '\n' !in n.description && |n.description| > 0
  }

  /** Every storable note is read back from its own line unchanged. */
  lemma ParseRecordLine(n: Note)
    requires Storable(n)
    ensures ParseNote(RecordLine(n)) == Some(n)
    ensures Kept(RecordLine(n)) == [n]
  {
    ParseJoinedFields(IntToString(n.code), n.title, n.description);
    SafeStoiOfIntToString(n.code);
  }

  lemma AcceptedRecordsStep(s: seq<Note>)
    requires |s| > 0 && Storable(s[0])
    ensures AcceptedNotes(Records(s)) == [s[0]] + AcceptedNotes(Records(s[1..]))
  {
    assert Records(s) == [RecordLine(s[0])] + Records(s[1..]);
    FlatMapCons(Kept, RecordLine(s[0]), Records(s[1..]));
    ParseRecordLine(s[0]);
  }

  lemma {:induction false} AcceptedRecords(s: seq<Note>)
    requires forall i :: 0 <= i < |s| ==> Storable(s[i])
    ensures AcceptedNotes(Records(s)) == s
    decreases |s|
  {
    if |s| > 0 {
      AcceptedRecordsStep(s);
      AcceptedRecords(s[1..]);
      assert s == [s[0]] + s[1..];
    }
  }

  /**
   * Round trip: writing storable notes and reading the file into an empty list gives
   * back the same entries in the same order, with codes `1..|s|`.
   */
  lemma RoundTrip(s: seq<Note>)
    requires forall i :: 0 <= i < |s| ==> Storable(s[i])
    ensures ReadCSV([], Some(WriteCSV(s))) == Renumber(s)
  {
    AcceptedRecords(s);
    ReadLinesRenumbers([], Records(s));
    assert [] + s == s;
  }

  /**
   * For a list the program can hold (numbered, shorter than `INT_MAX`, with titles free
   * of commas and newlines and descriptions non-empty and free of newlines) the round
   * trip is the identity.
   */
  lemma RoundTripNumbered(s: seq<Note>)
    requires Numbered(s) && |s| < IntMax
    requires forall i :: 0 <= i < |s| ==> ',' !in s[i].title && '\n' !in s[i].title
    requires forall i :: 0 <= i < |s| ==> '\n' !in s[i].description && |s[i].description| > 0
    ensures ReadCSV([], Some(WriteCSV(s))) == s
  {
    RoundTrip(s);
    RenumberNumbered(s);
  }

  /** The kept notes of two runs of lines are those of each run, in order. */
  lemma AcceptedNotesAppend(a: seq<string>, b: seq<string>)
    ensures AcceptedNotes(a + b) == AcceptedNotes(a) + AcceptedNotes(b)
  {
    FlatMapAppend(Kept, a, b);
  }

  /**
   * A malformed line is skipped without stopping the load: the notes written before
   * and after it are all read back, in order.
   */
  lemma SkipsMalformedLine(before: seq<Note>, bad: string, after: seq<Note>)
    requires forall i :: 0 <= i < |before| ==> Storable(before[i])
    requires forall i :: 0 <= i < |after| ==> Storable(after[i])
    requires '\n' !in bad && ParseNote(bad) == None
    ensures ReadCSV([], Some(JoinLines(Records(before) + [bad] + Records(after))))
         == Renumber(before + after)
  {
    var lines := Records(before) + [bad] + Records(after);
    LinesFreeOfNewlines(before, bad, after);
    SplitJoinLines(lines);
    KeptAround(before, bad, after);
    ReadLinesRenumbers([], lines);
    assert [] + (before + after) == before + after;
  }

  lemma LinesFreeOfNewlines(before: seq<Note>, bad: string, after: seq<Note>)
    requires forall i :: 0 <= i < |before| ==> Storable(before[i])
    requires forall i :: 0 <= i < |after| ==> Storable(after[i])
    requires '\n' !in bad
    ensures var lines := Records(before) + [bad] + Records(after);
            forall i :: 0 <= i < |lines| ==> '\n' !in lines[i]
  {
    var lines := Records(before) + [bad] + Records(after);
    forall i | 0 <= i < |lines|
      ensures '\n' !in lines[i]
    {
      if i < |before| {
        assert lines[i] == RecordLine(before[i]);
      } else if i > |before| {
        assert lines[i] == RecordLine(after[i - |before| - 1]);
      }
    }
  }

  lemma SkippedLineAddsNothing(bad: string)
    requires ParseNote(bad) == None
    ensures AcceptedNotes([bad]) == []
  {
    assert Kept(bad) == [];
    FlatMapCons(Kept, bad, []);
    assert [bad] + [] == [bad];
  }

  lemma KeptAround(before: seq<Note>, bad: string, after: seq<Note>)
    requires forall i :: 0 <= i < |before| ==> Storable(before[i])
    requires forall i :: 0 <= i < |after| ==> Storable(after[i])
    requires ParseNote(bad) == None
    ensures AcceptedNotes(Records(before) + [bad] + Records(after)) == before + after
  {
    AcceptedNotesAppend(Records(before) + [bad], Records(after));
    AcceptedNotesAppend(Records(before), [bad]);
    SkippedLineAddsNothing(bad);
    AcceptedRecords(before);
    AcceptedRecords(after);
    assert before + [] == before;
  }

  /** "bad,line" has one comma only, so no title and description can be split off. */
  lemma BadLineSkipped()
    ensures '\n' !in "bad,line"
    ensures ParseNote("bad,line") == None
  {
    var line := "bad,line";
    assert line == "bad" + [','] + "line";
    FirstIndexAfter("bad", ',', "line");
    assert line[4..] == "line";
    assert FirstIndex("line", ',', 0) == None;
  }

  /**
   * The lines "1,Groceries,Buy milk", "bad,line" and "2,Meeting,Standup at 9" load as
   * the two notes "Groceries" and "Meeting".
   */
  lemma GroceriesExample()
    ensures var groceries := Note(1, "Groceries", "Buy milk");
            var meeting := Note(2, "Meeting", "Standup at 9");
            ReadCSV([], Some(JoinLines([RecordLine(groceries), "bad,line", RecordLine(meeting)])))
              == [groceries, meeting]
  {
    var groceries := Note(1, "Groceries", "Buy milk");
    var meeting := Note(2, "Meeting", "Standup at 9");
    ExampleNotesStorable(groceries, meeting);
    BadLineSkipped();
    var lines := [RecordLine(groceries), "bad,line", RecordLine(meeting)];
    assert lines == Records([groceries]) + ["bad,line"] + Records([meeting]);
    SkipsMalformedLine([groceries], "bad,line", [meeting]);
    assert [groceries] + [meeting] == [groceries, meeting];
    RenumberNumbered([groceries, meeting]);
  }

  lemma ExampleNotesStorable(groceries: Note, meeting: Note)
    requires groceries == Note(1, "Groceries", "Buy milk")
    requires meeting == Note(2, "Meeting", "Standup at 9")
    ensures Storable(groceries) && Storable(meeting)
  {
  }
}
