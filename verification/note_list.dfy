/**
 * The program's `LinkedList` of notes, as an immutable sequence read head to tail.
 * Node links and ownership disappear; what stays is the order of the notes, the
 * codes stored in them, and the two directions the list can be walked in.
 */
module NoteList {
  import opened Wrappers
  import opened Decimal
  import opened Utilities

  /** A note: its code (rewritten on every renumbering), title and description. */
  datatype Note = Note(code: int, title: string, description: string)

  /** What a note says, apart from its code. */
  function Entry(n: Note): (string, string) {
    (n.title, n.description)
  }

  /** The entries of a list, head to tail: everything renumbering leaves alone. */
  function Entries(s: seq<Note>): (r: seq<(string, string)>)
    ensures |r| == |s|
    ensures forall i :: 0 <= i < |s| ==> r[i] == Entry(s[i])
  {
    seq(|s|, i requires 0 <= i < |s| => Entry(s[i]))
  }

  /** The renumbering invariant: read head to tail, the codes are 1, 2, ..., |s|. */
  predicate Numbered(s: seq<Note>) {
    forall i :: 0 <= i < |s| ==> s[i].code == i + 1
  }

  predicate HasCode(s: seq<Note>, code: int) {
    exists i :: 0 <= i < |s| && s[i].code == code
  }

  predicate DistinctCodes(s: seq<Note>) {
    forall i, j :: 0 <= i < j < |s| ==> s[i].code != s[j].code
  }

  lemma NumberedDistinct(s: seq<Note>)
    requires Numbered(s)
    ensures DistinctCodes(s)
    ensures forall code :: HasCode(s, code) <==> 1 <= code <= |s|
  {
    forall code | 1 <= code <= |s|
      ensures HasCode(s, code)
    {
      assert s[code - 1].code == code;
    }
  }

  /** The loop of `sanitize_codes`, from the node that receives `value` onwards. */
  function RenumberFrom(s: seq<Note>, value: int): (r: seq<Note>)
    decreases |s|
    ensures |r| == |s|
    ensures forall i :: 0 <= i < |s| ==> r[i].code == value + i && Entry(r[i]) == Entry(s[i])
  {
    if |s| == 0 then [] else [s[0].(code := value)] + RenumberFrom(s[1..], value + 1)
  }

  /** `LinkedList::sanitize_codes`: every note gets its 1-based position as its code. */
  function Renumber(s: seq<Note>): (r: seq<Note>)
    ensures Numbered(r)
    ensures Entries(r) == Entries(s)
  {
    RenumberFrom(s, 1)
  }

  /** Renumbering an already numbered list changes nothing. */
  lemma RenumberNumbered(s: seq<Note>)
    requires Numbered(s)
    ensures Renumber(s) == s
  {
    var r := Renumber(s);
    assert forall i :: 0 <= i < |s| ==> r[i] == s[i];
  }

  /** A list is fixed by its entries once it is numbered. */
  lemma NumberedEntriesDetermine(a: seq<Note>, b: seq<Note>)
    requires Numbered(a) && Numbered(b) && Entries(a) == Entries(b)
    ensures a == b
  {
    assert |a| == |Entries(a)|;
    forall i | 0 <= i < |a|
      ensures a[i] == b[i]
    {
      assert Entries(a)[i] == Entries(b)[i];
    }
  }

  /** Codes renumbered early are overwritten again by a later renumbering. */
  lemma RenumberAppend(a: seq<Note>, b: seq<Note>)
    ensures Renumber(Renumber(a) + b) == Renumber(a + b)
  {
    var l := Renumber(Renumber(a) + b);
    var r := Renumber(a + b);
    assert Entries(Renumber(a) + b) == Entries(a + b) by {
      var ra := Renumber(a);
      assert Entries(ra) == Entries(a);
      forall i | 0 <= i < |a| + |b|
        ensures Entries(ra + b)[i] == Entries(a + b)[i]
      {
        if i < |a| {
          assert Entries(ra)[i] == Entries(a)[i];
        }
      }
    }
    NumberedEntriesDetermine(l, r);
  }

  /**
   * The head-to-tail walk of `search` and of `delete_note` when it starts at the head:
   * the first position at or after `i` whose note carries `code`.
   */
  function ScanForward(s: seq<Note>, code: int, i: nat): (r: Option<nat>)
    requires i <= |s|
    decreases |s| - i
    ensures r.Some? ==> i <= r.value < |s| && s[r.value].code == code
    ensures r.Some? ==> forall j :: i <= j < r.value ==> s[j].code != code
    ensures r.None? ==> forall j :: i <= j < |s| ==> s[j].code != code
  {
    if i == |s| then None
    else if s[i].code == code then Some(i)
    else ScanForward(s, code, i + 1)
  }

  /**
   * The tail-to-head walk of `delete_note` along the `prior_ref` links: the last position
   * before `n` whose note carries `code`.
   */
  function ScanBackward(s: seq<Note>, code: int, n: nat): (r: Option<nat>)
    requires n <= |s|
    decreases n
    ensures r.Some? ==> r.value < n && s[r.value].code == code
    ensures r.Some? ==> forall j :: r.value < j < n ==> s[j].code != code
    ensures r.None? ==> forall j :: 0 <= j < n ==> s[j].code != code
  {
    if n == 0 then None
    else if s[n - 1].code == code then Some(n - 1)
    else ScanBackward(s, code, n - 1)
  }

  /**
   * Whichever end the walk starts from, it stops at the same note when no two notes
   * share a code, as renumbering guarantees.
   */
  lemma ScanEndsAgree(s: seq<Note>, code: int)
    requires DistinctCodes(s)
    ensures ScanForward(s, code, 0) == ScanBackward(s, code, |s|)
  {
  }

  /** `LinkedList::search`: the first note, head to tail, that carries `code`. */
  function Search(s: seq<Note>, code: int): (r: Option<Note>)
    ensures r.None? <==> !HasCode(s, code)
    ensures r.Some? ==> exists i :: 0 <= i < |s| && s[i] == r.value && s[i].code == code
                                    && forall j :: 0 <= j < i ==> s[j].code != code
  {
    match ScanForward(s, code, 0)
    case Some(i) => Some(s[i])
    case None => None
  }

  /** On a numbered list, `search(k)` finds the `k`-th note exactly when `k` is a valid code. */
  lemma SearchNumbered(s: seq<Note>, code: int)
    requires Numbered(s)
    ensures Search(s, code) == if 1 <= code <= |s| then Some(s[code - 1]) else None
  {
    NumberedDistinct(s);
  }

  /**
   * `LinkedList::push_node`: link the note after the tail, count it, renumber. The new
   * note's entry comes last and no earlier entry changes.
   */
  function Push(s: seq<Note>, note: Note): (r: seq<Note>)
    ensures |r| == |s| + 1
    ensures Numbered(r)
    ensures Entries(r) == Entries(s) + [Entry(note)]
  {
    Renumber(s + [note])
  }

  /** On a numbered list, pushing keeps every note as it was and numbers the new one `|s| + 1`. */
  lemma PushNumbered(s: seq<Note>, note: Note)
    requires Numbered(s)
    ensures Push(s, note) == s + [note.(code := |s| + 1)]
  {
    var r := Push(s, note);
    var e := s + [note.(code := |s| + 1)];
    assert Entries(e) == Entries(s) + [Entry(note)];
    NumberedEntriesDetermine(r, e);
  }

  /**
   * `LinkedList::yieldCode`: `length + 1`. On a numbered list it is the least positive
   * code not in use, the one the next pushed note receives.
   */
  function YieldCode(s: seq<Note>): (r: int)
    ensures r >= 1
    ensures Numbered(s) ==> !HasCode(s, r)
    ensures Numbered(s) ==> forall i :: 0 <= i < |s| ==> s[i].code < r
  {
    |s| + 1
  }

  /** On a numbered list every positive code below `yieldCode()` is in use. */
  lemma YieldCodeLeastUnused(s: seq<Note>)
    requires Numbered(s)
    ensures forall code :: 1 <= code < YieldCode(s) ==> HasCode(s, code)
  {
    NumberedDistinct(s);
  }

  /** `LinkedList::fetchCodes`: the decimal text of every code, head to tail. */
  function FetchCodes(s: seq<Note>): (r: seq<string>)
    ensures |r| == |s|
    ensures forall i :: 0 <= i < |s| ==> r[i] == IntToString(s[i].code)
  {
    seq(|s|, i requires 0 <= i < |s| => IntToString(s[i].code))
  }

  /**
   * Every text `fetchCodes` offers reads back through `safe_stoi` as a code that
   * `search` finds: the `i`-th text names the `i`-th note. A list of `INT_MAX`
   * notes or more would offer the sentinel's text, hence the bound.
   */
  lemma FetchedCodesFindTheirNotes(s: seq<Note>, i: int)
    requires Numbered(s) && |s| < IntMax
    requires 0 <= i < |s|
    ensures SafeStoi(FetchCodes(s)[i]) == i + 1
    ensures Search(s, SafeStoi(FetchCodes(s)[i])) == Some(s[i])
  {
    SafeStoiOfIntToString(i + 1);
    SearchNumbered(s, i + 1);
  }

  function RemoveAt(s: seq<Note>, i: nat): (r: seq<Note>)
    requires i < |s|
    ensures |r| == |s| - 1
    ensures forall j :: 0 <= j < i ==> r[j] == s[j]
    ensures forall j :: i <= j < |r| ==> r[j] == s[j + 1]
  {
    s[..i] + s[i + 1..]
  }

  /**
   * The start `delete_note` picks: the head when the target's `closest` end is the head's
   * code. Comparing the value means that when head and tail carry the same code the
   * walk starts at the head.
   */
  predicate StartsAtHead(s: seq<Note>, code: int)
    requires |s| > 0
    ensures StartsAtHead(s, code) <==> Abs(code - s[0].code) <= Abs(code - s[|s| - 1].code)
  {
    Closest(code, s[0].code, s[|s| - 1].code) == s[0].code
  }

  /** The directional walk of `delete_note`: the position of the node it stops at, if any. */
  function Locate(s: seq<Note>, code: int): (r: Option<nat>)
    ensures r.Some? ==> r.value < |s| && s[r.value].code == code
    ensures r.None? <==> !HasCode(s, code)
  {
    if |s| == 0 then None
    else if StartsAtHead(s, code) then ScanForward(s, code, 0)
    else ScanBackward(s, code, |s|)
  }

  /**
   * `LinkedList::delete_note`. An empty list is returned untouched. Otherwise the node
   * the directional walk finds is unlinked and the list renumbered; when the walk
   * finds nothing the list is still renumbered.
   */
  function DeleteNote(s: seq<Note>, code: int): (r: seq<Note>)
    ensures Numbered(r)
    ensures HasCode(s, code) ==> exists i :: 0 <= i < |s| && s[i].code == code
                                   && Entries(r) == Entries(RemoveAt(s, i))
    ensures HasCode(s, code) ==> |r| == |s| - 1
    ensures !HasCode(s, code) ==> Entries(r) == Entries(s)
  {
    if |s| == 0 then s
    else
      match Locate(s, code)
      case Some(i) => Renumber(RemoveAt(s, i))
      case None => Renumber(s)
  }

  /**
   * Deleting a valid code from a numbered list removes exactly the note at that
   * position, whichever end the walk starts from: both walks reach it, and every
   * other note keeps its entry and relative order.
   */
  lemma DeleteExisting(s: seq<Note>, code: int)
    requires Numbered(s)
    requires 1 <= code <= |s|
    ensures ScanForward(s, code, 0) == ScanBackward(s, code, |s|) == Some(code - 1)
    ensures DeleteNote(s, code) == Renumber(RemoveAt(s, code - 1))
    ensures Entries(DeleteNote(s, code)) == Entries(RemoveAt(s, code - 1))
  {
    NumberedDistinct(s);
    ScanEndsAgree(s, code);
    assert s[code - 1].code == code;
  }

  /** Deleting a code no note carries leaves a numbered list exactly as it was. */
  lemma DeleteAbsent(s: seq<Note>, code: int)
    requires Numbered(s)
    requires !HasCode(s, code)
    ensures DeleteNote(s, code) == s
  {
    if |s| > 0 {
      RenumberNumbered(s);
    }
  }

  /**
   * After deleting code `k`, the code `k` names the note that followed the deleted one,
   * or nothing when the deleted note was the tail.
   */
  lemma DeleteThenSearch(s: seq<Note>, k: int)
    requires Numbered(s)
    requires 1 <= k <= |s|
    ensures Search(DeleteNote(s, k), k) == if k < |s| then Some(s[k].(code := k)) else None
  {
    DeleteExisting(s, k);
    var r := DeleteNote(s, k);
    SearchNumbered(r, k);
    if k < |s| {
      assert Entries(r)[k - 1] == Entries(RemoveAt(s, k - 1))[k - 1];
    }
  }

  /**
   * On a numbered list the walk starts at the head exactly when the target lies in
   * the lower half of `1..|s|`, so it never passes more than half the list.
   */
  lemma StartsAtHeadOnNumbered(s: seq<Note>, code: int)
    requires Numbered(s) && |s| > 0
    ensures StartsAtHead(s, code) <==> |s| == 1 || 2 * code <= |s| + 1
  {
    ClosestOnDenseCodes(code, |s|);
  }

  /**
   * `prompt_create_note`: the new note gets `yieldCode()` and is pushed; the code the
   * shell reports is the position the note ends up at.
   */
  function CreateNote(s: seq<Note>, title: string, description: string): (r: (seq<Note>, int))
    ensures Numbered(r.0)
    ensures r.1 == |r.0| == |s| + 1
    ensures Entries(r.0) == Entries(s) + [(title, description)]
  {
    var code := YieldCode(s);
    (Push(s, Note(code, title, description)), code)
  }

  /** On a numbered list the created note is appended as it is, under the code reported. */
  lemma CreateNoteNumbered(s: seq<Note>, title: string, description: string)
    requires Numbered(s)
    ensures CreateNote(s, title, description).0 == s + [Note(|s| + 1, title, description)]
    ensures CreateNote(s, title, description).1 == |s| + 1
  {
    PushNumbered(s, Note(|s| + 1, title, description));
  }

  /**
   * `prompt_delete_note` once the code is parsed: delete only when `search` finds the
   * code, and report whether it did. The list is untouched when nothing is found.
   */
  function RemoveNote(s: seq<Note>, code: int): (r: (seq<Note>, bool))
    ensures r.1 <==> HasCode(s, code)
    ensures !r.1 ==> r.0 == s
    ensures r.1 ==> |r.0| == |s| - 1 && Numbered(r.0)
    ensures r.1 ==> exists i :: 0 <= i < |s| && s[i].code == code
                                && Entries(r.0) == Entries(RemoveAt(s, i))
  {
    if Search(s, code).Some? then (DeleteNote(s, code), true) else (s, false)
  }

  /**
   * On a numbered list, a reported deletion of code `k` removed exactly the `k`-th
   * note and renumbered the rest.
   */
  lemma RemoveNoteNumbered(s: seq<Note>, code: int)
    requires Numbered(s)
    ensures RemoveNote(s, code).1 <==> 1 <= code <= |s|
    ensures RemoveNote(s, code).1 ==> RemoveNote(s, code).0 == Renumber(RemoveAt(s, code - 1))
  {
    NumberedDistinct(s);
    if 1 <= code <= |s| {
      DeleteExisting(s, code);
    }
  }

  /** A structural change the shell can make. */
  datatype Op = Create(title: string, description: string) | Remove(code: int)

  function Apply(s: seq<Note>, op: Op): seq<Note> {
    match op
    case Create(t, d) => CreateNote(s, t, d).0
    case Remove(c) => RemoveNote(s, c).0
  }

  function ApplyAll(s: seq<Note>, ops: seq<Op>): seq<Note>
    decreases |ops|
  {
    if |ops| == 0 then s else ApplyAll(Apply(s, ops[0]), ops[1..])
  }

  /** The renumbering invariant survives any sequence of creations and removals. */
  lemma {:induction false} OperationsKeepNumbering(s: seq<Note>, ops: seq<Op>)
    requires Numbered(s)
    ensures Numbered(ApplyAll(s, ops))
    decreases |ops|
  {
    if |ops| > 0 {
      OperationsKeepNumbering(Apply(s, ops[0]), ops[1..]);
    }
  }
}
