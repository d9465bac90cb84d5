/** The two pure helpers of the program's `utilities` namespace that the note list uses. */
module Utilities {
  import opened Wrappers
  import opened Decimal

  function Abs(x: int): nat {
    if x < 0 then -x else x
  }

  /**
   * `utilities::closest`: whichever of `min` and `max` lies nearer to `target`,
   * `min` on a tie. `delete_note` uses it to pick the end its scan starts from.
   */
  function Closest(target: int, min: int, max: int): (r: int)
    ensures r == min || r == max
    ensures Abs(target - r) <= Abs(target - min) && Abs(target - r) <= Abs(target - max)
    ensures Abs(target - min) == Abs(target - max) ==> r == min
  {
    if Abs(target - min) <= Abs(target - max) then min else max
  }

  /**
   * On the dense codes `1..n` of a renumbered list, `min` is chosen exactly when the
   * target lies in the lower half of the range (or the list holds one note, so
   * both ends are the same code).
   */
  lemma ClosestOnDenseCodes(target: int, n: int)
    requires n >= 1
    ensures Closest(target, 1, n) == 1 <==> n == 1 || 2 * target <= n + 1
  {
  }

  /**
   * `utilities::format`: the decimal text of `integer`, with '0' added in front until
   * it is at least `padding` characters long. It never truncates, and the padded text
   * of a non-negative value still reads as that value.
   */
  method Format(integer: int, padding: nat) returns (r: string)
    ensures |r| == if |IntToString(integer)| < padding then padding else |IntToString(integer)|
    ensures r[|r| - |IntToString(integer)|..] == IntToString(integer)
    ensures forall k :: 0 <= k < |r| - |IntToString(integer)| ==> r[k] == '0'
    ensures integer >= 0 ==> AllDigits(r) && DigitsValue(r) == integer
  {
    var digits := IntToString(integer);
    r := digits;
    while |r| < padding
      invariant |digits| <= |r|
      invariant |r| <= padding || r == digits
      invariant r[|r| - |digits|..] == digits
      invariant forall k :: 0 <= k < |r| - |digits| ==> r[k] == '0'
      decreases padding - |r|
    {
      r := ['0'] + r;
    }
    if integer >= 0 {
      var zeros := r[..|r| - |digits|];
      assert r == zeros + digits;
      NatToStringValue(integer);
      LeadingZerosValue(zeros, digits);
    }
  }

  /**
   * `utilities::safe_stoi`: the value `stoi` parses, or `INT_MAX` when `stoi` throws
   * (the messages it prints are not modelled). A caller cannot tell a failed parse
   * from the text "2147483647".
   */
  function SafeStoi(s: string): (r: int)
    ensures IsInt32(r)
    ensures r != IntMax ==> Stoi(s) == Success(r)
    ensures Stoi(s).Failure? ==> r == IntMax
    ensures Stoi(s).Success? ==> r == Stoi(s).value
  {
    match Stoi(s)
    case Success(v) => v
    case Failure(_) => IntMax
  }

  /** `safe_stoi` reads back every `int` from its own text; only the sentinel's text reads as `INT_MAX`. */
  lemma SafeStoiOfIntToString(i: int)
    requires IsInt32(i)
    ensures SafeStoi(IntToString(i)) == i
  {
    StoiOfIntToString(i);
  }

  /** The sentinel collision: the text of `INT_MAX` reads exactly like a failed parse. */
  lemma SentinelCollision()
    ensures Stoi(IntToString(IntMax)) == Success(IntMax)
    ensures Stoi("abc") == Failure(InvalidArgument)
    ensures SafeStoi(IntToString(IntMax)) == SafeStoi("abc") == IntMax
  {
    StoiOfIntToString(IntMax);
    NoLeadingSpace("abc");
    assert Unsigned("abc") == "abc";
    assert DigitRun("abc") == 0;
  }
}
