/** The Luhn checksum behind the credit-card detector (Annex B of ISO/IEC 7812-1). */
module Luhn {
  type Digit = d: nat | d < 10

  /** What one digit adds to the total: every second digit from the right is doubled, less 9 above 9. */
  function Contribution(d: Digit, doubled: bool): nat {
    if !doubled then d else if 2 * d > 9 then 2 * d - 9 else 2 * d
  }

  function Total(digits: seq<Digit>): nat {
    if digits == [] then 0 else Contribution(digits[0], |digits| % 2 == 0) + Total(digits[1..])
  }

  predicate Valid(digits: seq<Digit>) {
    Total(digits) % 10 == 0
  }

  /** Positions count from the right: a zero in front changes nothing. */
  lemma LeadingZero(digits: seq<Digit>)
    ensures Total([0] + digits) == Total(digits)
  {
    assert ([0] + digits)[1..] == digits;
  }

  /** The last digit counts as it is, the one before it doubled. */
  lemma TwoDigits(tens: Digit, units: Digit)
    ensures Total([tens, units]) == units + (if tens < 5 then 2 * tens else 2 * tens - 9)
  {
    var both: seq<Digit> := [tens, units];
    assert both[1..] == [units] && both[1..][1..] == [];
    assert Total(both[1..]) == Contribution(units, false) + Total([]);
  }

  /** _luhn_valid: the loop over the reversed digits. */
  method LuhnValid(digits: seq<Digit>) returns (ok: bool)
    ensures ok == Valid(digits)
  {
    var total, n := 0, |digits|;
    for i := 0 to n
      invariant total == Total(digits[n - i..])
    {
      var d: nat := digits[n - 1 - i];
      if i % 2 == 1 {
        d := 2 * d;
        if d > 9 {
          d := d - 9;
        }
      }
      total := total + d;
      assert digits[n - 1 - i..][1..] == digits[n - i..];
    }
    ok := total % 10 == 0;
  }

  lemma {:induction false} TotalAfterSubstitution(digits: seq<Digit>, k: nat, d: Digit)
    requires k < |digits|
    ensures var doubled := (|digits| - k) % 2 == 0;
            Total(digits[k := d]) - Total(digits) == Contribution(d, doubled) - Contribution(digits[k], doubled)
  {
    if k == 0 {
      assert digits[0 := d][1..] == digits[1..];
    } else {
      assert digits[k := d][1..] == digits[1..][k - 1 := d];
      TotalAfterSubstitution(digits[1..], k - 1, d);
    }
  }

  lemma NearMultiple(total: nat, gap: int)
    requires total % 10 == 0 && -10 < gap < 10 && total + gap >= 0
    ensures (total + gap) % 10 == 0 <==> gap == 0
  {
  }

  /** Every single-digit substitution in a valid string, of any length, is detected. */
  lemma SubstitutionDetected(digits: seq<Digit>, k: nat, d: Digit)
    requires k < |digits| && Valid(digits)
    ensures Valid(digits[k := d]) <==> d == digits[k]
  {
    TotalAfterSubstitution(digits, k, d);
    NearMultiple(Total(digits), Total(digits[k := d]) - Total(digits));
  }

  function Transpose(digits: seq<Digit>, k: nat): seq<Digit>
    requires k + 1 < |digits|
  {
    digits[k := digits[k + 1]][k + 1 := digits[k]]
  }

  /** An adjacent transposition of a valid string goes unnoticed exactly for equal digits and for 0 with 9. */
  lemma TranspositionDetected(digits: seq<Digit>, k: nat)
    requires k + 1 < |digits| && Valid(digits)
    ensures var a, b := digits[k], digits[k + 1];
            Valid(Transpose(digits, k)) <==> a == b || (a == 0 && b == 9) || (a == 9 && b == 0)
  {
    hide Total, Contribution;
    var gap := TransposeGap(digits, k);
    NearMultiple(Total(digits), gap);
  }

  /** What an adjacent transposition adds to the total. */
  lemma TransposeGap(digits: seq<Digit>, k: nat) returns (gap: int)
    requires k + 1 < |digits|
    ensures Total(Transpose(digits, k)) == Total(digits) + gap && -10 < gap < 10
    ensures var a, b := digits[k], digits[k + 1];
            gap == 0 <==> a == b || (a == 0 && b == 9) || (a == 9 && b == 0)
  {
    hide Total;
    var a, b := digits[k], digits[k + 1];
    TotalAfterSubstitution(digits, k, b);
    TotalAfterSubstitution(digits[k := b], k + 1, a);
    assert (|digits| - (k + 1)) % 2 == 0 <==> (|digits| - k) % 2 != 0;
    SwapContribution(a, b);
    SwapContribution(b, a);
    gap := Total(Transpose(digits, k)) - Total(digits);
  }

  lemma SwapContribution(a: Digit, b: Digit)
    ensures var gap := Contribution(b, true) - Contribution(a, true) + a - b;
            -10 < gap < 10 && (gap == 0 <==> a == b || (a == 0 && b == 9) || (a == 9 && b == 0))
  {
  }

  // ----- the candidate loop -----

  /** A candidate's digits, without its separators. */
  function DigitsOf(candidate: string): seq<Digit> {
    if candidate == [] then [] else DigitOf(candidate[0]) + DigitsOf(candidate[1..])
  }

  function DigitOf(c: char): seq<Digit> {
    if '0' <= c <= '9' then [c as int - '0' as int] else []
  }

  lemma {:induction false} DigitsAppend(x: string, y: string)
    ensures DigitsOf(x + y) == DigitsOf(x) + DigitsOf(y)
  {
    hide DigitOf;
    if x == [] {
      assert x + y == y;
      assert DigitsOf(x) + DigitsOf(y) == DigitsOf(y);
    } else {
      assert (x + y)[0] == x[0] && (x + y)[1..] == x[1..] + y;
      DigitsAppend(x[1..], y);
      assert DigitOf(x[0]) + (DigitsOf(x[1..]) + DigitsOf(y)) == (DigitOf(x[0]) + DigitsOf(x[1..])) + DigitsOf(y);
    }
  }

  /** The digits keep their order and their values; separators count for nothing. */
  lemma DigitsRead(front: string, c: char)
    ensures DigitsOf(front + [c]) == DigitsOf(front) + (if 48 <= c as int < 58 then [c as int - 48] else [])
  {
    DigitsAppend(front, [c]);
    OneDigit(c);
  }

  lemma OneDigit(c: char)
    ensures DigitsOf([c]) == if 48 <= c as int < 58 then [c as int - 48] else []
  {
    assert [c][1..] == [];
    assert DigitOf(c) + [] == DigitOf(c);
  }

  /** An issuer's first digit, a card's length, and a passing checksum. */
  predicate IsCard(digits: seq<Digit>) {
    digits != [] && 2 <= digits[0] <= 6 && 13 <= |digits| <= 19 && Valid(digits)
  }

  /** PiiScorer's card scan: some regex candidate is a card number. */
  method CardFound(candidates: seq<string>) returns (found: bool)
    ensures found <==> exists i :: 0 <= i < |candidates| && IsCard(DigitsOf(candidates[i]))
  {
    found := false;
    for i := 0 to |candidates|
      invariant !found
      invariant forall k :: 0 <= k < i ==> !IsCard(DigitsOf(candidates[k]))
    {
      var digits := DigitsOf(candidates[i]);
      if digits == [] || digits[0] < 2 || digits[0] > 6 {
        continue;
      }
      if 13 <= |digits| <= 19 {
        var ok := LuhnValid(digits);
        if ok {
          found := true;
          break;
        }
      }
    }
  }
}
