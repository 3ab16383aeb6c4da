/** The Luhn check of `zilli/security/pii.py`. */
module Luhn {
  import opened Common

  predicate AreDigits(d: seq<nat>) {
    forall k :: 0 <= k < |d| ==> d[k] < 10
  }

  function Doubled(n: nat): nat {
    if 2 * n > 9 then 2 * n - 9 else 2 * n
  }

  /** A digit's share, given its place counted from the right. */
  function Share(n: nat, place: nat): nat
    requires n < 10
  {
    if place % 2 == 1 then Doubled(n) else n
  }

  function LuhnSum(d: seq<nat>): nat
    requires AreDigits(d)
  {
    if d == [] then 0 else Share(d[0], |d| - 1) + LuhnSum(d[1..])
  }

  predicate Accepted(d: seq<nat>)
    requires AreDigits(d)
  {
    13 <= |d| <= 16 && LuhnSum(d) % 10 == 0
  }

  /** How a character counts: not at all, as a decimal digit of some script, or as a digit, such
      as a superscript, that has no integer value and raises. */
  datatype CharKind = NoDigit | Decimal(value: nat) | NoInteger

  ghost predicate IsReading(kind: char -> CharKind) {
    forall c :: kind(c).Decimal? ==> kind(c).value < 10
  }

  function DigitsOf(text: string, kind: char -> CharKind): seq<nat> {
    if text == [] then [] else
      (if kind(text[0]).Decimal? then [kind(text[0]).value] else []) + DigitsOf(text[1..], kind)
  }

  lemma {:induction false} DigitsAreDigits(text: string, kind: char -> CharKind)
    requires IsReading(kind)
    ensures AreDigits(DigitsOf(text, kind))
  {
    if text != [] { DigitsAreDigits(text[1..], kind); }
  }

  /** The digits in their order, and nothing else. */
  lemma {:induction false} DigitsSnoc(text: string, c: char, kind: char -> CharKind)
    ensures DigitsOf("", kind) == []
    ensures DigitsOf(text + [c], kind)
         == DigitsOf(text, kind) + match kind(c) { case Decimal(value) => [value] case _ => [] }
  {
    if text == "" {
      assert text + [c] == [c];
    } else {
      assert (text + [c])[1..] == text[1..] + [c];
      DigitsSnoc(text[1..], c, kind);
      DigitsFirst(text, kind);
      DigitsFirst(text + [c], kind);
    }
  }

  lemma DigitsFirst(text: string, kind: char -> CharKind)
    requires text != ""
    ensures DigitsOf(text, kind)
         == (if kind(text[0]).Decimal? then [kind(text[0]).value] else []) + DigitsOf(text[1..], kind)
  {
  }

  method ExtractDigits(text: string, kind: char -> CharKind) returns (r: Option<seq<nat>>)
    ensures r.None? <==> exists k :: 0 <= k < |text| && kind(text[k]) == NoInteger
    ensures r.Some? ==> r.value == DigitsOf(text, kind)
  {
    var d := [];
    for i := 0 to |text|
      invariant d + DigitsOf(text[i..], kind) == DigitsOf(text, kind)
      invariant forall k :: 0 <= k < i ==> kind(text[k]) != NoInteger
    {
      assert text[i..] == [text[i]] + text[i + 1..];
      match kind(text[i])
      case NoInteger => return None;
      case Decimal(value) => d := d + [value];
      case NoDigit =>
    }
    assert text[|text|..] == [];
    r := Some(d);
  }

  method LuhnCheck(text: string, kind: char -> CharKind) returns (r: Option<bool>)
    requires IsReading(kind)
    ensures r.None? <==> exists k :: 0 <= k < |text| && kind(text[k]) == NoInteger
    ensures AreDigits(DigitsOf(text, kind))
    ensures r.Some? ==> var d := DigitsOf(text, kind);
                        (r.value <==> Accepted(d)) && (r.value <==> 13 <= |d| <= 16 && LuhnSum(d) % 10 == 0)
  {
    DigitsAreDigits(text, kind);
    var digits := ExtractDigits(text, kind);
    if digits == None { return None; }
    var nums := digits.value;
    if |nums| < 13 || |nums| > 16 { return Some(false); }
    var checksum := Checksum(nums);
    return Some(checksum % 10 == 0);
  }

  method Checksum(nums: seq<nat>) returns (checksum: nat)
    requires AreDigits(nums)
    ensures checksum == LuhnSum(nums)
  {
    checksum := 0;
    for i := 0 to |nums|
      invariant checksum == LuhnSum(nums[|nums| - i..])
    {
      SumFrom(nums, i);
      var n := nums[|nums| - 1 - i];
      if i % 2 == 1 {
        n := n * 2;
        if n > 9 { n := n - 9; }
      }
      checksum := checksum + n;
    }
    assert nums[0..] == nums;
  }

  lemma SumFrom(nums: seq<nat>, i: nat)
    requires AreDigits(nums) && i < |nums|
    ensures LuhnSum(nums[|nums| - 1 - i..]) == Share(nums[|nums| - 1 - i], i) + LuhnSum(nums[|nums| - i..])
  {
    assert nums[|nums| - 1 - i..][1..] == nums[|nums| - i..];
  }

  // ----- what the sum is -----

  /** Replacing one digit changes the sum by the difference of the two shares. */
  lemma {:induction false} ReplaceOne(d: seq<nat>, k: nat, b: nat)
    requires AreDigits(d) && k < |d| && b < 10
    ensures AreDigits(d[k := b])
    ensures LuhnSum(d[k := b]) + Share(d[k], |d| - 1 - k) == LuhnSum(d) + Share(b, |d| - 1 - k)
    decreases |d|
  {
    if k == 0 {
      assert d[0 := b][1..] == d[1..];
    } else {
      ReplaceOne(d[1..], k - 1, b);
      assert d[k := b][1..] == d[1..][k - 1 := b];
    }
  }

  function Zeros(n: nat): (d: seq<nat>)
    ensures AreDigits(d) && d == seq(n, _ => 0)
  {
    seq(n, _ => 0)
  }

  /** Zeros sum to zero. */
  lemma {:induction false} ZerosSum(n: nat)
    ensures LuhnSum(Zeros(n)) == 0
  {
    if n > 0 {
      assert Zeros(n)[1..] == Zeros(n - 1);
      ZerosSum(n - 1);
    }
  }

  /** A digit put in place of a zero adds itself at the rightmost place and at every second one
      from there; at the places between it adds its double, less nine if that has two digits. */
  lemma PlaceAdds(d: seq<nat>, k: nat, b: nat)
    requires AreDigits(d) && k < |d| && d[k] == 0 && b < 10
    ensures AreDigits(d[k := b])
    ensures LuhnSum(d[k := b])
         == LuhnSum(d) + if (|d| - 1 - k) % 2 == 0 then b else if b > 4 then 2 * b - 9 else 2 * b
  {
    ReplaceOne(d, k, b);
  }

  /** Every payload of 12 to 15 digits has exactly one check digit. */
  lemma CheckDigit(p: seq<nat>, c: nat, sum: nat)
    requires AreDigits(p) && 12 <= |p| <= 15 && c < 10 && AreDigits(p + [0]) && sum == LuhnSum(p + [0])
    ensures AreDigits(p + [c]) && (Accepted(p + [c]) <==> c == (10 - sum % 10) % 10)
  {
    LastAdds(p, c);
    OnlyDigit(sum, c);
  }

  lemma LastAdds(p: seq<nat>, c: nat)
    requires AreDigits(p) && c < 10
    ensures AreDigits(p + [0]) && AreDigits(p + [c]) && LuhnSum(p + [c]) == LuhnSum(p + [0]) + c
  {
    PlaceAdds(p + [0], |p|, c);
    assert (p + [0])[|p| := c] == p + [c];
  }

  lemma OnlyDigit(sum: nat, c: nat)
    requires c < 10
    ensures (sum + c) % 10 == 0 <==> c == (10 - sum % 10) % 10
  {
  }

  // ----- what the check detects, at any length -----

  /** One wrong digit always changes the sum modulo 10. */
  lemma SingleErrorSum(d: seq<nat>, k: nat, b: nat)
    requires AreDigits(d) && k < |d| && b < 10 && b != d[k]
    ensures AreDigits(d[k := b]) && LuhnSum(d[k := b]) % 10 != LuhnSum(d) % 10
  {
    ReplaceOne(d, k, b);
    var place := |d| - 1 - k;
    var gain := Share(b, place) - Share(d[k], place);
    assert -10 < gain < 10 && gain != 0;
    ShiftModTen(LuhnSum(d), LuhnSum(d[k := b]), gain);
  }

  lemma ShiftModTen(x: int, y: int, gain: int)
    requires y == x + gain
    ensures y % 10 == x % 10 <==> gain % 10 == 0
  {
  }

  function Swapped(d: seq<nat>, k: nat): seq<nat>
    requires k + 1 < |d|
  {
    d[k := d[k + 1]][k + 1 := d[k]]
  }

  /** Swapping neighbours goes unnoticed exactly for equal digits and for 0 next to 9. */
  lemma SwapSum(d: seq<nat>, k: nat)
    requires AreDigits(d) && k + 1 < |d|
    ensures AreDigits(Swapped(d, k))
    ensures LuhnSum(Swapped(d, k)) % 10 == LuhnSum(d) % 10 <==> Twins(d[k], d[k + 1])
  {
    var gain := SwapDifference(d, k);
    var before, after := LuhnSum(d), LuhnSum(Swapped(d, k));
    ShiftModTen(before, after, gain);
  }

  lemma SwapDifference(d: seq<nat>, k: nat) returns (gain: int)
    requires AreDigits(d) && k + 1 < |d|
    ensures AreDigits(Swapped(d, k)) && LuhnSum(Swapped(d, k)) == LuhnSum(d) + gain
    ensures gain % 10 == 0 <==> Twins(d[k], d[k + 1])
  {
    gain := Gain(d[k], d[k + 1], |d| - 1 - k);
    SwapGain(d, k);
    Crossing(d[k], d[k + 1], |d| - 1 - k);
  }

  /** Neighbours the check cannot tell from their swap. */
  predicate Twins(a: nat, b: nat) {
    a == b || (a == 0 && b == 9) || (a == 9 && b == 0)
  }

  /** What swapping neighbours a and b adds to the sum, a being at `place` from the right. */
  function Gain(a: nat, b: nat, place: nat): int
    requires a < 10 && b < 10 && place >= 1
  {
    (Share(b, place) - Share(a, place)) + (Share(a, place - 1) - Share(b, place - 1))
  }

  lemma FirstTwo(d: seq<nat>)
    requires AreDigits(d) && |d| >= 2
    ensures LuhnSum(d) == Share(d[0], |d| - 1) + Share(d[1], |d| - 2) + LuhnSum(d[2..])
  {
    assert d[1..][1..] == d[2..];
  }

  lemma SwapFirst(d: seq<nat>)
    requires AreDigits(d) && |d| >= 2
    ensures AreDigits(Swapped(d, 0)) && LuhnSum(Swapped(d, 0)) == LuhnSum(d) + Gain(d[0], d[1], |d| - 1)
  {
    var e := Swapped(d, 0);
    assert e[0] == d[1] && e[1] == d[0] && e[2..] == d[2..] && |e| == |d|;
    FirstTwo(d);
    FirstTwo(e);
  }

  lemma {:induction false} SwapGain(d: seq<nat>, k: nat)
    requires AreDigits(d) && k + 1 < |d|
    ensures AreDigits(Swapped(d, k)) && LuhnSum(Swapped(d, k)) == LuhnSum(d) + Gain(d[k], d[k + 1], |d| - 1 - k)
    decreases |d|
  {
    if k == 0 {
      SwapFirst(d);
    } else {
      SwapGain(d[1..], k - 1);
      assert Swapped(d, k)[1..] == Swapped(d[1..], k - 1);
    }
  }

  lemma Crossing(a: nat, b: nat, place: nat)
    requires a < 10 && b < 10 && place >= 1
    ensures Gain(a, b, place) % 10 == 0 <==> Twins(a, b)
  {
    var da, db := Doubled(a) - a, Doubled(b) - b;
    assert da == if a > 4 then a - 9 else a;
    assert db == if b > 4 then b - 9 else b;
  }

  /** The check never accepts two numbers that differ in one digit, or by swapping two
      neighbours other than a 0 and a 9. */
  lemma DetectsErrors(d: seq<nat>, k: nat, b: nat)
    requires AreDigits(d) && Accepted(d) && k < |d| && b < 10
    ensures b != d[k] ==> AreDigits(d[k := b]) && !Accepted(d[k := b])
    ensures k + 1 < |d| ==> AreDigits(Swapped(d, k))
    ensures k + 1 < |d| ==> (Accepted(Swapped(d, k)) <==> Twins(d[k], d[k + 1]))
  {
    if b != d[k] { SingleErrorSum(d, k, b); }
    if k + 1 < |d| { SwapSum(d, k); }
  }
}
