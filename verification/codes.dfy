/** Attendance codes: `generate_attendance_code` draws `length` characters
    (6 by default) from the upper-case ASCII letters followed by the digits.
    The random draw is a parameter: `picks` holds the positions chosen in
    the alphabet. */
module Codes {

  const UppercaseLetters := "ABCDEFGHIJKLMNOPQRSTUVWXYZ"
  const Digits := "0123456789"
  const Alphabet := UppercaseLetters + Digits
  const DefaultCodeLength := 6

  /** The characters an attendance code may contain. */
  predicate IsCodeChar(c: char) {
    'A' <= c <= 'Z' || '0' <= c <= '9'
  }

  /** A well-formed attendance code of the given length. */
  predicate IsAttendanceCode(code: string, length: nat) {
    |code| == length && forall k :: 0 <= k < |code| ==> IsCodeChar(code[k])
  }

  lemma AlphabetAt(i: nat)
    requires i < |Alphabet|
    ensures |Alphabet| == 36
    ensures i < 26 ==> Alphabet[i] == ('A' as int + i) as char
    ensures 26 <= i ==> Alphabet[i] == ('0' as int + (i - 26)) as char
  {
    assert UppercaseLetters == seq(26, k requires 0 <= k < 26 => ('A' as int + k) as char);
    assert Digits == seq(10, k requires 0 <= k < 10 => ('0' as int + k) as char);
    if i < 26 {
      assert Alphabet[i] == UppercaseLetters[i];
    } else {
      assert Alphabet[i] == Digits[i - 26];
    }
  }

  /** `''.join(random.choices(characters, k=length))`, where the k-th draw
      picks position `picks[k]` (taken modulo the alphabet's size). */
  function GenerateAttendanceCode(picks: seq<nat>): (code: string)
    ensures IsAttendanceCode(code, |picks|)
    ensures forall k :: 0 <= k < |picks| ==> code[k] in Alphabet
  {
    var code := seq(|picks|, k requires 0 <= k < |picks| => Alphabet[picks[k] % |Alphabet|]);
    assert forall k :: 0 <= k < |picks| ==> IsCodeChar(code[k]) by {
      forall k | 0 <= k < |picks|
        ensures IsCodeChar(code[k])
      {
        AlphabetAt(picks[k] % |Alphabet|);
      }
    }
    code
  }

  /** The position of a code character in the alphabet. */
  function PickOf(c: char): (i: nat)
    requires IsCodeChar(c)
    ensures i < |Alphabet| && Alphabet[i] == c
  {
    AlphabetAt(0);
    var i := if 'A' <= c <= 'Z' then c as int - 'A' as int else 26 + (c as int - '0' as int);
    AlphabetAt(i);
    i
  }

  /** Every well-formed code of a given length is a possible outcome of the
      generator: no code is unreachable. */
  lemma {:induction false} EveryCodeIsGenerated(code: string, length: nat)
    requires IsAttendanceCode(code, length)
    ensures GenerateAttendanceCode(seq(|code|, k requires 0 <= k < |code| => PickOf(code[k]))) == code
  {
    var picks := seq(|code|, k requires 0 <= k < |code| => PickOf(code[k]));
    var generated := GenerateAttendanceCode(picks);
    forall k | 0 <= k < |code|
      ensures generated[k] == code[k]
    {
      AlphabetAt(0);
      assert picks[k] % |Alphabet| == picks[k];
    }
  }
}
