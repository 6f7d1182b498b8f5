/** Texts with a final zero in fields of fixed size, as snprintf and strncmp treat them, and numbers as
    bytes, as records in flash hold them. */
module Fields {
  import opened Crc
  import opened Slots
  import opened Words

  /** Characters before a final zero that fit a field of the given size with it. */
  predicate IsText(s: seq<byte>, size: nat) {
    |s| < size && forall c :: c in s ==> c != 0
  }

  /** The text in a field: up to its first zero, or all of it. */
  function Text(field: seq<byte>): (s: seq<byte>)
    ensures |s| <= |field| && s == field[..|s|]
    ensures forall c :: c in s ==> c != 0
    ensures |s| < |field| ==> field[|s|] == 0
  {
    if field == [] || field[0] == 0 then [] else [field[0]] + Text(field[1..])
  }

  /** A text printed over a field, which keeps its bytes behind the final zero. */
  function Printed(text: seq<byte>, field: seq<byte>): (r: seq<byte>)
    requires |text| < |field|
    ensures |r| == |field|
  {
    text + [0] + field[|text| + 1..]
  }

  lemma {:induction false} TextOf(text: seq<byte>, rest: seq<byte>)
    requires forall c :: c in text ==> c != 0
    ensures Text(text + [0] + rest) == text
  {
    if text == [] {
      assert text + [0] + rest == [0] + rest;
    } else {
      assert text[0] in text && forall c :: c in text[1..] ==> c in text;
      assert (text + [0] + rest)[1..] == text[1..] + [0] + rest;
      TextOf(text[1..], rest);
    }
  }

  lemma PrintRoundTrip(text: seq<byte>, field: seq<byte>)
    requires IsText(text, |field|)
    ensures Text(Printed(text, field)) == text && Printed(text, field) != Erased(|field|)
  {
    TextOf(text, field[|text| + 1..]);
    assert Printed(text, field)[|text|] == 0;
  }

  /** A field without a zero is all text, and too long for one. */
  lemma {:induction false} NoZeroText(field: seq<byte>)
    requires forall c :: c in field ==> c != 0
    ensures Text(field) == field
  {
    if field != [] {
      assert field[0] in field && forall c :: c in field[1..] ==> c in field;
      NoZeroText(field[1..]);
    }
  }
}
