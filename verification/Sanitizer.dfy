/** Embedded/Sources/String_Sanitizer.c: names cut down to an alphabet every client accepts. */
module Sanitizer {
  import opened Words

  const UNDERSCORE: byte := 0x5F

  /** The characters a name may keep: letters, digits, dot, hyphen, underscore, colon and space. */
  predicate IsLegal(c: byte) {
    || 0x61 <= c <= 0x7A || 0x41 <= c <= 0x5A || 0x30 <= c <= 0x39
    || c == 0x2E || c == 0x2D || c == UNDERSCORE || c == 0x3A || c == 0x20
  }

  /** The alphabet as characters. */
  lemma LegalCharacters(c: byte)
    ensures var x := c as int as char;
            IsLegal(c) <==> 'a' <= x <= 'z' || 'A' <= x <= 'Z' || '0' <= x <= '9' || x in {'.', '-', '_', ':', ' '}
  {
    assert c as int as char as int == c as int;
  }

  /** The bytes of the character that begins with this one. */
  function Width(c: byte): (w: nat)
    ensures 1 <= w <= 4
  {
    if c & 0xE0 == 0xC0 then 2
    else if c & 0xF0 == 0xE0 then 3
    else if c & 0xF8 == 0xF0 then 4
    else 1
  }

  function Kept(c: byte): byte {
    if Width(c) == 1 && IsLegal(c) then c else UNDERSCORE
  }

  /** The bytes the first character of a text takes, fewer than its width where the text is cut off. */
  function Taken(text: seq<byte>): (n: nat)
    requires text != []
    ensures 1 <= n <= |text|
  {
    if Width(text[0]) <= |text| then Width(text[0]) else |text|
  }

  /** A text with one character for each of its characters. */
  function Clean(text: seq<byte>): (r: seq<byte>)
    ensures |r| <= |text|
  {
    if text == [] then [] else [Kept(text[0])] + Clean(text[Taken(text)..])
  }

  /** The text in a buffer: what stands before its first zero. */
  ghost predicate IsText(buffer: seq<byte>, n: nat) {
    n < |buffer| && buffer[n] == 0 && forall k :: 0 <= k < n ==> buffer[k] != 0
  }

  /** The characters that fit into a buffer of a given size beside the final zero. */
  function Room(size: nat): nat {
    if size == 0 then 0 else size - 1
  }

  function Fitting(text: seq<byte>, size: nat): (r: seq<byte>)
    ensures |r| <= Room(size)
  {
    if |text| <= Room(size) then text else text[..Room(size)]
  }

  /** All of a text that leaves room for the final zero, and otherwise as much of it as does. */
  lemma FitsExactly(text: seq<byte>, size: nat)
    ensures |text| < size ==> Fitting(text, size) == text
    ensures 0 < size <= |text| ==> Fitting(text, size) == text[..size - 1]
    ensures size == 0 ==> Fitting(text, size) == []
  {
  }

  /** One turn of the loop, at the first byte of a character: what to write, the bytes to step over, and
      what to count, which for a character that is cut off is nothing. */
  method OneCharacter(input: array<byte>, i: nat, ghost n: nat) returns (c: byte, step: nat, count: nat)
    requires IsText(input[..], n) && i < n
    ensures c == Kept(input[i]) && step == Taken(input[i..n])
    ensures count <= 1 && (count == 0 ==> i + step == n)
  {
    if input[i] & 0xE0 == 0xC0 {
      if input[i + 1] == 0 {
        return UNDERSCORE, 1, 0;
      }
      return UNDERSCORE, 2, 1;
    } else if input[i] & 0xF0 == 0xE0 {
      if input[i + 1] == 0 {
        return UNDERSCORE, 1, 0;
      } else if input[i + 2] == 0 {
        return UNDERSCORE, 2, 0;
      }
      return UNDERSCORE, 3, 1;
    } else if input[i] & 0xF8 == 0xF0 {
      if input[i + 1] == 0 {
        return UNDERSCORE, 1, 0;
      } else if input[i + 2] == 0 {
        return UNDERSCORE, 2, 0;
      } else if input[i + 3] == 0 {
        return UNDERSCORE, 3, 0;
      }
      return UNDERSCORE, 4, 1;
    }
    return if IsLegal(input[i]) then input[i] else UNDERSCORE, 1, 1;
  }

  /** The loop of SanitizeString: how many characters it has written. */
  method CleanInto(output: array<byte>, input: array<byte>, ghost n: nat, sizeofOutString: nat) returns (o: nat)
    requires IsText(input[..], n) && output != input
    requires output.Length >= 1 && output.Length >= sizeofOutString
    modifies output
    ensures o <= Room(sizeofOutString) < output.Length
    ensures output[..o] == Fitting(Clean(input[..n]), sizeofOutString)
    ensures forall k :: o <= k < output.Length ==> output[k] == old(output[k])
  {
    hide Width, IsLegal, Kept, Clean, Taken;
    o := 0;
    var i, outLength := 0, 0;
    ghost var text := input[..n];
    while input[i] != 0 && outLength + 1 < sizeofOutString
      invariant i <= n && outLength <= o <= Room(sizeofOutString)
      invariant o == outLength || (o == outLength + 1 && i == n)
      invariant output[..o] + Clean(input[i..n]) == Clean(text)
      invariant forall k :: o <= k < output.Length ==> output[k] == old(output[k])
      decreases n - i
    {
      var c, step, count := OneCharacter(input, i, n);
      CleanStep(input[i..n]);
      ghost var done := output[..o];
      output[o] := c;
      assert output[..o + 1] == done + [c];
      assert input[i..n][step..] == input[i + step..n];
      o, i, outLength := o + 1, i + step, outLength + count;
    }
    CleanNothing();
    CutHere(output[..o], Clean(input[i..n]), sizeofOutString);
  }

  /** SanitizeString */
  method SanitizeString(output: array<byte>, input: array<byte>, ghost n: nat, sizeofOutString: nat) returns (ghost length: nat)
    requires IsText(input[..], n) && output != input
    requires output.Length >= 1 && output.Length >= sizeofOutString
    modifies output
    ensures length <= Room(sizeofOutString) && IsText(output[..], length)
    ensures output[..length] == Fitting(Clean(input[..n]), sizeofOutString)
    ensures output[length + 1..] == old(output[length + 1..])
  {
    hide Clean;
    ghost var text := input[..n];
    var o := CleanInto(output, input, n, sizeofOutString);
    ghost var written := output[..o];
    CleanIsLegal(text);
    assert forall c :: c in written ==> c in Clean(text);
    output[o] := 0;
    length := o;
    assert output[..o] == written;
    forall k | 0 <= k < o
      ensures output[k] != 0
    {
      assert output[k] == written[k] && written[k] in written;
    }
  }

  /** A text is cut where it is complete or where it is as long as it may be. */
  lemma CutHere(done: seq<byte>, rest: seq<byte>, size: nat)
    requires |done| <= Room(size) && (rest == [] || |done| == Room(size))
    ensures Fitting(done + rest, size) == done
  {
    assert (done + rest)[..|done|] == done;
  }

  lemma CleanNothing()
    ensures Clean([]) == []
  {
  }

  lemma CleanStep(text: seq<byte>)
    requires text != []
    ensures Clean(text) == [Kept(text[0])] + Clean(text[Taken(text)..])
  {
  }

  // ---------- A normal form ----------

  /** Every character of a cleaned text is legal, and so none is zero or begins a longer one. */
  lemma {:induction false} CleanIsLegal(text: seq<byte>)
    ensures forall c :: c in Clean(text) ==> IsLegal(c) && c != 0
  {
    if text != [] {
      CleanIsLegal(text[Taken(text)..]);
      LegalIsShort(Kept(text[0]));
    }
  }

  lemma LegalIsShort(c: byte)
    requires IsLegal(c)
    ensures Width(c) == 1 && c != 0
  {
  }

  /** A text is left as it is exactly when all its characters are legal. */
  lemma {:induction false} CleanKeepsExactlyLegal(text: seq<byte>)
    ensures Clean(text) == text <==> forall c :: c in text ==> IsLegal(c)
  {
    hide Width, IsLegal, Kept;
    if forall c :: c in text ==> IsLegal(c) {
      LegalKept(text);
    }
    CleanIsLegal(text);
  }

  lemma {:induction false} LegalKept(text: seq<byte>)
    requires forall c :: c in text ==> IsLegal(c)
    ensures Clean(text) == text
  {
    hide IsLegal;
    if text != [] {
      assert text[0] in text && forall c :: c in text[1..] ==> c in text;
      LegalIsShort(text[0]);
      LegalKept(text[1..]);
    }
  }

  /** Sanitizing what was sanitized, with the same size, changes nothing. */
  lemma SanitizedTwice(text: seq<byte>, size: nat)
    ensures var once := Fitting(Clean(text), size);
            Fitting(Clean(once), size) == once && forall c :: c in once ==> IsLegal(c) && c != 0
  {
    hide IsLegal, Width, Kept;
    CleanIsLegal(text);
    var once := Fitting(Clean(text), size);
    assert forall c :: c in once ==> c in Clean(text);
    LegalKept(once);
  }

  // ---------- One character for each code point ----------

  type CodePoint = p: bv32 | 0 < p < 0x11_0000 witness 1

  function Low(p: bv32): byte {
    (p & 0xFF) as byte
  }

  /** The encoding of section 3 of RFC 3629. */
  function Utf8(p: CodePoint): (s: seq<byte>)
    ensures s != []
  {
    if p < 0x80 then [Low(p)]
    else if p < 0x800 then [0xC0 | Low(p >> 6), 0x80 | Low(p & 0x3F)]
    else if p < 0x1_0000 then [0xE0 | Low(p >> 12), 0x80 | Low((p >> 6) & 0x3F), 0x80 | Low(p & 0x3F)]
    else [0xF0 | Low(p >> 18), 0x80 | Low((p >> 12) & 0x3F), 0x80 | Low((p >> 6) & 0x3F), 0x80 | Low(p & 0x3F)]
  }

  function Encode(ps: seq<CodePoint>): seq<byte> {
    if ps == [] then [] else Utf8(ps[0]) + Encode(ps[1..])
  }

  /** What becomes of one code point. */
  function Shown(p: CodePoint): byte {
    if p < 0x80 && IsLegal(Low(p)) then Low(p) else UNDERSCORE
  }

  lemma Utf8Width(p: CodePoint)
    ensures var s := Utf8(p);
            Width(s[0]) == |s| && Kept(s[0]) == Shown(p) && forall c :: c in s ==> c != 0
  {
  }

  /** A text in UTF-8 comes out with one character for each code point: itself where it is legal, an
      underscore where it is not. */
  lemma {:induction false} CleanIsPerCodePoint(ps: seq<CodePoint>)
    ensures |Clean(Encode(ps))| == |ps|
    ensures forall k :: 0 <= k < |ps| ==> Clean(Encode(ps))[k] == Shown(ps[k])
    ensures forall c :: c in Encode(ps) ==> c != 0
  {
    hide Utf8, Width, Kept, Shown;
    if ps != [] {
      var text := Encode(ps);
      Utf8Width(ps[0]);
      CleanIsPerCodePoint(ps[1..]);
      assert text[0] == Utf8(ps[0])[0];
      assert text[|Utf8(ps[0])|..] == Encode(ps[1..]);
    }
  }
}
