/**
 * The parts of java.lang that the string helpers rely on, written out so that
 * their edge cases are explicit: a String as a sequence of UTF-16 code units,
 * null in string concatenation, String.trim, String.indexOf / lastIndexOf for
 * a one-character needle, Character.forDigit, int overflow, and the signed
 * byte with its masked nibbles.
 */
module JavaLang {
  import opened Wrappers

  /** The exceptions the modelled code can throw on bad input. */
  datatype JavaException =
    | NullPointerException
    | StringIndexOutOfBoundsException
    | NegativeArraySizeException

  /**
   * A Java char: one UTF-16 code unit. A character outside the Basic
   * Multilingual Plane takes two of them (a surrogate pair), and String
   * lengths and indices count code units.
   */
  newtype Char16 = x: int | 0 <= x < 0x1_0000

  /** The contents of a java.lang.String. */
  type JavaString = seq<Char16>

  /** A possibly-null java.lang.String reference. */
  type JString = Option<JavaString>

  /** The code units the helpers name: ' ', '\n', '.', '-', '0', 'a', '\0'. */
  const Space: Char16 := 0x20
  const NewLine: Char16 := 0x0A
  const Dot: Char16 := 0x2E
  const Hyphen: Char16 := 0x2D
  const DigitZero: Char16 := 0x30
  const LetterA: Char16 := 0x61
  const NulChar: Char16 := 0x00

  /** "null", which is what `+` writes for a null reference. */
  const NullText: JavaString := [0x6E, 0x75, 0x6C, 0x6C]

  /** String.valueOf(s): what `+` concatenates for a reference that may be null. */
  function Str(s: JString): (r: JavaString)
    ensures s.Some? ==> r == s.value
    ensures s.None? ==> r == NullText
  {
    match s
    case None => NullText
    case Some(v) => v
  }

  /** The code units String.trim removes from both ends: everything up to U+0020. */
  predicate TrimRemoves(c: Char16) {
    c <= Space
  }

  /** Java int arithmetic: x reduced to the 32-bit two's complement range. */
  function Int32(x: int): (r: int)
    ensures -0x8000_0000 <= r < 0x8000_0000
    ensures -0x8000_0000 <= x < 0x8000_0000 ==> r == x
    ensures 0x8000_0000 <= x < 0x1_0000_0000 ==> r == x - 0x1_0000_0000
  {
    (x + 0x8000_0000) % 0x1_0000_0000 - 0x8000_0000
  }

  /** The first loop of String.trim: drop leading characters <= ' '. */
  function TrimLeading(s: JavaString): JavaString {
    if s != [] && TrimRemoves(s[0]) then TrimLeading(s[1..]) else s
  }

  /** The second loop of String.trim: drop trailing characters <= ' '. */
  function TrimTrailing(s: JavaString): JavaString {
    if s != [] && TrimRemoves(s[|s| - 1]) then TrimTrailing(s[..|s| - 1]) else s
  }

  /** String.trim. */
  function Trim(s: JavaString): JavaString {
    TrimTrailing(TrimLeading(s))
  }

  /** TrimLeading drops a run of characters <= ' ' and stops at the first other one. */
  lemma {:induction false} TrimLeadingSuffix(s: JavaString)
    ensures |TrimLeading(s)| <= |s| && TrimLeading(s) == s[|s| - |TrimLeading(s)|..]
    ensures forall i :: 0 <= i < |s| - |TrimLeading(s)| ==> TrimRemoves(s[i])
    ensures TrimLeading(s) == [] || !TrimRemoves(s[|s| - |TrimLeading(s)|])
  {
    if s != [] && TrimRemoves(s[0]) {
      var t, r := s[1..], TrimLeading(s[1..]);
      TrimLeadingSuffix(t);
      assert TrimLeading(s) == r;
      assert t[|t| - |r|..] == s[|s| - |r|..];
      forall i | 0 <= i < |s| - |r|
        ensures TrimRemoves(s[i])
      {
        if i > 0 {
          assert s[i] == t[i - 1];
        }
      }
    }
  }

  /** TrimTrailing drops a run of characters <= ' ' and stops at the last other one. */
  lemma {:induction false} TrimTrailingPrefix(s: JavaString)
    ensures |TrimTrailing(s)| <= |s| && TrimTrailing(s) == s[..|TrimTrailing(s)|]
    ensures forall i :: |TrimTrailing(s)| <= i < |s| ==> TrimRemoves(s[i])
    ensures TrimTrailing(s) == [] || !TrimRemoves(s[|TrimTrailing(s)| - 1])
  {
    if s != [] && TrimRemoves(s[|s| - 1]) {
      var t, r := s[..|s| - 1], TrimTrailing(s[..|s| - 1]);
      TrimTrailingPrefix(t);
      assert TrimTrailing(s) == r;
      assert t[..|r|] == s[..|r|];
      forall i | |r| <= i < |s|
        ensures TrimRemoves(s[i])
      {
        if i < |s| - 1 {
          assert s[i] == t[i];
        }
      }
    }
  }

  /** A string trims to "" exactly when every character of it is <= ' '. */
  lemma {:induction false} TrimIsEmptyIff(s: JavaString)
    ensures Trim(s) == [] <==> forall i :: 0 <= i < |s| ==> TrimRemoves(s[i])
  {
    var l := TrimLeading(s);
    TrimLeadingSuffix(s);
    if forall i :: 0 <= i < |s| ==> TrimRemoves(s[i]) {
      assert l == [];
      assert Trim(s) == TrimTrailing([]) == [];
    } else {
      var j :| 0 <= j < |s| && !TrimRemoves(s[j]);
      var k := j - (|s| - |l|);
      assert 0 <= k < |l| && l[k] == s[j];
      TrimTrailingPrefix(l);
      assert k < |TrimTrailing(l)|;
    }
  }

  /** String.indexOf(c): the first index of c, or -1 when c does not occur. */
  function IndexOf(s: JavaString, c: Char16): (r: int)
    ensures -1 <= r < |s|
    ensures r == -1 <==> c !in s
    ensures 0 <= r ==> s[r] == c && c !in s[..r]
  {
    if s == [] then -1
    else if s[0] == c then 0
    else
      var k := IndexOf(s[1..], c);
      assert s == [s[0]] + s[1..];
      if k == -1 then -1
      else
        assert s[..k + 1] == [s[0]] + s[1..][..k];
        k + 1
  }

  /** String.lastIndexOf(c): the last index of c, or -1 when c does not occur. */
  function LastIndexOf(s: JavaString, c: Char16): (r: int)
    ensures -1 <= r < |s|
    ensures r == -1 <==> c !in s
    ensures 0 <= r ==> s[r] == c && c !in s[r + 1..]
  {
    if s == [] then -1
    else if s[|s| - 1] == c then |s| - 1
    else
      var k := LastIndexOf(s[..|s| - 1], c);
      assert s == s[..|s| - 1] + [s[|s| - 1]];
      if k == -1 then -1
      else
        assert s[k + 1..] == s[..|s| - 1][k + 1..] + [s[|s| - 1]];
        k
  }

  /** Character.forDigit(digit, radix): '\0' for a digit or radix out of range. */
  function ForDigit(digit: int, radix: int): (c: Char16)
    ensures 2 <= radix <= 36 && 0 <= digit < radix <==> c != NulChar
    ensures 0 <= digit < 10 && 2 <= radix <= 36 && digit < radix ==> c as int == DigitZero as int + digit
    ensures 10 <= digit < radix <= 36 ==> c as int == LetterA as int + digit - 10
  {
    if digit >= radix || digit < 0 then NulChar
    else if radix < 2 || radix > 36 then NulChar
    else if digit < 10 then (DigitZero as int + digit) as Char16
    else (LetterA as int - 10 + digit) as Char16
  }

  /** A Java byte, held as its 8-bit two's-complement bit pattern. */
  type Byte = bv8

  /** The signed number a byte stands for in Java, -128 to 127. */
  function Value(b: Byte): (v: int)
    ensures -128 <= v < 128
  {
    if b as int < 128 then b as int else b as int - 256
  }

  /** The byte read as unsigned, 0 to 255, as `b & 0xff` gives it. */
  function Unsigned(b: Byte): (u: int)
    ensures 0 <= u < 256
  {
    b as int
  }

  /** The unsigned reading is the signed value taken modulo 256. */
  lemma UnsignedOfValue(b: Byte)
    ensures Unsigned(b) == if Value(b) < 0 then Value(b) + 256 else Value(b)
  {
  }

  /** The int a byte is widened to before `&`: its sign bit copied into bits 8 to 31. */
  function Widen(b: Byte): bv32 {
    if b & 0x80 != 0 then (b as bv32) | 0xFFFF_FF00 else b as bv32
  }

  /** Widening keeps the byte's signed value, in 32-bit two's complement. */
  lemma WidenKeepsValue(b: Byte)
    ensures Widen(b) as int == if Value(b) < 0 then Value(b) + 0x1_0000_0000 else Value(b)
  {
  }

  /** `(b & 0xf0) >> 4` on the widened byte. */
  function HighNibble(b: Byte): int {
    ((Widen(b) & 0xF0) >> 4) as int
  }

  /** `b & 0x0f` on the widened byte. */
  function LowNibble(b: Byte): int {
    (Widen(b) & 0x0F) as int
  }

  /** The sign-extended bits fall outside both masks: the nibbles are the unsigned byte's two hex digits. */
  lemma MaskedNibbles(b: Byte)
    ensures HighNibble(b) == Unsigned(b) / 16
    ensures LowNibble(b) == Unsigned(b) % 16
  {
  }

  /** The two nibbles are hexadecimal digits and together give the unsigned byte. */
  lemma NibblesOfByte(b: Byte)
    ensures 0 <= HighNibble(b) < 16 && 0 <= LowNibble(b) < 16
    ensures HighNibble(b) * 16 + LowNibble(b) == Unsigned(b)
  {
    MaskedNibbles(b);
  }
}
