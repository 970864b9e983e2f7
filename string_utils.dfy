/**
 * The string helpers of com.gh4a.utils.StringUtils. A Java String is a
 * sequence of UTF-16 code units; a parameter that may be null is a JString
 * (None is null); a helper that throws on some input returns a Result whose
 * Err names the exception.
 */
module StringUtils {
  import opened Wrappers
  import opened JavaLang

  /** The length above which formatLongText(text) shortens its input. */
  const LongTextLimit := 20

  /** Ellipsis, appended by formatLongText. */
  const Ellipsis: JavaString := [Dot, Dot, Dot]

  /** NameSeparator, between login and name in formatName. */
  const NameSeparator: JavaString := [Space, Hyphen, Space]

  /** True when every character of s is one that String.trim removes. */
  predicate AllTrimmed(s: JavaString) {
    forall i :: 0 <= i < |s| ==> TrimRemoves(s[i])
  }

  /** isBlank: null, or a string that trims to "". */
  predicate IsBlank(val: JString) {
    val == None || Trim(val.value) == []
  }

  /** Blank means null or made only of characters <= ' ', so "" is blank. */
  lemma {:induction false} IsBlankIff(val: JString)
    ensures IsBlank(val) <==> val.None? || AllTrimmed(val.value)
  {
    if val.Some? {
      TrimIsEmptyIff(val.value);
    }
  }

  /**
   * formatLongText(text): blank gives ""; at most 20 characters are kept as
   * they are; a longer text is cut at its first newline, or, when it has
   * none, after 20 characters with Ellipsis appended.
   */
  function FormatLongText(text: JString): (r: JavaString)
    ensures IsBlank(text) ==> r == []
    ensures !IsBlank(text) && |text.value| <= LongTextLimit ==> r == text.value
    ensures !IsBlank(text) && |text.value| > LongTextLimit && NewLine !in text.value ==>
      |r| == LongTextLimit + 3 && r[..LongTextLimit] == text.value[..LongTextLimit] && r[LongTextLimit..] == Ellipsis
    ensures !IsBlank(text) && |text.value| > LongTextLimit && NewLine in text.value ==>
      r <= text.value && NewLine !in r && text.value[|r|] == NewLine
  {
    if IsBlank(text) then []
    else
      var t := text.value;
      if |t| <= LongTextLimit then t
      else
        // |t| > LongTextLimit here, so the Java method's last else cannot be reached.
        var newLineIndex := IndexOf(t, NewLine);
        if newLineIndex != -1 then t[..newLineIndex]
        else t[..if |t| > LongTextLimit then LongTextLimit else |t|] + Ellipsis
  }

  /**
   * formatLongText(text, length): blank gives ""; otherwise the first
   * `length` characters, or the whole text when it is no longer than that.
   * A negative length reaches substring(0, length), which throws.
   */
  function FormatLongTextTo(text: JString, length: int): (r: Result<JavaString, JavaException>)
    ensures IsBlank(text) ==> r == Ok([])
    ensures !IsBlank(text) && length < 0 ==> r == Err(StringIndexOutOfBoundsException)
    ensures !IsBlank(text) && length >= 0 ==>
      r.Ok? && r.value <= text.value &&
      |r.value| == (if |text.value| < length then |text.value| else length)
  {
    if IsBlank(text) then Ok([])
    else
      var t := text.value;
      if |t| <= length then Ok(t)
      else if length < 0 then Err(StringIndexOutOfBoundsException)
      else Ok(t[..length])
  }

  /**
   * formatLongTextDot: blank gives ""; a text with a Dot is cut just before
   * its first Dot; a text without one goes through formatLongText.
   */
  function FormatLongTextDot(text: JString): (r: JavaString)
    ensures IsBlank(text) ==> r == []
    ensures !IsBlank(text) && Dot in text.value ==>
      r <= text.value && Dot !in r && text.value[|r|] == Dot
    ensures !IsBlank(text) && Dot !in text.value ==> r == FormatLongText(text)
  {
    if IsBlank(text) then []
    else
      var t := text.value;
      var index := IndexOf(t, Dot);
      if index != -1 then
        var r := t[..index];
        assert Dot !in r && t[|r|] == Dot;
        r
      else FormatLongText(text)
  }

  /** A prefix that ends at or before the first c (or any prefix, when c is absent) holds no c. */
  lemma {:induction false} NotInPrefix(s: JavaString, c: Char16, k: nat)
    requires k <= |s|
    requires IndexOf(s, c) == -1 || k <= IndexOf(s, c)
    ensures c !in s[..k]
  {
  }

  /**
   * doTeaser: blank gives ""; otherwise the text up to and including its
   * first Dot, or up to (not including) its first newline, whichever comes
   * first, or the whole text when it has neither.
   */
  method DoTeaser(text: JString) returns (r: JavaString)
    ensures IsBlank(text) ==> r == []
    ensures !IsBlank(text) ==> r <= text.value && NewLine !in r
    ensures !IsBlank(text) && Dot in r ==>
      r[|r| - 1] == Dot && IndexOf(text.value, Dot) == |r| - 1
    ensures !IsBlank(text) ==>
      r == text.value || text.value[|r|] == NewLine || (r != [] && r[|r| - 1] == Dot)
  {
    if !IsBlank(text) {
      var t := text.value;
      ghost var s := t;
      var indexNewLine := IndexOf(t, NewLine);
      var indexDot := IndexOf(t, Dot);
      if indexDot != -1 && indexNewLine != -1 {
        if indexDot > indexNewLine {
          NotInPrefix(s, Dot, indexNewLine);
          t := t[..indexNewLine];
          assert Dot !in t && s[|t|] == NewLine;
        } else {
          assert s[indexDot] == Dot && s[indexNewLine] == NewLine;
          assert indexDot < indexNewLine;
          NotInPrefix(s, NewLine, indexDot + 1);
          t := t[..indexDot + 1];
          assert t[|t| - 1] == Dot;
        }
      } else if indexDot != -1 {
        NotInPrefix(s, NewLine, indexDot + 1);
        t := t[..indexDot + 1];
        assert t[|t| - 1] == Dot;
      } else if indexNewLine != -1 {
        NotInPrefix(s, Dot, indexNewLine);
        t := t[..indexNewLine];
        assert Dot !in t && s[|t|] == NewLine;
      } else {
        assert Dot !in t;
      }
      return t;
    }
    return [];
  }

  /** ifNullDefaultTo: the first of ori and defaultTo that is not blank, else "". */
  function IfNullDefaultTo(ori: JString, defaultTo: JString): (r: JavaString)
    ensures !IsBlank(ori) ==> r == ori.value
    ensures IsBlank(ori) && !IsBlank(defaultTo) ==> r == defaultTo.value
    ensures IsBlank(ori) && IsBlank(defaultTo) ==> r == []
    ensures r == [] || !IsBlank(Some(r))
  {
    if !IsBlank(ori) then ori.value
    else if !IsBlank(defaultTo) then defaultTo.value
    else []
  }

  /**
   * formatName: "login - name" when the name is not blank, else the login
   * itself (null stays null). A null login is concatenated as "null".
   */
  function FormatName(userLogin: JString, name: JString): (r: JString)
    ensures !IsBlank(name) ==>
      r.Some? && Str(userLogin) <= r.value &&
      r.value[|Str(userLogin)|..] == NameSeparator + name.value
    ensures IsBlank(name) ==> r == userLogin
  {
    if !IsBlank(name) then Some(Str(userLogin) + NameSeparator + name.value)
    else userLogin
  }

  /**
   * getFileExtension: what follows the last Dot, or "" when there is none.
   * A null filename throws on lastIndexOf.
   */
  function GetFileExtension(filename: JString): (r: Result<JavaString, JavaException>)
    ensures filename.None? ==> r == Err(NullPointerException)
    ensures filename.Some? && Dot !in filename.value ==> r == Ok([])
    ensures filename.Some? && Dot in filename.value ==>
      r.Ok? && Dot !in r.value && |r.value| < |filename.value| &&
      filename.value == filename.value[..|filename.value| - |r.value| - 1] + [Dot] + r.value
  {
    match filename
    case None => Err(NullPointerException)
    case Some(f) =>
      var mid := LastIndexOf(f, Dot);
      if mid != -1 then
        assert f == f[..mid] + [Dot] + f[mid + 1..];
        Ok(f[mid + 1..])
      else Ok([])
  }

  /** s written n times in a row. */
  function Copies(s: JavaString, n: nat): (r: JavaString)
    ensures |r| == |s| * n
  {
    if n == 0 then [] else s + Copies(s, n - 1)
  }

  /** Two to the power n. */
  function Pow2(n: nat): (p: nat)
    ensures p >= 1
  {
    if n == 0 then 1 else 2 * Pow2(n - 1)
  }

  /** Copies add up: m copies followed by n copies are m + n copies. */
  lemma {:induction false} CopiesAdd(s: JavaString, m: nat, n: nat)
    ensures Copies(s, m) + Copies(s, n) == Copies(s, m + n)
  {
    if m > 0 {
      CopiesAdd(s, m - 1, n);
      assert Copies(s, m) + Copies(s, n) == s + (Copies(s, m - 1) + Copies(s, n));
    }
  }

  /**
   * repeat(val, count): despite its name, the loop doubles val count times,
   * so the result is val written 2^count times. A null val is concatenated
   * as "null" on the first doubling; with count <= 0 val comes back as it is.
   */
  method Repeat(val: JString, count: int) returns (r: JString)
    ensures count <= 0 ==> r == val
    ensures count > 0 ==> r == Some(Copies(Str(val), Pow2(count)))
    ensures count > 0 ==> |r.value| == |Str(val)| * Pow2(count)
  {
    r := val;
    var i := 0;
    while i < count
      invariant 0 <= i && (i == 0 || i <= count)
      invariant i == 0 ==> r == val
      invariant i > 0 ==> r == Some(Copies(Str(val), Pow2(i)))
    {
      CopiesAdd(Str(val), Pow2(i), Pow2(i));
      if i == 0 {
        assert Copies(Str(val), 1) == Str(val);
      }
      r := Some(Str(r) + Str(r));
      i := i + 1;
    }
  }

  /** A lower-case hexadecimal digit, '0'-'9' or 'a'-'f', as Character.forDigit(d, 16) yields it. */
  predicate IsHexDigit(c: Char16) {
    0x30 <= c <= 0x39 || 0x61 <= c <= 0x66
  }

  /**
   * s is the hex spelling of bytes: two code units per byte, the high nibble
   * first, each written with Character.forDigit(_, 16).
   */
  predicate IsHexOf(s: JavaString, bytes: seq<Byte>) {
    |s| == 2 * |bytes| &&
    forall i :: 0 <= i < |bytes| ==>
      s[2 * i] == ForDigit(HighNibble(bytes[i]), 16) &&
      s[2 * i + 1] == ForDigit(LowNibble(bytes[i]), 16)
  }

  /** Appending the two digits of one more byte extends a hex spelling by that byte. */
  lemma HexOfAppend(s: JavaString, bytes: seq<Byte>, b: Byte)
    requires IsHexOf(s, bytes)
    requires forall k :: 0 <= k < |s| ==> IsHexDigit(s[k])
    ensures IsHexOf(s + [ForDigit(HighNibble(b), 16)] + [ForDigit(LowNibble(b), 16)], bytes + [b])
    ensures var t := s + [ForDigit(HighNibble(b), 16)] + [ForDigit(LowNibble(b), 16)];
      forall k :: 0 <= k < |t| ==> IsHexDigit(t[k])
  {
    NibblesOfByte(b);
    var t := s + [ForDigit(HighNibble(b), 16)] + [ForDigit(LowNibble(b), 16)];
    forall i | 0 <= i < |bytes + [b]|
      ensures t[2 * i] == ForDigit(HighNibble((bytes + [b])[i]), 16)
      ensures t[2 * i + 1] == ForDigit(LowNibble((bytes + [b])[i]), 16)
    {
      if i < |bytes| {
        assert t[2 * i] == s[2 * i] && t[2 * i + 1] == s[2 * i + 1];
      }
    }
  }

  /** The largest array length toHex accepts: above it `a.length * 2` overflows int. */
  const MaxHexInput := 0x3FFF_FFFF

  /**
   * toHex: each byte in turn appends its high and then its low nibble as a
   * lower-case hex digit. A null array throws on a.length; an array of 2^30
   * bytes or more makes `a.length * 2` overflow to a negative StringBuilder
   * capacity, which throws. (A Java array has an int length.)
   */
  method ToHex(a: array?<Byte>) returns (r: Result<JavaString, JavaException>)
    requires a == null || a.Length <= 0x7FFF_FFFF
    ensures a == null ==> r == Err(NullPointerException)
    ensures a != null && a.Length > MaxHexInput ==> r == Err(NegativeArraySizeException)
    ensures a != null && a.Length <= MaxHexInput ==> r.Ok? && IsHexOf(r.value, a[..])
    ensures r.Ok? ==> forall k :: 0 <= k < |r.value| ==> IsHexDigit(r.value[k])
  {
    if a == null {
      return Err(NullPointerException);
    }
    var capacity := Int32(a.Length * 2);
    if capacity < 0 {
      return Err(NegativeArraySizeException);
    }
    var sb: JavaString := [];
    for i := 0 to a.Length
      invariant IsHexOf(sb, a[..i])
      invariant forall k :: 0 <= k < |sb| ==> IsHexDigit(sb[k])
    {
      ghost var before := sb;
      sb := sb + [ForDigit(HighNibble(a[i]), 16)];
      sb := sb + [ForDigit(LowNibble(a[i]), 16)];
      HexOfAppend(before, a[..i], a[i]);
      assert a[..i + 1] == a[..i] + [a[i]];
    }
    assert a[..a.Length] == a[..];
    return Ok(sb);
  }

  /** The value of a hex digit, or -1 for any other code unit. */
  function HexValue(c: Char16): (v: int)
    ensures -1 <= v < 16
    ensures v >= 0 <==> IsHexDigit(c)
  {
    if 0x30 <= c <= 0x39 then c as int - 0x30
    else if 0x61 <= c <= 0x66 then c as int - 0x61 + 10
    else -1
  }

  /** The byte whose unsigned reading is u (see FromUnsignedOfUnsigned). */
  function FromUnsigned(u: int): Byte
    requires 0 <= u < 256
  {
    u as bv8
  }

  /** Reads a hex string back into bytes, two digits per byte; None on bad input. */
  function DecodeHex(s: JavaString): (r: Option<seq<Byte>>)
    ensures r.Some? ==> 2 * |r.value| == |s|
  {
    if s == [] then Some([])
    else if |s| == 1 then None
    else
      var hi, lo := HexValue(s[0]), HexValue(s[1]);
      if hi < 0 || lo < 0 then None
      else match DecodeHex(s[2..])
        case None => None
        case Some(rest) => Some([FromUnsigned(hi * 16 + lo)] + rest)
  }

  /** HexValue reads back the digit Character.forDigit(d, 16) writes. */
  lemma HexValueOfDigit(d: int)
    requires 0 <= d < 16
    ensures HexValue(ForDigit(d, 16)) == d
  {
  }

  /** FromUnsigned undoes Unsigned. */
  lemma FromUnsignedOfUnsigned(b: Byte)
    ensures FromUnsigned(Unsigned(b)) == b
  {
  }

  /** The two digits toHex writes for one byte decode back to that byte. */
  lemma DecodeDigitPair(b: Byte)
    ensures HexValue(ForDigit(HighNibble(b), 16)) == HighNibble(b)
    ensures HexValue(ForDigit(LowNibble(b), 16)) == LowNibble(b)
    ensures FromUnsigned(HighNibble(b) * 16 + LowNibble(b)) == b
  {
    NibblesOfByte(b);
    HexValueOfDigit(HighNibble(b));
    HexValueOfDigit(LowNibble(b));
    FromUnsignedOfUnsigned(b);
  }

  /** After its first two digits, toHex's output spells the remaining bytes. */
  lemma HexOfTail(s: JavaString, bytes: seq<Byte>)
    requires bytes != [] && IsHexOf(s, bytes)
    ensures IsHexOf(s[2..], bytes[1..])
  {
    forall i | 0 <= i < |bytes[1..]|
      ensures s[2..][2 * i] == ForDigit(HighNibble(bytes[1..][i]), 16)
      ensures s[2..][2 * i + 1] == ForDigit(LowNibble(bytes[1..][i]), 16)
    {
      assert s[2..][2 * i] == s[2 * (i + 1)];
      assert s[2..][2 * i + 1] == s[2 * (i + 1) + 1];
    }
  }

  /** Reading back what toHex writes gives the bytes it was given. */
  lemma {:induction false} DecodeHexOfHex(s: JavaString, bytes: seq<Byte>)
    requires IsHexOf(s, bytes)
    ensures DecodeHex(s) == Some(bytes)
  {
    if bytes != [] {
      var b := bytes[0];
      DecodeDigitPair(b);
      HexOfTail(s, bytes);
      DecodeHexOfHex(s[2..], bytes[1..]);
      assert DecodeHex(s) == Some([b] + bytes[1..]);
      assert bytes == [b] + bytes[1..];
    }
  }
}
