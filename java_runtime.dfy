/** The Java integer widths and the few java.lang.String operations the core relies on,
    written out explicitly because Dafny's integers are unbounded and its strings are
    plain character sequences. */
module JavaRuntime {

  /** A Java `byte`: a signed 8-bit value. */
  type i8 = x: int | -0x80 <= x < 0x80

  /** A Java `int`: a signed 32-bit value. */
  type i32 = x: int | -0x8000_0000 <= x < 0x8000_0000

  /** The narrowing cast `(byte) x`: the one byte congruent to x modulo 256. */
  function ToByte(x: int): (b: i8)
    ensures (b - x) % 0x100 == 0
  {
    (x + 0x80) % 0x100 - 0x80
  }

  /** `b & 0xFF`: the bit pattern of a byte read as an unsigned value. */
  function Unsigned(b: i8): (u: int)
    ensures 0 <= u < 0x100
    ensures (u - b) % 0x100 == 0
  {
    if b < 0 then b + 0x100 else b
  }

  /** Two's-complement wrap-around of Java `int` arithmetic. */
  function ToInt(x: int): (v: i32)
    ensures (v - x) % 0x1_0000_0000 == 0
  {
    (x + 0x8000_0000) % 0x1_0000_0000 - 0x8000_0000
  }

  lemma ToByteOfUnsigned(b: i8)
    ensures ToByte(Unsigned(b)) == b
  {
  }

  lemma UnsignedOfToByte(x: int)
    ensures Unsigned(ToByte(x)) == x % 0x100
  {
  }

  /** Characters that are 7-bit ASCII and not NUL: the text the control protocol carries. */
  predicate IsWireText(s: string)
  {
    |s| > 0 && forall i :: 0 <= i < |s| ==> 0 < s[i] as int < 0x80
  }

  /** 7-bit ASCII text without NUL, possibly empty: the parts names are built from. */
  predicate IsAsciiText(s: string)
  {
    forall i :: 0 <= i < |s| ==> 0 < s[i] as int < 0x80
  }

  lemma AsciiTextConcat(a: string, b: string)
    requires IsAsciiText(a) && IsAsciiText(b)
    ensures IsAsciiText(a + b)
  {
    forall i | 0 <= i < |a + b|
      ensures 0 < (a + b)[i] as int < 0x80
    {
      if i < |a| {
        assert (a + b)[i] == a[i];
      } else {
        assert (a + b)[i] == b[i - |a|];
      }
    }
  }

  /** `s.getBytes()`, one byte per character: exact for ASCII text. */
  function GetBytes(s: string): (b: seq<i8>)
    ensures |b| == |s|
  {
    seq(|s|, i requires 0 <= i < |s| => ToByte(s[i] as int))
  }

  /** `new String(b)`, one character per byte, read as ISO-8859-1. */
  function NewString(b: seq<i8>): (s: string)
    ensures |s| == |b|
  {
    seq(|b|, i requires 0 <= i < |b| => Unsigned(b[i]) as char)
  }

  /** ASCII text without NUL never encodes to a zero byte. */
  lemma GetBytesNonZero(s: string)
    requires IsWireText(s)
    ensures forall i :: 0 <= i < |s| ==> GetBytes(s)[i] != 0
  {
  }

  /** Decoding undoes encoding for ASCII text. */
  lemma NewStringOfGetBytes(s: string)
    requires IsWireText(s)
    ensures NewString(GetBytes(s)) == s
  {
    var t := NewString(GetBytes(s));
    forall i | 0 <= i < |s|
      ensures t[i] == s[i]
    {
      UnsignedOfToByte(s[i] as int);
    }
  }

  /** Java `Character.toLowerCase` restricted to ASCII letters. */
  function LowerChar(c: char): char
  {
    if 'A' <= c <= 'Z' then (c as int + 32) as char else c
  }

  /** `s.toLowerCase()` on the ASCII letters of s. */
  function ToLowerCase(s: string): (r: string)
    ensures |r| == |s|
  {
    seq(|s|, i requires 0 <= i < |s| => LowerChar(s[i]))
  }

  /** No ASCII upper-case letter occurs in s. */
  predicate IsLowerCase(s: string)
  {
    forall i :: 0 <= i < |s| ==> !('A' <= s[i] <= 'Z')
  }

  lemma ToLowerCaseIsLower(s: string)
    ensures IsLowerCase(ToLowerCase(s))
  {
  }

  lemma ToLowerCaseIdempotent(s: string)
    ensures ToLowerCase(ToLowerCase(s)) == ToLowerCase(s)
  {
  }

  /** Lower-casing leaves text that has no upper-case letter unchanged. */
  lemma ToLowerCaseOfLower(s: string)
    requires IsLowerCase(s)
    ensures ToLowerCase(s) == s
  {
  }

  /** Lower-casing keeps text 7-bit ASCII and free of NUL. */
  lemma ToLowerCaseAscii(s: string)
    requires IsAsciiText(s)
    ensures IsAsciiText(ToLowerCase(s))
  {
  }

  lemma ToLowerCaseConcat(a: string, b: string)
    ensures ToLowerCase(a + b) == ToLowerCase(a) + ToLowerCase(b)
  {
  }

  /** `s.lastIndexOf(c)`: the position of the last c in s, or -1 when there is none. */
  function LastIndexOf(s: string, c: char): (k: int)
    ensures -1 <= k < |s|
    ensures k >= 0 ==> s[k] == c
    ensures forall i :: k < i < |s| ==> s[i] != c
    decreases |s|
  {
    if |s| == 0 then -1
    else if s[|s| - 1] == c then |s| - 1
    else LastIndexOf(s[..|s| - 1], c)
  }
}
