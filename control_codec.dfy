/** The control-frame codec of ZMQutils: a command byte, NUL-terminated strings and
    little-endian 32-bit integers. Each Java method is a Dafny method proved against the
    function that specifies it; the properties of the format are lemmas about those functions. */
module ControlCodec {
  import opened JavaRuntime
  import opened Results

  /** Control command codes (ZMQ_END .. ZMQ_DISCONNECT_EVENT). */
  const ZmqEnd: int := 0
  const ZmqConnectHeartbeat: int := 1
  const ZmqDisconnectHeartbeat: int := 2
  const ZmqConnectEvent: int := 3
  const ZmqDisconnectEvent: int := 4

  // ---------------------------------------------------------------------------
  // Integers

  /** codeInteger: byte i is `(byte)(value >> 8*i)`, where `>>` is the arithmetic
      shift, that is, floor division by 2^(8*i). */
  function CodeInteger(value: i32): (b: seq<i8>)
    ensures |b| == 4
  {
    [ToByte(value), ToByte(value / 0x100), ToByte(value / 0x1_0000), ToByte(value / 0x100_0000)]
  }

  /** The Java int whose two's-complement bytes, least significant first, are b. */
  function LittleEndianInt(b: seq<i8>): i32
    requires |b| == 4
  {
    ToInt(Unsigned(b[0]) + 0x100 * Unsigned(b[1]) + 0x1_0000 * Unsigned(b[2]) + 0x100_0000 * Unsigned(b[3]))
  }

  /** The position weight of byte i: 2^(8*i). */
  function Weight(i: nat): nat
    requires i < 4
  {
    if i == 0 then 1 else if i == 1 then 0x100 else if i == 2 then 0x1_0000 else 0x100_0000
  }

  /** The sum of the first n bytes of b, each unsigned and placed at its little-endian position. */
  function PartialSum(b: seq<i8>, n: nat): nat
    requires n <= |b| && n <= 4
  {
    if n == 0 then 0 else PartialSum(b, n - 1) + Unsigned(b[n - 1]) * Weight(n - 1)
  }

  /** Adding two wrapped ints wraps their sum. */
  lemma ToIntAdd(x: int, y: int)
    ensures ToInt(ToInt(x) + ToInt(y)) == ToInt(x + y)
  {
    var m := 0x1_0000_0000;
    var t1 := (ToInt(x) - x) / m;
    var t2 := (ToInt(y) - y) / m;
    assert ToInt(x) == x + m * t1;
    assert ToInt(y) == y + m * t2;
    assert ToInt(x) + ToInt(y) == x + y + m * (t1 + t2);
  }

  /** decodeInteger: `value += (bytes[i] << i*8) & (0xFF << i*8)` for i in 0..3. The masked,
      shifted byte is the unsigned byte placed at its position, read as a Java int. */
  method DecodeInteger(bytes: array<i8>) returns (value: i32)
    requires bytes.Length == 4
    ensures value == LittleEndianInt(bytes[..])
  {
    value := 0;
    for i := 0 to 4
      invariant value == ToInt(PartialSum(bytes[..], i))
    {
      var x := ToInt(Unsigned(bytes[i]) * Weight(i));
      ToIntAdd(PartialSum(bytes[..], i), Unsigned(bytes[i]) * Weight(i));
      value := ToInt(value + x);
    }
    assert PartialSum(bytes[..], 4) == PartialSum(bytes[..], 3) + Unsigned(bytes[3]) * 0x100_0000;
    assert PartialSum(bytes[..], 3) == PartialSum(bytes[..], 2) + Unsigned(bytes[2]) * 0x1_0000;
    assert PartialSum(bytes[..], 2) == Unsigned(bytes[0]) + Unsigned(bytes[1]) * 0x100;
  }

  /** The base-256 digits of u0 + 2^8*u1 + 2^16*u2 + 2^24*w, as floor division reads them. */
  lemma Digits(u0: int, u1: int, u2: int, w: int)
    requires 0 <= u0 < 0x100 && 0 <= u1 < 0x100 && 0 <= u2 < 0x100
    ensures var v := u0 + 0x100 * u1 + 0x1_0000 * u2 + 0x100_0000 * w;
      && v % 0x100 == u0
      && (v / 0x100) % 0x100 == u1
      && (v / 0x1_0000) % 0x100 == u2
      && v / 0x100_0000 == w
  {
    var v := u0 + 0x100 * u1 + 0x1_0000 * u2 + 0x100_0000 * w;
    assert v == 0x100 * (u1 + 0x100 * u2 + 0x1_0000 * w) + u0;
    assert v / 0x100 == u1 + 0x100 * u2 + 0x1_0000 * w;
    assert v == 0x1_0000 * (u2 + 0x100 * w) + (u0 + 0x100 * u1);
    assert v / 0x1_0000 == u2 + 0x100 * w;
    assert v == 0x100_0000 * w + (u0 + 0x100 * u1 + 0x1_0000 * u2);
  }

  /** Floor division by 2^8 twice is floor division by 2^16, and so on. */
  lemma NestedDivision(v: int)
    ensures (v / 0x100) / 0x100 == v / 0x1_0000
    ensures (v / 0x1_0000) / 0x100 == v / 0x100_0000
  {
    var q1, q2 := v / 0x100, v / 0x1_0000;
    assert v == 0x1_0000 * (q1 / 0x100) + (0x100 * (q1 % 0x100) + v % 0x100);
    assert v == 0x100_0000 * (q2 / 0x100) + (0x1_0000 * (q2 % 0x100) + v % 0x1_0000);
  }

  /** Adding a multiple of 2^32 to a Java int does not change what it wraps to. */
  lemma ToIntOfShift(v: i32, t: int)
    ensures ToInt(v + 0x1_0000_0000 * t) == v
  {
    var x := v + 0x1_0000_0000 * t;
    assert x + 0x8000_0000 == (v + 0x8000_0000) + 0x1_0000_0000 * t;
  }

  /** Base-256 digits chained by hand: four quotient steps give a four-digit expansion. */
  lemma ChainDigits(v: int, q1: int, q2: int, q3: int, q4: int, d0: int, d1: int, d2: int, d3: int)
    requires v == 0x100 * q1 + d0 && q1 == 0x100 * q2 + d1 && q2 == 0x100 * q3 + d2 && q3 == 0x100 * q4 + d3
    ensures v == d0 + 0x100 * d1 + 0x1_0000 * d2 + 0x100_0000 * d3 + 0x1_0000_0000 * q4
  {
  }

  /** The four low base-256 digits of v, read by floor division as codeInteger reads them. */
  lemma Expansion(v: int)
    ensures v == v % 0x100 + 0x100 * ((v / 0x100) % 0x100) + 0x1_0000 * ((v / 0x1_0000) % 0x100)
                 + 0x100_0000 * ((v / 0x100_0000) % 0x100) + 0x1_0000_0000 * ((v / 0x100_0000) / 0x100)
  {
    NestedDivision(v);
    var q1, q2, q3 := v / 0x100, v / 0x1_0000, v / 0x100_0000;
    ChainDigits(v, q1, q2, q3, q3 / 0x100, v % 0x100, q1 % 0x100, q2 % 0x100, q3 % 0x100);
  }

  /** codeInteger and decodeInteger are inverse: every Java int survives the trip,
      -1 and Integer.MIN_VALUE included. */
  lemma IntegerRoundTrip(v: i32)
    ensures LittleEndianInt(CodeInteger(v)) == v
  {
    var b := CodeInteger(v);
    UnsignedOfToByte(v);
    UnsignedOfToByte(v / 0x100);
    UnsignedOfToByte(v / 0x1_0000);
    UnsignedOfToByte(v / 0x100_0000);
    Expansion(v);
    var t := (v / 0x100_0000) / 0x100;
    var s := Unsigned(b[0]) + 0x100 * Unsigned(b[1]) + 0x1_0000 * Unsigned(b[2]) + 0x100_0000 * Unsigned(b[3]);
    assert s + 0x1_0000_0000 * t == v;
    ToIntOfShift(v, -t);
  }

  /** ... and every 4-byte sequence is the code of the int it decodes to. */
  lemma BytesRoundTrip(b: seq<i8>)
    requires |b| == 4
    ensures CodeInteger(LittleEndianInt(b)) == b
  {
    var u0, u1, u2, u3 := Unsigned(b[0]), Unsigned(b[1]), Unsigned(b[2]), Unsigned(b[3]);
    var w := if u3 < 0x80 then u3 else u3 - 0x100;
    var x := u0 + 0x100 * u1 + 0x1_0000 * u2 + 0x100_0000 * w;
    ToIntOfShift(x, if u3 < 0x80 then 0 else 1);
    var v := LittleEndianInt(b);
    assert v == x;
    Digits(u0, u1, u2, w);
    assert w % 0x100 == u3 by {
      if u3 >= 0x80 {
        assert w == -0x100 + u3;
      }
    }
    ByteOfDigit(v, b[0]);
    ByteOfDigit(v / 0x100, b[1]);
    ByteOfDigit(v / 0x1_0000, b[2]);
    ByteOfDigit(v / 0x100_0000, b[3]);
  }

  /** The cast `(byte) x` gives back b when x and b agree in their low 8 bits. */
  lemma ByteOfDigit(x: int, b: i8)
    requires x % 0x100 == Unsigned(b)
    ensures ToByte(x) == b
  {
    UnsignedOfToByte(x);
    UnsignedInjective(ToByte(x), b);
  }

  lemma UnsignedInjective(x: i8, y: i8)
    requires Unsigned(x) == Unsigned(y)
    ensures x == y
  {
  }

  /** What getInteger reads at start: the 4 bytes there, or an index failure when fewer remain. */
  function IntegerAt(b: seq<i8>, start: nat): Result<i32>
  {
    if start + 4 > |b| then Failure(IndexOutOfBounds)
    else Success(LittleEndianInt(b[start..start + 4]))
  }

  /** getInteger: copies the 4 bytes at start into a fresh array and decodes them. */
  method GetInteger(buffer: array<i8>, start: nat) returns (r: Result<i32>)
    ensures r == IntegerAt(buffer[..], start)
  {
    if start + 4 > buffer.Length {
      return Failure(IndexOutOfBounds);
    }
    var bytes := new i8[4];
    forall k | 0 <= k < 4 {
      bytes[k] := buffer[start + k];
    }
    assert bytes[..] == buffer[..][start..start + 4];
    var value := DecodeInteger(bytes);
    r := Success(value);
  }

  lemma IntegerAtCode(pre: seq<i8>, v: i32, post: seq<i8>)
    ensures IntegerAt(pre + CodeInteger(v) + post, |pre|) == Success(v)
  {
    var b := pre + CodeInteger(v) + post;
    assert b[|pre|..|pre| + 4] == CodeInteger(v);
    IntegerRoundTrip(v);
  }

  // ---------------------------------------------------------------------------
  // Strings

  /** Where getString's scan stops: the first zero at or after start, or, when there is
      none, the last index of the buffer (so the last byte is not part of the string). */
  function TerminatorIndex(b: seq<i8>, start: nat): (end: int)
    ensures (start <= end < |b| && b[end] == 0 && forall k :: start <= k < end ==> b[k] != 0)
         || (end == |b| - 1 && forall k :: start <= k < |b| ==> b[k] != 0)
    decreases |b| - start
  {
    if start >= |b| then |b| - 1
    else if b[start] == 0 then start
    else TerminatorIndex(b, start + 1)
  }

  /** What getString returns: the bytes from start up to the scan's end, failing with
      API_BadSyntax when that leaves nothing. */
  function StringAt(b: seq<i8>, start: nat): Result<string>
  {
    var end := TerminatorIndex(b, start);
    if end - start <= 0 then Failure(BadSyntax)
    else Success(NewString(b[start..end]))
  }

  /** getString: scan for the next zero, then copy the bytes before it. */
  method GetString(bytes: array<i8>, start: nat) returns (r: Result<string>)
    ensures r == StringAt(bytes[..], start)
  {
    var end := -1;
    var i := start;
    while i < bytes.Length && end < 0
      invariant end == -1 || (start <= end < bytes.Length && bytes[end] == 0 && i == end + 1)
      invariant forall k :: start <= k < i && k < bytes.Length && (end == -1 || k < end) ==> bytes[k] != 0
      decreases bytes.Length - i
    {
      if bytes[i] == 0 {
        end := i;
      }
      i := i + 1;
    }
    if end < 0 {
      end := bytes.Length - 1;
    }
    assert end == TerminatorIndex(bytes[..], start);
    var length := end - start;
    if length <= 0 {
      return Failure(BadSyntax);
    }
    r := Success(NewString(bytes[start..end]));
  }

  /** getString, in each of its cases: the string ends at the first zero at or after start;
      with no zero, one byte before the buffer's end; and an empty result is API_BadSyntax. */
  lemma StringAtCases(b: seq<i8>, start: nat)
    ensures forall z :: start <= z < |b| && b[z] == 0 && (forall k :: start <= k < z ==> b[k] != 0) ==>
              StringAt(b, start) == (if z == start then Failure(BadSyntax) else Success(NewString(b[start..z])))
    ensures (forall k :: start <= k < |b| ==> b[k] != 0) ==>
              StringAt(b, start) == (if |b| - 1 <= start then Failure(BadSyntax) else Success(NewString(b[start..|b| - 1])))
  {
    forall z | start <= z < |b| && b[z] == 0 && (forall k :: start <= k < z ==> b[k] != 0) {
      TerminatorAtFirstZero(b, start, z);
    }
    if forall k :: start <= k < |b| ==> b[k] != 0 {
      TerminatorWithoutZero(b, start);
    }
  }

  lemma {:induction false} TerminatorAtFirstZero(b: seq<i8>, start: nat, z: nat)
    requires start <= z < |b| && b[z] == 0 && forall k :: start <= k < z ==> b[k] != 0
    ensures TerminatorIndex(b, start) == z
    decreases z - start
  {
    if b[start] != 0 {
      TerminatorAtFirstZero(b, start + 1, z);
    }
  }

  lemma {:induction false} TerminatorWithoutZero(b: seq<i8>, start: nat)
    requires forall k :: start <= k < |b| ==> b[k] != 0
    ensures TerminatorIndex(b, start) == |b| - 1
    decreases |b| - start
  {
    if start < |b| {
      TerminatorWithoutZero(b, start + 1);
    }
  }

  /** A NUL-free ASCII string followed by its terminator is read back exactly. */
  lemma StringAtTerminated(pre: seq<i8>, s: string, post: seq<i8>)
    requires IsWireText(s)
    ensures StringAt(pre + GetBytes(s) + [0] + post, |pre|) == Success(s)
  {
    var b := pre + GetBytes(s) + [0] + post;
    GetBytesNonZero(s);
    assert forall k :: |pre| <= k < |pre| + |s| ==> b[k] == GetBytes(s)[k - |pre|];
    assert b[|pre| + |s|] == 0;
    assert TerminatorIndex(b, |pre|) == |pre| + |s|;
    assert b[|pre|..|pre| + |s|] == GetBytes(s);
    NewStringOfGetBytes(s);
  }

  // ---------------------------------------------------------------------------
  // Encoder

  /** The string section: each string's bytes followed by one zero, in list order. */
  function StringsField(ss: seq<string>): seq<i8>
  {
    if ss == [] then [] else StringsField(ss[..|ss| - 1]) + GetBytes(ss[|ss| - 1]) + [0]
  }

  /** The integer section: each int's 4 bytes, in list order. */
  function IntsField(ints: seq<i32>): (field: seq<i8>)
    ensures |field| == 4 * |ints|
  {
    if ints == [] then [] else IntsField(ints[..|ints| - 1]) + CodeInteger(ints[|ints| - 1])
  }

  /** Σ(s.length() + 1), the count buildTheBuffer reserves for the strings. */
  function StringsSize(ss: seq<string>): nat
  {
    if ss == [] then 0 else StringsSize(ss[..|ss| - 1]) + |ss[|ss| - 1]| + 1
  }

  /** The size buildTheBuffer allocates: the ints are counted only when there are strings. */
  function BufferSize(strings: seq<string>, ints: seq<i32>): nat
  {
    1 + if |strings| > 0 then StringsSize(strings) + 4 * |ints| else 0
  }

  /** What buildTheBuffer produces: the command byte, the strings, the ints. With no strings
      but some ints the 1-byte buffer overflows on the first int byte. */
  function Encoded(command: i32, strings: seq<string>, ints: seq<i32>): Result<seq<i8>>
  {
    if strings == [] && ints != [] then Failure(IndexOutOfBounds)
    else Success([ToByte(command)] + StringsField(strings) + IntsField(ints))
  }

  lemma StringsSnoc(ss: seq<string>, k: nat)
    requires k < |ss|
    ensures StringsField(ss[..k + 1]) == StringsField(ss[..k]) + GetBytes(ss[k]) + [0]
    ensures StringsSize(ss[..k + 1]) == StringsSize(ss[..k]) + |ss[k]| + 1
  {
    assert ss[..k + 1][..k] == ss[..k];
  }

  lemma IntsSnoc(ints: seq<i32>, k: nat)
    requires k < |ints|
    ensures IntsField(ints[..k + 1]) == IntsField(ints[..k]) + CodeInteger(ints[k])
  {
    assert ints[..k + 1][..k] == ints[..k];
  }

  lemma {:induction false} StringsFieldLength(ss: seq<string>)
    ensures |StringsField(ss)| == StringsSize(ss)
  {
    if ss != [] {
      StringsFieldLength(ss[..|ss| - 1]);
    }
  }

  /** The integer section of a prefix of the list is the same prefix of the section. */
  lemma {:induction false} IntsFieldPrefix(ints: seq<i32>, k: nat)
    requires k <= |ints|
    ensures IntsField(ints)[..4 * k] == IntsField(ints[..k])
    decreases |ints|
  {
    if k < |ints| {
      var init := ints[..|ints| - 1];
      assert ints[..k] == init[..k];
      IntsFieldPrefix(init, k);
      assert IntsField(ints)[..4 * k] == IntsField(init)[..4 * k];
    } else {
      assert ints[..k] == ints;
    }
  }

  /** The first n bytes of the integer section, n falling inside int k's code, are the codes
      of the ints before k followed by the first bytes of int k's code. */
  lemma TruncatedIntsField(ints: seq<i32>, k: nat, n: nat)
    requires k < |ints| && 4 * k <= n < 4 * k + 4
    ensures IntsField(ints)[..n] == IntsField(ints[..k]) + CodeInteger(ints[k])[..n - 4 * k]
  {
    IntsFieldPrefix(ints, k + 1);
    IntsSnoc(ints, k);
    TakeWithin(IntsField(ints), IntsField(ints[..k]), CodeInteger(ints[k]), 4 * (k + 1), n);
  }

  /** When s starts with a + b, its first n elements, n past the end of a, are a followed by
      the first elements of b. */
  lemma TakeWithin<T>(s: seq<T>, a: seq<T>, b: seq<T>, m: nat, n: nat)
    requires m == |a| + |b| <= |s| && |a| <= n <= m
    requires s[..m] == a + b
    ensures s[..n] == a + b[..n - |a|]
  {
    assert s[..n] == s[..m][..n];
  }

  /** A write of the integer section that stops after n bytes, inside int k's code, leaves
      the first n bytes of the section after the prefix. */
  lemma FailedIntsWrite(prefix: seq<i8>, ints: seq<i32>, k: nat, n: nat, written: seq<i8>, after: seq<i8>)
    requires k < |ints| && 4 * k <= n < 4 * k + 4
    requires written == prefix + IntsField(ints[..k])
    requires after == written + CodeInteger(ints[k])[..n - 4 * k]
    ensures after == prefix + IntsField(ints)[..n]
  {
    TruncatedIntsField(ints, k, n);
    ConcatAssoc(prefix, IntsField(ints[..k]), CodeInteger(ints[k])[..n - 4 * k]);
  }

  /** Concatenation is associative. */
  lemma ConcatAssoc<T>(a: seq<T>, b: seq<T>, c: seq<T>)
    ensures (a + b) + c == a + (b + c)
  {
  }

  lemma {:induction false} StringsSizePrefix(ss: seq<string>, k: nat)
    requires k <= |ss|
    ensures StringsSize(ss[..k]) <= StringsSize(ss)
    decreases |ss|
  {
    if k < |ss| {
      assert ss[..k] == ss[..|ss| - 1][..k];
      StringsSizePrefix(ss[..|ss| - 1], k);
    } else {
      assert ss[..k] == ss;
    }
  }

  /** The copy loop `for (byte b : bytes) buffer[idx++] = b;` that buildTheBuffer runs for
      each string and each int; ok is false when a write falls past the end, where Java throws
      after filling the buffer up to its end. The bytes after the copy keep their values. */
  method CopyBytes(buffer: array<i8>, idx: nat, bytes: seq<i8>) returns (next: nat, ok: bool)
    requires idx <= buffer.Length
    modifies buffer
    ensures ok <==> idx + |bytes| <= buffer.Length
    ensures ok ==> next == idx + |bytes| && buffer[..next] == old(buffer[..idx]) + bytes
    ensures ok ==> forall t :: next <= t < buffer.Length ==> buffer[t] == old(buffer[t])
    ensures !ok ==> buffer[..] == old(buffer[..idx]) + bytes[..buffer.Length - idx]
  {
    next := idx;
    for j := 0 to |bytes|
      invariant next == idx + j <= buffer.Length
      invariant buffer[..next] == old(buffer[..idx]) + bytes[..j]
      invariant forall k :: next <= k < buffer.Length ==> buffer[k] == old(buffer[k])
    {
      if next >= buffer.Length {
        assert buffer[..] == buffer[..next];
        return next, false;
      }
      buffer[next] := bytes[j];
      assert bytes[..j + 1] == bytes[..j] + [bytes[j]];
      next := next + 1;
    }
    assert bytes[..|bytes|] == bytes;
    ok := true;
  }

  /** buildTheBuffer, first phase: the size to allocate, counting the ints only when the
      string list is non-empty. */
  method AllocationSize(stringList: seq<string>, intList: seq<i32>) returns (size: nat)
    ensures size == BufferSize(stringList, intList)
  {
    size := 1;
    if |stringList| > 0 {
      for k := 0 to |stringList|
        invariant size == 1 + StringsSize(stringList[..k])
      {
        StringsSnoc(stringList, k);
        size := size + |stringList[k]| + 1;
      }
      assert stringList[..|stringList|] == stringList;
      if |intList| > 0 {
        size := size + |intList| * 4;
      }
    }
  }

  /** buildTheBuffer, second phase: each string's bytes and a zero, from index 1 on; the
      bytes after the strings keep their values. */
  method WriteStrings(buffer: array<i8>, stringList: seq<string>) returns (idx: nat)
    requires 1 + StringsSize(stringList) <= buffer.Length
    modifies buffer
    ensures idx == 1 + StringsSize(stringList)
    ensures buffer[..idx] == old(buffer[..1]) + StringsField(stringList)
    ensures forall t :: idx <= t < buffer.Length ==> buffer[t] == old(buffer[t])
  {
    idx := 1;
    for k := 0 to |stringList|
      invariant idx == 1 + StringsSize(stringList[..k]) <= buffer.Length
      invariant buffer[..idx] == old(buffer[..1]) + StringsField(stringList[..k])
      invariant forall t :: idx <= t < buffer.Length ==> buffer[t] == old(buffer[t])
    {
      StringsSizePrefix(stringList, k + 1);
      StringsSnoc(stringList, k);
      var ok;
      idx, ok := CopyBytes(buffer, idx, GetBytes(stringList[k]));
      buffer[idx] := 0;
      idx := idx + 1;
    }
    assert stringList[..|stringList|] == stringList;
  }

  /** buildTheBuffer, third phase: each int's 4 bytes from start on. When they do not fit,
      the buffer is filled up to its end with the first bytes of the integer section and the
      write fails; otherwise the bytes after the section keep their values. */
  method WriteInts(buffer: array<i8>, start: nat, intList: seq<i32>) returns (ok: bool)
    requires start <= buffer.Length
    modifies buffer
    ensures ok <==> start + 4 * |intList| <= buffer.Length
    ensures ok ==> buffer[..start + 4 * |intList|] == old(buffer[..start]) + IntsField(intList)
    ensures ok ==> forall t :: start + 4 * |intList| <= t < buffer.Length ==> buffer[t] == old(buffer[t])
    ensures !ok ==> buffer[..] == old(buffer[..start]) + IntsField(intList)[..buffer.Length - start]
  {
    var idx := start;
    for k := 0 to |intList|
      invariant idx == start + 4 * k <= buffer.Length
      invariant buffer[..idx] == old(buffer[..start]) + IntsField(intList[..k])
      invariant forall t :: idx <= t < buffer.Length ==> buffer[t] == old(buffer[t])
    {
      IntsSnoc(intList, k);
      var code := CodeInteger(intList[k]);
      ghost var written := buffer[..idx];
      var next;
      next, ok := CopyBytes(buffer, idx, code);
      if !ok {
        FailedIntsWrite(old(buffer[..start]), intList, k, buffer.Length - start, written, buffer[..]);
        return false;
      }
      idx := next;
    }
    assert intList[..|intList|] == intList;
    ok := true;
  }

  /** buildTheBuffer: size the buffer, then write the command byte, each string's bytes and
      a zero, and each int's 4 bytes, through a running index. */
  method BuildTheBuffer(command: i32, stringList: seq<string>, intList: seq<i32>) returns (r: Result<array<i8>>)
    ensures Encoded(command, stringList, intList).Failure? ==> r == Failure(IndexOutOfBounds)
    ensures Encoded(command, stringList, intList).Success? ==>
              r.Success? && fresh(r.value) && r.value[..] == Encoded(command, stringList, intList).value
  {
    var size := AllocationSize(stringList, intList);
    var buffer := new i8[size];
    buffer[0] := ToByte(command);
    assert buffer[..1] == [ToByte(command)];
    var idx := WriteStrings(buffer, stringList);
    StringsFieldLength(stringList);
    if |intList| > 0 {
      var ok := WriteInts(buffer, idx, intList);
      if !ok {
        return Failure(IndexOutOfBounds);
      }
      assert buffer[..] == buffer[..idx + 4 * |intList|];
    } else {
      assert buffer[..] == buffer[..idx] + IntsField(intList);
    }
    r := Success(buffer);
  }

  /** The encoded buffer has exactly the size buildTheBuffer allocates:
      1 + Σ(|s| + 1) + 4·|ints| with strings, 1 with none. */
  lemma EncodedLength(command: i32, strings: seq<string>, ints: seq<i32>)
    requires strings != [] || ints == []
    ensures Encoded(command, strings, ints).Success?
    ensures |Encoded(command, strings, ints).value| == BufferSize(strings, ints)
    ensures strings == [] ==> |Encoded(command, strings, ints).value| == 1
    ensures Encoded(command, strings, ints).value[0] == ToByte(command)
  {
    StringsFieldLength(strings);
  }

  /** String k of the list sits StringsSize(ss[..k]) bytes into the string section,
      followed by exactly one zero. */
  lemma {:induction false} StringsFieldAt(ss: seq<string>, k: nat)
    requires k < |ss|
    ensures StringsSize(ss[..k]) + |ss[k]| < |StringsField(ss)|
    ensures StringsField(ss)[StringsSize(ss[..k])..StringsSize(ss[..k]) + |ss[k]| + 1] == GetBytes(ss[k]) + [0]
    decreases |ss|
  {
    var init := ss[..|ss| - 1];
    StringsFieldLength(ss);
    StringsFieldLength(init);
    if k < |ss| - 1 {
      assert ss[..k] == init[..k];
      StringsFieldAt(init, k);
      var o := StringsSize(ss[..k]);
      assert StringsField(ss)[o..o + |ss[k]| + 1] == StringsField(init)[o..o + |ss[k]| + 1];
    } else {
      assert ss[..k] == init;
    }
  }

  /** Int j of the list sits 4·j bytes into the integer section. */
  lemma {:induction false} IntsFieldAt(ints: seq<i32>, j: nat)
    requires j < |ints|
    ensures 4 * j + 4 <= |IntsField(ints)|
    ensures IntsField(ints)[4 * j..4 * j + 4] == CodeInteger(ints[j])
    decreases |ints|
  {
    var init := ints[..|ints| - 1];
    if j < |ints| - 1 {
      IntsFieldAt(init, j);
      assert IntsField(ints)[4 * j..4 * j + 4] == IntsField(init)[4 * j..4 * j + 4];
    }
  }

  lemma SliceOfConcat<T>(a: seq<T>, x: seq<T>, y: seq<T>, lo: nat, hi: nat)
    requires lo <= hi <= |x|
    ensures (a + x + y)[|a| + lo..|a| + hi] == x[lo..hi]
  {
    assert forall t :: lo <= t < hi ==> (a + x + y)[|a| + t] == x[t];
  }

  /** String k of the list starts at 1 + Σ_{i<k}(|s_i| + 1) of the buffer and is followed by one zero. */
  lemma EncodedStringAt(command: i32, strings: seq<string>, ints: seq<i32>, k: nat)
    requires strings != [] || ints == []
    requires k < |strings|
    ensures var b := Encoded(command, strings, ints).value;
            var o := 1 + StringsSize(strings[..k]);
            o + |strings[k]| < |b| && b[o..o + |strings[k]|] == GetBytes(strings[k]) && b[o + |strings[k]|] == 0
  {
    var sf, nf := StringsField(strings), IntsField(ints);
    var b := [ToByte(command)] + sf + nf;
    StringsFieldAt(strings, k);
    var o, n := StringsSize(strings[..k]), |strings[k]|;
    SliceOfConcat([ToByte(command)], sf, nf, o, o + n + 1);
    assert b[1 + o..1 + o + n + 1] == GetBytes(strings[k]) + [0];
    assert b[1 + o..1 + o + n] == b[1 + o..1 + o + n + 1][..n];
  }

  /** Int j of the list occupies 4 bytes at |b| - 4·|ints| + 4·j, that is, the ints fill the
      last 4·|ints| bytes in list order. */
  lemma EncodedIntAt(command: i32, strings: seq<string>, ints: seq<i32>, j: nat)
    requires strings != []
    requires j < |ints|
    ensures var b := Encoded(command, strings, ints).value;
            var o := |b| - 4 * |ints| + 4 * j;
            0 <= o && o + 4 <= |b| && b[o..o + 4] == CodeInteger(ints[j])
  {
    var sf, nf := StringsField(strings), IntsField(ints);
    IntsFieldAt(ints, j);
    SliceOfConcat([ToByte(command)] + sf, nf, [], 4 * j, 4 * j + 4);
    assert [ToByte(command)] + sf + nf == [ToByte(command)] + sf + nf + [];
  }

  // ---------------------------------------------------------------------------
  // Decoder

  /** ControlStructure: what decodeControlBuffer fills in. */
  datatype ControlStructure = ControlStructure(
    commandCode: int,
    endPoint: Option<string>,
    eventName: Option<string>,
    hwm: i32,
    rate: i32,
    ivl: i32)

  /** A freshly constructed ControlStructure: no strings, all ints 0. */
  function InitialStructure(commandCode: int): ControlStructure
  {
    ControlStructure(commandCode, None, None, 0, 0, 0)
  }

  /** What decodeControlBuffer returns: the command byte chooses which strings and ints to read. */
  function Decoded(b: seq<i8>): Result<ControlStructure>
  {
    if |b| == 0 then Failure(IndexOutOfBounds)
    else
      var code := b[0] as int;
      if code == ZmqEnd then Success(InitialStructure(code))
      else if code == ZmqConnectHeartbeat then DecodedHeartbeatFields(b)
      else if code == ZmqDisconnectHeartbeat || code == ZmqDisconnectEvent then DecodedNameField(b)
      else if code == ZmqConnectEvent then DecodedEventFields(b)
      else Failure(NotImplemented(code))
  }

  /** CONNECT_HEARTBEAT: the end point from index 1, then the heartbeat name after its zero. */
  function DecodedHeartbeatFields(b: seq<i8>): Result<ControlStructure>
    requires |b| > 0
  {
    var endPoint :- StringAt(b, 1);
    var eventName :- StringAt(b, 2 + |endPoint|);
    Success(InitialStructure(b[0] as int).(endPoint := Some(endPoint), eventName := Some(eventName)))
  }

  /** DISCONNECT_HEARTBEAT and DISCONNECT_EVENT: one name from index 1. */
  function DecodedNameField(b: seq<i8>): Result<ControlStructure>
    requires |b| > 0
  {
    var eventName :- StringAt(b, 1);
    Success(InitialStructure(b[0] as int).(eventName := Some(eventName)))
  }

  /** CONNECT_EVENT: end point, event name, then hwm, rate and ivl right after the name's zero. */
  function DecodedEventFields(b: seq<i8>): Result<ControlStructure>
    requires |b| > 0
  {
    var endPoint :- StringAt(b, 1);
    var eventName :- StringAt(b, 2 + |endPoint|);
    var at := 3 + |endPoint| + |eventName|;
    var hwm :- IntegerAt(b, at);
    var rate :- IntegerAt(b, at + 4);
    var ivl :- IntegerAt(b, at + 8);
    Success(ControlStructure(b[0] as int, Some(endPoint), Some(eventName), hwm, rate, ivl))
  }

  /** decodeControlBuffer: read the command byte, then thread a running index through the
      fields that command carries. */
  method DecodeControlBuffer(bytes: array<i8>) returns (r: Result<ControlStructure>)
    ensures r == Decoded(bytes[..])
  {
    if bytes.Length == 0 {
      return Failure(IndexOutOfBounds);
    }
    var cs := InitialStructure(-1);
    var idx := 0;
    cs := cs.(commandCode := bytes[idx] as int);
    idx := idx + 1;
    if cs.commandCode == ZmqEnd {
      // nothing to decode
    } else if cs.commandCode == ZmqConnectHeartbeat {
      var endPoint :- GetString(bytes, idx);
      idx := idx + 1;
      cs := cs.(endPoint := Some(endPoint));
      idx := idx + |endPoint|;
      var eventName :- GetString(bytes, idx);
      cs := cs.(eventName := Some(eventName));
      DecodedConnectHeartbeat(bytes[..], endPoint, eventName);
    } else if cs.commandCode == ZmqDisconnectHeartbeat {
      var eventName :- GetString(bytes, idx);
      cs := cs.(eventName := Some(eventName));
    } else if cs.commandCode == ZmqConnectEvent {
      var endPoint :- GetString(bytes, idx);
      idx := idx + 1;
      cs := cs.(endPoint := Some(endPoint));
      idx := idx + |endPoint|;
      var eventName :- GetString(bytes, idx);
      idx := idx + 1;
      cs := cs.(eventName := Some(eventName));
      idx := idx + |eventName|;
      var hwm :- GetInteger(bytes, idx);
      var rate :- GetInteger(bytes, idx + 4);
      var ivl :- GetInteger(bytes, idx + 8);
      cs := cs.(hwm := hwm, rate := rate, ivl := ivl);
      DecodedConnectEvent(bytes[..], endPoint, eventName, idx, hwm, rate, ivl);
    } else if cs.commandCode == ZmqDisconnectEvent {
      var eventName :- GetString(bytes, idx);
      cs := cs.(eventName := Some(eventName));
    } else {
      return Failure(NotImplemented(cs.commandCode));
    }
    r := Success(cs);
  }

  // ---------------------------------------------------------------------------
  // Round trip

  /** The fields each command carries, as the decoder reads them: END none; CONNECT_HEARTBEAT
      endpoint and heartbeat name; DISCONNECT_* one name; CONNECT_EVENT endpoint, event name
      and three ints. Every string is non-empty ASCII text without NUL. */
  predicate DecoderLayout(command: i32, strings: seq<string>, ints: seq<i32>)
  {
    && (forall k :: 0 <= k < |strings| ==> IsWireText(strings[k]))
    && (command == ZmqEnd ==> strings == [] && ints == [])
    && (command == ZmqConnectHeartbeat ==> |strings| == 2 && ints == [])
    && ((command == ZmqDisconnectHeartbeat || command == ZmqDisconnectEvent) ==> |strings| == 1 && ints == [])
    && (command == ZmqConnectEvent ==> |strings| == 2 && |ints| == 3)
    && 0 <= command <= 4
  }

  /** A one-string frame (DISCONNECT_HEARTBEAT, DISCONNECT_EVENT) decodes to its string. */
  lemma RoundTripOneString(command: i32, s: string)
    requires command == ZmqDisconnectHeartbeat || command == ZmqDisconnectEvent
    requires IsWireText(s)
    ensures Encoded(command, [s], []) == Success([command as i8] + GetBytes(s) + [0])
    ensures Decoded([command as i8] + GetBytes(s) + [0]) == Success(InitialStructure(command).(eventName := Some(s)))
  {
    var c: seq<i8> := [command as i8];
    assert [ToByte(command)] == c;
    assert StringsField([s]) == GetBytes(s) + [0] by {
      assert [s][..0] == [];
    }
    assert Encoded(command, [s], []).value == c + (GetBytes(s) + [0]) + IntsField([]);
    assert c + (GetBytes(s) + [0]) + IntsField([]) == c + GetBytes(s) + [0];
    StringAtTerminated(c, s, []);
    assert c + GetBytes(s) + [0] + [] == c + GetBytes(s) + [0];
  }

  lemma StringsFieldPair(s0: string, s1: string)
    ensures StringsField([s0, s1]) == GetBytes(s0) + [0] + GetBytes(s1) + [0]
  {
    assert StringsField([s0]) == GetBytes(s0) + [0] by {
      assert [s0][..0] == [];
    }
    assert [s0, s1][..1] == [s0];
  }

  lemma IntsFieldTriple(a: i32, b: i32, c: i32)
    ensures IntsField([a, b, c]) == CodeInteger(a) + CodeInteger(b) + CodeInteger(c)
  {
    assert IntsField([a]) == CodeInteger(a) by {
      assert [a][..0] == [];
    }
    assert [a, b][..1] == [a];
    assert [a, b, c][..2] == [a, b];
  }

  /** Both strings of a two-string frame are read back, whatever follows them. */
  lemma TwoStringsAt(c: seq<i8>, s0: string, s1: string, tail: seq<i8>)
    requires |c| == 1 && IsWireText(s0) && IsWireText(s1)
    ensures var b := c + GetBytes(s0) + [0] + GetBytes(s1) + [0] + tail;
      StringAt(b, 1) == Success(s0) && StringAt(b, 2 + |s0|) == Success(s1)
  {
    var b := c + GetBytes(s0) + [0] + GetBytes(s1) + [0] + tail;
    StringAtTerminated(c, s0, GetBytes(s1) + [0] + tail);
    assert b == c + GetBytes(s0) + [0] + (GetBytes(s1) + [0] + tail);
    StringAtTerminated(c + GetBytes(s0) + [0], s1, tail);
  }

  /** CONNECT_HEARTBEAT: endpoint and heartbeat name come back, the ints stay 0. */
  lemma RoundTripHeartbeat(endPoint: string, name: string)
    requires IsWireText(endPoint) && IsWireText(name)
    ensures Encoded(ZmqConnectHeartbeat, [endPoint, name], []).Success?
    ensures Decoded(Encoded(ZmqConnectHeartbeat, [endPoint, name], []).value)
         == Success(ControlStructure(ZmqConnectHeartbeat, Some(endPoint), Some(name), 0, 0, 0))
  {
    var c: seq<i8> := [ZmqConnectHeartbeat as i8];
    StringsFieldPair(endPoint, name);
    var b := c + GetBytes(endPoint) + [0] + GetBytes(name) + [0];
    assert Encoded(ZmqConnectHeartbeat, [endPoint, name], []).value == b + [];
    TwoStringsAt(c, endPoint, name, []);
    assert b + [] == b;
    DecodedConnectHeartbeat(b, endPoint, name);
  }

  /** The decoder's CONNECT_HEARTBEAT case, once its two string reads are known. */
  lemma DecodedConnectHeartbeat(b: seq<i8>, endPoint: string, name: string)
    requires |b| > 0 && b[0] as int == ZmqConnectHeartbeat
    requires StringAt(b, 1) == Success(endPoint) && StringAt(b, 2 + |endPoint|) == Success(name)
    ensures Decoded(b) == Success(ControlStructure(ZmqConnectHeartbeat, Some(endPoint), Some(name), 0, 0, 0))
  {
  }

  /** CONNECT_EVENT: endpoint, event name and hwm/rate/ivl all come back exactly. */
  lemma RoundTripEvent(endPoint: string, name: string, hwm: i32, rate: i32, ivl: i32)
    requires IsWireText(endPoint) && IsWireText(name)
    ensures Encoded(ZmqConnectEvent, [endPoint, name], [hwm, rate, ivl]).Success?
    ensures Decoded(Encoded(ZmqConnectEvent, [endPoint, name], [hwm, rate, ivl]).value)
         == Success(ControlStructure(ZmqConnectEvent, Some(endPoint), Some(name), hwm, rate, ivl))
  {
    var c: seq<i8> := [ZmqConnectEvent as i8];
    var pre := c + GetBytes(endPoint) + [0] + GetBytes(name) + [0];
    var ci := CodeInteger(hwm) + CodeInteger(rate) + CodeInteger(ivl);
    EncodedConnectEvent(endPoint, name, hwm, rate, ivl);
    TwoStringsAt(c, endPoint, name, ci);
    var b := pre + ci;
    var at := |pre|;
    ThreeIntegersAt(pre, at, hwm, rate, ivl, b);
    assert b[0] == ZmqConnectEvent as i8;
    DecodedConnectEvent(b, endPoint, name, at, hwm, rate, ivl);
  }

  /** The CONNECT_EVENT frame: the command byte, both strings, then the three ints. */
  lemma EncodedConnectEvent(endPoint: string, name: string, hwm: i32, rate: i32, ivl: i32)
    ensures Encoded(ZmqConnectEvent, [endPoint, name], [hwm, rate, ivl])
         == Success([ZmqConnectEvent as i8] + GetBytes(endPoint) + [0] + GetBytes(name) + [0]
                    + (CodeInteger(hwm) + CodeInteger(rate) + CodeInteger(ivl)))
  {
    var c: seq<i8> := [ZmqConnectEvent as i8];
    assert [ToByte(ZmqConnectEvent)] == c;
    StringsFieldPair(endPoint, name);
    IntsFieldTriple(hwm, rate, ivl);
    var ci := CodeInteger(hwm) + CodeInteger(rate) + CodeInteger(ivl);
    assert Encoded(ZmqConnectEvent, [endPoint, name], [hwm, rate, ivl]).value
        == c + (GetBytes(endPoint) + [0] + GetBytes(name) + [0]) + ci;
    assert c + (GetBytes(endPoint) + [0] + GetBytes(name) + [0]) + ci
        == c + GetBytes(endPoint) + [0] + GetBytes(name) + [0] + ci;
  }

  /** Three ints coded after a prefix are read back at the prefix's end, 4 and 8 bytes on. */
  lemma ThreeIntegersAt(pre: seq<i8>, at: nat, hwm: i32, rate: i32, ivl: i32, b: seq<i8>)
    requires at == |pre|
    requires b == pre + (CodeInteger(hwm) + CodeInteger(rate) + CodeInteger(ivl))
    ensures IntegerAt(b, at) == Success(hwm)
    ensures IntegerAt(b, at + 4) == Success(rate)
    ensures IntegerAt(b, at + 8) == Success(ivl)
  {
    assert b == pre + CodeInteger(hwm) + (CodeInteger(rate) + CodeInteger(ivl));
    IntegerAtCode(pre, hwm, CodeInteger(rate) + CodeInteger(ivl));
    assert b == pre + CodeInteger(hwm) + CodeInteger(rate) + CodeInteger(ivl);
    IntegerAtCode(pre + CodeInteger(hwm), rate, CodeInteger(ivl));
    assert b == pre + CodeInteger(hwm) + CodeInteger(rate) + CodeInteger(ivl) + [];
    IntegerAtCode(pre + CodeInteger(hwm) + CodeInteger(rate), ivl, []);
  }

  /** The decoder's CONNECT_EVENT case, once its field reads are known. */
  lemma DecodedConnectEvent(b: seq<i8>, endPoint: string, name: string, at: nat, hwm: i32, rate: i32, ivl: i32)
    requires |b| > 0 && b[0] as int == ZmqConnectEvent
    requires StringAt(b, 1) == Success(endPoint) && StringAt(b, 2 + |endPoint|) == Success(name)
    requires at == 3 + |endPoint| + |name|
    requires IntegerAt(b, at) == Success(hwm) && IntegerAt(b, at + 4) == Success(rate) && IntegerAt(b, at + 8) == Success(ivl)
    ensures Decoded(b) == Success(ControlStructure(ZmqConnectEvent, Some(endPoint), Some(name), hwm, rate, ivl))
  {
    assert DecodedEventFields(b) == Success(ControlStructure(ZmqConnectEvent, Some(endPoint), Some(name), hwm, rate, ivl));
  }

  /** decodeControlBuffer(buildTheBuffer(command, strings, ints)) gives back the command, the
      strings and (for CONNECT_EVENT) the three ints; other commands leave the ints at 0. */
  lemma DecodeEncodeRoundTrip(command: i32, strings: seq<string>, ints: seq<i32>)
    requires DecoderLayout(command, strings, ints)
    ensures Encoded(command, strings, ints).Success?
    ensures Decoded(Encoded(command, strings, ints).value) == Success(ControlStructure(
      command,
      if command == ZmqConnectHeartbeat || command == ZmqConnectEvent then Some(strings[0]) else None,
      if command == ZmqEnd then None else Some(strings[|strings| - 1]),
      if command == ZmqConnectEvent then ints[0] else 0,
      if command == ZmqConnectEvent then ints[1] else 0,
      if command == ZmqConnectEvent then ints[2] else 0))
  {
    if command == ZmqConnectHeartbeat {
      assert strings == [strings[0], strings[1]];
      RoundTripHeartbeat(strings[0], strings[1]);
    } else if command == ZmqConnectEvent {
      assert strings == [strings[0], strings[1]];
      assert ints == [ints[0], ints[1], ints[2]];
      RoundTripEvent(strings[0], strings[1], ints[0], ints[1], ints[2]);
    } else if command == ZmqEnd {
      assert Encoded(command, strings, ints).value == [ToByte(command)];
    } else {
      assert strings == [strings[0]];
      RoundTripOneString(command, strings[0]);
    }
  }

  /** A first byte outside 0..4 (99, say) is refused with API_NotImplemented. */
  lemma UnknownCommandRejected(b: seq<i8>)
    requires |b| > 0 && !(0 <= b[0] <= 4)
    ensures Decoded(b) == Failure(NotImplemented(b[0] as int))
  {
  }

  /** A command other than END whose first string is empty (a zero right after the command
      byte, or nothing at all) is refused with API_BadSyntax. */
  lemma EmptyStringRejected(b: seq<i8>)
    requires |b| > 0 && 1 <= b[0] <= 4
    requires |b| == 1 || b[1] == 0
    ensures Decoded(b) == Failure(BadSyntax)
  {
  }

  /** A buffer too short for its command byte fails as Java's array access does. */
  lemma EmptyBufferRejected()
    ensures Decoded([]) == Failure(IndexOutOfBounds)
  {
  }

  /** A CONNECT_EVENT frame whose two strings are intact but whose ints are cut short fails
      with an index error. */
  lemma TruncatedIntsRejected(endPoint: string, eventName: string, tail: seq<i8>)
    requires IsWireText(endPoint) && IsWireText(eventName) && |tail| < 12
    ensures Decoded([ZmqConnectEvent as i8] + GetBytes(endPoint) + [0] + GetBytes(eventName) + [0] + tail)
            == Failure(IndexOutOfBounds)
  {
    var c: seq<i8> := [ZmqConnectEvent as i8];
    var b := c + GetBytes(endPoint) + [0] + GetBytes(eventName) + [0] + tail;
    StringAtTerminated(c, endPoint, GetBytes(eventName) + [0] + tail);
    var head := c + GetBytes(endPoint) + [0];
    ConcatAssoc(head, GetBytes(eventName), [0]);
    ConcatAssoc(head, GetBytes(eventName) + [0], tail);
    StringAtTerminated(c + GetBytes(endPoint) + [0], eventName, tail);
  }
}
