/** The string helpers of the messaging package (messaging/Utils): a
    separator join, null-safe emptiness, equality and containment tests and
    a byte-to-hex encoder. A Java `String`/`Object` that may be null is an
    `Option`, a Java `byte` a `JByte`. */
module MessagingUtils {
  import opened JavaLang

  /** A signed Java byte. */
  newtype JByte = x: int | -128 <= x < 128

  /** The BASE_16 table: upper-case hex digits. */
  const BASE_16: string := "0123456789ABCDEF"

  // ---------------------------------------------------------------- join

  /** String.valueOf for a value StringBuilder.append receives: null appends
      the four letters "null". */
  function ValueOf(o: Option<string>): string {
    match o
    case Some(s) => s
    case None => "null"
  }

  /** The elements in order, with the separator between neighbours. */
  function JoinOf(parts: seq<string>, separator: string): string
  {
    if |parts| == 0 then ""
    else if |parts| == 1 then parts[0]
    else JoinOf(parts[..|parts| - 1], separator) + separator + parts[|parts| - 1]
  }

  /** Utils.join: appends each element and, while another follows, the
      separator. */
  method Join(objects: seq<Option<string>>, separator: Option<string>) returns (r: string)
    ensures r == JoinOf(seq(|objects|, k requires 0 <= k < |objects| => ValueOf(objects[k])), ValueOf(separator))
    ensures |objects| == 0 ==> r == ""
    ensures |objects| == 1 ==> r == ValueOf(objects[0])
  {
    ghost var parts := seq(|objects|, k requires 0 <= k < |objects| => ValueOf(objects[k]));
    var sep := ValueOf(separator);
    var sb := "";
    var i := 0;
    while i < |objects|
      invariant 0 <= i <= |objects|
      invariant sb == JoinOf(parts[..i], sep) + (if 0 < i < |objects| then sep else "")
    {
      assert parts[..i + 1][..i] == parts[..i];
      sb := sb + ValueOf(objects[i]);
      i := i + 1;
      if i < |objects| {
        sb := sb + sep;
      }
    }
    assert parts[..|objects|] == parts;
    r := sb;
  }

  /** Total length of the elements. */
  function TotalLength(parts: seq<string>): nat {
    if |parts| == 0 then 0 else TotalLength(parts[..|parts| - 1]) + |parts[|parts| - 1]|
  }

  /** Joining n elements adds max(n - 1, 0) separators to their text. */
  lemma {:induction false} JoinLength(parts: seq<string>, separator: string)
    ensures |JoinOf(parts, separator)| == TotalLength(parts) + (if |parts| == 0 then 0 else (|parts| - 1) * |separator|)
    decreases |parts|
  {
    if |parts| > 1 {
      var init := parts[..|parts| - 1];
      JoinLength(init, separator);
      assert init[..|init| - 1] == parts[..|parts| - 2];
    } else if |parts| == 1 {
      assert TotalLength(parts) == TotalLength(parts[..0]) + |parts[0]|;
    }
  }

  /** Where element k starts in the joined text. */
  function Offset(parts: seq<string>, separator: string, k: nat): nat
    requires k <= |parts|
  {
    TotalLength(parts[..k]) + k * |separator|
  }

  lemma TotalLengthStep(parts: seq<string>, k: nat)
    requires k < |parts|
    ensures TotalLength(parts[..k + 1]) == TotalLength(parts[..k]) + |parts[k]|
  {
    assert parts[..k + 1][..k] == parts[..k];
  }

  /** An occurrence survives appending text behind it. */
  lemma OccursInLonger(a: string, b: string, p: string, i: int)
    requires OccursAt(a, p, i)
    ensures OccursAt(a + b, p, i)
  {
    assert (a + b)[i..i + |p|] == a[i..i + |p|];
  }

  lemma OccursAtEnd(a: string, p: string)
    ensures OccursAt(a + p, p, |a|)
  {
    assert (a + p)[|a|..|a| + |p|] == p;
  }

  /** How the joined text of n >= 2 elements splits at its last separator. */
  lemma JoinSnoc(parts: seq<string>, separator: string)
    requires |parts| >= 2
    ensures JoinOf(parts, separator) == (JoinOf(parts[..|parts| - 1], separator) + separator) + parts[|parts| - 1]
    ensures |JoinOf(parts[..|parts| - 1], separator)| + |separator| == Offset(parts, separator, |parts| - 1)
    ensures Offset(parts, separator, |parts| - 2) + |parts[|parts| - 2]| == |JoinOf(parts[..|parts| - 1], separator)|
  {
    var n := |parts|;
    var init := parts[..n - 1];
    JoinLength(init, separator);
    FrontEndsBeforeSeparator(parts, separator, TotalLength(init));
    assert init[..n - 2] == parts[..n - 2];
    assert TotalLength(init) == TotalLength(parts[..n - 2]) + |parts[n - 2]|;
  }

  /** The arithmetic of JoinSnoc: n - 2 separators plus one is n - 1. */
  lemma FrontEndsBeforeSeparator(parts: seq<string>, separator: string, total: nat)
    requires |parts| >= 2 && total == TotalLength(parts[..|parts| - 1])
    ensures total + (|parts| - 2) * |separator| + |separator| == Offset(parts, separator, |parts| - 1)
  {
    MulStep(|parts| - 2, |separator|);
  }

  lemma MulStep(a: nat, b: nat)
    ensures (a + 1) * b == a * b + b
  {
  }

  lemma OffsetInInit(parts: seq<string>, separator: string, k: nat)
    requires k < |parts|
    ensures Offset(parts[..|parts| - 1], separator, k) == Offset(parts, separator, k)
  {
    assert parts[..|parts| - 1][..k] == parts[..k];
  }

  /** Element k sits at Offset(k), and after it, unless it is the last, the
      separator follows: the elements appear in order with one separator
      between each pair of neighbours. */
  lemma {:induction false} JoinLayout(parts: seq<string>, separator: string, k: nat)
    requires k < |parts|
    ensures OccursAt(JoinOf(parts, separator), parts[k], Offset(parts, separator, k))
    ensures k + 1 < |parts| ==> OccursAt(JoinOf(parts, separator), separator, Offset(parts, separator, k) + |parts[k]|)
    decreases |parts|
  {
    var n := |parts|;
    if n == 1 {
      assert parts[..0] == [];
      OccursAtEnd("", parts[0]);
      assert "" + parts[0] == parts[0];
    } else {
      var front := JoinOf(parts[..n - 1], separator);
      var last := parts[n - 1];
      JoinSnoc(parts, separator);
      var o := Offset(parts, separator, k);
      if k == n - 1 {
        OccursAtEnd(front + separator, last);
      } else {
        JoinLayout(parts[..n - 1], separator, k);
        OffsetInInit(parts, separator, k);
        OccursInLonger(front, separator + last, parts[k], o);
        assert front + (separator + last) == (front + separator) + last;
        if k + 1 < n - 1 {
          OccursInLonger(front, separator + last, separator, o + |parts[k]|);
        } else {
          OccursAtEnd(front, separator);
          OccursInLonger(front + separator, last, separator, |front|);
        }
      }
    }
  }

  // ---------------------------------------------------------- null-safe tests

  /** Utils.isEmpty: null or "". */
  predicate IsEmpty(str: Option<string>) {
    str == None || str == Some("")
  }

  /** Utils.isNotEmpty. */
  predicate IsNotEmpty(str: Option<string>) {
    !IsEmpty(str)
  }

  /** A string is non-empty exactly when it is present and has a character. */
  lemma NotEmptyMeansCharacters(str: Option<string>)
    ensures IsNotEmpty(str) <==> str.Some? && |str.value| > 0
    ensures IsEmpty(str) <==> str.None? || |str.value| == 0
  {
    if str.Some? && |str.value| == 0 {
      assert str.value == "";
    }
  }

  /** Utils.isEqual: two nulls are equal, null and non-null are not, and two
      references are compared with equals (value equality here). */
  predicate IsEqual<T(==)>(a: Option<T>, b: Option<T>) {
    if a.None? || b.None? then a == b else a.value == b.value
  }

  /** Utils.isNotEqual. */
  predicate IsNotEqual<T(==)>(a: Option<T>, b: Option<T>) {
    !IsEqual(a, b)
  }

  /** isEqual is value equality on nullable values: symmetric, and null
      equals exactly null. */
  lemma IsEqualIsEquality<T>(a: Option<T>, b: Option<T>)
    ensures IsEqual(a, b) <==> a == b
    ensures IsEqual(a, b) == IsEqual(b, a)
    ensures IsEqual(a, None) <==> a.None?
    ensures IsNotEqual(a, b) <==> a != b
  {
  }

  /** Utils.contains: false when either side is null, else String.contains. */
  function StringContains(str: Option<string>, part: Option<string>): (r: bool)
    ensures str.None? || part.None? ==> !r
    ensures r <==> str.Some? && part.Some? && exists i :: OccursAt(str.value, part.value, i)
  {
    if str.None? || part.None? then false else Contains(str.value, part.value)
  }

  /** Every non-null string contains the empty string and itself. */
  lemma {:induction false} ContainsEmptyAndSelf(s: string)
    ensures StringContains(Some(s), Some(""))
    ensures StringContains(Some(s), Some(s))
  {
    assert OccursAt(s, "", 0);
    assert OccursAt(s, s, 0);
  }

  // ---------------------------------------------------------------- hex

  /** `b & 0xFF`: the byte read as an unsigned value. */
  function Unsigned(b: JByte): (v: int)
    ensures 0 <= v < 256
    ensures (v - b as int) % 256 == 0
  {
    if b < 0 then b as int + 256 else b as int
  }

  /** `v >>> 4` and `v & 0x0F` of the unsigned byte. */
  function HighNibble(b: JByte): (h: int)
    ensures 0 <= h < 16
  {
    Unsigned(b) / 16
  }

  function LowNibble(b: JByte): (l: int)
    ensures 0 <= l < 16
    ensures HighNibble(b) * 16 + l == Unsigned(b)
  {
    Unsigned(b) % 16
  }

  /** The lower-case hex digit of a nibble. */
  function HexDigit(d: int): (c: char)
    requires 0 <= d < 16
  {
    if d < 10 then ('0' as int + d) as char else ('a' as int + d - 10) as char
  }

  /** The alphabet of the encoder's output: 0-9 and a-f. */
  predicate IsLowerHexDigit(c: char) {
    '0' <= c <= '9' || 'a' <= c <= 'f'
  }

  /** The lower-case hex text of the bytes, two digits per byte, high
      nibble first. */
  function HexOf(bytes: seq<JByte>): string
  {
    if |bytes| == 0 then ""
    else [HexDigit(HighNibble(bytes[0])), HexDigit(LowNibble(bytes[0]))] + HexOf(bytes[1..])
  }

  lemma {:induction false} HexOfLength(bytes: seq<JByte>)
    ensures |HexOf(bytes)| == 2 * |bytes|
    decreases |bytes|
  {
    if |bytes| > 0 {
      HexOfLength(bytes[1..]);
    }
  }

  /** HexOf has two digits per byte: characters 2j and 2j+1 are the digits
      of the high and low nibble of byte j. */
  lemma {:induction false} HexOfLayout(bytes: seq<JByte>, j: nat)
    requires j < |bytes|
    ensures |HexOf(bytes)| == 2 * |bytes|
    ensures HexOf(bytes)[2 * j] == HexDigit(HighNibble(bytes[j]))
    ensures HexOf(bytes)[2 * j + 1] == HexDigit(LowNibble(bytes[j]))
    decreases |bytes|
  {
    HexOfLength(bytes);
    if j > 0 {
      HexOfLayout(bytes[1..], j - 1);
    }
  }

  /** The upper-case hex digit of a nibble. */
  function UpperDigit(d: int): (c: char)
    requires 0 <= d < 16
    ensures ToLowerChar(c) == HexDigit(d)
  {
    if d < 10 then ('0' as int + d) as char else ('A' as int + d - 10) as char
  }

  /** BASE_16 holds the upper-case digits in order. */
  lemma {:induction false} Base16Table(d: int)
    requires 0 <= d < 16
    ensures BASE_16[d] == UpperDigit(d)
  {
    assert BASE_16 == ['0', '1', '2', '3', '4', '5', '6', '7', '8', '9', 'A', 'B', 'C', 'D', 'E', 'F'];
  }

  /** Utils.hex: fills a char array from the upper-case table, then
      lower-cases the string. */
  method Hex(bytes: seq<JByte>) returns (r: string)
    ensures |r| == 2 * |bytes|
    ensures forall j :: 0 <= j < |bytes| ==>
              r[2 * j] == HexDigit(HighNibble(bytes[j])) && r[2 * j + 1] == HexDigit(LowNibble(bytes[j]))
    ensures r == HexOf(bytes)
  {
    var hexChars := new char[|bytes| * 2];
    for j := 0 to |bytes|
      invariant forall k :: 0 <= k < j ==>
                  hexChars[2 * k] == UpperDigit(HighNibble(bytes[k])) && hexChars[2 * k + 1] == UpperDigit(LowNibble(bytes[k]))
    {
      var v := Unsigned(bytes[j]);
      Base16Table(v / 16);
      Base16Table(v % 16);
      hexChars[j * 2] := BASE_16[v / 16];
      hexChars[j * 2 + 1] := BASE_16[v % 16];
    }
    r := ToLowerCase(hexChars[..]);
    LowerCasedTable(hexChars[..], bytes);
    HexOfLayouts(bytes);
  }

  /** The upper-case text the loop fills, lower-cased, is HexOf. */
  lemma LowerCasedTable(t: string, bytes: seq<JByte>)
    requires |t| == 2 * |bytes|
    requires forall k :: 0 <= k < |bytes| ==> t[2 * k] == UpperDigit(HighNibble(bytes[k])) && t[2 * k + 1] == UpperDigit(LowNibble(bytes[k]))
    ensures ToLowerCase(t) == HexOf(bytes)
  {
    var r := ToLowerCase(t);
    HexOfLayouts(bytes);
    forall j | 0 <= j < |bytes|
      ensures r[2 * j] == HexDigit(HighNibble(bytes[j])) && r[2 * j + 1] == HexDigit(LowNibble(bytes[j]))
    {
      assert r[2 * j] == ToLowerChar(t[2 * j]);
      assert r[2 * j + 1] == ToLowerChar(t[2 * j + 1]);
    }
    PairwiseEqual(r, HexOf(bytes), |bytes|);
  }

  /** Two texts of 2n characters that agree on every pair are equal. */
  lemma PairwiseEqual(a: string, b: string, n: nat)
    requires |a| == 2 * n && |b| == 2 * n
    requires forall j :: 0 <= j < n ==> a[2 * j] == b[2 * j] && a[2 * j + 1] == b[2 * j + 1]
    ensures a == b
  {
    forall i | 0 <= i < |a| ensures a[i] == b[i] {
      var j := i / 2;
      assert i == 2 * j || i == 2 * j + 1;
    }
  }

  /** HexOfLayout for every byte at once. */
  lemma HexOfLayouts(bytes: seq<JByte>)
    ensures |HexOf(bytes)| == 2 * |bytes|
    ensures forall j :: 0 <= j < |bytes| ==>
              HexOf(bytes)[2 * j] == HexDigit(HighNibble(bytes[j])) && HexOf(bytes)[2 * j + 1] == HexDigit(LowNibble(bytes[j]))
  {
    HexOfLength(bytes);
    forall j | 0 <= j < |bytes|
      ensures HexOf(bytes)[2 * j] == HexDigit(HighNibble(bytes[j])) && HexOf(bytes)[2 * j + 1] == HexDigit(LowNibble(bytes[j]))
    {
      HexOfLayout(bytes, j);
    }
  }

  /** Every character of the hex text is one of 0-9 a-f; there is no
      upper-case letter left. */
  lemma HexAlphabet(bytes: seq<JByte>)
    ensures forall i :: 0 <= i < |HexOf(bytes)| ==> IsLowerHexDigit(HexOf(bytes)[i])
  {
    HexOfLength(bytes);
    forall i | 0 <= i < |HexOf(bytes)| ensures IsLowerHexDigit(HexOf(bytes)[i]) {
      HexOfLayout(bytes, i / 2);
    }
  }

  /** The value of a lower-case hex digit. */
  function DigitValue(c: char): (r: Option<int>)
    ensures r.Some? ==> 0 <= r.value < 16 && HexDigit(r.value) == c
    ensures r.None? <==> !IsLowerHexDigit(c)
  {
    if '0' <= c <= '9' then Some(c as int - '0' as int)
    else if 'a' <= c <= 'f' then Some(c as int - 'a' as int + 10)
    else None
  }

  lemma DigitValueOfDigit(d: int)
    requires 0 <= d < 16
    ensures DigitValue(HexDigit(d)) == Some(d)
  {
  }

  /** The byte whose unsigned value is v. */
  function SignedByte(v: int): (b: JByte)
    requires 0 <= v < 256
    ensures Unsigned(b) == v
  {
    if v >= 128 then (v - 256) as JByte else v as JByte
  }

  /** A decoder for the encoder's output: pairs of lower-case digits. */
  function HexDecode(s: string): Option<seq<JByte>>
    decreases |s|
  {
    if |s| < 2 then (if |s| == 0 then Some([]) else None)
    else
      var hi, lo, rest := DigitValue(s[0]), DigitValue(s[1]), HexDecode(s[2..]);
      if hi.Some? && lo.Some? && rest.Some? then Some([SignedByte(hi.value * 16 + lo.value)] + rest.value) else None
  }

  /** Decoding the hex text gives back the bytes. */
  lemma {:induction false} HexRoundTrip(bytes: seq<JByte>)
    ensures HexDecode(HexOf(bytes)) == Some(bytes)
    decreases |bytes|
  {
    if |bytes| > 0 {
      HexRoundTrip(bytes[1..]);
      var b := bytes[0];
      var h := HexOf(bytes);
      assert h[2..] == HexOf(bytes[1..]);
      DigitValueOfDigit(HighNibble(b));
      DigitValueOfDigit(LowNibble(b));
      UnsignedInjective(SignedByte(HighNibble(b) * 16 + LowNibble(b)), b);
      assert [b] + bytes[1..] == bytes;
    }
  }

  lemma UnsignedInjective(a: JByte, b: JByte)
    requires Unsigned(a) == Unsigned(b)
    ensures a == b
  {
  }

  /** Only the encoder's output decodes: a successful decode encodes back
      to the text it came from. */
  lemma {:induction false} HexDecodeCanonical(s: string, bytes: seq<JByte>)
    requires HexDecode(s) == Some(bytes)
    ensures HexOf(bytes) == s
    decreases |s|
  {
    if |s| > 0 {
      var hi, lo := DigitValue(s[0]).value, DigitValue(s[1]).value;
      var rest := HexDecode(s[2..]).value;
      HexDecodeCanonical(s[2..], rest);
      var b := SignedByte(hi * 16 + lo);
      assert bytes == [b] + rest;
      assert bytes[1..] == rest;
      NibblesOf(b, hi, lo);
      assert HexOf(bytes) == [s[0], s[1]] + s[2..];
    }
  }

  /** The nibbles of the byte built from two digits are those digits. */
  lemma NibblesOf(b: JByte, hi: int, lo: int)
    requires 0 <= hi < 16 && 0 <= lo < 16 && Unsigned(b) == hi * 16 + lo
    ensures HighNibble(b) == hi && LowNibble(b) == lo
  {
  }

  /** Different byte strings have different hex texts. */
  lemma HexInjective(a: seq<JByte>, b: seq<JByte>)
    requires HexOf(a) == HexOf(b)
    ensures a == b
  {
    HexRoundTrip(a);
    HexRoundTrip(b);
  }
}
