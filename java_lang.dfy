/** The parts of the Java platform the SDK code leans on, stated as values:
    nullable references, the nullable Boolean, 32-bit int arithmetic and the
    java.lang.String operations the core calls (indexOf, trim, startsWith,
    contains, toLowerCase). */
module JavaLang {

  /** A Java reference that may be null. */
  datatype Option<+T> = None | Some(value: T) {
    function GetOr(default: T): T {
      match this
      case Some(v) => v
      case None => default
    }
  }

  /** java.lang.Boolean as a return value: TRUE, FALSE or null. */
  datatype JBool = JTrue | JFalse | JNull

  const INT_MIN: int := -0x8000_0000
  const INT_MAX: int := 0x7fff_ffff
  const TWO_32: int := 0x1_0000_0000

  predicate IsInt32(x: int) {
    INT_MIN <= x <= INT_MAX
  }

  /** The value a Java `int` holds after an arithmetic result `x` wraps around. */
  function Wrap32(x: int): (r: int)
    ensures IsInt32(r)
    ensures (r - x) % TWO_32 == 0
    ensures IsInt32(x) ==> r == x
  {
    var m := (x - INT_MIN) % TWO_32;
    m + INT_MIN
  }

  /** The characters String.trim removes: every char up to U+0020. */
  predicate IsTrimmable(c: char) {
    c <= ' '
  }

  /** String.indexOf(char): the first position of `c`, or -1. */
  function IndexOfChar(s: string, c: char): (r: int)
    ensures -1 <= r < |s|
    ensures r == -1 <==> c !in s
    ensures 0 <= r ==> s[r] == c && c !in s[..r]
  {
    if |s| == 0 then -1
    else if s[0] == c then 0
    else
      var k := IndexOfChar(s[1..], c);
      assert s[1..][..if k < 0 then 0 else k] == s[1..1 + (if k < 0 then 0 else k)];
      if k < 0 then -1 else k + 1
  }

  /** The first position of `c` is the one with no `c` before it. */
  lemma IndexOfCharIs(s: string, c: char, i: int)
    requires 0 <= i < |s| && s[i] == c && c !in s[..i]
    ensures IndexOfChar(s, c) == i
  {
  }

  /** `p` occurs in `s` starting at position `i`. */
  predicate OccursAt(s: string, p: string, i: int) {
    0 <= i && i + |p| <= |s| && s[i..i + |p|] == p
  }

  /** String.indexOf(String): the first position where `p` occurs, or -1. */
  function IndexOf(s: string, p: string): (r: int)
    ensures -1 <= r <= |s|
    ensures r == -1 <==> forall i :: !OccursAt(s, p, i)
    ensures 0 <= r ==> OccursAt(s, p, r) && forall i :: 0 <= i < r ==> !OccursAt(s, p, i)
    decreases |s|
  {
    if |p| > |s| then -1
    else if s[..|p|] == p then
      assert OccursAt(s, p, 0);
      0
    else
      var k := IndexOf(s[1..], p);
      ShiftOccurrence(s, p);
      assert !OccursAt(s, p, 0);
      assert forall i :: OccursAt(s, p, i) ==> i == 0 || OccursAt(s[1..], p, i - 1);
      if k < 0 then -1 else k + 1
  }

  /** An occurrence at i + 1 in `s` is an occurrence at i in `s[1..]`. */
  lemma ShiftOccurrence(s: string, p: string)
    requires |s| > 0
    ensures forall i :: 0 <= i ==> (OccursAt(s, p, i + 1) <==> OccursAt(s[1..], p, i))
  {
    forall i | 0 <= i
      ensures OccursAt(s, p, i + 1) <==> OccursAt(s[1..], p, i)
    {
      if i + 1 + |p| <= |s| {
        SliceOfSlice(s, 1, |s|, i, i + |p|);
      }
    }
  }

  /** An occurrence inside a slice is an occurrence in the whole string. */
  lemma OccursInSlice(s: string, b: int, e: int, p: string, i: int)
    requires 0 <= b <= e <= |s| && OccursAt(s[b..e], p, i)
    ensures OccursAt(s, p, b + i)
  {
    SliceOfSlice(s, b, e, i, i + |p|);
  }

  lemma SliceOfSlice(s: string, b: int, e: int, i: int, j: int)
    requires 0 <= b <= e <= |s| && 0 <= i <= j <= e - b
    ensures s[b..e][i..j] == s[b + i..b + j]
  {
    var x, y := s[b..e][i..j], s[b + i..b + j];
    forall k | 0 <= k < |x| ensures x[k] == y[k] {
      assert x[k] == s[b + i + k];
    }
  }

  /** String.contains(CharSequence) on two non-null strings. */
  predicate Contains(s: string, p: string) {
    IndexOf(s, p) >= 0
  }

  /** String.startsWith(String). */
  predicate StartsWith(s: string, p: string) {
    |p| <= |s| && s[..|p|] == p
  }

  /** Removes leading trimmable characters. */
  function TrimStart(s: string): (r: string)
    ensures |r| <= |s| && r == s[|s| - |r|..]
    ensures r == [] || !IsTrimmable(r[0])
    ensures forall k :: 0 <= k < |s| - |r| ==> IsTrimmable(s[k])
  {
    if |s| == 0 || !IsTrimmable(s[0]) then s else TrimStart(s[1..])
  }

  /** Removes trailing trimmable characters. */
  function TrimEnd(s: string): (r: string)
    ensures |r| <= |s| && r == s[..|r|]
    ensures r == [] || !IsTrimmable(r[|r| - 1])
    ensures forall k :: |r| <= k < |s| ==> IsTrimmable(s[k])
  {
    if |s| == 0 || !IsTrimmable(s[|s| - 1]) then s else TrimEnd(s[..|s| - 1])
  }

  /** String.trim(): the longest slice of `s` that neither starts nor ends
      with a character up to U+0020. */
  function Trim(s: string): (r: string)
    ensures r == [] || (!IsTrimmable(r[0]) && !IsTrimmable(r[|r| - 1]))
    ensures exists i :: OccursAt(s, r, i) && (forall k :: 0 <= k < i ==> IsTrimmable(s[k]))
                        && (forall k :: i + |r| <= k < |s| ==> IsTrimmable(s[k]))
  {
    var t := TrimStart(s);
    var r := TrimEnd(t);
    var i := |s| - |t|;
    assert s[i..i + |r|] == r;
    assert OccursAt(s, r, i);
    r
  }

  /** Character.toLowerCase on the ASCII letters. */
  function ToLowerChar(c: char): (r: char)
    ensures 'A' <= c <= 'Z' ==> 'a' <= r <= 'z' && r as int - 'a' as int == c as int - 'A' as int
    ensures !('A' <= c <= 'Z') ==> r == c
  {
    if 'A' <= c <= 'Z' then (c as int - 'A' as int + 'a' as int) as char else c
  }

  /** String.toLowerCase() restricted to ASCII letters. */
  function ToLowerCase(s: string): (r: string)
    ensures |r| == |s|
    ensures forall k :: 0 <= k < |s| ==> r[k] == ToLowerChar(s[k])
  {
    seq(|s|, k requires 0 <= k < |s| => ToLowerChar(s[k]))
  }
}
