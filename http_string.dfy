/**
 * io.undertow.util.HttpString: an immutable Latin-1 byte string whose
 * equality, hash code and ordering ignore ASCII case.  An instance is backed
 * by a byte array, a String, or both; getBytes, toString and hashCode fill
 * the missing representation (or the hash) lazily.
 *
 * The content functions below (UpperCase, FoldEqual, Hash, CompareFolded)
 * state what the private static loops compute; the methods with loops are
 * proved against them.  Where the class consults the cached String instead of
 * the bytes, java.lang.String's case rules enter; those are modelled for
 * Latin-1 text as AsWritten functions, and the class implements the
 * representation-independent rule (see the Findings section of README.md).
 */
module HttpStrings {
  import opened Octets

  datatype HttpError = IllegalArgument | IllegalState | IndexOutOfBounds

  datatype Result<T> = Ok(value: T) | Err(error: HttpError)

  // ---------------------------------------------------------------------
  // Case folding of bytes (HttpString.upperCase)
  // ---------------------------------------------------------------------

  predicate IsLowerAscii(b: Byte) {
    'a' as int <= b <= 'z' as int
  }

  /** upperCase(byte): the signed value of b, with bit 0x20 cleared for 'a'..'z' only. */
  function UpperCase(b: Byte): (r: int)
    ensures IsLowerAscii(b) ==> r == b - 32
    ensures !IsLowerAscii(b) ==> r == Signed(b)
  {
    if IsLowerAscii(b) then ((b as bv8) & 0xDF) as int else Signed(b)
  }

  /** Byte arrays equal ignoring ASCII case: same length, and every pair equal after UpperCase. */
  predicate FoldEqual(a: seq<Byte>, b: seq<Byte>) {
    |a| == |b| && forall i :: 0 <= i < |a| ==> UpperCase(a[i]) == UpperCase(b[i])
  }

  lemma FoldEqualIsEquivalence(a: seq<Byte>, b: seq<Byte>, c: seq<Byte>)
    ensures FoldEqual(a, a)
    ensures FoldEqual(a, b) ==> FoldEqual(b, a)
    ensures FoldEqual(a, b) && FoldEqual(b, c) ==> FoldEqual(a, c)
  {
  }

  /** arrayEqualIgnoreCase (HttpString.java:347-356). */
  method ArrayEqualIgnoreCase(a: seq<Byte>, b: seq<Byte>) returns (r: bool)
    ensures r == FoldEqual(a, b)
  {
    if |a| != |b| {
      return false;
    }
    var i := 0;
    while i < |a|
      invariant 0 <= i <= |a|
      invariant forall k :: 0 <= k < i ==> UpperCase(a[k]) == UpperCase(b[k])
    {
      if a[i] != b[i] && UpperCase(a[i]) != UpperCase(b[i]) {
        return false;
      }
      i := i + 1;
    }
    return true;
  }

  // ---------------------------------------------------------------------
  // Hash code (calcHashCode, hashCodeOf)
  // ---------------------------------------------------------------------

  /** One step of hc = (hc << 4) + hc + upperCase(b) in 32-bit int arithmetic. */
  function HashStep(hc: int, b: Byte): int {
    Wrap32(Wrap32(Wrap32(hc * 16) + hc) + UpperCase(b))
  }

  /** The hash of a byte sequence: seed 17, then one HashStep per byte, left to right. */
  function Hash(s: seq<Byte>): (r: int)
    ensures IsInt32(r)
    decreases |s|
  {
    if |s| == 0 then 17 else HashStep(Hash(s[..|s| - 1]), s[|s| - 1])
  }

  /** calcHashCode (HttpString.java:335-341). */
  method CalcHashCode(bytes: seq<Byte>) returns (hc: int)
    ensures hc == Hash(bytes)
  {
    hc := 17;
    var i := 0;
    while i < |bytes|
      invariant 0 <= i <= |bytes|
      invariant hc == Hash(bytes[..i])
    {
      assert bytes[..i + 1][..i] == bytes[..i];
      hc := Wrap32(Wrap32(Wrap32(hc * 16) + hc) + UpperCase(bytes[i]));
      i := i + 1;
    }
    assert bytes[..i] == bytes;
  }

  /** hashCodeOf(String) (HttpString.java:383-390): the same recurrence on (byte) charAt(i). */
  method HashCodeOf(name: string) returns (hc: int)
    ensures hc == Hash(LowBytes(name))
  {
    hc := 17;
    var i := 0;
    ghost var bs := LowBytes(name);
    while i < |name|
      invariant 0 <= i <= |name|
      invariant hc == Hash(bs[..i])
    {
      assert bs[..i + 1][..i] == bs[..i];
      hc := Wrap32(Wrap32(Wrap32(hc * 16) + hc) + UpperCase(LowByte(name[i])));
      i := i + 1;
    }
    assert bs[..i] == bs;
  }

  /** Arrays that are equal ignoring ASCII case have the same hash. */
  lemma {:induction false} HashOfFoldEqual(a: seq<Byte>, b: seq<Byte>)
    requires FoldEqual(a, b)
    ensures Hash(a) == Hash(b)
    decreases |a|
  {
    if |a| > 0 {
      var n := |a| - 1;
      assert FoldEqual(a[..n], b[..n]) by {
        forall i | 0 <= i < n ensures UpperCase(a[..n][i]) == UpperCase(b[..n][i]) {
          assert a[..n][i] == a[i] && b[..n][i] == b[i];
        }
      }
      HashOfFoldEqual(a[..n], b[..n]);
      assert UpperCase(a[n]) == UpperCase(b[n]);
    }
  }

  // ---------------------------------------------------------------------
  // Ordering (arrayCompareToIgnoreCase)
  // ---------------------------------------------------------------------

  /** For arrays of equal length: the signum at the first position whose folded bytes differ, else 0. */
  function CompareFolded(a: seq<Byte>, b: seq<Byte>): (r: int)
    requires |a| == |b|
    ensures r == -1 || r == 0 || r == 1
  {
    if |a| == 0 then 0
    else if UpperCase(a[0]) != UpperCase(b[0]) then Signum(UpperCase(a[0]) - UpperCase(b[0]))
    else CompareFolded(a[1..], b[1..])
  }

  lemma {:induction false} CompareFoldedZeroIff(a: seq<Byte>, b: seq<Byte>)
    requires |a| == |b|
    ensures CompareFolded(a, b) == 0 <==> FoldEqual(a, b)
  {
    if |a| > 0 && UpperCase(a[0]) == UpperCase(b[0]) {
      CompareFoldedZeroIff(a[1..], b[1..]);
      if FoldEqual(a[1..], b[1..]) {
        forall i | 0 <= i < |a| ensures UpperCase(a[i]) == UpperCase(b[i]) {
          if i > 0 { assert a[1..][i - 1] == a[i] && b[1..][i - 1] == b[i]; }
        }
      }
      if FoldEqual(a, b) {
        forall i | 0 <= i < |a| - 1 ensures UpperCase(a[1..][i]) == UpperCase(b[1..][i]) {
          assert a[1..][i] == a[i + 1] && b[1..][i] == b[i + 1];
        }
      }
    }
  }

  lemma {:induction false} CompareFoldedAntisymmetric(a: seq<Byte>, b: seq<Byte>)
    requires |a| == |b|
    ensures CompareFolded(b, a) == -CompareFolded(a, b)
  {
    if |a| > 0 && UpperCase(a[0]) == UpperCase(b[0]) {
      CompareFoldedAntisymmetric(a[1..], b[1..]);
    }
  }

  lemma {:induction false} CompareFoldedTransitive(a: seq<Byte>, b: seq<Byte>, c: seq<Byte>)
    requires |a| == |b| == |c|
    requires CompareFolded(a, b) < 0 && CompareFolded(b, c) < 0
    ensures CompareFolded(a, c) < 0
  {
    if UpperCase(a[0]) == UpperCase(b[0]) && UpperCase(b[0]) == UpperCase(c[0]) {
      CompareFoldedTransitive(a[1..], b[1..], c[1..]);
    }
  }

  /** What arrayCompareToIgnoreCase (HttpString.java:254-267) returns or throws. */
  function ArrayCompareAsWritten(a: seq<Byte>, b: seq<Byte>): Result<int> {
    if |a| != |b| then Ok(Signum(|a| - |b|))
    else if FoldEqual(a, b) then Err(IllegalState)
    else Ok(CompareFolded(a, b))
  }

  /** arrayCompareToIgnoreCase as written, including the IllegalStateException on equal arrays. */
  method ArrayCompareToIgnoreCase(a: seq<Byte>, b: seq<Byte>) returns (r: Result<int>)
    ensures r == ArrayCompareAsWritten(a, b)
  {
    if |a| != |b| {
      return Ok(Signum(|a| - |b|));
    }
    var i := 0;
    while i < |a|
      invariant 0 <= i <= |a|
      invariant forall k :: 0 <= k < i ==> UpperCase(a[k]) == UpperCase(b[k])
      invariant CompareFolded(a, b) == CompareFolded(a[i..], b[i..])
    {
      var res := Signum(UpperCase(a[i]) - UpperCase(b[i]));
      if res != 0 {
        return Ok(res);
      }
      assert a[i..][1..] == a[i + 1..] && b[i..][1..] == b[i + 1..];
      i := i + 1;
    }
    return Err(IllegalState);
  }

  /** Two distinct arrays with the same folded content make compareTo throw instead of returning 0. */
  lemma EqualArraysThrow()
    ensures ArrayCompareAsWritten([0x61, 0x62], [0x41, 0x42]) == Err(IllegalState)
  {
    assert FoldEqual([0x61, 0x62], [0x41, 0x42]) by {
      assert UpperCase(0x61) == UpperCase(0x41) && UpperCase(0x62) == UpperCase(0x42);
    }
  }

  /**
   * The ordering compareTo evidently intends: shorter arrays first, then the
   * first differing folded byte, and 0 exactly for arrays equal ignoring case.
   */
  function CompareIgnoreCase(a: seq<Byte>, b: seq<Byte>): (r: int)
    ensures r == -1 || r == 0 || r == 1
    ensures r == 0 <==> FoldEqual(a, b)
    ensures |a| < |b| ==> r == -1
    ensures |a| > |b| ==> r == 1
  {
    if |a| != |b| then Signum(|a| - |b|)
    else
      CompareFoldedZeroIff(a, b);
      CompareFolded(a, b)
  }

  /** CompareIgnoreCase is a total preorder's comparator: antisymmetric and transitive. */
  lemma CompareIgnoreCaseIsOrder(a: seq<Byte>, b: seq<Byte>, c: seq<Byte>)
    ensures CompareIgnoreCase(b, a) == -CompareIgnoreCase(a, b)
    ensures CompareIgnoreCase(a, b) < 0 && CompareIgnoreCase(b, c) < 0 ==> CompareIgnoreCase(a, c) < 0
  {
    if |a| == |b| {
      CompareFoldedAntisymmetric(a, b);
    }
    if CompareIgnoreCase(a, b) < 0 && CompareIgnoreCase(b, c) < 0 && |a| == |b| == |c| {
      CompareFoldedTransitive(a, b, c);
    }
  }

  // ---------------------------------------------------------------------
  // java.lang.String case rules, for the paths that use the cached String
  // ---------------------------------------------------------------------

  /** Character.toUpperCase on U+0000..U+00FF (and the identity elsewhere). */
  function JavaToUpper(c: int): int {
    if 'a' as int <= c <= 'z' as int then c - 32
    else if 0xE0 <= c <= 0xFE && c != 0xF7 then c - 32
    else if c == 0xB5 then 0x39C
    else if c == 0xFF then 0x178
    else c
  }

  /** Character.toLowerCase on the values JavaToUpper produces (and the identity elsewhere). */
  function JavaToLower(c: int): int {
    if 'A' as int <= c <= 'Z' as int then c + 32
    else if 0xC0 <= c <= 0xDE && c != 0xD7 then c + 32
    else if c == 0x39C then 0x3BC
    else if c == 0x178 then 0xFF
    else c
  }

  predicate CharsEqualIgnoreCase(c1: char, c2: char) {
    c1 == c2 || JavaToUpper(c1 as int) == JavaToUpper(c2 as int)
    || JavaToLower(JavaToUpper(c1 as int)) == JavaToLower(JavaToUpper(c2 as int))
  }

  /** String.equalsIgnoreCase. */
  predicate StringEqualsIgnoreCase(s: string, t: string) {
    |s| == |t| && forall i :: 0 <= i < |s| ==> CharsEqualIgnoreCase(s[i], t[i])
  }

  /** String.compareToIgnoreCase: the difference of the first differing folded chars, else of the lengths. */
  function StringCompareToIgnoreCase(s: string, t: string): int
    decreases |s|
  {
    if |s| == 0 || |t| == 0 then |s| - |t|
    else if !CharsEqualIgnoreCase(s[0], t[0]) then
      JavaToLower(JavaToUpper(s[0] as int)) - JavaToLower(JavaToUpper(t[0] as int))
    else StringCompareToIgnoreCase(s[1..], t[1..])
  }

  /** On ASCII text the String rule and the byte rule agree. */
  lemma AsciiStringRuleAgrees(s: string, t: string)
    requires IsAscii(LowBytes(s)) && IsAscii(LowBytes(t))
    requires forall i :: 0 <= i < |s| ==> s[i] as int < 128
    requires forall i :: 0 <= i < |t| ==> t[i] as int < 128
    ensures StringEqualsIgnoreCase(s, t) == FoldEqual(LowBytes(s), LowBytes(t))
  {
    if |s| == |t| {
      forall i | 0 <= i < |s|
        ensures CharsEqualIgnoreCase(s[i], t[i]) == (UpperCase(LowByte(s[i])) == UpperCase(LowByte(t[i])))
      {
        assert LowByte(s[i]) == s[i] as int && LowByte(t[i]) == t[i] as int;
      }
    }
  }

  /** Against an ASCII string, a Latin-1 string obeys the same rule under String.equalsIgnoreCase as under the byte rule: no non-ASCII Latin-1 letter folds onto an ASCII one. */
  lemma Latin1AgainstAsciiAgrees(s: string, t: string)
    requires IsLatin1(s)
    requires forall i :: 0 <= i < |t| ==> t[i] as int < 128
    ensures StringEqualsIgnoreCase(s, t) == FoldEqual(LowBytes(s), LowBytes(t))
  {
    if |s| == |t| {
      forall i | 0 <= i < |s|
        ensures CharsEqualIgnoreCase(s[i], t[i]) == (UpperCase(LowByte(s[i])) == UpperCase(LowByte(t[i])))
      {
        assert LowByte(s[i]) == s[i] as int && LowByte(t[i]) == t[i] as int;
        if s[i] as int >= 128 {
          assert JavaToLower(JavaToUpper(s[i] as int)) >= 128;
          assert JavaToUpper(t[i] as int) < 128;
        }
      }
    }
  }

  /** equalToString's byte rule (HttpString.java:397-408): the same length and folded byte equality against (byte) charAt(i). */
  predicate BytesEqualToString(bytes: seq<Byte>, name: string) {
    |name| == |bytes| && forall i :: 0 <= i < |bytes| ==> UpperCase(bytes[i]) == UpperCase(LowByte(name[i]))
  }

  lemma BytesEqualToStringIsFoldEqual(bytes: seq<Byte>, name: string)
    ensures BytesEqualToString(bytes, name) == FoldEqual(bytes, LowBytes(name))
  {
  }

  // ---------------------------------------------------------------------
  // Representations and the as-written dispatch on them
  // ---------------------------------------------------------------------

  /** Which fields of an instance are set: the byte array, the cached String, or both. */
  datatype Repr = Repr(bytes: Option<seq<Byte>>, str: Option<string>)

  /** At least one representation is present, a String is Latin-1, and when both are present they agree. */
  predicate WellFormed(r: Repr) {
    (r.bytes.Some? || r.str.Some?)
    && (r.str.Some? ==> IsLatin1(r.str.value))
    && (r.bytes.Some? && r.str.Some? ==> r.bytes.value == LowBytes(r.str.value))
  }

  /** The bytes an instance stands for, whichever representation is present. */
  function Content(r: Repr): (c: seq<Byte>)
    requires WellFormed(r)
    ensures r.str.Some? ==> c == LowBytes(r.str.value)
  {
    if r.bytes.Some? then r.bytes.value else LowBytes(r.str.value)
  }

  /** equals(HttpString) for distinct non-null instances, as written (HttpString.java:304-332). */
  function EqualsAsWritten(a: Repr, b: Repr): bool
    requires WellFormed(a) && WellFormed(b)
  {
    if a.bytes.Some? then
      if b.bytes.Some? then FoldEqual(a.bytes.value, b.bytes.value)
      else if a.str.Some? then StringEqualsIgnoreCase(a.str.value, b.str.value)
      else FoldEqual(a.bytes.value, LowBytes(b.str.value))
    else if b.str.Some? then StringEqualsIgnoreCase(a.str.value, b.str.value)
    else FoldEqual(LowBytes(a.str.value), b.bytes.value)
  }

  /** compareTo(HttpString) for distinct instances, as written (HttpString.java:223-251). */
  function CompareAsWritten(a: Repr, b: Repr): Result<int>
    requires WellFormed(a) && WellFormed(b)
  {
    if a.bytes.Some? then
      if b.bytes.Some? then ArrayCompareAsWritten(a.bytes.value, b.bytes.value)
      else if a.str.Some? then Ok(StringCompareToIgnoreCase(a.str.value, b.str.value))
      else ArrayCompareAsWritten(a.bytes.value, LowBytes(b.str.value))
    else if b.str.Some? then Ok(StringCompareToIgnoreCase(a.str.value, b.str.value))
    else ArrayCompareAsWritten(LowBytes(a.str.value), b.bytes.value)
  }

  /** equalToString(String) as written (HttpString.java:392-409). */
  function EqualToStringAsWritten(r: Repr, name: string): bool
    requires WellFormed(r)
  {
    if r.str.Some? then StringEqualsIgnoreCase(name, r.str.value)
    else BytesEqualToString(r.bytes.value, name)
  }

  /**
   * With the same content, the result of equals, compareTo and equalToString
   * depends on whether toString has cached a String: 0xC9 and 0xE9 are
   * different bytes to UpperCase but the same letter to String's rules, and
   * the two hashes differ although equals can say true.
   */
  lemma CachedStringChangesResults()
    ensures var raw := Repr(Some([0xC9]), None);
            var cached := Repr(Some([0xC9]), Some(['É']));
            var e := Repr(None, Some(['é']));
            WellFormed(raw) && WellFormed(cached) && WellFormed(e)
            && Content(raw) == Content(cached)
            && !EqualsAsWritten(raw, e) && EqualsAsWritten(cached, e)
            && Hash(Content(cached)) != Hash(Content(e))
            && !EqualToStringAsWritten(raw, ['é']) && EqualToStringAsWritten(cached, ['é'])
  {
    var raw := Repr(Some([0xC9]), None);
    var cached := Repr(Some([0xC9]), Some(['É']));
    var e := Repr(None, Some(['é']));
    assert LowBytes(['É']) == [0xC9];
    assert LowBytes(['é']) == [0xE9];
    assert !FoldEqual([0xC9], [0xE9]) by { assert UpperCase([0xC9][0]) != UpperCase([0xE9][0]); }
    assert CharsEqualIgnoreCase('É', 'é');
    assert [0xC9][..0] == [] && [0xE9][..0] == [];
    assert Hash([0xC9]) == 234 && Hash([0xE9]) == 266;
  }

  /** The order of the same two contents flips once a String is cached: 0xE9 sorts before 'A' as a byte, after it as a char. */
  lemma CachedStringChangesOrder()
    ensures var a := Repr(Some([0xE9]), None);
            var aCached := Repr(Some([0xE9]), Some(['é']));
            var b := Repr(None, Some(['A']));
            WellFormed(a) && WellFormed(aCached) && WellFormed(b)
            && CompareAsWritten(a, b) == Ok(-1)
            && CompareAsWritten(aCached, b).Ok? && CompareAsWritten(aCached, b).value > 0
  {
    assert LowBytes(['A']) == [0x41];
    assert !FoldEqual([0xE9], [0x41]) by { assert UpperCase([0xE9][0]) != UpperCase([0x41][0]); }
  }

  // ---------------------------------------------------------------------
  // Construction helpers
  // ---------------------------------------------------------------------

  /** Arrays.copyOfRange(original, from, to): errors for a bad from, zero padding past the end. */
  function CopyOfRange(original: seq<Byte>, from: int, to: int): Result<seq<Byte>> {
    if from > to then Err(IllegalArgument)
    else if from < 0 || from > |original| then Err(IndexOutOfBounds)
    else if to <= |original| then Ok(original[from..to])
    else Ok(original[from..] + seq(to - |original|, _ => 0))
  }

  /** new HttpString(bytes, offset, length) as written (HttpString.java:63-65) passes length where copyOfRange expects an end index. */
  function RangeAsWritten(bytes: seq<Byte>, offset: int, length: int): Result<seq<Byte>> {
    CopyOfRange(bytes, offset, length)
  }

  /** From offset 1, "length 2" of "abcd" keeps one byte, and from offset 3 it throws. */
  lemma RangeAsWrittenTreatsLengthAsEnd()
    ensures RangeAsWritten([0x61, 0x62, 0x63, 0x64], 1, 2) == Ok([0x62])
    ensures RangeAsWritten([0x61, 0x62, 0x63, 0x64], 3, 1) == Err(IllegalArgument)
  {
    assert [0x61, 0x62, 0x63, 0x64][1..2] == [0x62];
  }

  /** The documented meaning: length bytes copied from offset, an index error when the range does not fit. */
  function Range(bytes: seq<Byte>, offset: int, length: int): (r: Result<seq<Byte>>)
    ensures r.Ok? <==> 0 <= offset && 0 <= length && offset + length <= |bytes|
    ensures r.Ok? ==> |r.value| == length && forall i :: 0 <= i < length ==> r.value[i] == bytes[offset + i]
  {
    if 0 <= offset && 0 <= length && offset + length <= |bytes| then Ok(bytes[offset..offset + length])
    else Err(IndexOutOfBounds)
  }

  /** The validation loop of HttpString(String) and tryFromString (HttpString.java:83-89, 107-113). */
  method CheckLatin1(s: string) returns (ok: bool)
    ensures ok == IsLatin1(s)
  {
    var i := 0;
    while i < |s|
      invariant 0 <= i <= |s|
      invariant forall k :: 0 <= k < i ==> s[k] as int <= 0xFF
    {
      if s[i] as int > 0xFF {
        return false;
      }
      i := i + 1;
    }
    return true;
  }

  /** Byte comparison against a String, as the byte branch of equalToString loops it. */
  method EqualBytesToString(bytes: seq<Byte>, name: string) returns (r: bool)
    ensures r == BytesEqualToString(bytes, name)
  {
    if |name| != |bytes| {
      return false;
    }
    var i := 0;
    while i < |bytes|
      invariant 0 <= i <= |bytes|
      invariant forall k :: 0 <= k < i ==> UpperCase(bytes[k]) == UpperCase(LowByte(name[k]))
    {
      if UpperCase(bytes[i]) != UpperCase(LowByte(name[i])) {
        return false;
      }
      i := i + 1;
    }
    return true;
  }

  // ---------------------------------------------------------------------
  // The class
  // ---------------------------------------------------------------------

  class HttpString {
    var bytes: Option<seq<Byte>>
    var str: Option<string>
    var hashCache: int

    ghost predicate Valid()
      reads this
    {
      WellFormed(Repr(bytes, str))
      && (hashCache != 0 ==> hashCache == Hash(Content(Repr(bytes, str))))
    }

    /** The bytes this string stands for. */
    function Value(): seq<Byte>
      reads this
      requires Valid()
    {
      Content(Repr(bytes, str))
    }

    /** HttpString(byte[]) (HttpString.java:52-54); a Dafny sequence is a value, so the clone is implicit. */
    constructor FromBytes(b: seq<Byte>)
      ensures Valid() && Value() == b
      ensures bytes == Some(b) && str == None && hashCache == 0
    {
      bytes := Some(b);
      str := None;
      hashCache := 0;
    }

    constructor FromLatin1(s: string)
      requires IsLatin1(s)
      ensures Valid() && Value() == LowBytes(s)
      ensures bytes == None && str == Some(s) && hashCache == 0
    {
      bytes := None;
      str := Some(s);
      hashCache := 0;
    }

    /** HttpString(byte[], offset, length) with the documented meaning of length (see RangeAsWritten). */
    static method FromRange(b: seq<Byte>, offset: int, length: int) returns (r: Result<HttpString>)
      ensures r.Err? <==> Range(b, offset, length).Err?
      ensures r.Ok? ==> fresh(r.value) && r.value.Valid() && r.value.Value() == Range(b, offset, length).value
    {
      var range := Range(b, offset, length);
      if range.Err? {
        return Err(range.error);
      }
      var h := new HttpString.FromBytes(range.value);
      return Ok(h);
    }

    /** HttpString(String) (HttpString.java:82-91): IllegalArgumentException for a char above 0xFF. */
    static method FromString(s: string) returns (r: Result<HttpString>)
      ensures r.Err? <==> !IsLatin1(s)
      ensures r.Err? ==> r.error == IllegalArgument
      ensures r.Ok? ==> fresh(r.value) && r.value.Valid() && r.value.str == Some(s) && r.value.bytes == None
    {
      var ok := CheckLatin1(s);
      if !ok {
        return Err(IllegalArgument);
      }
      var h := new HttpString.FromLatin1(s);
      return Ok(h);
    }

    /** tryFromString (HttpString.java:106-115): null instead of the exception. */
    static method TryFromString(s: string) returns (r: HttpString?)
      ensures r == null <==> !IsLatin1(s)
      ensures r != null ==> fresh(r) && r.Valid() && r.str == Some(s) && r.bytes == None
    {
      var ok := CheckLatin1(s);
      if !ok {
        return null;
      }
      r := new HttpString.FromLatin1(s);
    }

    /** length() (HttpString.java:122-125) reads whichever representation is there; both give the content length. */
    function Length(): (n: nat)
      reads this
      requires Valid()
      ensures n == |Value()|
    {
      if bytes.Some? then |bytes.value| else |str.value|
    }

    /** byteAt(idx) (HttpString.java:132-135): either representation gives the content byte. */
    function ByteAt(idx: int): (b: Byte)
      reads this
      requires Valid() && 0 <= idx < Length()
      ensures b == Value()[idx]
    {
      if bytes.Some? then bytes.value[idx] else LowByte(str.value[idx])
    }

    /** getBytes (HttpString.java:137-146): fills the byte cache once, then returns it. */
    method GetBytes() returns (r: seq<Byte>)
      requires Valid()
      modifies this`bytes
      ensures Valid() && Value() == old(Value()) && r == Value()
      ensures bytes == Some(r)
      ensures old(bytes).Some? ==> r == old(bytes).value
    {
      if bytes.None? {
        bytes := Some(LowBytes(str.value));
      }
      r := bytes.value;
    }

    /** toString (HttpString.java:363-372): fills the String cache once with the Latin-1 text, then returns it. */
    method ToString() returns (s: string)
      requires Valid()
      modifies this`str
      ensures Valid() && Value() == old(Value())
      ensures s == Latin1Decode(Value()) && str == Some(s)
      ensures old(str).Some? ==> s == old(str).value
    {
      if str.None? {
        DecodeThenLowBytes(bytes.value);
        str := Some(Latin1Decode(bytes.value));
      } else {
        LowBytesThenDecode(str.value);
      }
      s := str.value;
    }

    /** hashCode (HttpString.java:275-282): cached, recomputed while the cached value is 0. */
    method HashCode() returns (h: int)
      requires Valid()
      modifies this`hashCache
      ensures Valid() && h == Hash(Value())
    {
      h := hashCache;
      if h == 0 {
        if bytes.Some? {
          h := CalcHashCode(bytes.value);
        } else {
          h := HashCodeOf(str.value);
        }
        hashCache := h;
      }
    }

    /**
     * equals(HttpString) with the representation-independent rule: the same
     * object, or contents equal ignoring ASCII case.  Like the source, it fills
     * a missing byte cache on either side.
     */
    method Equals(other: HttpString?) returns (r: bool)
      requires Valid() && (other != null ==> other.Valid())
      modifies this`bytes, if other == null then {} else {other}
      ensures Valid() && Value() == old(Value())
      ensures other != null ==> other.Valid() && other.Value() == old(other.Value())
      ensures other == null ==> !r
      ensures other != null ==> (r <==> other == this || FoldEqual(old(Value()), old(other.Value())))
    {
      if other == this {
        FoldEqualIsEquivalence(Value(), Value(), Value());
        return true;
      }
      if other == null {
        return false;
      }
      var a := GetBytes();
      var b := other.GetBytes();
      r := ArrayEqualIgnoreCase(a, b);
    }

    /** compareTo(HttpString) with the intended total order (see CompareAsWritten for the source's dispatch). */
    method CompareTo(other: HttpString) returns (r: int)
      requires Valid() && other.Valid()
      modifies this`bytes, other`bytes
      ensures Valid() && Value() == old(Value())
      ensures other.Valid() && other.Value() == old(other.Value())
      ensures other == this ==> r == 0
      ensures other != this ==> r == CompareIgnoreCase(old(Value()), old(other.Value()))
    {
      if other == this {
        return 0;
      }
      var a := GetBytes();
      var b := other.GetBytes();
      if |a| != |b| {
        return Signum(|a| - |b|);
      }
      var c := ArrayCompareToIgnoreCase(a, b);
      r := if c.Ok? then c.value else 0;
    }

    /** equalToString(String) on the content bytes (the byte branch of HttpString.java:397-408). */
    method EqualToString(name: string) returns (r: bool)
      requires Valid()
      ensures r == BytesEqualToString(Value(), name)
    {
      if Length() != |name| {
        return false;
      }
      var i := 0;
      while i < Length()
        invariant 0 <= i <= Length()
        invariant forall k :: 0 <= k < i ==> UpperCase(Value()[k]) == UpperCase(LowByte(name[k]))
      {
        if UpperCase(ByteAt(i)) != UpperCase(LowByte(name[i])) {
          return false;
        }
        i := i + 1;
      }
      return true;
    }
  }
}
