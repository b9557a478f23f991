/**
 * Hex formatting of message digests, and the "\uXXXX" escaping of strings
 * and its inverse.
 *
 * Strings are JString, sequences of UTF-16 code units, rather than Dafny's
 * `string`. Bytes are Java's signed bytes.
 * The digest computations themselves (MD5, SHA-1 and the UTF-8 encoding
 * before them) are library code: their output bytes are a parameter.
 */
module EncodeUtils {
  import opened JavaLang

  newtype Byte = x: int | -128 <= x < 128

  const BACKSLASH: CodeUnit := 92
  const LOWER_U: CodeUnit := 117
  const ZERO: CodeUnit := 48

  /** The characters `\p{XDigit}` matches: 0-9, A-F, a-f. */
  predicate IsHexDigit(c: CodeUnit)
  {
    48 <= c <= 57 || 65 <= c <= 70 || 97 <= c <= 102
  }

  /** What Integer.parseInt(_, 16) reads a hex digit as. */
  function HexDigitValue(c: CodeUnit): int
    requires IsHexDigit(c)
  {
    if c <= 57 then c as int - 48 else if c <= 70 then c as int - 55 else c as int - 87
  }

  /** The lowercase digit Integer.toHexString writes for 0..15. */
  function HexDigit(d: int): (c: CodeUnit)
    requires 0 <= d < 16
    ensures IsHexDigit(c) && HexDigitValue(c) == d
    ensures c != BACKSLASH && c < 0x1000
  {
    if d < 10 then (48 + d) as CodeUnit else (87 + d) as CodeUnit
  }

  predicate AllHex(s: JString)
  {
    forall i :: 0 <= i < |s| ==> IsHexDigit(s[i])
  }

  /** Integer.parseInt(s, 16) for a string of hex digits. */
  function HexValue(s: JString): nat
    requires AllHex(s)
    decreases |s|
  {
    if s == [] then 0 else HexValue(s[..|s| - 1]) * 16 + HexDigitValue(s[|s| - 1])
  }

  lemma HexValueOfFour(h: JString)
    requires |h| == 4 && AllHex(h)
    ensures HexValue(h) == ((HexDigitValue(h[0]) * 16 + HexDigitValue(h[1])) * 16 + HexDigitValue(h[2])) * 16 + HexDigitValue(h[3])
  {
    var h3, h2, h1 := h[..3], h[..2], h[..1];
    assert h3[..2] == h2 && h2[..1] == h1 && h1[..0] == [];
    assert HexValue(h1) == HexDigitValue(h[0]);
    assert HexValue(h2) == HexDigitValue(h[0]) * 16 + HexDigitValue(h[1]);
    assert HexValue(h3) == HexValue(h2) * 16 + HexDigitValue(h[2]);
  }

  /** Integer.toHexString for a non-negative int: lowercase, no leading zeros. */
  function ToHexString(n: nat): JString
    decreases n
  {
    if n < 16 then [HexDigit(n)] else ToHexString(n / 16) + [HexDigit(n % 16)]
  }

  lemma {:induction false} ToHexShape(n: nat)
    ensures |ToHexString(n)| >= 1 && AllHex(ToHexString(n))
    ensures HexValue(ToHexString(n)) == n
    ensures n < 16 <==> |ToHexString(n)| == 1
    ensures forall i :: 0 <= i < |ToHexString(n)| ==> ToHexString(n)[i] != BACKSLASH && ToHexString(n)[i] < 0x1000
    decreases n
  {
    if n >= 16 {
      ToHexShape(n / 16);
      assert ToHexString(n)[..|ToHexString(n)| - 1] == ToHexString(n / 16);
    }
  }

  /** A code unit prints as four hex digits exactly when it is at least 0x1000, and never as more. */
  lemma CodeUnitHexLength(c: CodeUnit)
    ensures |ToHexString(c as nat)| <= 4
    ensures c >= 0x1000 <==> |ToHexString(c as nat)| == 4
  {
    var n := c as nat;
    HexLengthStep(n);
    HexLengthStep(n / 16);
    HexLengthStep(n / 256);
    HexLengthStep(n / 4096);
    assert n / 16 / 16 == n / 256;
    assert n / 256 / 16 == n / 4096;
  }

  lemma HexLengthStep(n: nat)
    ensures |ToHexString(n)| == if n < 16 then 1 else |ToHexString(n / 16)| + 1
  {
  }

  // ---------------------------------------------------------------------
  // Digest to hex (md5, sha1)
  // ---------------------------------------------------------------------

  /** `b & 0xFF`: the byte read as unsigned. */
  function Unsigned(b: Byte): (v: nat)
    ensures v < 256
  {
    if b < 0 then b as int + 256 else b as int
  }

  /** One digest byte as two lowercase hex digits, the first padded with '0'. */
  function ByteHex(b: Byte): JString
  {
    (if Unsigned(b) < 16 then [ZERO] else []) + ToHexString(Unsigned(b))
  }

  /** The hex text of a whole digest. */
  function HexOf(bytes: seq<Byte>): JString
  {
    if bytes == [] then [] else ByteHex(bytes[0]) + HexOf(bytes[1..])
  }

  /** The byte that two hex digits stand for, as a signed byte. */
  function ByteOfHex(hi: CodeUnit, lo: CodeUnit): Byte
    requires IsHexDigit(hi) && IsHexDigit(lo)
  {
    var v := HexDigitValue(hi) * 16 + HexDigitValue(lo);
    if v < 128 then v as Byte else (v - 256) as Byte
  }

  /** Reads hex text back into bytes, two digits per byte; None for text of odd length or with a non-hex digit. */
  function ParseHex(hex: JString): Option<seq<Byte>>
    decreases |hex|
  {
    if hex == [] then Some([])
    else if |hex| < 2 || !IsHexDigit(hex[0]) || !IsHexDigit(hex[1]) then None
    else match ParseHex(hex[2..])
      case None => None
      case Some(rest) => Some([ByteOfHex(hex[0], hex[1])] + rest)
  }

  lemma ByteHexShape(b: Byte)
    ensures |ByteHex(b)| == 2 && AllHex(ByteHex(b))
    ensures ByteOfHex(ByteHex(b)[0], ByteHex(b)[1]) == b
  {
    var v := Unsigned(b);
    ToHexShape(v);
    ToHexShape(v / 16);
    if v >= 16 {
      assert ToHexString(v) == [HexDigit(v / 16), HexDigit(v % 16)];
    }
  }

  /** Hex text has two characters per byte and reads back as the digest. */
  lemma {:induction false} HexRoundTrip(bytes: seq<Byte>)
    ensures |HexOf(bytes)| == 2 * |bytes|
    ensures ParseHex(HexOf(bytes)) == Some(bytes)
    decreases |bytes|
  {
    if bytes != [] {
      HexRoundTrip(bytes[1..]);
      ByteHexShape(bytes[0]);
      var h := HexOf(bytes);
      assert h[2..] == HexOf(bytes[1..]);
      assert h[0] == ByteHex(bytes[0])[0] && h[1] == ByteHex(bytes[0])[1];
      assert IsHexDigit(h[0]) && IsHexDigit(h[1]);
      assert bytes == [bytes[0]] + bytes[1..];
    }
  }

  lemma {:induction false} HexOfAppend(a: seq<Byte>, b: Byte)
    ensures HexOf(a + [b]) == HexOf(a) + ByteHex(b)
    decreases |a|
  {
    if a == [] {
      assert a + [b] == [b];
    } else {
      assert (a + [b])[0] == a[0];
      assert (a + [b])[1..] == a[1..] + [b];
      HexOfAppend(a[1..], b);
    }
  }

  /**
   * md5: hashes the UTF-8 bytes of the string and hex-formats the 16-byte
   * digest; a null string throws before anything is hashed.
   */
  method Md5(str: Option<JString>, hash: seq<Byte>) returns (r: Outcome<JString>)
    ensures str.None? ==> r == Thrown(NullPointer)
    ensures str.Some? ==> r == Value(HexOf(hash))
  {
    if str.None? {
      return Thrown(NullPointer);
    }
    var hex: JString := [];
    for i := 0 to |hash|
      invariant hex == HexOf(hash[..i])
    {
      var v := Unsigned(hash[i]);
      if v < 0x10 {
        hex := hex + [ZERO];
      }
      hex := hex + ToHexString(v);
      HexOfAppend(hash[..i], hash[i]);
      assert hash[..i + 1] == hash[..i] + [hash[i]];
    }
    assert hash[..|hash|] == hash;
    return Value(hex);
  }

  /**
   * sha1: a null string gives ""; otherwise the digest is hex-formatted,
   * padding a one-digit byte with the int 0 appended as text.
   */
  method Sha1(content: Option<JString>, digest: seq<Byte>) returns (r: JString)
    ensures content.None? ==> r == []
    ensures content.Some? ==> r == HexOf(digest)
  {
    if content.None? {
      return [];
    }
    var hexString: JString := [];
    for i := 0 to |digest|
      invariant hexString == HexOf(digest[..i])
    {
      var shaHex := ToHexString(Unsigned(digest[i]));
      ToHexShape(Unsigned(digest[i]));
      if |shaHex| < 2 {
        hexString := hexString + [ZERO];
      }
      hexString := hexString + shaHex;
      HexOfAppend(digest[..i], digest[i]);
      assert digest[..i + 1] == digest[..i] + [digest[i]];
    }
    assert digest[..|digest|] == digest;
    return hexString;
  }

  /** An MD5 digest (16 bytes) gives 32 hex characters, an SHA-1 digest (20 bytes) 40. */
  lemma DigestHexLengths(md5: seq<Byte>, sha1: seq<Byte>)
    requires |md5| == 16 && |sha1| == 20
    ensures |HexOf(md5)| == 32 && |HexOf(sha1)| == 40
  {
    HexRoundTrip(md5);
    HexRoundTrip(sha1);
  }

  // ---------------------------------------------------------------------
  // StringToUnicode
  // ---------------------------------------------------------------------

  /** One code unit as "\u" followed by its unpadded lowercase hex. */
  function Escape1(c: CodeUnit): JString
  {
    [BACKSLASH, LOWER_U] + ToHexString(c as nat)
  }

  /** The whole string escaped, unit by unit, in order. */
  function Escape(s: JString): JString
  {
    if s == [] then [] else Escape1(s[0]) + Escape(s[1..])
  }

  lemma {:induction false} EscapeAppend(a: JString, c: CodeUnit)
    ensures Escape(a + [c]) == Escape(a) + Escape1(c)
    decreases |a|
  {
    if a == [] {
      assert a + [c] == [c];
    } else {
      assert (a + [c])[0] == a[0];
      assert (a + [c])[1..] == a[1..] + [c];
      EscapeAppend(a[1..], c);
    }
  }

  method StringToUnicode(str: JString) returns (r: JString)
    ensures r == Escape(str)
  {
    r := [];
    for i := 0 to |str|
      invariant r == Escape(str[..i])
    {
      r := r + [BACKSLASH, LOWER_U] + ToHexString(str[i] as nat);
      EscapeAppend(str[..i], str[i]);
      assert str[..i + 1] == str[..i] + [str[i]];
    }
    assert str[..|str|] == str;
  }

  // ---------------------------------------------------------------------
  // UnicodeToString
  // ---------------------------------------------------------------------

  /** An occurrence of the pattern `\\u(\p{XDigit}{4})` starting at i. */
  predicate IsEscapeAt(s: JString, i: nat)
  {
    && i + 6 <= |s|
    && s[i] == BACKSLASH && s[i + 1] == LOWER_U
    && IsHexDigit(s[i + 2]) && IsHexDigit(s[i + 3]) && IsHexDigit(s[i + 4]) && IsHexDigit(s[i + 5])
  }

  /** `(char) Integer.parseInt(group(2), 16)`. */
  function EscapeValue(s: JString, i: nat): CodeUnit
    requires IsEscapeAt(s, i)
  {
    var v := ((HexDigitValue(s[i + 2]) * 16 + HexDigitValue(s[i + 3])) * 16 + HexDigitValue(s[i + 4])) * 16 + HexDigitValue(s[i + 5]);
    (v % 0x1_0000) as CodeUnit
  }

  /** String.replace(target, repl): every occurrence, left to right, without overlaps. */
  function ReplaceAll(s: JString, target: JString, repl: JString): JString
    requires |target| > 0
    decreases |s|
  {
    if |s| < |target| then s
    else if s[..|target|] == target then repl + ReplaceAll(s[|target|..], target, repl)
    else [s[0]] + ReplaceAll(s[1..], target, repl)
  }

  /**
   * The matcher runs over the ORIGINAL string, from position `from`, finding
   * occurrences left to right; each one found replaces every copy of its
   * text in the CURRENT string by the code unit it stands for.
   */
  function Decode(orig: JString, from: nat, cur: JString): JString
    decreases |orig| - from
  {
    if from + 6 > |orig| then cur
    else if IsEscapeAt(orig, from) then
      Decode(orig, from + 6, ReplaceAll(cur, orig[from..from + 6], [EscapeValue(orig, from)]))
    else Decode(orig, from + 1, cur)
  }

  function UnicodeToStringF(str: JString): JString
  {
    Decode(str, 0, str)
  }

  method UnicodeToString(str: JString) returns (r: JString)
    ensures r == UnicodeToStringF(str)
  {
    r := str;
    var pos := 0;
    while pos + 6 <= |str|
      invariant Decode(str, pos, r) == UnicodeToStringF(str)
      decreases |str| - pos
    {
      if IsEscapeAt(str, pos) {
        var ch := EscapeValue(str, pos);
        r := ReplaceAll(r, str[pos..pos + 6], [ch]);
        pos := pos + 6;
      } else {
        pos := pos + 1;
      }
    }
  }

  /** A string with no "\u" followed by four hex digits comes back unchanged. */
  lemma {:induction false} DecodeNoEscape(orig: JString, from: nat, cur: JString)
    requires forall i :: from <= i ==> !IsEscapeAt(orig, i)
    ensures Decode(orig, from, cur) == cur
    decreases |orig| - from
  {
    if from + 6 <= |orig| {
      DecodeNoEscape(orig, from + 1, cur);
    }
  }

  lemma UnicodeToStringNoEscape(str: JString)
    requires forall i :: 0 <= i ==> !IsEscapeAt(str, i)
    ensures UnicodeToStringF(str) == str
  {
    DecodeNoEscape(str, 0, str);
  }

  // ---------------------------------------------------------------------
  // The round trip
  // ---------------------------------------------------------------------

  /** The units a decoder restores: those whose escape has four hex digits. */
  predicate IsLong(c: CodeUnit) { c >= 0x1000 }

  /**
   * A partly decoded escaped string: unit c appears as itself when it is
   * long and its escape has been replaced (c in D), as its escape otherwise.
   */
  function Piece(c: CodeUnit, D: set<CodeUnit>): JString
  {
    if IsLong(c) && c in D then [c] else Escape1(c)
  }

  function Mixed(s: JString, D: set<CodeUnit>): JString
  {
    if s == [] then [] else Piece(s[0], D) + Mixed(s[1..], D)
  }

  /** The long units of a string. */
  function Longs(s: JString): set<CodeUnit>
  {
    if s == [] then {} else (if IsLong(s[0]) then {s[0]} else {}) + Longs(s[1..])
  }

  lemma Escape1Shape(c: CodeUnit)
    ensures 3 <= |Escape1(c)| <= 6
    ensures IsLong(c) <==> |Escape1(c)| == 6
    ensures Escape1(c)[0] == BACKSLASH
    ensures forall i :: 1 <= i < |Escape1(c)| ==> Escape1(c)[i] != BACKSLASH
    ensures forall i :: 2 <= i < |Escape1(c)| ==> IsHexDigit(Escape1(c)[i]) && Escape1(c)[i] < 0x1000
  {
    CodeUnitHexLength(c);
    ToHexShape(c as nat);
  }

  /** Two long units have the same escape only if they are equal. */
  lemma Escape1Injective(a: CodeUnit, b: CodeUnit)
    requires Escape1(a) == Escape1(b)
    ensures a == b
  {
    ToHexShape(a as nat);
    ToHexShape(b as nat);
    assert ToHexString(a as nat) == Escape1(a)[2..];
    assert ToHexString(b as nat) == Escape1(b)[2..];
  }

  lemma MixedEscaped(s: JString)
    ensures Mixed(s, {}) == Escape(s)
  {
  }

  lemma MixedHead(s: JString, D: set<CodeUnit>)
    ensures Mixed(s, D) == [] || Mixed(s, D)[0] == BACKSLASH || IsLong(Mixed(s, D)[0])
  {
    if s != [] {
      Escape1Shape(s[0]);
    }
  }

  /** Replacing starts no match inside a prefix that lacks the target's first unit. */
  lemma {:induction false} ReplaceSkip(a: JString, b: JString, t: JString, r: JString)
    requires |t| > 0
    requires t[0] !in a
    ensures ReplaceAll(a + b, t, r) == a + ReplaceAll(b, t, r)
    decreases |a|
  {
    if a == [] {
      assert a + b == b;
    } else {
      var s := a + b;
      assert s[0] == a[0];
      assert s[1..] == a[1..] + b;
      assert a == [a[0]] + a[1..];
      ReplaceSkip(a[1..], b, t, r);
      if |s| >= |t| {
        assert s[..|t|][0] != t[0];
        assert ReplaceAll(s, t, r) == [a[0]] + ReplaceAll(a[1..] + b, t, r);
      } else {
        assert ReplaceAll(b, t, r) == b;
      }
      assert [a[0]] + a[1..] == a;
    }
  }

  /** The escape of a unit other than `c` does not start a match of c's escape. */
  lemma NoMatchAtOtherPiece(x: CodeUnit, c: CodeUnit, rest: JString)
    requires IsLong(c) && x != c
    requires rest == [] || rest[0] == BACKSLASH || IsLong(rest[0])
    ensures var m := Escape1(x) + rest; |m| < 6 || m[..6] != Escape1(c)
  {
    var p, t := Escape1(x), Escape1(c);
    var m := p + rest;
    Escape1Shape(x);
    Escape1Shape(c);
    if |m| >= 6 {
      if IsLong(x) {
        assert m[..6] == p;
        if p == t { Escape1Injective(x, c); }
      } else {
        assert m[|p|] == rest[0];
        assert t[|p|] != rest[0];
        assert m[..6][|p|] != t[|p|];
      }
    }
  }

  /** One step of String.replace where no match starts. */
  lemma ReplaceStep(m: JString, t: JString, r: JString)
    requires |t| > 0 && |m| >= |t| && m[..|t|] != t
    ensures ReplaceAll(m, t, r) == [m[0]] + ReplaceAll(m[1..], t, r)
  {
  }

  /** A prefix that starts with the target's first unit but does not start a match is passed over whole. */
  lemma ReplaceOverNonMatch(p: JString, rest: JString, t: JString, r: JString)
    requires |t| > 0 && |p| > 0
    requires t[0] !in p[1..]
    requires |p + rest| < |t| || (p + rest)[..|t|] != t
    ensures ReplaceAll(p + rest, t, r) == p + ReplaceAll(rest, t, r)
  {
    var m := p + rest;
    var tail := p[1..];
    ReplaceSkip(tail, rest, t, r);
    assert m[1..] == tail + rest;
    if |m| < |t| {
      ReplaceShort(m, t, r);
      ReplaceShort(rest, t, r);
    } else {
      ReplaceStep(m, t, r);
      var x := ReplaceAll(rest, t, r);
      assert ReplaceAll(m[1..], t, r) == tail + x;
      assert [m[0]] + (tail + x) == ([m[0]] + tail) + x;
      assert [m[0]] + tail == p;
    }
  }

  /** A string shorter than the target has nothing to replace. */
  lemma ReplaceShort(s: JString, t: JString, r: JString)
    requires |s| < |t|
    ensures ReplaceAll(s, t, r) == s
  {
  }

  /** Replacing c's escape passes over a piece that does not encode c. */
  lemma ReplaceOverOtherPiece(x: CodeUnit, c: CodeUnit, rest: JString)
    requires IsLong(c) && x != c
    requires rest == [] || rest[0] == BACKSLASH || IsLong(rest[0])
    ensures ReplaceAll(Escape1(x) + rest, Escape1(c), [c]) == Escape1(x) + ReplaceAll(rest, Escape1(c), [c])
  {
    Escape1Shape(c);
    Escape1Shape(x);
    NoMatchAtOtherPiece(x, c, rest);
    var p := Escape1(x);
    assert Escape1(c)[0] !in p[1..] by {
      forall i | 0 <= i < |p[1..]| ensures p[1..][i] != BACKSLASH { assert p[1..][i] == p[i + 1]; }
    }
    ReplaceOverNonMatch(p, rest, Escape1(c), [c]);
  }

  /** A long unit's escape occurs in a partly decoded string only at the pieces that encode it. */
  lemma {:induction false} ReplaceMixed(s: JString, D: set<CodeUnit>, c: CodeUnit)
    requires IsLong(c)
    ensures ReplaceAll(Mixed(s, D), Escape1(c), [c]) == Mixed(s, D + {c})
    decreases |s|
  {
    var t := Escape1(c);
    Escape1Shape(c);
    if s != [] {
      var x := s[0];
      var p := Piece(x, D);
      var rest := Mixed(s[1..], D);
      ReplaceMixed(s[1..], D, c);
      assert Mixed(s, D) == p + rest;
      if IsLong(x) && x in D {
        ReplaceSkip(p, rest, t, [c]);
      } else if x == c {
        assert (p + rest)[..|t|] == t;
        assert (p + rest)[|t|..] == rest;
      } else {
        MixedHead(s[1..], D);
        ReplaceOverOtherPiece(x, c, rest);
      }
    }
  }

  /** Escaping never yields an escape start inside a unit's text except at its front. */
  lemma EscapeHead(t: JString)
    ensures Escape(t) == [] || Escape(t)[0] == BACKSLASH
  {
    if t != [] {
      Escape1Shape(t[0]);
    }
  }

  /** The scan steps over the escape of a short unit without matching. */
  lemma {:induction false} DecodeSkipShort(orig: JString, from: nat, c: CodeUnit, t: JString, cur: JString, j: nat)
    requires !IsLong(c)
    requires from <= |orig| && orig[from..] == Escape1(c) + Escape(t)
    requires j <= |Escape1(c)|
    ensures Decode(orig, from + j, cur) == Decode(orig, from + |Escape1(c)|, cur)
    decreases |Escape1(c)| - j
  {
    var e := Escape1(c);
    Escape1Shape(c);
    if j < |e| {
      DecodeSkipShort(orig, from, c, t, cur, j + 1);
      var i := from + j;
      if i + 6 <= |orig| {
        assert orig[i] == e[j];
        if j == 0 {
          EscapeHead(t);
          assert orig[from + |e|] == Escape(t)[0];
          assert !IsHexDigit(orig[from + |e|]);
          assert 2 <= |e| < 6;
        }
        assert !IsEscapeAt(orig, i);
      } else {
        assert from + |e| + 6 > |orig|;
      }
    }
  }

  /** The scan finds the escape of a long unit where that escape begins, and reads the unit back from it. */
  lemma MatchAtLong(orig: JString, from: nat, c: CodeUnit, rest: JString)
    requires IsLong(c)
    requires from <= |orig| && orig[from..] == Escape1(c) + rest
    ensures IsEscapeAt(orig, from)
    ensures orig[from..from + 6] == Escape1(c)
    ensures EscapeValue(orig, from) == c
  {
    var e := Escape1(c);
    Escape1Shape(c);
    ToHexShape(c as nat);
    assert orig[from..from + 6] == orig[from..][..6] == e;
    forall k | 0 <= k < 6 ensures orig[from + k] == e[k] {
      assert orig[from..][k] == orig[from + k];
    }
    var h := ToHexString(c as nat);
    assert h == e[2..];
    assert h == orig[from + 2..from + 6];
    HexValueOfFour(h);
  }

  /** The escape of a non-empty string starts with its first unit's escape, and the rest follows it. */
  lemma EscapeRest(orig: JString, from: nat, t: JString)
    requires t != [] && from <= |orig| && orig[from..] == Escape(t)
    ensures orig[from..] == Escape1(t[0]) + Escape(t[1..])
    ensures from + |Escape1(t[0])| <= |orig| && orig[from + |Escape1(t[0])|..] == Escape(t[1..])
  {
    var e := Escape1(t[0]);
    assert orig[from + |e|..] == orig[from..][|e|..];
  }

  /** Decoding the escape of a long unit replaces it everywhere in a partly decoded string. */
  lemma DecodeLongStep(orig: JString, from: nat, c: CodeUnit, rest: JString, s: JString, D: set<CodeUnit>)
    requires IsLong(c)
    requires from <= |orig| && orig[from..] == Escape1(c) + rest
    ensures from + 6 <= |orig| && orig[from + 6..] == rest
    ensures Decode(orig, from, Mixed(s, D)) == Decode(orig, from + 6, Mixed(s, D + {c}))
  {
    Escape1Shape(c);
    assert orig[from + 6..] == orig[from..][6..];
    MatchAtLong(orig, from, c, rest);
    ReplaceMixed(s, D, c);
  }

  /**
   * Scanning the escaped remainder `t` decodes exactly the long units of `t`
   * in a partly decoded string.
   */
  lemma {:induction false} DecodeEscaped(orig: JString, from: nat, t: JString, s: JString, D: set<CodeUnit>)
    requires from <= |orig| && orig[from..] == Escape(t)
    ensures Decode(orig, from, Mixed(s, D)) == Mixed(s, D + Longs(t))
    decreases |t|
  {
    if t == [] {
      assert D + {} == D;
    } else {
      var c := t[0];
      EscapeRest(orig, from, t);
      if IsLong(c) {
        DecodeLongStep(orig, from, c, Escape(t[1..]), s, D);
        DecodeEscaped(orig, from + 6, t[1..], s, D + {c});
        assert D + {c} + Longs(t[1..]) == D + Longs(t);
      } else {
        DecodeSkipShort(orig, from, c, t[1..], Mixed(s, D), 0);
        DecodeEscaped(orig, from + |Escape1(c)|, t[1..], s, D);
        assert Longs(t) == Longs(t[1..]);
      }
    }
  }

  lemma {:induction false} LongsMembers(s: JString, c: CodeUnit)
    ensures c in Longs(s) <==> IsLong(c) && c in s
    decreases |s|
  {
    if s != [] {
      LongsMembers(s[1..], c);
      assert c in s <==> c == s[0] || c in s[1..];
    }
  }

  /** With every long unit decoded, the string is back exactly when it has no short units. */
  lemma {:induction false} MixedDecoded(s: JString, D: set<CodeUnit>)
    requires forall c :: c in s && IsLong(c) ==> c in D
    ensures (forall i :: 0 <= i < |s| ==> IsLong(s[i])) ==> Mixed(s, D) == s
    ensures (exists i :: 0 <= i < |s| && !IsLong(s[i])) ==> |Mixed(s, D)| > |s|
    ensures |Mixed(s, D)| >= |s|
    decreases |s|
  {
    if s != [] {
      assert forall c :: c in s[1..] ==> c in s;
      MixedDecoded(s[1..], D);
      Escape1Shape(s[0]);
      assert s[0] in s;
      if exists i :: 0 <= i < |s| && !IsLong(s[i]) {
        var i :| 0 <= i < |s| && !IsLong(s[i]);
        if i > 0 {
          assert !IsLong(s[1..][i - 1]);
        }
      }
      if forall i :: 0 <= i < |s| ==> IsLong(s[i]) {
        assert forall i :: 0 <= i < |s[1..]| ==> IsLong(s[1..][i]) by {
          forall i | 0 <= i < |s[1..]| ensures IsLong(s[1..][i]) { assert s[1..][i] == s[i + 1]; }
        }
        assert [s[0]] + s[1..] == s;
      }
    }
  }

  /**
   * Decoding the escaped text gives the string back exactly when every code
   * unit is at least 0x1000; a smaller unit keeps its short escape and the
   * result is strictly longer.
   */
  lemma RoundTrip(s: JString)
    ensures UnicodeToStringF(Escape(s)) == s <==> forall i :: 0 <= i < |s| ==> s[i] >= 0x1000
    ensures (exists i :: 0 <= i < |s| && s[i] < 0x1000) ==> |UnicodeToStringF(Escape(s))| > |s|
  {
    var e := Escape(s);
    MixedEscaped(s);
    assert e[0..] == e;
    DecodeEscaped(e, 0, s, s, {});
    assert UnicodeToStringF(e) == Mixed(s, {} + Longs(s));
    forall c | c in s && IsLong(c) ensures c in {} + Longs(s) {
      LongsMembers(s, c);
    }
    MixedDecoded(s, {} + Longs(s));
  }
}
