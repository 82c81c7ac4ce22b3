/** Cutting a search text to a byte length without leaving a broken character behind
  * (server/handlerlog.go, `truncateSearch`).  UTF-8 is that of RFC 3629, section 4. */
module SearchText {
  import opened Prelude

  predicate Tail(b: Byte) {
    0x80 <= b <= 0xBF
  }

  /** The grammar of section 4: UTF8-1, UTF8-2, UTF8-3 and UTF8-4. */
  predicate IsRune(s: Bytes) {
    || (|s| == 1 && s[0] <= 0x7F)
    || (|s| == 2 && 0xC2 <= s[0] <= 0xDF && Tail(s[1]))
    || (|s| == 3 && s[0] == 0xE0 && 0xA0 <= s[1] <= 0xBF && Tail(s[2]))
    || (|s| == 3 && 0xE1 <= s[0] <= 0xEC && Tail(s[1]) && Tail(s[2]))
    || (|s| == 3 && s[0] == 0xED && 0x80 <= s[1] <= 0x9F && Tail(s[2]))
    || (|s| == 3 && 0xEE <= s[0] <= 0xEF && Tail(s[1]) && Tail(s[2]))
    || (|s| == 4 && s[0] == 0xF0 && 0x90 <= s[1] <= 0xBF && Tail(s[2]) && Tail(s[3]))
    || (|s| == 4 && 0xF1 <= s[0] <= 0xF3 && Tail(s[1]) && Tail(s[2]) && Tail(s[3]))
    || (|s| == 4 && s[0] == 0xF4 && 0x80 <= s[1] <= 0x8F && Tail(s[2]) && Tail(s[3]))
  }

  /** The length of the character `s` begins with, zero if it begins with none. */
  function FirstRuneSize(s: Bytes): (k: nat)
    ensures k <= |s| && (k > 0 ==> IsRune(s[..k]))
  {
    if |s| >= 1 && IsRune(s[..1]) then 1
    else if |s| >= 2 && IsRune(s[..2]) then 2
    else if |s| >= 3 && IsRune(s[..3]) then 3
    else if |s| >= 4 && IsRune(s[..4]) then 4
    else 0
  }

  /** A sequence of characters (Go's `utf8.ValidString`). */
  predicate Valid(s: Bytes) {
    s == [] || (FirstRuneSize(s) > 0 && Valid(s[FirstRuneSize(s)..]))
  }

  // ---------------------------------------------------------------- what the grammar accepts

  /** A Unicode scalar value. */
  predicate Scalar(c: int) {
    0 <= c <= 0x10FFFF && !(0xD800 <= c <= 0xDFFF)
  }

  /** Its bytes by the table of section 3. */
  function Encode(c: int): (s: Bytes)
    requires Scalar(c)
    ensures 1 <= |s| <= 4
  {
    if c < 0x80 then [c as Byte]
    else if c < 0x800 then [(0xC0 + c / 64) as Byte, (0x80 + c % 64) as Byte]
    else if c < 0x10000 then [(0xE0 + c / 4096) as Byte, (0x80 + c / 64 % 64) as Byte, (0x80 + c % 64) as Byte]
    else
      [(0xF0 + c / 262144) as Byte, (0x80 + c / 4096 % 64) as Byte, (0x80 + c / 64 % 64) as Byte,
       (0x80 + c % 64) as Byte]
  }

  lemma FourBytesAreRune(c: int)
    requires 0x10000 <= c <= 0x10FFFF
    ensures IsRune(Encode(c))
  {
    assert c / 4096 == c / 262144 * 64 + c / 4096 % 64;
  }

  lemma ThreeBytesAreRune(c: int)
    requires 0x800 <= c < 0x10000 && Scalar(c)
    ensures IsRune(Encode(c))
  {
    assert c / 64 == c / 4096 * 64 + c / 64 % 64;
  }

  lemma EncodedIsRune(c: int)
    requires Scalar(c)
    ensures IsRune(Encode(c))
  {
    if c >= 0x10000 {
      FourBytesAreRune(c);
    } else if c >= 0x800 {
      ThreeBytesAreRune(c);
    }
  }

  /** The scalar value that a character of the grammar encodes. */
  function Decode(s: Bytes): int
    requires IsRune(s)
  {
    match |s|
    case 1 => s[0] as int
    case 2 => (s[0] as int - 0xC0) * 64 + (s[1] as int - 0x80)
    case 3 => (s[0] as int - 0xE0) * 4096 + (s[1] as int - 0x80) * 64 + (s[2] as int - 0x80)
    case _ =>
      (s[0] as int - 0xF0) * 262144 + (s[1] as int - 0x80) * 4096 + (s[2] as int - 0x80) * 64 + (s[3] as int - 0x80)
  }

  lemma DecodedEncodes(s: Bytes)
    requires IsRune(s)
    ensures Scalar(Decode(s)) && Encode(Decode(s)) == s
  {
    if |s| == 4 {
      FourBytesEncode(s);
    } else if |s| == 3 {
      ThreeBytesEncode(s);
    } else {
      ShortEncodes(s);
    }
  }

  lemma FourBytesEncode(s: Bytes)
    requires IsRune(s) && |s| == 4
    ensures 0x10000 <= Decode(s) <= 0x10FFFF && Encode(Decode(s)) == s
  {
    FourDigits(s[0] as int - 0xF0, s[1] as int - 0x80, s[2] as int - 0x80, s[3] as int - 0x80);
  }

  lemma ThreeBytesEncode(s: Bytes)
    requires IsRune(s) && |s| == 3
    ensures Scalar(Decode(s)) && Encode(Decode(s)) == s
  {
    FourDigits(0, s[0] as int - 0xE0, s[1] as int - 0x80, s[2] as int - 0x80);
  }

  lemma ShortEncodes(s: Bytes)
    requires IsRune(s) && |s| <= 2
    ensures Scalar(Decode(s)) && Encode(Decode(s)) == s
  {
  }

  lemma FourDigits(a: int, b: int, c: int, d: int)
    requires 0 <= a && 0 <= b < 64 && 0 <= c < 64 && 0 <= d < 64
    ensures var n := a * 262144 + b * 4096 + c * 64 + d;
            && n % 64 == d && n / 64 % 64 == c && n / 4096 % 64 == b && n / 262144 == a
            && n / 4096 == a * 64 + b
  {
    var n := a * 262144 + b * 4096 + c * 64 + d;
    assert n / 64 == a * 4096 + b * 64 + c;
    assert n / 4096 == a * 64 + b;
  }

  /** The grammar's characters are exactly the encodings of the scalar values. */
  lemma RuneIffScalar(s: Bytes)
    ensures IsRune(s) <==> exists c :: Scalar(c) && Encode(c) == s
  {
    if IsRune(s) {
      DecodedEncodes(s);
    }
    if c :| Scalar(c) && Encode(c) == s {
      EncodedIsRune(c);
    }
  }

  predicate Scalars(cs: seq<int>) {
    forall i :: 0 <= i < |cs| ==> Scalar(cs[i])
  }

  function EncodeAll(cs: seq<int>): Bytes
    requires Scalars(cs)
  {
    if cs == [] then [] else Encode(cs[0]) + EncodeAll(cs[1..])
  }

  lemma {:induction false} EncodedIsValid(cs: seq<int>)
    requires Scalars(cs)
    ensures Valid(EncodeAll(cs))
  {
    if cs != [] {
      EncodedIsRune(cs[0]);
      EncodedIsValid(cs[1..]);
      RuneThenValid(Encode(cs[0]), EncodeAll(cs[1..]));
    }
  }

  lemma {:induction false} ValidIsEncoded(s: Bytes) returns (cs: seq<int>)
    requires Valid(s)
    ensures Scalars(cs) && EncodeAll(cs) == s
    decreases |s|
  {
    if s == [] {
      cs := [];
    } else {
      var f := FirstRuneSize(s);
      var rest := ValidIsEncoded(s[f..]);
      DecodedEncodes(s[..f]);
      cs := [Decode(s[..f])] + rest;
      assert cs[1..] == rest;
    }
  }

  /** A text is valid exactly if it encodes some sequence of scalar values. */
  lemma ValidIffEncoded(s: Bytes)
    ensures Valid(s) <==> exists cs :: Scalars(cs) && EncodeAll(cs) == s
  {
    if Valid(s) {
      var cs := ValidIsEncoded(s);
    }
    if cs :| Scalars(cs) && EncodeAll(cs) == s {
      EncodedIsValid(cs);
    }
  }

  /** No other reading is possible: a character followed by a valid text is a valid text. */
  lemma RuneThenValid(r: Bytes, s: Bytes)
    requires IsRune(r) && Valid(s)
    ensures Valid(r + s)
  {
    var f := FirstRuneSize(r + s);
    assert (r + s)[..|r|] == r;
    assert f > 0;
    RuneShape(r);
    RuneShape((r + s)[..f]);
    assert (r + s)[|r|..] == s;
  }

  /** The size that Go's `utf8.DecodeLastRuneInString` reports: that of the last character, one byte if
    * `s` does not end in a character. */
  function LastRuneSize(s: Bytes): nat {
    if s == [] then 0
    else if EndsWithRune(s, 2) then 2
    else if EndsWithRune(s, 3) then 3
    else if EndsWithRune(s, 4) then 4
    else 1
  }

  predicate EndsWithRune(s: Bytes, k: nat) {
    k <= |s| && IsRune(s[|s| - k..])
  }

  // ---------------------------------------------------------------- characters do not overlap

  function LengthByLead(b: Byte): nat {
    if b < 0x80 then 1 else if b < 0xE0 then 2 else if b < 0xF0 then 3 else 4
  }

  lemma RuneShape(s: Bytes)
    requires IsRune(s)
    ensures |s| == LengthByLead(s[0])
    ensures !Tail(s[0]) && (|s| > 1 ==> s[0] >= 0xC2)
    ensures forall i :: 1 <= i < |s| ==> Tail(s[i])
  {
  }

  /** A valid text that is not empty ends in a character. */
  lemma {:induction false} EndsInRune(s: Bytes) returns (k: nat)
    requires Valid(s) && s != []
    ensures k > 0 && EndsWithRune(s, k)
  {
    var f := FirstRuneSize(s);
    if f == |s| {
      k := f;
      assert s[|s| - k..] == s[..f];
    } else {
      k := EndsInRune(s[f..]);
      assert s[f..][|s[f..]| - k..] == s[|s| - k..];
    }
  }

  /** A character that ends before the end of `t` also ends before the last character of `t` begins. */
  lemma RunesDoNotOverlap(t: Bytes, k: nat, j: nat, q: nat)
    requires EndsWithRune(t, k) && j < |t| && EndsWithRune(t[..j], q)
    ensures j <= |t| - k
  {
    var a, c := |t| - k, j - q;
    var last, earlier := t[a..], t[..j][c..];
    RuneShape(last);
    RuneShape(earlier);
    assert forall i :: a <= i < |t| ==> last[i - a] == t[i];
    assert forall i :: c <= i < j ==> earlier[i - c] == t[i];
    assert forall i :: a < i < |t| ==> Tail(t[i]);
    assert forall i :: c < i < j ==> Tail(t[i]);
  }

  lemma LastRuneSizeIsSize(t: Bytes)
    ensures t != [] ==> 0 < LastRuneSize(t) <= |t|
    ensures LastRuneSize(t) > 1 ==> EndsWithRune(t, LastRuneSize(t))
  {
  }

  /** Stripping the last whole character, or one byte if there is none, never skips a valid prefix. */
  lemma StripKeepsValidPrefixes(t: Bytes, j: nat)
    requires j < |t|
    ensures Valid(t[..j]) ==> j <= |t| - LastRuneSize(t)
  {
    LastRuneSizeIsSize(t);
    if Valid(t[..j]) && j > 0 {
      var q := EndsInRune(t[..j]);
      if LastRuneSize(t) > 1 {
        RunesDoNotOverlap(t, LastRuneSize(t), j, q);
      }
    }
  }

  /** Where the last character of `t` begins, if it has several bytes, is the last byte that is not a tail. */
  lemma LastLead(t: Bytes, k: nat, a: nat)
    requires k > 1 && EndsWithRune(t, k) && a < |t| && !Tail(t[a]) && forall i :: a < i < |t| ==> Tail(t[i])
    ensures a == |t| - k && k == LengthByLead(t[a])
  {
    var last := t[|t| - k..];
    RuneShape(last);
    assert forall i :: |t| - k <= i < |t| ==> last[i - (|t| - k)] == t[i];
    assert !Tail(t[|t| - k]);
  }

  /** A character that is cut short at the end of the text is not stripped in one step but byte by byte. */
  lemma IncompleteStripsOneByte(t: Bytes, r: Bytes, m: nat)
    requires IsRune(r) && 0 < m < |r| && m <= |t| && t[|t| - m..] == r[..m]
    ensures LastRuneSize(t) == 1
  {
    RuneShape(r);
    var a := |t| - m;
    assert forall i :: a <= i < |t| ==> t[i] == t[a..][i - a];
    assert t[a] == r[0] && forall i :: a < i < |t| ==> t[i] == r[i - a];
    var k := LastRuneSize(t);
    LastRuneSizeIsSize(t);
    if k > 1 {
      LastLead(t, k, a);
    }
  }

  // ---------------------------------------------------------------- truncateSearch

  /** No prefix of `t` longer than `n` bytes is valid. */
  ghost predicate NoneValidAbove(t: Bytes, n: nat) {
    forall j :: n < j <= |t| ==> !Valid(t[..j])
  }

  /** `r` is a valid prefix of `t`, and no valid prefix of `t` is longer. */
  ghost predicate LongestValidPrefix(r: Bytes, t: Bytes) {
    r <= t && Valid(r) && NoneValidAbove(t, |r|)
  }

  lemma NoneValidAfterStrip(t: Bytes, r: Bytes, j: nat)
    requires r <= t && !Valid(r) && |r| - LastRuneSize(r) < j <= |r|
    ensures !Valid(t[..j])
  {
    assert t[..j] == r[..j];
    if j < |r| {
      StripKeepsValidPrefixes(r, j);
    } else {
      assert r[..j] == r;
    }
  }

  lemma StripOnce(t: Bytes, r: Bytes)
    requires r <= t && r != [] && !Valid(r) && NoneValidAbove(t, |r|)
    ensures 0 < LastRuneSize(r) <= |r|
    ensures NoneValidAbove(t, |r| - LastRuneSize(r))
  {
    LastRuneSizeIsSize(r);
    var n := |r| - LastRuneSize(r);
    forall j | n < j <= |r| ensures !Valid(t[..j]) {
      NoneValidAfterStrip(t, r, j);
    }
  }

  method TruncateSearch(s: Bytes, maxBytes: nat) returns (r: Bytes)
    ensures |s| <= maxBytes ==> r == s
    ensures |s| > maxBytes ==> LongestValidPrefix(r, s[..maxBytes])
  {
    if |s| <= maxBytes {
      return s;
    }
    ghost var t := s[..maxBytes];
    r := s[..maxBytes];
    if Valid(r) {
      return;
    }
    while |r| > 0
      invariant r <= t && NoneValidAbove(t, |r|)
      invariant !Valid(r)
      decreases |r|
    {
      StripOnce(t, r);
      var size := LastRuneSize(r);
      r := r[..|r| - size];
      if Valid(r) {
        break;
      }
    }
  }

  /** That prefix is unique, so the method's result is determined by its postcondition. */
  lemma LongestValidPrefixIsUnique(r: Bytes, q: Bytes, t: Bytes)
    requires LongestValidPrefix(r, t) && LongestValidPrefix(q, t)
    ensures r == q
  {
    assert r == t[..|r|] && q == t[..|q|];
  }
}
