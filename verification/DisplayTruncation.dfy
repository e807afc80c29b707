/** sc_doctor_truncate_for_display of src/doctor.c: cutting a UTF-8 text (RFC 3629, sections
    3 and 4) at a byte limit without splitting a character. */
module DisplayTruncation {
  import opened Wrappers

  type Byte = b: int | 0 <= b < 256

  /** A continuation byte: its two leading bits are 1 and 0. */
  predicate IsTail(b: Byte) {
    b / 64 == 2
  }

  predicate TailsFrom(s: seq<Byte>, from: nat, to: nat) {
    to <= |s| && forall k :: from <= k < to ==> IsTail(s[k])
  }

  /** The length of the character at the front, by the ABNF of section 4; 0 when there is none. */
  function CharLength(s: seq<Byte>): (n: nat)
    ensures n <= 4 && n <= |s|
    ensures n > 0 ==> !IsTail(s[0]) && TailsFrom(s, 1, n)
  {
    if s == [] then 0
    else if s[0] <= 0x7F then 1
    else if 0xC2 <= s[0] <= 0xDF then (if TailsFrom(s, 1, 2) then 2 else 0)
    else if 0xE0 <= s[0] <= 0xEF then
      (if TailsFrom(s, 1, 3) && (s[0] == 0xE0 ==> s[1] >= 0xA0) && (s[0] == 0xED ==> s[1] <= 0x9F) then 3 else 0)
    else if 0xF0 <= s[0] <= 0xF4 then
      (if TailsFrom(s, 1, 4) && (s[0] == 0xF0 ==> s[1] >= 0x90) && (s[0] == 0xF4 ==> s[1] <= 0x8F) then 4 else 0)
    else 0
  }

  predicate IsUtf8(s: seq<Byte>) {
    s == [] || (CharLength(s) > 0 && IsUtf8(s[CharLength(s)..]))
  }

  /** Whether a character fits is decided by its own bytes. */
  lemma CharLengthLocal(s: seq<Byte>, k: nat)
    requires CharLength(s) > 0 && k <= |s|
    ensures CharLength(s[..k]) == if CharLength(s) <= k then CharLength(s) else 0
  {
    var n, p := CharLength(s), s[..k];
    assert forall i :: 0 <= i < k ==> p[i] == s[i];
  }

  /** In a valid text a prefix is valid exactly when no character is cut. */
  lemma {:induction false} PrefixValidIff(s: seq<Byte>, k: nat)
    requires IsUtf8(s) && k < |s|
    ensures IsUtf8(s[..k]) <==> !IsTail(s[k])
    decreases |s|
  {
    var n := CharLength(s);
    CharLengthLocal(s, k);
    if k == 0 {
      assert s[..0] == [];
    } else if k < n {
      assert TailsFrom(s, 1, n);
    } else {
      assert s[..k][n..] == s[n..][..k - n];
      PrefixValidIff(s[n..], k - n);
    }
  }

  /** A boundary lies at most three bytes back. */
  lemma {:induction false} BoundaryIsNear(s: seq<Byte>, k: nat) returns (b: nat)
    requires IsUtf8(s) && k < |s|
    ensures b <= k <= b + 3 && !IsTail(s[b])
    decreases |s|
  {
    var n := CharLength(s);
    if k < n {
      b := 0;
    } else {
      var c := BoundaryIsNear(s[n..], k - n);
      b := n + c;
      assert s[n..][c] == s[b];
    }
  }

  /** `len` is the text's length, or 0 to ask for the whole C string. */
  method Truncate(s: Option<seq<Byte>>, len: nat, maxLen: nat) returns (out: Option<seq<Byte>>)
    requires s.Some? ==> len <= |s.value|
    ensures out.None? <==> s.None?
    ensures s.Some? ==>
              var text := s.value[..if len == 0 then |s.value| else len];
              && out.value <= text && |out.value| <= maxLen
              && (|text| <= maxLen ==> out.value == text)
              && (|text| > maxLen ==>
                    && (forall k :: |out.value| < k <= maxLen ==> IsTail(text[k]))
                    && (out.value != [] ==> !IsTail(text[|out.value|])))
  {
    if s.None? { return None; }
    var n := if len == 0 then |s.value| else len;
    var text := s.value[..n];
    if n <= maxLen { return Some(text); }
    var i := maxLen;
    while i > 0 && IsTail(text[i])
      invariant 0 <= i <= maxLen
      invariant forall k :: i < k <= maxLen ==> IsTail(text[k])
    {
      i := i - 1;
    }
    return Some(text[..i]);
  }

  /** Main result: for a valid text the cut is valid, is the longest valid prefix within the
      limit, and loses at most three bytes to the boundary. */
  lemma TruncateIsLongestValid(text: seq<Byte>, maxLen: nat, cut: seq<Byte>)
    requires IsUtf8(text) && |text| > maxLen && cut <= text && |cut| <= maxLen
    requires forall k :: |cut| < k <= maxLen ==> IsTail(text[k])
    requires cut != [] ==> !IsTail(text[|cut|])
    ensures IsUtf8(cut)
    ensures forall k :: |cut| < k <= maxLen ==> !IsUtf8(text[..k])
    ensures maxLen - |cut| <= 3
  {
    if cut != [] { PrefixValidIff(text, |cut|); }
    assert text[..|cut|] == cut;
    forall k | |cut| < k <= maxLen ensures !IsUtf8(text[..k]) { PrefixValidIff(text, k); }
    var b := BoundaryIsNear(text, maxLen);
  }

  // ----- the characters, by their code points

  predicate IsScalar(c: int) {
    0 <= c <= 0x10FFFF && !(0xD800 <= c <= 0xDFFF)
  }

  /** The table of section 3: one to four bytes of six bits, the first with its marker. */
  function Encode(c: int): seq<Byte>
    requires IsScalar(c)
  {
    if c < 0x80 then [c]
    else if c < 0x800 then [0xC0 + c / 64, 0x80 + c % 64]
    else if c < 0x10000 then [0xE0 + c / 4096, 0x80 + c / 64 % 64, 0x80 + c % 64]
    else [0xF0 + c / 262144, 0x80 + c / 4096 % 64, 0x80 + c / 64 % 64, 0x80 + c % 64]
  }

  /** Every encoded scalar value is one character, whatever follows it. */
  lemma EncodedIsCharacter(c: int, rest: seq<Byte>)
    requires IsScalar(c)
    ensures CharLength(Encode(c) + rest) == |Encode(c)|
  {
    var s := Encode(c) + rest;
    assert forall k :: 0 <= k < |Encode(c)| ==> s[k] == Encode(c)[k];
    assert forall k :: 1 <= k < |Encode(c)| ==> IsTail(Encode(c)[k]);
  }

  /** Every character is an encoded scalar value; so no other bytes are accepted, no longer forms
      than needed and no surrogates among them. */
  lemma CharacterIsEncoded(s: seq<Byte>) returns (c: int)
    requires CharLength(s) > 0
    ensures IsScalar(c) && s[..CharLength(s)] == Encode(c)
  {
    var n := CharLength(s);
    if n == 1 {
      c := s[0];
    } else if n == 2 {
      assert IsTail(s[1]);
      c := TwoBytes(s[0], s[1]);
    } else if n == 3 {
      assert IsTail(s[1]) && IsTail(s[2]);
      c := ThreeBytes(s[0], s[1], s[2]);
    } else {
      assert IsTail(s[1]) && IsTail(s[2]) && IsTail(s[3]);
      c := FourBytes(s[0], s[1], s[2], s[3]);
    }
  }

  lemma TwoBytes(a: int, b: int) returns (c: int)
    requires 0xC2 <= a <= 0xDF && 0x80 <= b <= 0xBF
    ensures IsScalar(c) && Encode(c) == [a, b]
  {
    c := (a - 0xC0) * 64 + (b - 0x80);
  }

  lemma ThreeBytes(a: int, b: int, d: int) returns (c: int)
    requires 0xE0 <= a <= 0xEF && 0x80 <= b <= 0xBF && 0x80 <= d <= 0xBF
    requires (a == 0xE0 ==> b >= 0xA0) && (a == 0xED ==> b <= 0x9F)
    ensures IsScalar(c) && Encode(c) == [a, b, d]
  {
    c := (a - 0xE0) * 4096 + (b - 0x80) * 64 + (d - 0x80);
    assert c / 64 == (a - 0xE0) * 64 + (b - 0x80);
  }

  lemma FourBytes(a: int, b: int, d: int, e: int) returns (c: int)
    requires 0xF0 <= a <= 0xF4 && 0x80 <= b <= 0xBF && 0x80 <= d <= 0xBF && 0x80 <= e <= 0xBF
    requires (a == 0xF0 ==> b >= 0x90) && (a == 0xF4 ==> b <= 0x8F)
    ensures IsScalar(c) && Encode(c) == [a, b, d, e]
  {
    c := (a - 0xF0) * 262144 + (b - 0x80) * 4096 + (d - 0x80) * 64 + (e - 0x80);
    assert c / 64 == (a - 0xF0) * 4096 + (b - 0x80) * 64 + (d - 0x80);
    assert c / 4096 == (a - 0xF0) * 64 + (b - 0x80);
  }
}
