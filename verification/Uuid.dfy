/** The UUID codec (src/server/uuid.c): 36 characters of hyphenated hexadecimal for 16 octets. */
module Uuid {
  import opened Base

  type Octet = x: int | 0 <= x < 256

  type Uuid = u: seq<Octet> | |u| == 16 witness seq(16, _ => 0)

  const REPR_LENGTH := 36

  // ---- Hexadecimal digits ----

  function HalfToRepr(v: int): (c: char)
    requires 0 <= v < 16
    ensures IsHexDigit(c) && ReprToHalf(c) == v && !('A' <= c <= 'F')
  {
    if v < 10 then ('0' as int + v) as char else ('a' as int - 10 + v) as char
  }

  const INVALID_HALF := 255

  function ReprToHalf(c: char): (v: int)
    ensures v != INVALID_HALF <==> IsHexDigit(c)
    ensures v != INVALID_HALF ==> 0 <= v < 16
  {
    if '0' <= c <= '9' then c as int - '0' as int
    else if 'A' <= c <= 'F' then c as int - 'A' as int + 10
    else if 'a' <= c <= 'f' then c as int - 'a' as int + 10
    else INVALID_HALF
  }

  lemma ReprOfHalf(c: char)
    requires IsHexDigit(c)
    ensures HalfToRepr(ReprToHalf(c)) == ToLower(c)
  {
  }

  /** The sixteen digits, in order and in either letter case. */
  lemma DigitsInOrder(v: int)
    requires 0 <= v < 16
    ensures HalfToRepr(v) == "0123456789abcdef"[v]
    ensures ReprToHalf("0123456789abcdef"[v]) == v == ReprToHalf("0123456789ABCDEF"[v])
  {
  }

  /** HEXDIG of section 4 of RFC 9562, in either letter case. */
  predicate IsHexDigit(c: char) {
    '0' <= c <= '9' || 'A' <= c <= 'F' || 'a' <= c <= 'f'
  }

  function ToLower(c: char): char {
    if 'A' <= c <= 'Z' then (c as int + 32) as char else c
  }

  function Lower(s: string): (r: string)
    ensures |r| == |s| && forall i :: 0 <= i < |s| ==> r[i] == ToLower(s[i])
  {
    seq(|s|, i requires 0 <= i < |s| => ToLower(s[i]))
  }

  // ---- The grammar ----

  predicate IsHyphenAt(i: int) {
    i == 8 || i == 13 || i == 18 || i == 23
  }

  /** The number of hyphens before octet `k`. */
  function HyphensBefore(k: int): int {
    if k < 4 then 0 else if k < 6 then 1 else if k < 8 then 2 else if k < 10 then 3 else 4
  }

  /** Where the two digits of octet `k` start. */
  function DigitsAt(k: int): int {
    2 * k + HyphensBefore(k)
  }

  /** Which octet position `i` belongs to, hyphens excepted. */
  function OctetAt(i: int): int {
    if i < 8 then i / 2
    else if i < 13 then (i - 1) / 2
    else if i < 18 then (i - 2) / 2
    else if i < 23 then (i - 3) / 2
    else (i - 4) / 2
  }

  predicate CharFits(s: string, i: int)
    requires 0 <= i < |s|
  {
    if IsHyphenAt(i) then s[i] == '-' else IsHexDigit(s[i])
  }

  /** Section 4 of RFC 9562: 4-2-2-2-6 octets in hexadecimal, separated by hyphens. */
  predicate Grammar(s: string) {
    && |s| == REPR_LENGTH
    && forall i :: 0 <= i < REPR_LENGTH ==> CharFits(s, i)
  }

  /** The two digits of an octet belong to it. */
  lemma DigitsBelong(k: int)
    requires 0 <= k < 16
    ensures OctetAt(DigitsAt(k)) == k == OctetAt(DigitsAt(k) + 1)
    ensures !IsHyphenAt(DigitsAt(k)) && !IsHyphenAt(DigitsAt(k) + 1)
    ensures 0 <= DigitsAt(k) < REPR_LENGTH - 1
  {
  }

  /** The value of the two digits of octet `k`. */
  function OctetOf(s: string, k: int): (v: int)
    requires |s| == REPR_LENGTH && 0 <= k < 16
    ensures Grammar(s) ==> 0 <= v < 256
  {
    DigitsBelong(k);
    assert Grammar(s) ==> CharFits(s, DigitsAt(k)) && CharFits(s, DigitsAt(k) + 1);
    16 * ReprToHalf(s[DigitsAt(k)]) + ReprToHalf(s[DigitsAt(k) + 1])
  }

  lemma HalvesOfOctet(s: string, k: int)
    requires Grammar(s) && 0 <= k < 16
    ensures !IsHyphenAt(DigitsAt(k)) && !IsHyphenAt(DigitsAt(k) + 1) && 0 <= DigitsAt(k) < REPR_LENGTH - 1
    ensures IsHexDigit(s[DigitsAt(k)]) && IsHexDigit(s[DigitsAt(k) + 1])
    ensures OctetOf(s, k) / 16 == ReprToHalf(s[DigitsAt(k)]) && OctetOf(s, k) % 16 == ReprToHalf(s[DigitsAt(k) + 1])
  {
    DigitsBelong(k);
    assert CharFits(s, DigitsAt(k)) && CharFits(s, DigitsAt(k) + 1);
  }

  /** The octets a string of the grammar denotes. */
  function Decode(s: string): (r: Option<Uuid>)
    ensures r.Some? <==> Grammar(s)
  {
    if Grammar(s) then Some(seq(16, k requires 0 <= k < 16 => OctetOf(s, k))) else None
  }

  function ReprChar(u: Uuid, i: int): char
    requires 0 <= i < REPR_LENGTH
  {
    if IsHyphenAt(i) then '-'
    else
      var k := OctetAt(i);
      if i == DigitsAt(k) then HalfToRepr(u[k] / 16) else HalfToRepr(u[k] % 16)
  }

  /** The canonical text of a UUID. */
  function Encode(u: Uuid): (s: string)
    ensures Grammar(s) && Lower(s) == s
  {
    seq(REPR_LENGTH, i requires 0 <= i < REPR_LENGTH => ReprChar(u, i))
  }

  /** Where the first digit of each octet stands in the text. */
  const FIRST_DIGITS := [0, 2, 4, 6, 9, 11, 14, 16, 19, 21, 24, 26, 28, 30, 32, 34]

  /** The octets are read from left to right, the high digit first. */
  lemma DecodeReads(s: string, k: int)
    requires Grammar(s) && 0 <= k < 16
    ensures var i := FIRST_DIGITS[k];
            Decode(s).value[k] == 16 * ReprToHalf(s[i]) + ReprToHalf(s[i + 1])
  {
  }

  /** parse(repr(u)) = u. */
  lemma ParseRepr(u: Uuid)
    ensures Decode(Encode(u)) == Some(u)
  {
    forall k | 0 <= k < 16
      ensures Decode(Encode(u)).value[k] == u[k]
    {
      var i := DigitsAt(k);
      DigitsBelong(k);
      assert ReprChar(u, i) == HalfToRepr(u[k] / 16) && ReprChar(u, i + 1) == HalfToRepr(u[k] % 16);
    }
    assert Decode(Encode(u)).value == u;
  }

  /** repr(parse(s)) = lowercase(s), for every accepted `s`. */
  lemma ReprParse(s: string)
    requires Grammar(s)
    ensures Encode(Decode(s).value) == Lower(s)
  {
    var u := Decode(s).value;
    forall i | 0 <= i < REPR_LENGTH
      ensures Encode(u)[i] == ToLower(s[i])
    {
      assert CharFits(s, i);
      if !IsHyphenAt(i) {
        var k := OctetAt(i);
        assert i == DigitsAt(k) || i == DigitsAt(k) + 1;
        HalvesOfOctet(s, k);
        assert u[k] == OctetOf(s, k);
        ReprOfHalf(s[i]);
      }
    }
  }

  /** Two accepted strings denote the same UUID exactly when they differ in letter case only. */
  lemma SameUuidIffSameLowercase(s: string, t: string)
    requires Grammar(s) && Grammar(t)
    ensures Decode(s) == Decode(t) <==> Lower(s) == Lower(t)
  {
    ReprParse(s);
    ReprParse(t);
    ParseRepr(Decode(s).value);
    ParseRepr(Decode(t).value);
  }

  // ---- The two loops over the 4-2-2-2-6 layout ----

  datatype Piece = O | H

  const PIECES := 20

  /** The layout O O O O H O O H O O H O O H O O O O O O. */
  function PieceAt(p: int): Piece {
    if p == 4 || p == 7 || p == 10 || p == 13 then H else O
  }

  /** The number of octets among the first `p` pieces. */
  function Octets(p: int): int {
    if p <= 4 then p else if p <= 7 then p - 1 else if p <= 10 then p - 2 else if p <= 13 then p - 3 else p - 4
  }

  /** The number of characters the first `p` pieces span. */
  function Chars(p: int): int {
    p + Octets(p)
  }

  lemma LayoutAt(p: int)
    requires 0 <= p < PIECES
    ensures PieceAt(p).H? <==> IsHyphenAt(Chars(p))
    ensures PieceAt(p).H? ==> Octets(p + 1) == Octets(p)
    ensures PieceAt(p).O? ==> Octets(p + 1) == Octets(p) + 1 && Octets(p) < 16
    ensures PieceAt(p).O? ==> Chars(p) == DigitsAt(Octets(p)) && !IsHyphenAt(Chars(p) + 1)
  {
  }

  /** `uuid4_repr`: writes the text over the first 36 characters of the buffer. */
  method Repr(u: Uuid, repr: array<char>)
    requires repr.Length >= REPR_LENGTH
    modifies repr
    ensures repr[..REPR_LENGTH] == Encode(u)
    ensures repr[REPR_LENGTH..] == old(repr[REPR_LENGTH..])
  {
    var idata, i := 0, 0;
    for p := 0 to PIECES
      invariant idata == Octets(p) && i == Chars(p)
      invariant forall j :: 0 <= j < i ==> repr[j] == ReprChar(u, j)
      invariant forall j :: REPR_LENGTH <= j < repr.Length ==> repr[j] == old(repr[j])
    {
      LayoutAt(p);
      if PieceAt(p).O? {
        DigitsBelong(idata);
        repr[i] := HalfToRepr(u[idata] / 16);
        repr[i + 1] := HalfToRepr(u[idata] % 16);
        i := i + 2;
        idata := idata + 1;
      } else {
        repr[i] := '-';
        i := i + 1;
      }
    }
  }

  /** `uuid4_parse`: reads at most 36 characters and writes at most 16 octets. */
  method Parse(out: array<Octet>, repr: string) returns (ok: bool)
    requires out.Length == 16 && |repr| >= REPR_LENGTH
    modifies out
    ensures ok <==> Grammar(repr[..REPR_LENGTH])
    ensures ok ==> Decode(repr[..REPR_LENGTH]) == Some(out[..])
  {
    var idata, i := 0, 0;
    ghost var s := repr[..REPR_LENGTH];
    for p := 0 to PIECES
      invariant idata == Octets(p) && i == Chars(p)
      invariant forall j :: 0 <= j < i ==> CharFits(s, j)
      invariant forall k :: 0 <= k < idata ==> out[k] == OctetOf(s, k)
    {
      LayoutAt(p);
      if PieceAt(p).O? {
        var v1 := ReprToHalf(repr[i]);
        if v1 == INVALID_HALF {
          assert !CharFits(s, i);
          return false;
        }
        var v2 := ReprToHalf(repr[i + 1]);
        if v2 == INVALID_HALF {
          assert !CharFits(s, i + 1);
          return false;
        }
        out[idata] := 16 * v1 + v2;
        i := i + 2;
        idata := idata + 1;
      } else {
        if repr[i] != '-' {
          assert !CharFits(s, i);
          return false;
        }
        i := i + 1;
      }
    }
    assert Decode(s).value == out[..];
    return true;
  }
}
