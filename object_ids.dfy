/**
  Document identifiers (ObjectIds). An identifier is modelled as a natural
  number; its external form is the 24-digit, lower-case hexadecimal text that
  `str(ObjectId)` produces, and decoding that text (`ObjectId(s)`) is a partial
  function: it succeeds on exactly 24 hexadecimal digits of either case.
  Later identifiers are larger numbers, which is the order pagination uses.
*/
module ObjectIds {
  import opened Wrappers

  /** Number of hexadecimal digits in the text form of an ObjectId (12 bytes). */
  const Width: nat := 24

  function Pow16(w: nat): (p: nat)
    ensures p >= 1
  {
    if w == 0 then 1 else 16 * Pow16(w - 1)
  }

  /** Number of distinct ObjectIds, 16^24 = 2^96. */
  const IdSpace: nat := Pow16(Width)

  /** Value of one hexadecimal digit; `None` for any other character. */
  function DigitValue(c: char): (r: Option<nat>)
    ensures r.Some? ==> r.value < 16
    ensures r.Some? <==> ('0' <= c <= '9' || 'a' <= c <= 'f' || 'A' <= c <= 'F')
  {
    if '0' <= c <= '9' then Some(c as nat - '0' as nat)
    else if 'a' <= c <= 'f' then Some(c as nat - 'a' as nat + 10)
    else if 'A' <= c <= 'F' then Some(c as nat - 'A' as nat + 10)
    else None
  }

  /** The lower-case digit for a value below 16. */
  function HexDigit(d: nat): (c: char)
    requires d < 16
    ensures DigitValue(c) == Some(d)
    ensures !('A' <= c <= 'F')
  {
    if d < 10 then ('0' as nat + d) as char else ('a' as nat + d - 10) as char
  }

  predicate IsHex(s: string) {
    forall i :: 0 <= i < |s| ==> DigitValue(s[i]).Some?
  }

  /** The big-endian value of a string of hexadecimal digits. */
  function HexValue(s: string): nat
    requires IsHex(s)
  {
    if s == [] then 0 else 16 * HexValue(s[..|s| - 1]) + DigitValue(s[|s| - 1]).value
  }

  /** Lower-case hexadecimal digits of `n`, left-padded with zeros to at least `w` digits. */
  function PaddedHex(n: nat, w: nat): string
    decreases n, w
  {
    if n == 0 && w == 0 then ""
    else PaddedHex(n / 16, if w == 0 then 0 else w - 1) + [HexDigit(n % 16)]
  }

  /** `str(oid)`: the external text of an identifier. */
  function EncodeId(n: nat): string {
    PaddedHex(n, Width)
  }

  /** `ObjectId(s)`: `None` where the constructor raises `InvalidId`. */
  function DecodeId(s: string): (r: Option<nat>)
    ensures r.Some? <==> |s| == Width && IsHex(s)
    ensures r.Some? ==> r.value < IdSpace
  {
    if |s| == Width && IsHex(s) then HexValueBound(s); Some(HexValue(s)) else None
  }

  lemma {:induction false} HexValueBound(s: string)
    requires IsHex(s)
    ensures HexValue(s) < Pow16(|s|)
  {
    if s != [] {
      var p := s[..|s| - 1];
      assert IsHex(p) by {
        forall i | 0 <= i < |p| ensures DigitValue(p[i]).Some? { assert p[i] == s[i]; }
      }
      HexValueBound(p);
      assert HexValue(s) == 16 * HexValue(p) + DigitValue(s[|s| - 1]).value;
      assert HexValue(p) + 1 <= Pow16(|p|);
      assert 16 * (HexValue(p) + 1) <= 16 * Pow16(|p|);
    }
  }

  lemma {:induction false} PaddedHexRoundTrip(n: nat, w: nat)
    requires n < Pow16(w)
    ensures |PaddedHex(n, w)| == w
    ensures IsHex(PaddedHex(n, w))
    ensures HexValue(PaddedHex(n, w)) == n
  {
    if w != 0 {
      var q, d := n / 16, n % 16;
      assert n == 16 * q + d;
      assert 16 * q < 16 * Pow16(w - 1);
      PaddedHexRoundTrip(q, w - 1);
      var p := PaddedHex(q, w - 1);
      var s := PaddedHex(n, w);
      assert s == p + [HexDigit(d)];
      assert s[..|s| - 1] == p;
      assert IsHex(s) by {
        forall i | 0 <= i < |s| ensures DigitValue(s[i]).Some? {
          if i < |p| { assert s[i] == p[i]; }
        }
      }
    }
  }

  /** Every identifier of the 96-bit space survives `ObjectId(str(oid))`. */
  lemma EncodeDecode(n: nat)
    requires n < IdSpace
    ensures |EncodeId(n)| == Width
    ensures DecodeId(EncodeId(n)) == Some(n)
  {
    PaddedHexRoundTrip(n, Width);
  }

  /** Distinct identifiers have distinct text forms. */
  lemma EncodeInjective(m: nat, n: nat)
    requires m < IdSpace && n < IdSpace
    requires EncodeId(m) == EncodeId(n)
    ensures m == n
  {
    EncodeDecode(m);
    EncodeDecode(n);
  }

  /** Replacing the last digit by another spelling of the same digit keeps the value. */
  lemma ReplaceLastDigit(s: string, c: char)
    requires IsHex(s) && s != []
    requires DigitValue(c) == DigitValue(s[|s| - 1])
    ensures var t := s[..|s| - 1] + [c];
      IsHex(t) && HexValue(t) == HexValue(s)
  {
    var t := s[..|s| - 1] + [c];
    assert t[..|t| - 1] == s[..|s| - 1];
    assert IsHex(t) by {
      forall i | 0 <= i < |t| ensures DigitValue(t[i]).Some? {
        if i < |t| - 1 { assert t[i] == s[i]; }
      }
    }
  }

  lemma {:induction false} Pow16Grows(w: nat)
    ensures w < Pow16(w)
  {
    if w != 0 { Pow16Grows(w - 1); }
  }
}
