/** Lower-case hexadecimal text of byte strings, as the PCR signature file stores digests. */
module Hex {
  import opened Wrappers

  type byte = b: int | 0 <= b < 256

  function Digit(n: nat): (c: char)
    requires n < 16
    ensures DigitValue(c) == Some(n)
  {
    if n < 10 then '0' + n as char else 'a' + (n - 10) as char
  }

  /** One base-16 digit, in either case, as `u8::from_str_radix` reads it. */
  function DigitValue(c: char): (v: Option<nat>)
    ensures v.Some? ==> v.value < 16
  {
    if '0' <= c <= '9' then Some((c - '0') as nat)
    else if 'a' <= c <= 'f' then Some((c - 'a') as nat + 10)
    else if 'A' <= c <= 'F' then Some((c - 'A') as nat + 10)
    else None
  }

  function Encode(bytes: seq<byte>): (s: string)
    ensures |s| == 2 * |bytes|
  {
    if bytes == [] then ""
    else [Digit(bytes[0] / 16), Digit(bytes[0] % 16)] + Encode(bytes[1..])
  }

  /** Two characters as one byte; a leading `+` is accepted, as `from_str_radix` does. */
  function PairValue(hi: char, lo: char): Option<byte> {
    var l := DigitValue(lo);
    if l.None? then None
    else if hi == '+' then Some(l.value)
    else
      var h := DigitValue(hi);
      if h.None? then None else Some(16 * h.value + l.value)
  }

  function Decode(s: string): (r: Result<seq<byte>>)
    ensures r.Ok? ==> |s| == 2 * |r.value|
  {
    if |s| % 2 != 0 then Err(Serde) else DecodePairs(s)
  }

  function DecodePairs(s: string): (r: Result<seq<byte>>)
    requires |s| % 2 == 0
    ensures r.Ok? ==> |s| == 2 * |r.value|
  {
    if s == "" then Ok([])
    else
      var b := PairValue(s[0], s[1]);
      if b.None? then Err(Serde)
      else
        var rest :- DecodePairs(s[2..]);
        Ok([b.value] + rest)
  }

  /** Reading back what was written gives the same bytes. */
  lemma {:induction false} RoundTrip(bytes: seq<byte>)
    ensures Decode(Encode(bytes)) == Ok(bytes)
  {
    if bytes != [] {
      RoundTrip(bytes[1..]);
      var s := Encode(bytes);
      assert s[2..] == Encode(bytes[1..]);
      assert PairValue(s[0], s[1]) == Some(bytes[0]);
      assert [bytes[0]] + bytes[1..] == bytes;
    }
  }

  /** Distinct byte strings have distinct texts, so comparing texts compares digests. */
  lemma Injective(a: seq<byte>, b: seq<byte>)
    ensures Encode(a) == Encode(b) <==> a == b
  {
    RoundTrip(a);
    RoundTrip(b);
  }

  predicate IsDigit(c: char) {
    '0' <= c <= '9' || 'a' <= c <= 'f' || 'A' <= c <= 'F'
  }

  /** What is read: pairs of digits in either case, where a plus sign may stand for the first of a pair. */
  lemma {:induction false} ReadsExactly(s: string)
    requires |s| % 2 == 0
    ensures Decode(s).Ok? <==>
            forall i :: 0 <= i < |s| ==> IsDigit(s[i]) || (i % 2 == 0 && s[i] == '+')
  {
    if s != "" {
      var rest := s[2..];
      ReadsExactly(rest);
      assert forall i :: 2 <= i < |s| ==> s[i] == rest[i - 2];
      assert forall i :: 0 <= i < |rest| ==> rest[i] == s[i + 2];
      assert PairValue(s[0], s[1]).Some? <==> (IsDigit(s[0]) || s[0] == '+') && IsDigit(s[1]);
      assert Decode(s).Ok? <==> PairValue(s[0], s[1]).Some? && Decode(rest).Ok?;
    }
  }

  predicate IsLowerDigit(c: char) {
    '0' <= c <= '9' || 'a' <= c <= 'f'
  }

  /** Text in the one form that is written: pairs of lower-case digits. */
  predicate IsLower(s: string) {
    |s| % 2 == 0 && forall i :: 0 <= i < |s| ==> IsLowerDigit(s[i])
  }

  lemma LowerPair(hi: char, lo: char)
    requires IsLowerDigit(hi) && IsLowerDigit(lo)
    ensures var b := PairValue(hi, lo);
            b.Some? && Digit(b.value / 16) == hi && Digit(b.value % 16) == lo
  {
    var h, l := DigitValue(hi).value, DigitValue(lo).value;
    assert (16 * h + l) / 16 == h && (16 * h + l) % 16 == l;
  }

  /** What is written is in lower case, whatever the bytes. */
  lemma {:induction false} EncodeIsLower(bytes: seq<byte>)
    ensures IsLower(Encode(bytes))
  {
    if bytes != [] {
      EncodeIsLower(bytes[1..]);
      var rest := Encode(bytes[1..]);
      assert Encode(bytes)[2..] == rest;
      forall i | 0 <= i < |Encode(bytes)| ensures IsLowerDigit(Encode(bytes)[i]) {
        assert i >= 2 ==> Encode(bytes)[i] == rest[i - 2];
      }
    }
  }

  /** Every lower-case text is read, and is what is written for the bytes it reads as. */
  lemma {:induction false} Canonical(s: string)
    requires IsLower(s)
    ensures Decode(s).Ok? && Encode(Decode(s).value) == s
  {
    if s != "" {
      LowerPair(s[0], s[1]);
      assert IsLower(s[2..]);
      Canonical(s[2..]);
      var bytes := Decode(s).value;
      assert bytes[1..] == Decode(s[2..]).value;
      assert s == [s[0], s[1]] + s[2..];
    }
  }

  /** The buffer-appending loop the program runs. */
  method HexLower(bytes: seq<byte>) returns (s: string)
    ensures s == Encode(bytes)
  {
    s := "";
    for i := 0 to |bytes|
      invariant s + Encode(bytes[i..]) == Encode(bytes)
    {
      s := s + [Digit(bytes[i] / 16), Digit(bytes[i] % 16)];
      assert bytes[i..][1..] == bytes[i + 1..];
    }
    assert bytes[|bytes|..] == [];
  }
}
