/** What the policy digests tell apart, under an ideal hash: the machine state and the key they stand for. */
module Digests {
  import opened Wrappers
  import opened Hex
  import opened Suite
  import opened Sealing

  /** A SHA-256 bank as a TPM has it: a value of 32 bytes in every PCR that can be selected. */
  predicate FullBank(bank: map<nat, seq<byte>>) {
    forall p :: 0 <= p < 24 ==> p in bank && |bank[p]| == 32
  }

  /** The two banks agree on every PCR of the list. */
  predicate SameValues(a: map<nat, seq<byte>>, b: map<nat, seq<byte>>, pcrs: seq<nat>)
    requires FullBank(a) && FullBank(b)
  {
    forall p :: 0 <= p < 24 && p in pcrs ==> a[p] == b[p]
  }

  lemma Split(a: seq<byte>, b: seq<byte>, x: seq<byte>, y: seq<byte>)
    requires |a| == |b|
    ensures a + x == b + y <==> a == b && x == y
  {
    if a + x == b + y {
      assert a == (a + x)[..|a|] && b == (b + y)[..|b|];
      assert x == (a + x)[|a|..] && y == (b + y)[|b|..];
    }
  }

  lemma {:induction false} SelectedValuesTell(a: map<nat, seq<byte>>, b: map<nat, seq<byte>>, pcrs: seq<nat>, i: nat)
    requires FullBank(a) && FullBank(b) && i <= 24
    ensures SelectedValues(a, pcrs, i) == SelectedValues(b, pcrs, i) <==>
            forall p :: i <= p < 24 && p in pcrs ==> a[p] == b[p]
    decreases 24 - i
  {
    if i < 24 {
      SelectedValuesTell(a, b, pcrs, i + 1);
      var u, v := if i in pcrs then a[i] else [], if i in pcrs then b[i] else [];
      Split(u, v, SelectedValues(a, pcrs, i + 1), SelectedValues(b, pcrs, i + 1));
      assert SelectedValues(a, pcrs, i) == u + SelectedValues(a, pcrs, i + 1);
      assert SelectedValues(b, pcrs, i) == v + SelectedValues(b, pcrs, i + 1);
    }
  }

  lemma Hashed(c: Suite, a: seq<byte>, b: seq<byte>)
    requires c.Ideal()
    ensures c.sha256(a) == c.sha256(b) <==> a == b
  {
    assert c.sha256(a) + [] == c.sha256(a) && c.sha256(b) + [] == c.sha256(b);
  }

  /** A PolicyPCR digest stands for the set of selected PCRs and for the value of each. */
  lemma PcrPolicyTells(c: Suite, a: map<nat, seq<byte>>, b: map<nat, seq<byte>>, p: seq<nat>, q: seq<nat>)
    requires c.Ideal() && FullBank(a) && FullBank(b)
    ensures PolicyPcr(c, ZeroDigest(), a, p) == PolicyPcr(c, ZeroDigest(), b, q) <==>
            (forall k :: 0 <= k < 24 ==> (k in p <==> k in q)) && SameValues(a, b, p)
  {
    hide SelectedValues, Selection, ZeroDigest;
    var u, v := c.sha256(SelectedValues(a, p, 0)), c.sha256(SelectedValues(b, q, 0));
    var head := ZeroDigest() + CC_POLICY_PCR;
    assert |Selection(p)| == |Selection(q)| by {
      SelectionLength(p);
      SelectionLength(q);
    }
    Hashed(c, head + Selection(p) + u, head + Selection(q) + v);
    Split(head + Selection(p), head + Selection(q), u, v);
    Split(head, head, Selection(p), Selection(q));
    SelectionIsSet(p, q);
    Hashed(c, SelectedValues(a, p, 0), SelectedValues(b, q, 0));
    if forall k :: 0 <= k < 24 ==> (k in p <==> k in q) {
      SameSelected(b, p, q, 0);
      SelectedValuesTell(a, b, p, 0);
    }
  }

  lemma SelectionLength(p: seq<nat>)
    ensures |Selection(p)| == 10
  {
  }

  lemma {:induction false} SameSelected(bank: map<nat, seq<byte>>, p: seq<nat>, q: seq<nat>, i: nat)
    requires forall k :: 0 <= k < 24 ==> (k in p <==> k in q)
    ensures SelectedValues(bank, p, i) == SelectedValues(bank, q, i)
    decreases 24 - i
  {
    if i < 24 {
      SameSelected(bank, p, q, i + 1);
    }
  }

  /** So a fresh session over a list of PCRs reaches the same digest exactly on the same values. */
  lemma CurrentPolicyTells(c: Suite, t: TpmState, u: TpmState, pcrs: seq<nat>)
    requires c.Ideal() && FullBank(t.bank) && FullBank(u.bank)
    ensures CurrentPolicy(c, t, pcrs) == CurrentPolicy(c, u, pcrs) <==> SameValues(t.bank, u.bank, pcrs)
  {
    hide PolicyPcr;
    PcrPolicyTells(c, t.bank, u.bank, pcrs, pcrs);
  }

  /** The digest after PolicyAuthorize stands for the key's Name and the reference. */
  lemma AuthorizedPolicyTells(c: Suite, name: seq<byte>, policyRef: seq<byte>, name': seq<byte>, policyRef': seq<byte>)
    requires c.Ideal()
    ensures PolicyAuthorized(c, name, policyRef) == PolicyAuthorized(c, name', policyRef') <==>
            name == name' && policyRef == policyRef'
  {
    hide ZeroDigest;
    var head := ZeroDigest() + CC_POLICY_AUTHORIZE;
    var u, v := c.sha256(head + name), c.sha256(head + name');
    Hashed(c, u + policyRef, v + policyRef');
    Split(head, head, name, name');
  }

  /** The message a signature covers stands for the approved policy and the reference. */
  lemma AHashTells(c: Suite, a: seq<byte>, policyRef: seq<byte>, b: seq<byte>, policyRef': seq<byte>)
    requires c.Ideal() && |a| == |b|
    ensures AHash(c, a, policyRef) == AHash(c, b, policyRef') <==> a == b && policyRef == policyRef'
  {
    Hashed(c, a + policyRef, b + policyRef');
    Split(a, b, policyRef, policyRef');
  }

  /** Two keys the TPM can load have one Name exactly when they have one public area. */
  lemma NameTells(c: Suite, pem: string, pem': string)
    requires c.Ideal() && NameOf(c, pem).Ok? && NameOf(c, pem').Ok?
    ensures NameOf(c, pem) == NameOf(c, pem') <==>
            c.publicArea(c.parsePem(pem).value) == c.publicArea(c.parsePem(pem').value)
  {
    var a, b := c.publicArea(c.parsePem(pem).value).value, c.publicArea(c.parsePem(pem').value).value;
    Hashed(c, a, b);
    Split([0x00, 0x0b], [0x00, 0x0b], c.sha256(a), c.sha256(b));
  }

  // ---------- byte for byte ----------

  /** TPM2_PolicyAuthorize from the zero digest: command code 0x16A, the key's Name, then the reference. */
  lemma AuthorizedPolicyBytes(c: Suite, name: seq<byte>, policyRef: seq<byte>)
    ensures |ZeroDigest()| == 32 && forall i :: 0 <= i < 32 ==> ZeroDigest()[i] == 0
    ensures PolicyAuthorized(c, name, policyRef) ==
            c.sha256(c.sha256(ZeroDigest() + [0x00, 0x00, 0x01, 0x6A] + name) + policyRef)
  {
  }

  /** TPM2_PolicyPCR from the zero digest over PCR 7: command code 0x17F, one SHA-256 bank with the bitmap of PCR 7,
      and the digest of its value. */
  lemma Pcr7PolicyBytes(c: Suite, bank: map<nat, seq<byte>>)
    requires FullBank(bank)
    ensures PolicyPcr(c, ZeroDigest(), bank, [7]) ==
            c.sha256(ZeroDigest() + [0x00, 0x00, 0x01, 0x7F]
                     + [0x00, 0x00, 0x00, 0x01, 0x00, 0x0b, 0x03, 0x80, 0x00, 0x00] + c.sha256(bank[7]))
  {
    hide SelectByte, SelectedValues, ZeroDigest;
    OneBit(7, 0);
    OneBit(7, 8);
    OneBit(7, 16);
    OneValue(bank, 7, 0);
  }

  /** The same over PCR 11. */
  lemma Pcr11PolicyBytes(c: Suite, bank: map<nat, seq<byte>>)
    requires FullBank(bank)
    ensures PolicyPcr(c, ZeroDigest(), bank, [11]) ==
            c.sha256(ZeroDigest() + [0x00, 0x00, 0x01, 0x7F]
                     + [0x00, 0x00, 0x00, 0x01, 0x00, 0x0b, 0x03, 0x00, 0x08, 0x00] + c.sha256(bank[11]))
  {
    hide SelectByte, SelectedValues, ZeroDigest;
    OneBit(11, 0);
    OneBit(11, 8);
    OneBit(11, 16);
    OneValue(bank, 11, 0);
  }

  /** The bitmap byte of one PCR: its bit within its own byte, and zero elsewhere. */
  lemma OneBit(p: nat, base: nat)
    requires p in [7, 11] && base in [0, 8, 16]
    ensures SelectByte([p], base, 8) == if p == 7 && base == 0 then 0x80 else if p == 11 && base == 8 then 0x08 else 0
  {
    NoBits(p, base, 3);
    assert SelectByte([p], base, 4) == if p == 11 && base == 8 then 8 else 0;
    assert SelectByte([p], base, 5) == if p == 11 && base == 8 then 8 else 0;
    assert SelectByte([p], base, 6) == if p == 11 && base == 8 then 8 else 0;
    assert SelectByte([p], base, 7) == if p == 11 && base == 8 then 8 else 0;
  }

  lemma {:induction false} NoBits(p: nat, base: nat, bit: nat)
    requires bit <= 8 && !(base <= p < base + bit)
    ensures SelectByte([p], base, bit) == 0
  {
    if bit > 0 {
      NoBits(p, base, bit - 1);
    }
  }

  lemma {:induction false} OneValue(bank: map<nat, seq<byte>>, p: nat, i: nat)
    requires p < 24 && FullBank(bank)
    ensures SelectedValues(bank, [p], i) == if i <= p then bank[p] else []
    decreases 24 - i
  {
    assert i in [p] <==> i == p;
    if i < 24 {
      OneValue(bank, p, i + 1);
    }
  }

  // ---------- an ideal hash exists ----------

  /** Every byte marked, and an end mark. */
  function Delimited(s: seq<byte>): seq<byte> {
    if s == [] then [0] else [1, s[0]] + Delimited(s[1..])
  }

  lemma DelimitedStart(a: seq<byte>, x: seq<byte>)
    ensures a == [] ==> Delimited(a) + x == [0] + x
    ensures a != [] ==> Delimited(a) + x == [1, a[0]] + (Delimited(a[1..]) + x)
  {
  }

  lemma {:induction false} DelimitedTells(a: seq<byte>, b: seq<byte>, x: seq<byte>, y: seq<byte>)
    requires Delimited(a) + x == Delimited(b) + y
    ensures a == b && x == y
  {
    hide Delimited;
    DelimitedStart(a, x);
    DelimitedStart(b, y);
    assert (Delimited(a) + x)[0] == if a == [] then 0 else 1;
    assert (Delimited(b) + y)[0] == if b == [] then 0 else 1;
    if a == [] {
      Split([0], [0], x, y);
    } else {
      Split([1, a[0]], [1, b[0]], Delimited(a[1..]) + x, Delimited(b[1..]) + y);
      assert [1, a[0]][1] == [1, b[0]][1];
      DelimitedTells(a[1..], b[1..], x, y);
      assert a == [a[0]] + a[1..] && b == [b[0]] + b[1..];
    }
  }

  /** A suite with such a hash, in which a signature is the message it covers. */
  function IdealSuite(): (c: Suite)
    ensures c.Ideal() && c.SeparatesReferences() && (forall sk :: c.Binding(sk)) && c.Generated(0)
  {
    var c := Suite(Delimited, _ => Some(0), _ => [], _ => Some([]), _ => "pem", (_, message) => message,
                   (_, message, sig) => message == sig);
    assert c.Ideal() by {
      forall a, b, x, y | c.sha256(a) + x == c.sha256(b) + y ensures a == b && x == y {
        DelimitedTells(a, b, x, y);
      }
    }
    assert c.SeparatesReferences() by {
      forall digest: seq<byte>, policyRef: seq<byte> | c.sha256(digest + policyRef) == c.sha256(digest + [])
        ensures policyRef == []
      {
        Hashed(c, digest + policyRef, digest + []);
        Split(digest, digest, policyRef, []);
      }
    }
    c
  }
}
