/** The host's own PCR-policy signer: its key files and its append-only signature file. */
module PcrSig {
  import opened Wrappers
  import opened Hex
  import opened Suite

  const DEFAULT_BANK: string := "sha256"

  datatype SignerKind = Systemd | LinhelloHost

  datatype PcrSignature = PcrSignature(pcrs: seq<nat>, pkfp: string, pol: seq<byte>, sig: seq<byte>)

  /** An entry as the JSON file holds it; `sig` is None when its text is not base64. */
  datatype RawEntry = RawEntry(pcrs: seq<nat>, pkfp: string, pol: string, sig: Option<seq<byte>>)

  /** The signature file: absent, not JSON of the schema, or one entry list per PCR bank. */
  datatype SigFile = Missing | Garbled | Banks(banks: map<string, seq<RawEntry>>)

  /** The signer's three files under the configuration root. */
  datatype HostFiles = HostFiles(key: Option<PrivateKey>, pub: Option<string>, sigs: SigFile)

  // ---------- reading the signature file ----------

  function ParseEntries(entries: seq<RawEntry>): (r: Result<seq<PcrSignature>>)
    ensures r.Ok? ==> |r.value| == |entries|
  {
    if entries == [] then Ok([])
    else
      var e := entries[0];
      var pol :- Decode(e.pol);
      if e.sig.None? then Err(Serde)
      else
        var rest :- ParseEntries(entries[1..]);
        Ok([PcrSignature(e.pcrs, e.pkfp, pol, e.sig.value)] + rest)
  }

  function BankEntries(file: SigFile, bank: string): seq<RawEntry> {
    if file.Banks? && bank in file.banks then file.banks[bank] else []
  }

  function HostSignatures(file: SigFile, bank: string): Result<seq<PcrSignature>> {
    if file.Garbled? then Err(Serde) else ParseEntries(BankEntries(file, bank))
  }

  predicate Covers(s: PcrSignature, pcrs: seq<nat>, digest: seq<byte>) {
    s.pol == digest && s.pcrs == pcrs
  }

  /** The first signature for exactly this PCR list and policy digest. */
  function FindForPolicy(sigs: seq<PcrSignature>, pcrs: seq<nat>, digest: seq<byte>): (r: Option<PcrSignature>)
    ensures r.Some? ==> r.value in sigs && Covers(r.value, pcrs, digest)
    ensures r.None? ==> forall s <- sigs :: !Covers(s, pcrs, digest)
  {
    if sigs == [] then None
    else if Covers(sigs[0], pcrs, digest) then Some(sigs[0])
    else FindForPolicy(sigs[1..], pcrs, digest)
  }

  /** Fails closed unless the key is the pinned systemd key or the one in the public-key file. */
  function ClassifySigner(c: Suite, pub: Option<string>, pem: string): (r: Result<SignerKind>)
    ensures r.Ok? ==> c.parsePem(pem).Some?
    ensures r == Ok(Systemd) <==> c.Fingerprint(pem) == Ok(TRUSTED_PUBKEY_SPKI_SHA256)
    ensures r == Ok(LinhelloHost) ==> pub.Some? && c.Fingerprint(pub.value) == c.Fingerprint(pem)
  {
    var fp :- c.Fingerprint(pem);
    if fp == TRUSTED_PUBKEY_SPKI_SHA256 then Ok(Systemd)
    else if pub.Some? then
      var hostFp :- c.Fingerprint(pub.value);
      if hostFp == fp then Ok(LinhelloHost) else Err(Policy)
    else Err(Policy)
  }

  lemma TrustedIsLower()
    ensures IsLower(TRUSTED_PUBKEY_SPKI_SHA256) && |TRUSTED_PUBKEY_SPKI_SHA256| == 64
  {
    LowerAppend("1e7581e1cc334746", "f3af62e861525ede");
    LowerAppend("23d3c1a5621f3104", "1e7581e1cc334746" + "f3af62e861525ede");
    LowerAppend("86812b40a327339e", "23d3c1a5621f3104" + ("1e7581e1cc334746" + "f3af62e861525ede"));
  }

  lemma LowerAppend(s: string, t: string)
    requires IsLower(s) && IsLower(t)
    ensures IsLower(s + t)
  {
  }

  /** The pinned digest. */
  function TrustedDigest(): seq<byte> {
    match Decode(TRUSTED_PUBKEY_SPKI_SHA256)
    case Ok(digest) => digest
    case Err(_) => []
  }

  lemma FingerprintIs(c: Suite, pem: string, digest: seq<byte>)
    ensures c.Fingerprint(pem) == Ok(Encode(digest)) <==>
            c.parsePem(pem).Some? && c.sha256(c.spki(c.parsePem(pem).value)) == digest
  {
    if c.parsePem(pem).Some? {
      Injective(c.sha256(c.spki(c.parsePem(pem).value)), digest);
    }
  }

  /**
   The two anchors, by digest: the systemd signer is the key whose SPKI hashes to the 32 pinned bytes, and the
   host's is any other key whose SPKI hashes as that of the key on file does.
   */
  lemma ClassifiesExactly(c: Suite, pub: Option<string>, pem: string)
    ensures |TrustedDigest()| == 32
    ensures ClassifySigner(c, pub, pem) == Ok(Systemd) <==>
            c.parsePem(pem).Some? && c.sha256(c.spki(c.parsePem(pem).value)) == TrustedDigest()
    ensures ClassifySigner(c, pub, pem) == Ok(LinhelloHost) <==>
            && c.parsePem(pem).Some? && c.sha256(c.spki(c.parsePem(pem).value)) != TrustedDigest()
            && pub.Some? && c.parsePem(pub.value).Some?
            && c.sha256(c.spki(c.parsePem(pub.value).value)) == c.sha256(c.spki(c.parsePem(pem).value))
  {
    hide Encode, Decode, TRUSTED_PUBKEY_SPKI_SHA256;
    TrustedIsLower();
    Canonical(TRUSTED_PUBKEY_SPKI_SHA256);
    FingerprintIs(c, pem, TrustedDigest());
    if c.parsePem(pem).Some? && pub.Some? {
      FingerprintIs(c, pub.value, c.sha256(c.spki(c.parsePem(pem).value)));
    }
  }

  // ---------- changing the files ----------

  /** Generating the host key, with the two writes each allowed to fail. */
  function EnsureKey(c: Suite, f: HostFiles, newKey: PrivateKey, keyWrite: bool, pubWrite: bool): (r: (HostFiles,
                     Result<string>))
    ensures f.pub.Some? ==> r.0 == f
    ensures r.1.Ok? ==> r.0.pub == Some(r.1.value) && r.0.key.Some?
    ensures r.0.sigs == f.sigs
  {
    if f.pub.Some? then
      (f, if f.key.Some? then Ok(f.pub.value) else Err(Io))
    else if !keyWrite then (f, Err(Io))
    else if !pubWrite then (f.(key := Some(newKey)), Err(Io))
    else (f.(key := Some(newKey), pub := Some(c.pemOf(newKey))), Ok(c.pemOf(newKey)))
  }

  predicate Listed(list: seq<RawEntry>, text: string, pcrs: seq<nat>) {
    exists e <- list :: e.pol == text && e.pcrs == pcrs
  }

  /** The file after appending a signature, de-duplicated on the digest's hex text. */
  function Persist(c: Suite, f: HostFiles, bank: string, pcrs: seq<nat>, digest: seq<byte>,
                   sig: seq<byte>): Result<HostFiles> {
    if f.pub.None? then Err(Io)
    else
      var pkfp :- c.Fingerprint(f.pub.value);
      var list := BankEntries(f.sigs, bank);
      var text := Encode(digest);
      var list' :=
        if Listed(list, text, pcrs) then list
        else list + [RawEntry(pcrs, pkfp, text, Some(sig))];
      var banks := if f.sigs.Banks? then f.sigs.banks else map[];
      Ok(f.(sigs := Banks(banks[bank := list'])))
  }

  /** Sign `ahash` for (pcrs, digest) unless a matching signature is already on file. */
  function EnsureSigned(c: Suite, f: HostFiles, pcrs: seq<nat>, digest: seq<byte>,
                        ahash: seq<byte>): Result<HostFiles> {
    var sigs :- HostSignatures(f.sigs, DEFAULT_BANK);
    if FindForPolicy(sigs, pcrs, digest).Some? then Ok(f)
    else if f.key.None? then Err(Io)
    else Persist(c, f, DEFAULT_BANK, pcrs, digest, c.sign(f.key.value, ahash))
  }

  /** The configuration directory the signer's files live in. */
  class ConfigDir {
    var key: Option<PrivateKey>
    var pub: Option<string>
    var sigs: SigFile

    constructor (f: HostFiles)
      ensures Files() == f
    {
      key, pub, sigs := f.key, f.pub, f.sigs;
    }

    function Files(): HostFiles
      reads this
    {
      HostFiles(key, pub, sigs)
    }

    method EnsureHostSigningKey(c: Suite, newKey: PrivateKey, keyWrite: bool, pubWrite: bool)
      returns (r: Result<string>)
      modifies this
      ensures (Files(), r) == EnsureKey(c, old(Files()), newKey, keyWrite, pubWrite)
    {
      if pub.Some? {
        if key.None? {
          return Err(Io);
        }
        return Ok(pub.value);
      }
      if !keyWrite {
        return Err(Io);
      }
      key := Some(newKey);
      if !pubWrite {
        return Err(Io);
      }
      pub := Some(c.pemOf(newKey));
      return Ok(c.pemOf(newKey));
    }

    method PersistHostSignature(c: Suite, bank: string, pcrs: seq<nat>, digest: seq<byte>, sig: seq<byte>, write: bool)
      returns (r: Result<()>)
      modifies this`sigs
      ensures var spec := Persist(c, old(Files()), bank, pcrs, digest, sig);
              if spec.Ok? && write then r == Ok(()) && Files() == spec.value
              else r.Err? && Files() == old(Files())
    {
      var banks := if sigs.Banks? then sigs.banks else map[];
      var text := HexLower(digest);
      if pub.None? {
        return Err(Io);
      }
      var pkfp := c.Fingerprint(pub.value);
      if pkfp.Err? {
        return Err(pkfp.error);
      }
      var list := if bank in banks then banks[bank] else [];
      var known := false;
      for i := 0 to |list|
        invariant known <==> Listed(list[..i], text, pcrs)
      {
        known := known || (list[i].pol == text && list[i].pcrs == pcrs);
        assert list[..i + 1] == list[..i] + [list[i]];
      }
      assert list[..|list|] == list;
      if !known {
        list := list + [RawEntry(pcrs, pkfp.value, text, Some(sig))];
      }
      if !write {
        return Err(Io);
      }
      sigs := Banks(banks[bank := list]);
      return Ok(());
    }
  }

  // ---------- what the signature file keeps ----------

  /** No two entries for the same PCR list and digest. */
  ghost predicate OnePerPolicy(sigs: seq<PcrSignature>) {
    forall i, j :: 0 <= i < j < |sigs| ==> !Covers(sigs[i], sigs[j].pcrs, sigs[j].pol)
  }

  lemma {:induction false} ParseAppend(entries: seq<RawEntry>, e: RawEntry)
    requires ParseEntries(entries).Ok? && Decode(e.pol).Ok? && e.sig.Some?
    ensures ParseEntries(entries + [e]) ==
            Ok(ParseEntries(entries).value + [PcrSignature(e.pcrs, e.pkfp, Decode(e.pol).value, e.sig.value)])
  {
    var last := PcrSignature(e.pcrs, e.pkfp, Decode(e.pol).value, e.sig.value);
    if entries == [] {
      assert entries + [e] == [e];
      assert ParseEntries([e]) == Ok([last] + []);
      assert [last] + [] == [] + [last];
    } else {
      ParseAppend(entries[1..], e);
      assert (entries + [e])[1..] == entries[1..] + [e];
      var first := ParseEntries(entries).value[0];
      var rest := ParseEntries(entries[1..]).value;
      assert ParseEntries(entries).value == [first] + rest;
      assert ParseEntries(entries + [e]) == Ok([first] + (rest + [last]));
      assert [first] + (rest + [last]) == ([first] + rest) + [last];
    }
  }

  lemma {:induction false} FindAppend(sigs: seq<PcrSignature>, more: seq<PcrSignature>, pcrs: seq<nat>,
                                      digest: seq<byte>)
    ensures FindForPolicy(sigs + more, pcrs, digest) ==
            var r := FindForPolicy(sigs, pcrs, digest);
            if r.Some? then r else FindForPolicy(more, pcrs, digest)
  {
    if sigs == [] {
      assert sigs + more == more;
    } else {
      FindAppend(sigs[1..], more, pcrs, digest);
      assert (sigs + more)[1..] == sigs[1..] + more;
    }
  }

  /** A raw entry whose text is the digest's hex decodes to a signature covering the digest. */
  lemma {:induction false} RawMatchIsFound(entries: seq<RawEntry>, e: RawEntry, digest: seq<byte>)
    requires ParseEntries(entries).Ok?
    requires e in entries && e.pol == Encode(digest)
    ensures FindForPolicy(ParseEntries(entries).value, e.pcrs, digest).Some?
  {
    RoundTrip(digest);
    if entries[0] != e {
      RawMatchIsFound(entries[1..], e, digest);
    }
  }

  /** Every lookup that succeeded still answers the same, and no policy gained a second entry. */
  ghost predicate Extends(later: seq<PcrSignature>, sigs: seq<PcrSignature>) {
    && (forall pcrs, digest :: FindForPolicy(sigs, pcrs, digest).Some? ==>
          FindForPolicy(later, pcrs, digest) == FindForPolicy(sigs, pcrs, digest))
    && (OnePerPolicy(sigs) ==> OnePerPolicy(later))
  }

  lemma AppendExtends(sigs: seq<PcrSignature>, s: PcrSignature)
    requires FindForPolicy(sigs, s.pcrs, s.pol).None?
    ensures Extends(sigs + [s], sigs)
    ensures FindForPolicy(sigs + [s], s.pcrs, s.pol) == Some(s)
  {
    forall pcrs, digest | FindForPolicy(sigs, pcrs, digest).Some?
      ensures FindForPolicy(sigs + [s], pcrs, digest) == FindForPolicy(sigs, pcrs, digest)
    {
      FindAppend(sigs, [s], pcrs, digest);
    }
    FindAppend(sigs, [s], s.pcrs, s.pol);
    assert forall t <- sigs :: !Covers(t, s.pcrs, s.pol);
  }

  /** Persisting a policy that has no entry yet appends exactly one, at the end. */
  lemma PersistAppends(c: Suite, f: HostFiles, pcrs: seq<nat>, digest: seq<byte>, sig: seq<byte>)
    requires HostSignatures(f.sigs, DEFAULT_BANK).Ok?
    requires FindForPolicy(HostSignatures(f.sigs, DEFAULT_BANK).value, pcrs, digest).None?
    requires Persist(c, f, DEFAULT_BANK, pcrs, digest, sig).Ok?
    ensures HostSignatures(Persist(c, f, DEFAULT_BANK, pcrs, digest, sig).value.sigs, DEFAULT_BANK) ==
            Ok(HostSignatures(f.sigs, DEFAULT_BANK).value +
               [PcrSignature(pcrs, c.Fingerprint(f.pub.value).value, digest, sig)])
  {
    var list := BankEntries(f.sigs, DEFAULT_BANK);
    if e :| e in list && e.pol == Encode(digest) && e.pcrs == pcrs {
      RawMatchIsFound(list, e, digest);
      assert false;
    }
    assert !Listed(list, Encode(digest), pcrs);
    RoundTrip(digest);
    var entry := RawEntry(pcrs, c.Fingerprint(f.pub.value).value, Encode(digest), Some(sig));
    ParseAppend(list, entry);
    assert BankEntries(Persist(c, f, DEFAULT_BANK, pcrs, digest, sig).value.sigs, DEFAULT_BANK) == list + [entry];
  }

  /** Persisting the same policy again, even with another signature, changes nothing. */
  lemma PersistTwice(c: Suite, f: HostFiles, bank: string, pcrs: seq<nat>, digest: seq<byte>, sig: seq<byte>,
                     again: seq<byte>)
    requires Persist(c, f, bank, pcrs, digest, sig).Ok?
    ensures var f' := Persist(c, f, bank, pcrs, digest, sig).value;
            Persist(c, f', bank, pcrs, digest, again) == Ok(f')
  {
    hide Encode;
    var f' := Persist(c, f, bank, pcrs, digest, sig).value;
    var list, list' := BankEntries(f.sigs, bank), BankEntries(f'.sigs, bank);
    assert Listed(list', Encode(digest), pcrs) by {
      if !Listed(list, Encode(digest), pcrs) {
        assert list'[|list|].pol == Encode(digest) && list'[|list|] in list';
      }
    }
    assert f'.sigs.banks[bank := list'] == f'.sigs.banks;
  }

  /**
   Signing through EnsureSigned: the file stays readable and only its signatures change, the
   policy asked for is found by the next lookup (with this host's signature over `ahash` when it
   was not on file), every earlier lookup answers the same, and one entry per policy is kept.
   */
  lemma SigningOnlyAdds(c: Suite, f: HostFiles, pcrs: seq<nat>, digest: seq<byte>, ahash: seq<byte>)
    requires EnsureSigned(c, f, pcrs, digest, ahash).Ok?
    ensures var f' := EnsureSigned(c, f, pcrs, digest, ahash).value;
            && f' == f.(sigs := f'.sigs)
            && HostSignatures(f.sigs, DEFAULT_BANK).Ok?
            && HostSignatures(f'.sigs, DEFAULT_BANK).Ok?
            && var sigs := HostSignatures(f.sigs, DEFAULT_BANK).value;
               var sigs' := HostSignatures(f'.sigs, DEFAULT_BANK).value;
               var found := FindForPolicy(sigs', pcrs, digest);
               && Extends(sigs', sigs)
               && found.Some?
               && if FindForPolicy(sigs, pcrs, digest).Some? then f' == f
                  else && f.key.Some?
                       && found.value.sig == c.sign(f.key.value, ahash)
                       && sigs' == sigs + [found.value]
  {
    var sigs := HostSignatures(f.sigs, DEFAULT_BANK).value;
    if FindForPolicy(sigs, pcrs, digest).None? {
      var sig := c.sign(f.key.value, ahash);
      PersistAppends(c, f, pcrs, digest, sig);
      AppendExtends(sigs, PcrSignature(pcrs, c.Fingerprint(f.pub.value).value, digest, sig));
    }
  }
}
