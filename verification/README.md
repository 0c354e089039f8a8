# linhello, modelled and proved

linhello logs a user in by face: a daemon keeps face templates encrypted under a key that the TPM
seals, a command line tool wires a PAM module into the login stacks, and numeric code aligns,
detects and screens faces. This project models the parts of it with the most state and the most
arithmetic, and proves what they are for. `dafny verify dfyconfig.toml` checks it all.

**Sealing with a self-healing PCR-7 signer** (`Hex`, `Suite`, `Policy`, `PcrSig`, `Sealing`,
`Digests`, `TpmContext`, `SealRuns`,
`PcrRuns`). `Sealing` says what sealing and unsealing compute, with the policy digests
of Part 3 of the TCG TPM 2.0 Library Specification (sections 23.2.3, 23.7 and 23.16).
`TpmContext.Context` is the connection the code drives, call by call, with the TPM's table of live
objects and sessions and any call allowed to be refused. The table is tied to the trace of commands,
refusals to the schedule of faults, and each operation is proved to compute what `Sealing` says and to
leave the table as it found it but for one entry per refused flush or evict. `SealRuns` then proves what holds over every run of boots, seals, unseals, TPM
clears and rewritten envelope files. `Digests` says what the policy digests stand for under an
ideal hash, and `PcrRuns` puts the run theorems in terms of PCR values and keys. The cryptography is a
record of arbitrary functions (`Suite`);
what little a theorem needs of them is in its preconditions.

**The template key's life** (`Crypto`, `Embeddings`, `Accounts`, `Daemon`). `Accounts` is the
behaviour a user relies on: one key, one passphrase, one list of captures. `Daemon.Daemon` is the
program: a cache, envelopes, recovery files and encrypted embeddings, updated in place. Its
invariant is that all four copies of a key agree, and each request is proved to refine the account
step.

**PAM stack rewriting** (`Text`, `LineEdit`, `PamStack`, `PamRule`, `PamText`, `PamWire`). `PamStack`
evaluates a flat stack as libpam does and `PamRule` reads a line as it does; `PamText` proves that the text edits preserve what it decides and undo
each other; `PamWire.PamFiles` runs enable and disable over the files and their backups.

**Kernels** (`ConfigFile`, `LinAlg`, `Solve`, `Pivots`, `Align`, `Landmarks`, `Geometry`, `Sorting`,
`Detect`, `Cells`, `Antispoof`): the
key=value file, in-place Gaussian elimination and the least-squares fit it serves, non-maximum
suppression, the median vote and the crop rectangle. Floating point is exact real arithmetic.

## Where the code and the expectation part

- Self-heal: the reference in an envelope file is not authenticated before the host signs under it.
  A file edited to carry a non-empty reference, unsealed on a PCR state with no signature yet, puts
  an entry on file that genuine envelopes then find and fail on. `SealRuns.SelfHealsExactly` has the
  exact condition, `SealRuns.SelfHealCanFail` an instance.
- Handles: a refused first-run `evict_control` returns before the flush, so the new primary stays live.
  The same happens long after the first run when the lookup of the occupied handle is refused, because
  the code then takes the first-run path and the TPM itself refuses the evict
  (`TpmContext.EvictLeaks`, `TpmContext.LookupLeaks`). A refused flush leaves its entry. Nothing else
  leaves one. What is left stays live until the connection is closed.
- Enrolment: a failed load of an existing embedding file counts as no enrolment yet, so the next append
  overwrites the stored captures and reports success (`Accounts.UnreadableFileLosesCaptures`).
- Alignment: elimination gives up on pivots below 1e-12, so landmarks that nearly coincide fall back to
  the identity although a best fit exists (`Landmarks.TinyFaceIsNotFitted`). The exact condition is
  `Landmarks.WellSpread`.
- PAM: `sufficient` ends the stack on new_authtok_reqd as well as on success. A jump over an
  `include` line skips only the first module it expands to; the module comment at
  crates/linhello-cli/src/pamwire.rs:8-9 speaks of a line, the note at lines 305-310 has it right.
  libpam matches the type `auth` in any case and the code only in lower case, so an upper-case rule
  ahead of the first lower-case one keeps its place before the face line
  (`PamText.UpperCaseRefusesFace`). Remove after insert turns an empty file into one blank line.
- Crop: in a frame one pixel wide or high the enlarged box is a point, and when its centre is at or
  past the far edge the rectangle starts outside the frame (the resizer's own clamping then applies).
- Level: sealing without any binding records the level Medium, as the literal path always does, although the
  plan's level is Basic. An envelope records its plan's level exactly under Secure Boot
  (`SealRuns.RecordedLevel`, `SealRuns.UnboundIsRecordedMedium`).

## Model

| member | source | states |
|---|---|---|
| `SealRuns.SelfHealsExactly` | crates/linhello-core/src/tpm.rs:582-717 | Over every run (boots into arbitrary PCR states, seals, unseals, TPM clears, envelope files rewritten at will) an envelope sealed by the host signer unseals with Secure Boot on to exactly its secret if and only if the TPM has the seed it was sealed on and the run did not sign the present PCR-7 policy under a non-empty reference |
| `SealRuns.SelfHeals` | crates/linhello-core/src/tpm.rs:582-670 | In runs where no unsealed envelope carries a reference, as sealing writes them, only the seed decides; this holds for every hash and signature scheme whose generated keys accept their own signatures |
| `SealRuns.SignatureExplained` | crates/linhello-core/src/tpm.rs:507-526 | Every entry of the host signature file, after any run from an empty one, is the host key's signature over its digest under the reference of the step that first signed that digest |
| `SealRuns.EditedReferenceBlocksHealing` | crates/linhello-core/src/tpm.rs:655-670 | Why the reference matters: on a fresh PCR state, unsealing an edited copy with any non-empty reference makes the untouched envelope, which unsealed before, be refused |
| `SealRuns.SelfHealCanFail` | crates/linhello-core/src/tpm.rs:655-670 | A concrete machine, key and envelope on which that happens |
| `SealRuns.UnsealsExactly` | crates/linhello-core/src/tpm.rs:582-717 | With Secure Boot on, a host-sealed envelope unseals exactly when the seed matches and the entry on file for the present policy, if any, verifies; a missing entry is signed on the spot |
| `PcrRuns.NoBlessingOnValues` | crates/linhello-core/src/tpm.rs:615-621 | After any run at all, a host-signed envelope unseals with Secure Boot off only if an earlier step signed, with Secure Boot on, while PCR 7 held the value it holds now |
| `PcrRuns.SecureBootOffExactly` | crates/linhello-core/src/tpm.rs:582-717 | Over every run, an envelope sealed under the host signer opens with Secure Boot off if and only if the TPM has its seed and the run signed the present PCR-7 policy under the empty reference, and then to its secret, and at a value of PCR 7 that was signed under Secure Boot |
| `SealRuns.NoBlessingWithSecureBootOff` | crates/linhello-core/src/tpm.rs:615-621 | The same for every suite, in terms of the policy digest; PcrRuns and Digests say what the digest stands for |
| `SealRuns.SignaturesAreBlessings` | crates/linhello-core/src/tpm.rs:655-670 | Every signature on file was put there by a step under Secure Boot, over the PCR-7 policy of that moment, and covers PCR 7 alone |
| `SealRuns.StepFiles` | crates/linhello-core/src/tpm.rs:507-526 | A step changes the signer's files at most by generating a key pair where there was no public key, then by one signature over the present PCR-7 policy, and signs only under Secure Boot |
| `SealRuns.StoreOnlyGrows` | crates/linhello-core/src/pcrsig.rs:343-398 | Over every run the signature file stays readable, every lookup that ever succeeded keeps its answer, and there is one entry per (PCR list, digest) |
| `SealRuns.HostKeyNeverReplaced` | crates/linhello-core/src/pcrsig.rs:268-304 | Once a public key is on file, no run changes either half of the pair |
| `SealRuns.RunKeepsKeys` | crates/linhello-core/src/pcrsig.rs:268-304 | In every run the public key on file belongs to the private key on file, and both came from the generator |
| `SealRuns.RollbackNeedsNoSignature` | crates/linhello-core/src/tpm.rs:513-524 | A host envelope that unsealed once does so again, with no new signature and the same secret, after any run that comes back to the same PCR-7 policy, whatever Secure Boot is by then |
| `SealRuns.AuthorizedUnsealAnchored` | crates/linhello-core/src/tpm.rs:582-717 | For any envelope file whatever, data comes back if and only if the key is one of the two anchors, the PCR list is that signer's constant, a signature on file covers the present digest and verifies, and the blobs were made by this TPM under the policy PolicyAuthorize reaches; the data is then what was sealed |
| `SealRuns.HostSealSucceeds` | crates/linhello-core/src/tpm.rs:443-500 | With Secure Boot on and no viable systemd key, sealing takes the host-signed path and leaves the present PCR-7 policy signed |
| `SealRuns.UntouchedGivesSecretOrNothing` | crates/linhello-core/src/tpm.rs:376-391 | An envelope as sealed gives back its own secret or nothing, and nothing on a TPM with another seed |
| `PcrRuns.LiteralUnsealsOnValues` | crates/linhello-core/src/tpm.rs:541-572 | A literal envelope opens exactly while the TPM has its seed and every PCR it names has its value |
| `PcrRuns.FallbackBindsPcr7` | crates/linhello-core/src/tpm.rs:381-432 | With Secure Boot on and no key to be had, sealing binds PCR 7 as it is: the envelope opens exactly while seed and PCR 7 stay |
| `PcrRuns.BootDecidesLiteral` | crates/linhello-core/src/tpm.rs:541-572 | A boot that measures something else into a PCR the envelope names makes it unusable, and one that measures the same leaves it usable |
| `PcrRuns.ClearRefuses` | crates/linhello-core/src/tpm.rs:528-536 | After a TPM clear to another seed nothing opens that was sealed before |
| `PcrRuns.OpensOnlyUnderItsKey` | crates/linhello-core/src/tpm.rs:582-717 | Whatever is edited in the file, blobs sealed under a key open only under a key with the same public area and the same reference |
| `PcrRuns.KeyMadeOnlyWhenNeeded` | crates/linhello-core/src/policy.rs:87-140 | A host key is made only by a seal under Secure Boot without a viable systemd key and without a public key on file |
| `SealRuns.LiteralUnsealsExactly` | crates/linhello-core/src/tpm.rs:541-572 | The literal case for every suite, in terms of the policy digest |
| `Digests.PcrPolicyTells` | crates/linhello-core/src/tpm.rs:194-204 | With an ideal hash and full banks, two PolicyPCR digests are equal if and only if they select the same PCRs and each holds the same value |
| `Digests.CurrentPolicyTells` | crates/linhello-core/src/tpm.rs:194-204 | So a fresh session over a list of PCRs reaches one digest exactly on one set of values |
| `Digests.AuthorizedPolicyTells` | crates/linhello-core/src/tpm.rs:798-809 | The digest after PolicyAuthorize is the same exactly for the same key Name and reference |
| `Digests.AHashTells` | crates/linhello-core/src/tpm.rs:813-818 | What a signature covers is the same exactly for the same approved policy and reference |
| `Digests.NameTells` | crates/linhello-core/src/tpm.rs:737-792 | Two loadable keys have one Name exactly when they have one public area |
| `Digests.AuthorizedPolicyBytes` | crates/linhello-core/src/tpm.rs:798-809 | Byte for byte: 32 zero bytes, command code 0x16A and the Name are hashed, and then with the reference again |
| `Digests.Pcr7PolicyBytes` | crates/linhello-core/src/tpm.rs:65-95 | Byte for byte over PCR 7: command code 0x17F, one SHA-256 bank with bitmap 80 00 00, and the digest of its value |
| `Digests.Pcr11PolicyBytes` | crates/linhello-core/src/tpm.rs:65-95 | The same over PCR 11, with bitmap 00 08 00 |
| `Sealing.AuthorizePolicyDigest` | crates/linhello-core/src/tpm.rs:798-809 | The digest computed in software at seal time is the one a session has after TPM2_PolicyAuthorize, whatever its PCRs were |
| `TpmContext.Context.StartSession` | crates/linhello-core/src/tpm.rs:147-175 | A session is handed out fresh, as the one new live entry; one whose attributes cannot be set is flushed, and stays live only if that flush is refused |
| `TpmContext.Context.LoadOrCreateSrk` | crates/linhello-core/src/tpm.rs:305-355 | Without refusals the persistent key, unless a foreign one sits at the handle, and then one live transient entry; an occupied handle is never changed; one entry is left per refused flush or evict, and after a refused evict exactly the new primary |
| `TpmContext.Context.NothingLeft` | crates/linhello-core/src/tpm.rs:147-190 | An operation whose flushes and evicts go through leaves the live table equal to what it was |
| `TpmContext.Context.CleanLeavesNothing` | crates/linhello-core/src/tpm.rs:147-190 | So does one with no refused command, and, on an occupied handle, one whose flushes and lookups go through, however many other commands are refused |
| `TpmContext.EvictLeaks` | crates/linhello-core/src/tpm.rs:338-351 | A first run where only the evict is refused: the primary is live afterwards |
| `TpmContext.LookupLeaks` | crates/linhello-core/src/tpm.rs:314-351 | The same with the key persisted long ago and only the lookup of its handle refused |
| `TpmContext.Context.ReleaseSrk` | crates/linhello-core/src/tpm.rs:360-370 | Flushes a transient parent, one live entry fewer unless the flush is refused, and issues no command for the persistent one |
| `TpmContext.Context.ComputePolicyDigest` | crates/linhello-core/src/tpm.rs:194-204 | The trial session reaches the policy digest of the present PCRs, which Digests.CurrentPolicyTells ties to their values; the operation leaves the live table with what was in it, unchanged, and one new entry per refused flush or evict, whichever commands are refused |
| `TpmContext.Context.KeyNameOf` | crates/linhello-core/src/tpm.rs:178-190 | The name of a verification key; the operation leaves the live table with what was in it, unchanged, and one new entry per refused flush or evict, whichever commands are refused |
| `TpmContext.Context.SealLiteralOp` | crates/linhello-core/src/tpm.rs:400-432 | Sealing leaves the live table with what was in it, unchanged, and one new entry per refused flush or evict, whichever commands are refused; a success, or any result without refusals, is what the specification says |
| `TpmContext.Context.SealAuthorizedOp` | crates/linhello-core/src/tpm.rs:443-500 | The same for an authorized seal, with the host's files changed only when it succeeds |
| `TpmContext.Context.EnsureHostSignature` | crates/linhello-core/src/tpm.rs:507-526 | The same for signing the present policy: on success the signature is on file, on failure the files are unchanged |
| `TpmContext.Context.UnsealLiteralOp` | crates/linhello-core/src/tpm.rs:541-572 | The same for a literal unseal |
| `TpmContext.Context.UnsealAuthorizedOp` | crates/linhello-core/src/tpm.rs:582-717 | The same for an authorized unseal, whose session, sealed object, verification key and parent are nested scopes; the result and the files are the specification's |
| `TpmContext.Context.UnsealOp` | crates/linhello-core/src/tpm.rs:528-536 | For every envelope kind: the live table as above, equal to what it was without refusals, and agreement with the specification |
| `TpmContext.Context.SealSecretOp` | crates/linhello-core/src/tpm.rs:376-391 | For sealing under the plan of the moment: the live table as above, equal to what it was without refusals, and agreement with the specification |
| `TpmContext.Context.ReadPcrValues` | crates/linhello-core/src/tpm.rs:129-142 | The diagnostic PCR values in the order asked for, refusing an index without a slot |
| `Policy.Decide` | crates/linhello-core/src/policy.rs:104-140 | An authorized plan is made only under Secure Boot and always with an empty reference |
| `PcrSig.ClassifiesExactly` | crates/linhello-core/src/pcrsig.rs:250-264 | The systemd anchor is exactly the key whose SPKI hashes to the 32 pinned bytes, the host's exactly any other key whose SPKI hashes as that of the key on file |
| `PcrSig.ClassifySigner` | crates/linhello-core/src/pcrsig.rs:250-264 | The same by fingerprint text, the systemd key first |
| `PcrSig.EnsureKey` | crates/linhello-core/src/pcrsig.rs:268-304 | An existing public key is never replaced, and success means both halves are on file |
| `PcrSig.ConfigDir.EnsureHostSigningKey` | crates/linhello-core/src/pcrsig.rs:268-304 | The file updates, in order, reach what EnsureKey says on every failure path |
| `PcrSig.ConfigDir.PersistHostSignature` | crates/linhello-core/src/pcrsig.rs:343-398 | The read-modify-write of the signature file reaches what Persist says, and a failed write changes nothing |
| `PcrSig.FindForPolicy` | crates/linhello-core/src/pcrsig.rs:182-189 | A hit covers exactly the PCR list and digest asked for; a miss means no entry does |
| `PcrSig.ParseAppend` | crates/linhello-core/src/pcrsig.rs:158-178 | Parsing a file with one more entry gives the old signatures and that one |
| `PcrSig.PersistAppends` | crates/linhello-core/src/pcrsig.rs:343-398 | Persisting a policy without an entry appends exactly one; the de-duplication on hex text never hides a missing digest |
| `PcrSig.AppendExtends` | crates/linhello-core/src/pcrsig.rs:343-398 | An appended entry is found by the next lookup and disturbs no other lookup |
| `PcrSig.SigningOnlyAdds` | crates/linhello-core/src/tpm.rs:513-524 | Signing keeps the file readable, is found by the next lookup, keeps every earlier answer and one entry per policy |
| `PcrSig.PersistTwice` | crates/linhello-core/src/pcrsig.rs:343-398 | Persisting a policy again, even with another signature, changes nothing: one entry per (PCR list, digest) in every bank |
| `SealRuns.RecordedLevel` | crates/linhello-core/src/tpm.rs:400-432 | An envelope records its plan's level if and only if it was sealed under Secure Boot |
| `SealRuns.UnboundIsRecordedMedium` | crates/linhello-core/src/tpm.rs:381-391 | Without Secure Boot the plan's level is basic, the seal succeeds and records medium |
| `SealRuns.FreshSealReopens` | crates/linhello-core/src/tpm.rs:528-717 | What was just sealed opens at once to its secret: a literal envelope always, a host-signed one if and only if the run before did not sign the present policy under a non-empty reference, a systemd-signed one if and only if systemd supplies a verifying signature |
| `SealRuns.HostReopensExactly` | crates/linhello-core/src/tpm.rs:582-717 | The host-signed case over every run |
| `Policy.LevelMeans` | crates/linhello-core/src/policy.rs:62-140 | No PCRs and the basic level exactly without Secure Boot; the full level exactly on a signed UKI boot whose systemd key was read; otherwise the key is the host's |
| `Sealing.SelectionIsSet` | crates/linhello-core/src/tpm.rs:65-95 | Two PCR lists reach the same selection exactly when they name the same PCRs |
| `SealRuns.SystemdUnsealsExactly` | crates/linhello-core/src/tpm.rs:582-717 | A systemd-signed envelope is bound to PCR 11 at the full level and comes back exactly while the seed stays and systemd supplies a verifying signature over the present PCR-11 policy; the host's files are neither used nor changed |
| `Hex.RoundTrip` | crates/linhello-core/src/pcrsig.rs:191-202 | Decoding an encoded digest gives the digest back |
| `Hex.Injective` | crates/linhello-core/src/pcrsig.rs:139-146 | Two digests with the same hex text are the same digest |
| `Hex.HexLower` | crates/linhello-core/src/pcrsig.rs:139-146 | The character loop builds the encoding |
| `Hex.EncodeIsLower` | crates/linhello-core/src/pcrsig.rs:139-146 | Every character written is a digit or a lower-case letter a to f |
| `Hex.Canonical` | crates/linhello-core/src/pcrsig.rs:139-146 | Every lower-case text of even length is read, and is the one written for the bytes it reads as |
| `Hex.ReadsExactly` | crates/linhello-core/src/pcrsig.rs:191-202 | A text of even length is read exactly when it is digits in either case, or a plus sign first in a pair |
| `Accounts.Obtain` | crates/linhello-daemon/src/main.rs:24-38 | A user who has a key gets that key or none; it is never replaced |
| `Accounts.KeyNeverReplaced` | crates/linhello-core/src/lib.rs:134-145 | Over every run that keeps the profile, with any TPM clears, restarts and failed unseals, no second key is minted and a saved recovery stays available |
| `Accounts.SavedPassphraseRestores` | crates/linhello-core/src/lib.rs:194-223 | After a successful save of p and any run that keeps the profile and saves no other, restoring with q succeeds, files and TPM permitting, if and only if q is p |
| `Accounts.SaveAnswers` | crates/linhello-core/src/lib.rs:194-207 | A passphrase is saved exactly when the key opens, it is not empty and its file can be written |
| `Accounts.VerifyAnswers` | crates/linhello-daemon/src/main.rs:914-921 | A verify matches exactly when the camera binding holds, the key is at hand and the file can be read and parses, and then against what is stored |
| `Accounts.LegacyNeedsOptIn` | crates/linhello-core/src/lib.rs:250-275 | A plaintext template is not matched against without the opt-in and stays as it is; with it, it is taken over once and the plaintext is gone |
| `Accounts.ResealAnswers` | crates/linhello-daemon/src/main.rs:1250-1292 | A reseal succeeds exactly when the envelope opens and can be sealed and written, and leaves nothing in memory |
| `Accounts.DeleteForgets` | crates/linhello-daemon/src/main.rs:1051-1077 | A profile is deleted exactly when it is enrolled and can be removed, and then no passphrase restores, no verify matches and no captures are left |
| `Accounts.LockedOut` | crates/linhello-core/src/lib.rs:134-154 | A key neither in memory nor sealed on the present TPM is out of reach of every request but a restore |
| `Accounts.ClearedAndRestarted` | crates/linhello-daemon/src/main.rs:24-38 | Which is where a TPM clear and a restart leave a user |
| `Accounts.RecoveryRestoresTemplates` | crates/linhello-core/src/lib.rs:194-223 | Once a passphrase was saved, then after any run with any number of TPM clears, restoring with the passphrase on file and verifying reaches the same key and the contents the account then has |
| `Accounts.EnrollAppends` | crates/linhello-daemon/src/main.rs:399-449 | A successful enrolment adds its capture at the end, or starts over after a reset or when the stored captures cannot be read, and reports the number stored; a failed one leaves the stored captures alone |
| `Accounts.HistoryIsStored` | crates/linhello-daemon/src/main.rs:399-449 | After any run from a user without files, what is stored is what was kept of the captures |
| `Accounts.KeptIsSuffix` | crates/linhello-daemon/src/main.rs:413-422 | What is kept is the end of the history since the last reset or delete, and all of it exactly when no append with captures enrolled ran while the file could not be read |
| `Accounts.UnreadableFileLosesCaptures` | crates/linhello-daemon/src/main.rs:413-422 | Two enrolments, the second with an unreadable file: both succeed and one capture is left |
| `Accounts.EnrollmentHistory` | crates/linhello-daemon/src/main.rs:399-449 | After any such run the account holds the history of captures if and only if no append since the last reset or delete ran with an unreadable file; a verify that gets the key and can read returns what is held, one 512-vector per capture, in order |
| `Daemon.Daemon.UnsealTemplateKey` | crates/linhello-core/src/lib.rs:148-154 | Returns the account's key exactly when the envelope opens |
| `Daemon.Daemon.EnsureTemplateKey` | crates/linhello-core/src/lib.rs:134-145 | Mints a key only where there is no envelope; an envelope that does not open mints nothing |
| `Daemon.Daemon.CachedTemplateKey` | crates/linhello-daemon/src/main.rs:24-38 | Cache, then envelope, then mint: the account and the key are those of Obtain |
| `Daemon.Daemon.EvictTemplateKey` | crates/linhello-daemon/src/main.rs:1041-1044 | Forgets one user's cached key and nothing else |
| `Daemon.Daemon.SealTemplateKey` | crates/linhello-core/src/lib.rs:159-173 | Re-sealing the account's key moves it to the present seed and keeps all copies equal |
| `Daemon.Daemon.SaveEncryptedEmbedding` | crates/linhello-core/src/lib.rs:227-239 | The stored contents become the given bytes, encrypted under the account's key |
| `Daemon.Daemon.LoadEncryptedEmbedding` | crates/linhello-core/src/lib.rs:250-275 | Reads back the stored contents, fails when the file cannot be read, and migrates a plaintext file only where that is allowed |
| `Daemon.Daemon.EnrolledProfile` | crates/linhello-daemon/src/main.rs:940-958 | A user is enrolled exactly when an embedding or a plaintext template is there |
| `Daemon.Daemon.ProfileSampleCount` | crates/linhello-daemon/src/main.rs:963-979 | The count computed from the file length is the number of samples stored |
| `Daemon.Daemon.DoEnroll` | crates/linhello-daemon/src/main.rs:399-449 | Refines the account step, a failed load counting as no enrolment, keeps all key copies equal and touches no other user |
| `Daemon.Daemon.LoadUserSamples` | crates/linhello-daemon/src/main.rs:914-921 | Refines the verify step, likewise |
| `Daemon.Daemon.DoResealUserEnvelopes` | crates/linhello-daemon/src/main.rs:1250-1292 | Refines the reseal step, likewise |
| `Daemon.Daemon.DoSaveRecovery` | crates/linhello-core/src/lib.rs:194-207 | Refines the save-recovery step, keeps all key copies equal and touches no other user |
| `Daemon.Daemon.SaveAndRestore` | crates/linhello-core/src/lib.rs:194-223 | On disk: after a successful save of p and any run that keeps the profile and saves no other, the recovery file unwraps to the key under p and no other passphrase, and only p restores |
| `Daemon.Daemon.DoRestoreFromRecovery` | crates/linhello-daemon/src/main.rs:1316-1330 | Refines the restore step: exactly the passphrase on file restores, and the key restored is the one everything else uses |
| `Daemon.Daemon.DoDeleteProfile` | crates/linhello-daemon/src/main.rs:1051-1077 | Refines the delete step; afterwards no copy of the key is left, in files or in the cache |
| `Daemon.Daemon.ServeAll` | crates/linhello-daemon/src/main.rs:24-38 | Over every run of requests, restarts and TPM clears, each user's cached, sealed, recovery-wrapped and embedding keys are equal where present, and every account is the one the specification reaches |
| `Daemon.Daemon.Recover` | crates/linhello-daemon/src/main.rs:1316-1330 | After a saved passphrase and any run that keeps the profile, restoring and verifying: the daemon holds the key it held before, the embedding file decrypts under it to what the run left there, and the verify matches against that |
| `Daemon.SealedKeyOpens` | crates/linhello-core/src/lib.rs:148-173 | When a seal and the unseal after it are those of a machine in such a run, the unseal succeeds |
| `Daemon.Daemon.RecoverOnMachine` | crates/linhello-daemon/src/main.rs:1316-1330 | Recover with the sealing and opening done by such a machine: that the new envelope opens is no longer assumed |
| `Daemon.Daemon.QuietRunKeepsContents` | crates/linhello-daemon/src/main.rs:1316-1330 | In a run of TPM clears, restarts and other users' requests those contents are the old ones |
| `Daemon.Daemon.EnrollmentHistoryOnDisk` | crates/linhello-daemon/src/main.rs:963-979 | After any run the embedding file decrypts and parses to what was kept, all captures exactly when no append ran with an unreadable file, and the count read off the ciphertext's length is their number |
| `Crypto.UnwrapExactly` | crates/linhello-core/src/recovery.rs:63-101 | A wrapped key comes back under its own passphrase and under no other |
| `Crypto.DecryptExactly` | crates/linhello-core/src/crypto.rs:28-74 | A template opens under its own key and no other, and its file is 28 bytes longer |
| `Crypto.OtherKdfRefused` | crates/linhello-core/src/recovery.rs:85-101 | A recovery file that names another derivation is refused, whatever the passphrase |
| `Embeddings.EmbeddingBytes` | crates/linhello-biometrics/src/enroll.rs:40-46 | The byte loop writes the little-endian words in order |
| `Embeddings.LeastFirst` | crates/linhello-biometrics/src/enroll.rs:40-46 | A word's bytes are its base-256 digits, least significant first |
| `Embeddings.WordIsAt` | crates/linhello-biometrics/src/enroll.rs:40-46 | Word i is written at offset 4 i |
| `Embeddings.WordsRoundTrip` | crates/linhello-biometrics/src/enroll.rs:71-88 | Reading the words of a written vector gives the vector back |
| `Embeddings.ChunksRoundTrip` | crates/linhello-biometrics/src/enroll.rs:71-88 | Cutting stored bytes into samples gives back the samples written, in order |
| `Embeddings.ParseRoundTrip` | crates/linhello-biometrics/src/enroll.rs:71-88 | Parsing what was stored gives the samples, and refuses an empty file |
| `Embeddings.SampleBytesAppend` | crates/linhello-daemon/src/main.rs:399-449 | Appending a capture's bytes is appending the capture |
| `PamStack.FrontModule` | crates/linhello-cli/src/pamwire.rs:24-27 | What a stack with one more module in front decides, when that module's result is ignored, ends the stack, or jumps over one |
| `PamStack.SufficientTransparent` | crates/linhello-cli/src/pamwire.rs:46-53 | The `sufficient` line leaves every stack's decision alone exactly when the module returns neither success nor new_authtok_reqd |
| `PamStack.JumpTransparent` | crates/linhello-cli/src/pamwire.rs:24-27 | The greeter's jump leaves every stack's decision alone exactly when the module does not return success |
| `PamStack.FailureHasSource` | crates/linhello-cli/src/pamwire.rs:24-27 | A failure code other than the fallback is one that a module returned |
| `PamStack.RequiredStack` | crates/linhello-cli/src/pamwire.rs:24-27 | A stack of required modules succeeds exactly when there is one and none fails |
| `PamRule.RuleIsRead` | crates/linhello-cli/src/pamwire.rs:46-53 | libpam reads an auth line as the control, module and arguments it is made of |
| `PamRule.KeywordsAreRead` | crates/linhello-cli/src/pamwire.rs:46-53 | The four control words are read as their actions |
| `PamText.OurRule` | crates/linhello-cli/src/pamwire.rs:46-53 | libpam reads each of the three lines written as a rule for pam_linhello.so with the control that is meant: a jump over one on success, or sufficient |
| `PamText.ActiveExactly` | crates/linhello-cli/src/pamwire.rs:674-682 | A line runs our module exactly when it names it anywhere and its first visible character is no hash |
| `PamText.InsertFirstAuth` | crates/linhello-cli/src/pamwire.rs:684-702 | The flagged loop inserts before the first auth directive, or last, and reports a change exactly when our module was not there |
| `PamText.RemoveModule` | crates/linhello-cli/src/pamwire.rs:705-724 | The filter drops exactly our lines and reports a change exactly when there were any |
| `PamText.WiredOnceAndFirst` | crates/linhello-cli/src/pamwire.rs:684-702 | After wiring exactly one line runs our module and it precedes every auth directive |
| `PamText.RemoveUndoesInsert` | crates/linhello-cli/src/pamwire.rs:705-724 | Remove after insert gives back the same text with its last line ended, hence the same lines, if and only if the file was not empty |
| `PamText.InsertIdempotent` | crates/linhello-cli/src/pamwire.rs:684-702 | Wiring twice is wiring once |
| `PamText.RemoveLeavesNone` | crates/linhello-cli/src/pamwire.rs:705-724 | After removal no line runs our module, and removing again changes nothing |
| `PamText.InsertKeepsComments` | crates/linhello-cli/src/pamwire.rs:684-702 | Comments survive wiring, in order, even ones that name our module |
| `PamText.RemoveKeepsComments` | crates/linhello-cli/src/pamwire.rs:705-724 | Comments survive removal likewise |
| `PamText.WiredStack` | crates/linhello-cli/src/pamwire.rs:726-734 | The auth rules libpam sees in the rewritten file are the face line followed by those of the original, if and only if none precedes the first that the code recognizes |
| `PamText.BreaksIfNot` | crates/linhello-cli/src/pamwire.rs:726-734 | For every other file, a reading of its lines and results for which the promise fails |
| `PamText.BreaksAsRead` | crates/linhello-cli/src/pamwire.rs:726-734 | The same with every line read as libpam reads it, where the rule passed over is an include or the like, or requisite |
| `PamText.LowerCaseIsRecognized` | crates/linhello-cli/src/pamwire.rs:726-734 | A rule whose type is in lower case, with or without the dash, is recognized |
| `PamText.LowerCaseFile` | crates/linhello-cli/src/pamwire.rs:726-734 | So a file whose auth rules all are is wired as promised |
| `PamText.UpperCaseFile` | crates/linhello-cli/src/pamwire.rs:684-702 | A file of the kind named next |
| `PamText.UpperCaseRule` | crates/linhello-cli/src/pamwire.rs:726-734 | libpam takes an upper-case auth rule, which the code passes over |
| `PamText.UpperCaseRefusesFace` | crates/linhello-cli/src/pamwire.rs:684-702 | A greeter file with such a rule alone: a recognized face is refused even with the right password |
| `PamText.MeaningPreserved` | crates/linhello-cli/src/pamwire.rs:684-734 | For every reading that takes our line as libpam does and every vector of results, without success the decision is the original one, with success `sufficient` succeeds at once and the greeter form decides as the stack without its first module: if and only if nothing libpam takes as an auth rule precedes the first the code recognizes |
| `PamText.JumpSkipsLine` | crates/linhello-cli/src/pamwire.rs:305-310 | The greeter's jump skips the first auth line exactly when that line stands for a single module |
| `PamWire.OverrideFacts` | crates/linhello-cli/src/pamwire.rs:339-348 | A materialized override is recognized as ours and runs our module on exactly one line |
| `PamWire.EditedSlot` | crates/linhello-cli/src/pamwire.rs:370-383 | Editing keeps a service's files explained by its originals and leaves it wired once |
| `PamWire.RemovedSlot` | crates/linhello-cli/src/pamwire.rs:385-414 | Removing deletes an override of ours, or restores the original lines |
| `PamWire.CreatedSlot` | crates/linhello-cli/src/pamwire.rs:350-368 | Materializing from the vendor copy leaves the service wired once |
| `PamWire.ServiceRules` | crates/linhello-cli/src/pamwire.rs:257-325 | What libpam makes of the line each service gets: greeters jump, sudo and the single-stack services are sufficient, the lockscreen's parallel stack also waits |
| `PamWire.PamFiles.EditIn` | crates/linhello-cli/src/pamwire.rs:370-383 | Wires one service, keeps every backup and touches no other service; a dry run changes nothing |
| `PamWire.PamFiles.RemoveIn` | crates/linhello-cli/src/pamwire.rs:385-414 | Unwires one service, likewise |
| `PamWire.PamFiles.ApplyOverride` | crates/linhello-cli/src/pamwire.rs:328-368 | Wires a service that may exist only as a vendor copy, likewise |
| `PamWire.PamFiles.EnableAll` | crates/linhello-cli/src/pamwire.rs:181-217 | After enable every service in scope runs our module on exactly one line: every greeter and sudo that has a file, plasmalogin, and of the lockscreen's two the fingerprint stack where there is one, leaving the other alone |
| `PamWire.PamFiles.DisableAll` | crates/linhello-cli/src/pamwire.rs:221-252 | After disable every service has its original lines and no override is left |
| `PamWire.WiredDecides` | crates/linhello-cli/src/pamwire.rs:181-217 | A wired service, edited or overridden, decides as promised if and only if libpam and the code agree on the auth rules of its original |
| `PamWire.PamFiles.RunAll` | crates/linhello-cli/src/pamwire.rs:181-252 | From untouched files, over any sequence of enables and disables, dry or not, a backup once made stays equal to the original text, the two statements above hold after each, and every wired service decides as promised if and only if its original is recognized |
| `ConfigFile.ReadKv` | crates/linhello-common/src/config.rs:18-52 | The scan with early return finds the first non-blank value for the key |
| `ConfigFile.WriteKv` | crates/linhello-common/src/config.rs:57-88 | The flagged loop builds the file that Write describes |
| `ConfigFile.ReadAfterWrite` | crates/linhello-common/src/config.rs:57-88 | For every text: reading the key back gives the trimmed value (nothing, if blank) and every other key reads as before |
| `ConfigFile.OtherKeysNeverRead` | crates/linhello-common/src/config.rs:18-52 | The condition on keys is exact: any key with `=`, a newline, outer spaces or a leading `#` reads as absent from every text |
| `ConfigFile.WriteKeepsOtherLines` | crates/linhello-common/src/config.rs:57-88 | Exactly one line sets the key afterwards, and all other lines are as before, in order |
| `ConfigFile.LookupRewritten` | crates/linhello-common/src/config.rs:57-88 | The same on lines, for a rewrite in any stage of its loop |
| `ConfigFile.OthersKeepOrder` | crates/linhello-common/src/config.rs:57-88 | Duplicates collapse to one entry and the other lines keep their order, in any stage of the loop |
| `ConfigFile.EntryTakesPlace` | crates/linhello-common/src/config.rs:57-88 | The entry takes the place of the first line that set the key, the later ones go, and with none it goes last |
| `Text.LinesCrLf` | crates/linhello-common/src/config.rs:18-52 | CR LF ends a line as LF alone does, and neither is part of the line |
| `ConfigFile.FirstCounts` | crates/linhello-common/src/config.rs:18-52 | A read gives the value of the first line that sets the key to something |
| `ConfigFile.FirstOfTwo` | crates/linhello-common/src/config.rs:18-52 | So of two settings in a text the first counts |
| `Solve.Eliminate` | crates/linhello-biometrics/src/align.rs:129-149 | In-place elimination with partial pivoting reaches the reduced system, and fails if and only if one of its pivots is below the minimum |
| `Solve.ReduceFacts` | crates/linhello-biometrics/src/align.rs:129-149 | The reduced system is triangular with non-zero pivots and has the solutions of the original |
| `Solve.BackSubstitute` | crates/linhello-biometrics/src/align.rs:150-159 | Back substitution solves the triangular system it is given |
| `Solve.Solve4` | crates/linhello-biometrics/src/align.rs:129-159 | Returns a vector if and only if no pivot falls short, and that vector is the unique solution of the original system |
| `LinAlg.AddRowEquivalent` | crates/linhello-biometrics/src/align.rs:142-148 | Adding a multiple of one row to another keeps the solution set |
| `LinAlg.SwapEquivalent` | crates/linhello-biometrics/src/align.rs:131-141 | Swapping two rows keeps the solution set |
| `LinAlg.TriangularUnique` | crates/linhello-biometrics/src/align.rs:150-159 | A triangular system with non-zero pivots has at most one solution |
| `Align.BuildNormal` | crates/linhello-biometrics/src/align.rs:56-72 | The accumulation loops build the normal equations of the ten landmark equations |
| `Align.NormalMinimises` | crates/linhello-biometrics/src/align.rs:56-76 | At a solution of the normal equations the error of any other vector is larger by exactly the energy of the difference |
| `Align.NormalMinimiserUnique` | crates/linhello-biometrics/src/align.rs:56-76 | If that solution is the only one, no other vector has as small an error |
| `Align.SolutionIsBestFit` | crates/linhello-biometrics/src/align.rs:56-76 | The unique solution is the one similarity with the least squared landmark error |
| `Landmarks.EstimateSimilarity` | crates/linhello-biometrics/src/align.rs:56-76 | The best fit if the source landmarks are well spread, and otherwise the identity |
| `Landmarks.SolvedExactly` | crates/linhello-biometrics/src/align.rs:129-159 | Elimination succeeds on the landmarks' normal equations if and only if they are well spread: a condition on three sums over the landmarks, whatever they are mapped to |
| `Pivots.ReducesExactly` | crates/linhello-biometrics/src/align.rs:129-149 | The same on the matrix, by eliminating it symbolically for each of the three rows that can lead |
| `Landmarks.BestFitExactly` | crates/linhello-biometrics/src/align.rs:56-76 | A best fit exists if and only if the five landmarks do not all coincide |
| `Landmarks.NormalHasOneSolution` | crates/linhello-biometrics/src/align.rs:56-76 | Then the normal equations have exactly one solution |
| `Landmarks.SpreadPositive` | crates/linhello-biometrics/src/align.rs:56-72 | Their spread, which the third and fourth pivots are multiples of, is never negative, and zero exactly for coincident landmarks |
| `Landmarks.SpreadIsDistances` | crates/linhello-biometrics/src/align.rs:56-72 | The spread is the sum of squared distances over all pairs of landmarks |
| `Landmarks.WellSpreadIsApart` | crates/linhello-biometrics/src/align.rs:129-149 | Well spread landmarks do not coincide |
| `Landmarks.TinyFaceIsNotFitted` | crates/linhello-biometrics/src/align.rs:136-138 | The converse fails: landmarks that have a best fit on which the program gives up |
| `Landmarks.PixelLandmarksAreFitted` | crates/linhello-biometrics/src/align.rs:129-149 | Coordinates up to a hundred thousand pixels and two landmarks a pixel apart are enough to be well spread |
| `Align.ExactSimilarityRecovered` | crates/linhello-biometrics/src/align.rs:56-76 | Landmarks that are an exact similarity image are fitted by exactly that similarity |
| `Align.CoincidentHaveNoBestFit` | crates/linhello-biometrics/src/align.rs:56-76 | Five coincident landmarks have no best fit; Landmarks.BestFitExactly has the converse |
| `Align.InvertIsInverse` | crates/linhello-biometrics/src/align.rs:33-48 | The inverse undoes the similarity from both sides |
| `Align.ApplyIsSimilarity` | crates/linhello-biometrics/src/align.rs:33-40 | The map scales squared distances and signed areas alike by a^2 + b^2: a rotation and a scale, no mirror image |
| `Sorting.SortFacts` | crates/linhello-biometrics/src/detect.rs:212-213 | The sort that suppression and the median rest on is sorted and a permutation |
| `Sorting.SortStable` | crates/linhello-biometrics/src/detect.rs:212-213 | And stable: equal scores keep their order |
| `Detect.IouFacts` | crates/linhello-biometrics/src/detect.rs:200-210 | Intersection over union is symmetric and within [0, 1], for inverted boxes too |
| `Cells.IouCountsCells` | crates/linhello-biometrics/src/detect.rs:200-210 | On integer corners, the ratio times the number of unit cells in either box is the number of cells in both |
| `Cells.IouMoved` | crates/linhello-biometrics/src/detect.rs:200-210 | Scaling and moving both boxes leaves the ratio alone |
| `Cells.IouOfItself` | crates/linhello-biometrics/src/detect.rs:200-210 | A box of positive area overlaps itself fully |
| `Cells.IouOfDisjoint` | crates/linhello-biometrics/src/detect.rs:200-210 | Boxes beside or above one another do not overlap, inverted ones included |
| `Detect.Nms` | crates/linhello-biometrics/src/detect.rs:212-221 | The loop over kept boxes computes the survivors of the recursive definition |
| `Detect.NmsSpecification` | crates/linhello-biometrics/src/detect.rs:212-221 | Kept boxes are a score-sorted sub-collection with pairwise overlap below the threshold, and a box of which any copy was dropped overlaps a kept one of at least its score |
| `Detect.NmsIdempotent` | crates/linhello-biometrics/src/detect.rs:212-221 | A second pass changes nothing |
| `Antispoof.Median` | crates/linhello-liveness/src/antispoof.rs:163-173 | Sorts in place and returns the middle of the sorted readings |
| `Antispoof.PredictMedian` | crates/linhello-liveness/src/antispoof.rs:146-159 | Refuses an empty burst, else scores it by its median |
| `Antispoof.MedianIsMajority` | crates/linhello-liveness/src/antispoof.rs:163-173 | Against any threshold, a majority of readings at or above (below) puts the median at or above (below); for odd lengths exactly |
| `Antispoof.MedianIsMiddleRank` | crates/linhello-liveness/src/antispoof.rs:163-173 | The median is the mean of the two middle readings, ranks being defined by counts below thresholds |
| `Antispoof.RankIsUnique` | crates/linhello-liveness/src/antispoof.rs:163-173 | At most one value has a given rank |
| `Antispoof.Crop` | crates/linhello-liveness/src/antispoof.rs:178-217 | The step-by-step rectangle is, per axis, the pixels of the enlarged interval moved as little as possible into the frame |
| `Antispoof.EnlargementExact` | crates/linhello-liveness/src/antispoof.rs:182-190 | The enlargement is the largest factor, up to the one asked for, that leaves a pixel to spare each way |
| `Antispoof.CentreIs` | crates/linhello-liveness/src/antispoof.rs:182-187 | It is about the middle of the box, or of its first pixel if the box is thinner or inverted |
| `Antispoof.CropIsEnlargedBox` | crates/linhello-liveness/src/antispoof.rs:178-217 | A proper box that fits when enlarged as asked is cropped to exactly the pixels of that enlargement |
| `Antispoof.NearestFacts` | crates/linhello-liveness/src/antispoof.rs:196-211 | The shift keeps the size, ends inside the frame, moves least, moves nothing that fits, and never both shifts are needed |
| `Antispoof.SpanInFrame` | crates/linhello-liveness/src/antispoof.rs:212-215 | One axis is never empty, within a pixel of the enlarged size, and inside the frame exactly when the enlarged box is not a point or its centre is short of the far edge |
| `Antispoof.CropInFrame` | crates/linhello-liveness/src/antispoof.rs:178-217 | The crop is never empty and stays inside the frame on an axis if and only if the frame is more than one pixel both ways or the box's centre is short of the far edge |
| `Antispoof.CropLeavesFrame` | crates/linhello-liveness/src/antispoof.rs:178-217 | A box within a one-pixel-wide frame whose crop starts outside it |

## Left out

- Foreign I/O: cameras, ONNX inference, sysfs and efivarfs, fprintd, busctl. Secure Boot, boot mode, captures and camera binding are inputs.
- RSA, SHA-256, AES-GCM, Argon2id, PEM, base64 and JSON: arbitrary functions in `Suite`, ideal terms in `Crypto`, parsed records in `PcrSig`. An ideal hash is one whose digests can be told apart and from what follows them (`Suite.Ideal`, which `Digests.IdealSuite` has).
- Error texts and the PCR-drift diagnosis appended to them; errors carry their kind only. Opening and closing the TPM connection are not steps; live entries are accounted for from one to the other.
- The TPM's persistent slot is tracked in `TpmContext` but does not change within the runs of `SealRuns`, where it has no effect on results.
- `Daemon` holds the sealed key as (seed, key), which `SealRuns.SelfHeals` and `SealRuns.UntouchedGivesSecretOrNothing` justify; `Daemon.RecoverOnMachine` ties the two together for recovery; no request runs `TpmContext` inside it.
- The password envelope half of the reseal request, display names, and the other daemon requests.
- Whether a file exists is always known: an existence check that itself fails is not modelled.
- Each request is atomic: no concurrent workers, no partly failed directory removal, each file write all or nothing with its permission change.
- Daemon.Daemon.LoadUserSamples: parses as Embeddings.ParseRoundTrip does, without the checks and renormalisation named next.
- Embeddings.ParseRoundTrip: does not model the finite check and renormalisation of stored floats (crates/linhello-biometrics/src/enroll.rs:89-107); words are opaque 32-bit values.
- Hex.RoundTrip: text is of characters; hex text cut inside a multi-byte character is not modelled.
- PamText.RemoveUndoesInsert: files with carriage returns are excluded, as in the comment and stack theorems of PamText; backslash continuations are not joined and comments after a rule are part of it.
- PamText.MeaningPreserved: quantifies over all readings of the other lines; PamText.BreaksAsRead has the converse for lines read as libpam reads them. The stack is flat; `substack` keeps its own jump scope in libpam and is not modelled.
- PamWire.PamFiles.RunAll: starts from non-empty files without carriage returns or our module; I/O errors and the atomic-rename details are not modelled.
- The Debian `pam-auth-update` and Fedora `authselect` paths, whose outcome other tools decide.
- ConfigFile.WriteKeepsOtherLines: states the line sequence for texts without carriage returns; ReadAfterWrite holds for all texts.
- Landmarks.EstimateSimilarity: rounding is not modelled; the pivot threshold is compared exactly.
- Warping and bilinear sampling, image resizing, the IR calibration gate, the liveness evaluator, the match threshold, the Rust half of the PAM module.
- The terminal interface, command line, installer, updater and packaging.
