# Verified model of the WCM reference SDK

This project models the parts of the Weight Custody Manifest (WCM) reference SDK whose guarantees rest on unbounded
inputs or on whole runs, and proves them for every input, run or reachable state. `dafny verify dfyconfig.toml` checks
all of it.

| modules | what they model |
|---|---|
| `Merkle`, `MerkleLevels`, `MerkleTheorems`, `MerklePositions` | The transparency-log tree: the generators recurse from the root on the split point, the verifiers shift bits upwards from a leaf. The proofs go one tree level at a time (`Lift` joins neighbours), so each turn of a verifier loop is one level. |
| `Canonical`, `CanonicalReader`, `CanonicalOrder`, `CanonicalSpelling`, `CanonicalTheorems`, `CanonicalCode`, `CanonicalAcceptance` | The signing pre-image: escapes, key order, dropped nulls, the NFC check and the depth cap; a strict reader of RFC 8259 and a decoder of RFC 3629, each in its own code points, that get every value back; the source's buffer-appending loops. |
| `Custody`, `CustodySafety` | The enclave session that holds a key under a lease, and what every sequence of calls keeps. |
| `Revocation`, `RevocationExact` | The NVIDIA OCSP client with its cache of answers, the chain check, and what its verdict rests on. |
| `Challenge`, `ChallengeSafety` | Single-use nonces with their two ordered tables. |
| `Kbs`, `KbsReleases`, `LeaseBound`, `LeaseExact` | The broker's gate over the machines above, and the time bound they give together, which is exact. |
| `Modular`, `MemorySweep` | The page order (an affine permutation), the write-all/read-all sweep over a byte buffer, and the broker's check of its transcript. |
| `JointSignature` | Required roles, distinct keys and the joint verdict. |
| `Cpio`, `BootBundle`, `BootPolicy` | The newc archive writer with a strict reader of its own, the policy that collects, completes and sorts its members, and that policy said of the inputs. |
| `QuoteChain` | The certificate chain check, against section 6.1 of RFC 5280. |
| `Controller` | The receipt-gated controller as steps between crashes and other writers. |
| `EpochFloor` | The owner's policy floor under serialized, failing transactions. |
| `Lineage` | The lineage walk and what it reports. |

Hashes are symbolic and therefore injective. Signatures are symbolic or an abstract relation. Clocks, random draws,
responder answers and NFC tables are inputs. Where the source raises, the model returns `None`, an error value or a
refusing outcome. Classes keep the source's mutable objects: each of their methods is proved against a specification
function, and the theorems about runs are proved about that function. What each main operation accepts or yields is then
said once more of the fields, names and numbers themselves, sharing no function with the code.

## What the proofs found

- `verify_inclusion` trusts the proof's own tree size. At the true size it is exact (`InclusionExact`); at any other
  size a leaf pre-image is still accepted only if that leaf was logged (`InclusionSoundAnySize`), but its position may be
  wrong, inside the log (`ClaimedSizeMovesInside`) and past its end (`ClaimedSizeMatters`). With distinct leaves it is
  wrong exactly when the index turns differently in the claimed tree (`PositionExact`).
- The canonicalizer's description says keys are sorted by code point. The code sorts by UTF-16 code unit, as RFC 8785
  asks. The two differ exactly where the first difference crosses the surrogate gap (`CodePointOrderExact`).
- The string spelling is said to be exactly the one of section 3.2.2.2 of RFC 8785. The code escapes 35 characters more,
  U+007F to U+009F, U+2028 and U+2029, so it is that spelling exactly for texts without them (`QuoteStandardExact`).
- Age in whole seconds lets a held OCSP answer be reused up to one microsecond short of a second past its window:
  `ReuseWindow` says exactly when, and `ReusedPastItsWindow` shows such a reuse for every window. The bound it returns
  ignores that second, so the custody bound does not grow by it.
- The custody bound after the responder falls silent needs one more term than the decision lifetime plus the cadence:
  the broker reads the clock at the revocation check and again at signing, so the length of one renewal request counts.
  `ServedExactly` gives the exact set of instants that some run serves, for every deployment that can renew. The bound
  without that term holds of a deployment exactly when request, lifetime and cadence together exceed the reuse window by
  at most one microsecond, or the request takes at most one microsecond (`PlainBoundExact`); one with a request of five seconds breaks it (`RequestLengthCounts`).
- After an issue, open challenges are unexpired exactly when the configured lifetime is not negative
  (`BoundedRetention`).
- The path-length rule agrees with RFC 5280 wherever no self-issued intermediate decides (`BottomUpAgainstTopDown`);
  the code counts those, the standard does not.
- A root added to the trust store keeps a chain accepted exactly when reading that root does not raise, or a root ahead
  of it accepts the chain already (`AddingARootExact`); at the end of the store it always does.
- The derivative policy is monotone end to end, in every accepted lineage of a given pattern of declarations, exactly
  when no undeclared member lies between two declared ones (`PolicyMonotoneExact`).

## Model

| member | source | states |
|---|---|---|
| Merkle.SplitCharacterized | python/src/wcm/_merkle.py:131-136 | The split point is the one power of two below `n` whose double reaches `n` |
| Merkle.SplitPoint | python/src/wcm/_merkle.py:131-136 | The doubling loop returns the split point, and 0 for sizes below two |
| Merkle.ComputeRootFromProof | python/src/wcm/_merkle.py:139-171 | The bit-shifting loop refuses bad indices, short and long paths, and otherwise joins the path level by level |
| Merkle.FoldConsistencyTerms | python/src/wcm/_merkle.py:210-227 | The loop's two roots, when the climb ends at the top, are the level-by-level pair climb from the first term |
| Merkle.VerifyConsistency | python/src/wcm/_merkle.py:174-207 | All branches of the consistency verifier: size order, empty first log, equal sizes, powers of two, stripping, both roots |
| Merkle.MerkleTree.constructor | python/src/wcm/_merkle.py:54-61 | A new log has no leaves |
| Merkle.MerkleTree.AddLeaf | python/src/wcm/_merkle.py:63-67 | Appends the domain-separated leaf hash and keeps all earlier ones |
| Merkle.MerkleTree.ProveInclusion | python/src/wcm/_merkle.py:80-85 | A proof for exactly the indices in the log, naming index, size, leaf hash and audit path |
| Merkle.MerkleTree.VerifyInclusion | python/src/wcm/_merkle.py:87-91 | Accepts exactly when the proof's own claims fold to the current root |
| Merkle.MerkleTree.ProveConsistency | python/src/wcm/_merkle.py:93-99 | A proof for exactly the first sizes from 1 to the log's size |
| MerkleLevels.LiftHash | python/src/wcm/_merkle.py:110-115 | Joining neighbours once leaves the root unchanged |
| MerkleLevels.PathLift | python/src/wcm/_merkle.py:117-128 | An audit path is the sibling at this level, if any, then the audit path one level up |
| MerkleLevels.SubLift | python/src/wcm/_merkle.py:101-108 | Halving an even first size moves the whole consistency proof one level up |
| MerkleLevels.SubOdd | python/src/wcm/_merkle.py:101-108 | For an odd first size the recursive proof is its last leaf (unless flagged complete) and the audit path of that leaf |
| MerkleTheorems.ClimbExact | python/src/wcm/_merkle.py:152-171 | From any node of a balanced tree the climb reaches the root from that node's hash by its own path and by nothing else |
| MerkleTheorems.InclusionExact | python/src/wcm/_merkle.py:80-91 | Complete and sound: at the log's size the verifier accepts exactly an index in range, its leaf and its generated path |
| MerkleTheorems.AuditPathLength | python/src/wcm/_merkle.py:117-128 | A log of at most 2^e leaves has audit paths of at most e hashes |
| MerkleTheorems.InclusionSoundAnySize | python/src/wcm/_merkle.py:63-67 | Whatever index, size and path are claimed, a hash made from a leaf pre-image is accepted only if that leaf was logged |
| MerkleTheorems.PowerOfTwoTest | python/src/wcm/_merkle.py:190-207 | `m & (m - 1) == 0` says exactly that stripping the trailing ones of `m - 1` leaves zero |
| MerkleTheorems.PairClimbExact | python/src/wcm/_merkle.py:210-227 | The pair climb reaches both roots exactly when the shorter tree's last node agrees with the longer tree and the terms are its path |
| MerkleTheorems.StrippedExact | python/src/wcm/_merkle.py:190-207 | The same after the trailing ones are stripped, with the first root put in front for powers of two |
| MerkleTheorems.ConsistencyExact | python/src/wcm/_merkle.py:174-227 | Complete and sound: for the roots of any two logs, a proof is accepted exactly when the first is a prefix of the second and the proof is the generated one, or the empty one for an empty first log |
| MerkleTheorems.MthInjective | python/src/wcm/_merkle.py:110-115 | Root and size determine the leaves |
| MerkleTheorems.MthStandard | python/src/wcm/_merkle.py:110-115 | The tree hash is that of section 2.1.1 of RFC 9162, split at the power of two |
| MerkleTheorems.PathStandard | python/src/wcm/_merkle.py:117-128 | The audit path is that of section 2.1.3.1 |
| MerkleTheorems.SubproofStandard | python/src/wcm/_merkle.py:93-108 | The consistency proof is that of section 2.1.4.1 |
| MerklePositions.FoldByTurns | python/src/wcm/_merkle.py:152-171 | The climb depends on index and claimed size only through its sequence of left and right turns |
| MerklePositions.SameTurnsSuffice | python/src/wcm/_merkle.py:87-91 | In every log, an index that turns in the claimed tree as in the log's own is accepted only with its own leaf and path |
| MerklePositions.PositionExact | python/src/wcm/_merkle.py:87-91 | With distinct leaves, for every index and every claimed size, an accepted proof names the right index exactly when index and claimed size turn as index and true size do |
| MerklePositions.ClaimedSizeMatters | python/src/wcm/_merkle.py:87-91 | In every log of two leaves the second is accepted as leaf 2 of 3 |
| MerklePositions.ClaimedSizeMovesInside | python/src/wcm/_merkle.py:87-91 | In every log of three leaves the last is accepted as leaf 1 of 2 |
| CanonicalReader.RoundTrip | python/src/wcm/_canonicalize.py:76-163 | A strict JSON reader with its own code points recovers every value from its spelling: the form is JSON and uniquely readable |
| CanonicalReader.ReadBack | python/src/wcm/_canonicalize.py:76-124 | The same in front of any text that does not continue a number |
| CanonicalReader.ReadEscape | python/src/wcm/_canonicalize.py:140-162 | Every character's escape, short, long or none, reads back as that character whatever follows |
| CanonicalOrder.KeyOrderIsUnitOrder | python/src/wcm/_canonicalize.py:107-112 | Comparing the sort-key bytes is comparing UTF-16 code units |
| CanonicalOrder.KeyTotal | python/src/wcm/_canonicalize.py:107-118 | The key order is total on valid text: no two keys tie |
| CanonicalOrder.Utf16Injective | python/src/wcm/_canonicalize.py:107-112 | Different texts have different sort keys |
| CanonicalOrder.Utf8Injective | python/src/wcm/_canonicalize.py:31-47 | Different texts have different bytes |
| CanonicalOrder.DecodeBack | python/src/wcm/_canonicalize.py:31-47 | A decoder of RFC 3629 gets every valid text back from its bytes |
| CanonicalOrder.CodePointOrderExact | python/src/wcm/_canonicalize.py:14-19 | Code-point order, as described, is what the code does exactly for keys whose first difference does not cross the surrogate gap |
| CanonicalOrder.CodePointOrderDiffers | python/src/wcm/_canonicalize.py:107-112 | U+1F600 and U+FFFD are ordered differently by the two |
| CanonicalSpelling.QuoteStandardExact | python/src/wcm/_canonicalize.py:127-163 | A string is spelled as in section 3.2.2.2 of RFC 8785, as described, exactly when it holds none of the 35 characters escaped beyond it |
| CanonicalSpelling.DeleteIsEscaped | python/src/wcm/_canonicalize.py:157-159 | A single U+007F is spelled with an escape where the standard has the character itself |
| CanonicalTheorems.SortedUnique | python/src/wcm/_canonicalize.py:115-124 | A sorted dictionary is determined by its content |
| CanonicalTheorems.NormalizeExact | python/src/wcm/_canonicalize.py:76-124 | Normal forms are equal exactly for the same value up to key order and dropped nulls |
| CanonicalTheorems.SignedBytesExact | python/src/wcm/_canonicalize.py:31-47 | Two accepted values have equal signing bytes exactly when they are the same value up to key order and dropped nulls |
| CanonicalTheorems.InsertionOrderIrrelevant | python/src/wcm/_canonicalize.py:115-124 | Filling a dictionary in another order changes neither a byte nor whether it is refused |
| CanonicalCode.QuoteText | python/src/wcm/_canonicalize.py:127-163 | The loop refuses exactly non-NFC text and otherwise builds the quoted escapes of all characters in order |
| CanonicalCode.Serialize | python/src/wcm/_canonicalize.py:76-104 | Refuses exactly what is nested too deep or holds refused text; otherwise spells the normal form |
| CanonicalCode.SerializeItems | python/src/wcm/_canonicalize.py:93-100 | The list loop, likewise |
| CanonicalCode.SerializeDict | python/src/wcm/_canonicalize.py:115-124 | The dictionary loop: sorted keys, nulls dropped, refused when any kept member is |
| CanonicalCode.CanonicalBytes | python/src/wcm/_canonicalize.py:31-47 | The entry point yields the UTF-8 bytes of the spelled normal form or refuses |
| CanonicalAcceptance.AcceptedExactly | python/src/wcm/_canonicalize.py:31-104 | A value is signed exactly when nothing it keeps lies 65 levels inside it, every text it keeps can be encoded and is NFC, and every key can be encoded |
| CanonicalAcceptance.SignedBytesRead | python/src/wcm/_canonicalize.py:31-163 | The signed bytes, decoded as UTF-8 and read as JSON by readers that share nothing with the writer, are the value without its nulls and with its keys sorted |
| Custody.EnclaveSession.constructor | python/src/wcm/custody.py:232-263 | A session starts with its key, one cadence of time, no operation used and no renewal applied |
| Custody.EnclaveSession.DoZeroize | python/src/wcm/custody.py:532-549 | The old key buffer is overwritten with zeros and dropped, the hook runs once, a second call changes nothing |
| Custody.EnclaveSession.DoTick | python/src/wcm/custody.py:384-391 | At or past the deadline the session wipes; otherwise nothing changes |
| Custody.EnclaveSession.DoReattest | python/src/wcm/custody.py:393-411 | A live session gets a full cadence and a fresh budget, a lapsed one wipes and refuses |
| Custody.EnclaveSession.ApplyRenewal | python/src/wcm/custody.py:413-496 | All refusals in their order leave window and budget alone; an applied renewal is bounded by its decision and its evidence and is remembered |
| Custody.EnclaveSession.AuthorizeOperation | python/src/wcm/custody.py:512-530 | Counts one operation of a live session within budget; refuses or wipes otherwise |
| Custody.EnclaveSession.UseKey | python/src/wcm/custody.py:498-510 | Hands out the key exactly when the operation is authorized |
| CustodySafety.RunExplained | python/src/wcm/custody.py:384-549 | After every run the whole session, holding or wiped, deadline, count, burned decisions, key and hook count, is a function of the log of calls and outcomes |
| CustodySafety.LeaseSafety | python/src/wcm/custody.py:498-530 | In every run, an authorized operation falls within one cadence of the last start, re-attestation or renewal, and within the operation budget since then |
| CustodySafety.RenewalOnce | python/src/wcm/custody.py:460-496 | No decision renews a session twice |
| CustodySafety.OnlyAttestingMoves | python/src/wcm/custody.py:393-530 | Over every stretch of a run in which nothing attests, failed renewals included, the deadline stays and the count only grows |
| CustodySafety.EvidenceBoundsService | python/src/wcm/custody.py:460-496 | After a renewal that rests on evidence with an end, no operation is served at or past that end until the next attestation |
| CustodySafety.WipedForever | python/src/wcm/custody.py:532-549 | Once wiped, whatever is called: no key, the hook ran exactly once, nothing serves, attests or renews |
| CustodySafety.RenewalExact | python/src/wcm/custody.py:413-496 | One renewal attests exactly when, field by field, the session is live, the pinned key signed, weights, manifest, cadence, time source, evidence and nonce match, the time is in range, each named check is there once and passed, and the decision is renewed, unused and its evidence bound readable; the new deadline is then the earliest of cadence, expiry and evidence |
| CustodySafety.OutcomesExact | python/src/wcm/custody.py:384-530 | In every run, from the log alone, which calls authorize, attest, renew, find the budget used up or the key wiped |
| CustodySafety.RenewedForItsEvidence | python/src/wcm/custody.py:452-460 | In every run, each renewal that attested was issued for the evidence and nonce it was presented with |
| Revocation.NvidiaOcspClient.StatusOf | python/src/wcm/gpu_revocation.py:374-430 | Which answers are used, held, reused or refused, and what the cache holds afterwards |
| Revocation.NvidiaOcspClient.ReuseHeld | python/src/wcm/gpu_revocation.py:453-481 | A held answer stands in exactly within its window and before its own next update, with the earlier of the two as bound |
| Revocation.NvidiaOcspClient.CheckChain | python/src/wcm/gpu_revocation.py:484-527 | Verdict and cache of the link-by-link check, which `RevocationExact.ChainExact` decides of the responses and the held answers |
| Revocation.SilentVerdict | python/src/wcm/gpu_revocation.py:374-527 | With the responder silent, a chain passes only by reuse and its verdict expires within one window of the silence |
| Revocation.CheckCache | python/src/wcm/gpu_revocation.py:374-430 | A silent responder leaves no answer in the cache that was asked for after it fell silent |
| Revocation.ReuseWindow | python/src/wcm/gpu_revocation.py:432-481 | A held answer stands in exactly when it is less than one second past its window and before its own next update; its bound ignores that second |
| Revocation.ReusedPastItsWindow | python/src/wcm/gpu_revocation.py:453-481 | For every window an answer is reused one microsecond short of a second past it, beyond the bound it is given |
| Revocation.RevocationSticks | python/src/wcm/gpu_revocation.py:374-430 | After a verified revocation, whatever is asked and however the responder fails, the link is not GOOD again until the responder verifiably says so |
| RevocationExact.ChainExact | python/src/wcm/gpu_revocation.py:484-527 | A chain passes exactly when it has three links or more and each one between leaf and root was answered GOOD in time or was unreachable, with reuse allowed and the answer last verified for it GOOD and in its window; the verdict expires at the least of the limits it rests on, or never |
| RevocationExact.ChainLeaves | python/src/wcm/gpu_revocation.py:374-527 | The check stops at the first link that does not pass, and the cache then holds, link by link, the answer last verified |
| RevocationExact.RevokedLinkShutsChains | python/src/wcm/gpu_revocation.py:484-527 | In every run of checks, once anything but GOOD was verifiably heard of a link, no chain through it passes until it is verifiably GOOD again, however the responder fails |
| Challenge.ChallengeStore.Prune | python/src/wcm/_challenge.py:59-71 | Drops the expired front of each table and nothing behind the first live entry |
| Challenge.ChallengeStore.DoIssue | python/src/wcm/_challenge.py:73-83 | Prunes, then records the nonce with its expiry |
| Challenge.ChallengeStore.DoConsume | python/src/wcm/_challenge.py:85-100 | Replayed, unknown, expired or accepted, in that order; every presentation of an open nonce moves it to the spent table |
| ChallengeSafety.SingleUse | python/src/wcm/_challenge.py:59-100 | Over every interleaving and under any clock no nonce is accepted twice; pruning never revives one |
| ChallengeSafety.AcceptedIsFresh | python/src/wcm/_challenge.py:85-100 | An accepted nonce was issued earlier in the run, is not past its expiry and was not taken before |
| ChallengeSafety.AcceptedExactly | python/src/wcm/_challenge.py:59-100 | Under a steady clock, from the calls alone: a presentation is accepted exactly when its nonce was issued before, is still in time and was not presented since |
| ChallengeSafety.BoundedRetention | python/src/wcm/_challenge.py:54-83 | After an issue under a steady clock every spent entry is at most one lifetime old, and all open ones are unexpired exactly when the lifetime is not negative |
| Kbs.KeyBrokerService.CheckAttestationRevocation | python/src/wcm/kbs.py:826-885 | Passes exactly when no check is required, or the key is not revoked, the cache is fresh and a configured client's chain passes; without a live check the client is unchanged |
| Kbs.KeyBrokerService.VerifyAndRelease | python/src/wcm/kbs.py:203-379 | A non-canonical input touches nothing; any other presentation consumes its nonce first, only an accepted one is checked further, and a key is released exactly when everything below passes |
| Kbs.ReleaseNeedsEverything | python/src/wcm/kbs.py:238-379 | A key is released exactly for an accepted nonce with the revocation, the memory sweep and every other gate passed; the decision expires with its revocation evidence |
| Kbs.RevocationGateExact | python/src/wcm/kbs.py:826-885 | Where required, the gate passes exactly when the key is not revoked, the cache is fresh and, with a client configured, a readable chain passes by `ChainExact`; a refusal before the vendor is asked leaves the client as it was |
| Kbs.AcceptedExactly | python/src/wcm/_challenge.py:85-100 | A presentation is accepted exactly when its nonce is open, in time and not spent |
| Kbs.ReleasedExactly | python/src/wcm/kbs.py:203-379 | A key is released exactly when the challenge is open and in time, the attestation key is not revoked and its chain passes, the required sweep is there and every other gate passes |
| Kbs.SweepAndDecide | python/src/wcm/kbs.py:526-568 | Where the sweep is required and its key pinned, sweeping and deciding release a key exactly when no two pages with different values share memory and everything else passes |
| Kbs.GateChecksComplete | python/src/wcm/custody.py:435-447 | A passing decision carries every check the session asks for |
| KbsReleases.ReleaseAnswersChallenge | python/src/wcm/kbs.py:220-246 | Every release answers a challenge issued earlier in the run, within its lifetime |
| KbsReleases.ReleasesInject | python/src/wcm/kbs.py:220-246 | Two releases never answer the same challenge |
| LeaseBound.StepKeeps | python/src/wcm/kbs.py:381-413 | Every step of broker, client and session keeps: whatever is cached, pending, signed or renewed rests on an answer from before the silence or expires in time |
| LeaseBound.ReuseNeverRestartsTheClock | python/src/wcm/kbs.py:381-413 | No run serves at or after the last answered instant plus the larger of one request, one decision lifetime and one cadence, and the reuse window, however many renewals are tried |
| LeaseExact.ServedExactly | python/src/wcm/kbs.py:381-413 | In every deployment that can renew, some run serves at an instant exactly when it lies before that bound |
| LeaseExact.PlainBoundExact | python/src/wcm/kbs.py:381-413 | The bound without the length of a request holds of a deployment exactly when request, lifetime and cadence together exceed the reuse window by at most one microsecond, or the request alone takes at most one |
| LeaseBound.GrantedRenewalApplies | python/src/wcm/custody.py:413-496 | A decision the broker renewed is applied by the live session it is for exactly from its signing to its expiry, unless its evidence had expired when it was signed |
| LeaseExact.RequestLengthCounts | python/src/wcm/kbs.py:381-413 | A deployment of whole seconds that serves at the bound without the request's own length |
| Modular.OffsetsDiffer | python/src/wcm/memory_sweep.py:80-88 | With a step coprime to the count, different offsets give different pages |
| Modular.OffsetOf | python/src/wcm/memory_sweep.py:80-88 | And every page is reached |
| Modular.CoprimeStep | python/src/wcm/memory_sweep.py:80-88 | The search for a coprime step terminates and finds one, for every count and draw |
| Modular.Order | python/src/wcm/memory_sweep.py:80-88 | Every page is visited exactly once, for every positive count and all draws |
| MemorySweep.ProtectedMemory.WritePage | python/src/wcm/memory_sweep.py:53-57 | Refuses wrong lengths and indices; otherwise the page's frame holds the value and no other frame changes |
| MemorySweep.ProtectedMemory.ReadPage | python/src/wcm/memory_sweep.py:59-63 | The page's frame, for exactly the indices in range |
| MemorySweep.CollisionIsAlias | python/src/wcm/memory_sweep.py:106-117 | With pairwise different page values two pages collide exactly when they share a frame |
| MemorySweep.WriteAll | python/src/wcm/memory_sweep.py:104-109 | Afterwards every frame in use holds the value of a page that maps to it |
| MemorySweep.ReadAll | python/src/wcm/memory_sweep.py:110-117 | Aliasing is reported exactly when some page misreads, and the readback lists every page's contents in visiting order |
| MemorySweep.MismatchIsCollision | python/src/wcm/memory_sweep.py:106-117 | After writing all pages, some page misreads exactly when two pages with different values share a frame |
| MemorySweep.RunMemorySweep | python/src/wcm/memory_sweep.py:91-137 | A signed transcript of full coverage whose aliasing flag is exact, for every page-to-frame map and both orders |
| MemorySweep.TranscriptDecides | python/src/wcm/kbs.py:526-568 | A well-signed transcript for the current nonce passes the broker exactly when it reports no aliasing |
| MemorySweep.FingerprintExact | python/src/wcm/kbs.py:526-568 | A required sweep passes exactly when it answers this very challenge, found no aliasing and is signed by the pinned key over the whole range, or no key is pinned and legacy is allowed |
| MemorySweep.SweepAndCheck | python/src/wcm/memory_sweep.py:91-167 | Sweep and check together accept exactly memory in which no two pages with different values share a frame, and exactly alias-free memory when all page values differ |
| JointSignature.ProductHas | python/src/wcm/_verify.py:183-187 | The product enumerates exactly the ways to give each role a candidate key or none |
| JointSignature.RolesWithDistinctKeys | python/src/wcm/_verify.py:153-198 | The search returns a clash-free set of maximum size, the first of that size |
| JointSignature.BuilderKept | python/src/wcm/_verify.py:176-177 | A builder with a valid key is never the role left out on a tie |
| JointSignature.CheckBlocks | python/src/wcm/_verify.py:299-345 | One result per signature block, valid exactly for a trusted key of the right algorithm that verifies and may speak for the role |
| JointSignature.DistinctlySigned | python/src/wcm/_verify.py:153-198 | What the search finds is a largest set of required roles that any assignment of valid keys, injective but for the builder/custodian collapse, can cover |
| JointSignature.CoverageExact | python/src/wcm/_verify.py:368-379 | Such a set is all required roles exactly when some assignment covers them all |
| JointSignature.PartiesExact | python/src/wcm/_verify.py:146-198 | The required roles can be given keys of their own exactly when builder, custodian and an enabled sovereign signed with sound blocks, the sovereign by its declared signer, under different keys but for the self-custody case |
| JointSignature.VerifyManifest | python/src/wcm/_verify.py:286-390 | ok exactly when every block is sound by its own fields and every party signed with a key of its own; the missing roles are those a largest covered set leaves out |
| Cpio.RoundTrip | python/src/wcm/boot_bundle.py:35-47 | A strict newc reader that shares nothing with the writer gets exactly the members back, in order and numbered from one |
| Cpio.RecordAligned | python/src/wcm/boot_bundle.py:41-46 | Every member fills whole words, so every header starts four-byte aligned |
| Cpio.WriteArchive | python/src/wcm/boot_bundle.py:35-47 | The appending loop writes all members and the trailer |
| Cpio.WriteRecord | python/src/wcm/boot_bundle.py:39-46 | Padding by the length written so far is padding by the member's own length |
| BootBundle.CheckItem | python/src/wcm/boot_bundle.py:70-84 | The checks in their order accept exactly the path, count, permission, kind and size policy |
| BootBundle.Collect | python/src/wcm/boot_bundle.py:67-95 | The loop accepts exactly policy-conforming item lists with readable, untruncated files, and collects them |
| BootBundle.CloseOne | python/src/wcm/boot_bundle.py:96-102 | Adds the missing ancestors of one path, or fails exactly when one of them is a file |
| BootBundle.CloseAll | python/src/wcm/boot_bundle.py:96-102 | The same for all paths: afterwards every ancestor is present and a directory, and nothing collected changed |
| BootBundle.SortEntries | python/src/wcm/boot_bundle.py:37-39 | The members sorted by name, each once |
| BootBundle.GatherSound | python/src/wcm/boot_bundle.py:60-95 | Everything collected fits the header's fields and lies outside the mount points |
| BootBundle.BuildInitramfs | python/src/wcm/boot_bundle.py:50-103 | Yields an archive exactly for acceptable inputs; it reads back as the collected files and the directories above them, sorted, and nothing else, with ancestors first and mount points empty |
| BootBundle.AncestorsFirst | python/src/wcm/boot_bundle.py:96-103 | Each ancestor of a member is a member, is a directory and comes first; nothing lies below runtime/dev or runtime/run |
| BootPolicy.NameExact | python/src/wcm/boot_bundle.py:72-76 | A name is safe exactly when its characters are plain, no part of it is empty, `.` or `..`, and it lies outside dev, run, proc, sys and tmp |
| BootPolicy.AssembledExactly | python/src/wcm/boot_bundle.py:59-103 | The whole policy on the inputs: sizes, counts, names, permission bits, kinds, no file above an item and an executable entry point |
| BootPolicy.ArchiveHolds | python/src/wcm/boot_bundle.py:61-103 | The bundle holds the loader as init, five directories, every item below runtime/ with its data and executability, the directories above them, and nothing else |
| QuoteChain.TrustStore.AddRoot | python/src/wcm/_quote_verify.py:149-150 | Appends the root; every chain trusted before is trusted after |
| QuoteChain.MayIssue | python/src/wcm/_quote_verify.py:228-249 | True exactly for a CA whose key may sign certificates and whose limit covers the CAs below |
| QuoteChain.LinksFault | python/src/wcm/_quote_verify.py:283-299 | The loop passes exactly chains whose every link holds, and otherwise names a fault that is there, below which all holds |
| QuoteChain.VerifyCertChain | python/src/wcm/_quote_verify.py:256-304 | Trusts exactly the chains that reach a trusted root before a root that cannot be read; every reason given is true |
| QuoteChain.AcceptedByFields | python/src/wcm/_quote_verify.py:228-304 | Trust said of the fields alone: validity, signature, CA flag, path length and key usage of every certificate, and of the root and those ahead of it |
| QuoteChain.OnlyTheRootsMatter | python/src/wcm/_quote_verify.py:297-304 | With readable roots, acceptance is monotone in the set of roots, whatever their order |
| QuoteChain.StoreGrows | python/src/wcm/_quote_verify.py:297-304 | Roots appended later take nothing away |
| QuoteChain.AddingARootExact | python/src/wcm/_quote_verify.py:297-304 | A root added anywhere keeps a chain accepted exactly when its own reading does not raise or a root ahead of it accepts the chain already |
| QuoteChain.NothingBehindAStop | python/src/wcm/_quote_verify.py:263-304 | Behind a root whose reading raises no root counts: acceptance is that of the roots ahead |
| QuoteChain.UnreadableRootShutsOut | python/src/wcm/_quote_verify.py:263-274 | A chain that a good root accepts and that an unreadable root of the same key, put ahead of it, refuses |
| QuoteChain.TopDownExact | python/src/wcm/_quote_verify.py:228-236 | For every chain, the maximum-path-length process of section 6.1.4 accepts exactly when each issuer's limit covers the intermediates below it that are not self-issued |
| QuoteChain.BottomUpAgainstTopDown | python/src/wcm/_quote_verify.py:283-304 | For every chain, the upward count accepts exactly what that process accepts and where no self-issued intermediate decides |
| QuoteChain.PathLengthRefinement | python/src/wcm/_quote_verify.py:283-304 | Without self-issued intermediates the two agree |
| QuoteChain.SelfIssuedParts | python/src/wcm/_quote_verify.py:240-241 | A chain with one self-issued intermediate on which they differ |
| QuoteChain.AcceptedIsValidated | python/src/wcm/_quote_verify.py:283-304 | A trusted chain is a valid path from a trusted root, and nothing but CAs issues on it |
| QuoteChain.AcceptedExactly | python/src/wcm/_quote_verify.py:283-304 | With readable roots and no self-issued intermediates, trust is exactly path validation from some trusted root |
| Controller.StepKeeps | papers/receipt-gated-model-serving/experiments/controller_experiment.py:153-234 | Every step, crash, failed create and outside write keeps the invariant of ledger, live Services and position |
| Controller.StepRespects | papers/receipt-gated-model-serving/experiments/controller_experiment.py:153-212 | A tombstone survives every step, and no step writes the Service of a tombstone |
| Controller.RevokedForever | papers/receipt-gated-model-serving/experiments/controller_experiment.py:187-212 | The same over every continuation |
| Controller.RevokeRemoves | papers/receipt-gated-model-serving/experiments/controller_experiment.py:187-212 | A revocation that runs to its end leaves the session revoked and its Service absent |
| Controller.RevokedStaysUnroutable | papers/receipt-gated-model-serving/experiments/controller_experiment.py:153-234 | From every reachable world with a revoked session, for ever: the tombstone stays, the controller never writes the Service, and once absent it stays absent until somebody else puts it |
| Controller.ReconcileRemoves | papers/receipt-gated-model-serving/experiments/controller_experiment.py:214-234 | A reconciliation that runs to its end leaves no revoked session routable, unless somebody else wrote that Service after it began |
| Controller.AdmissionServes | papers/receipt-gated-model-serving/experiments/controller_experiment.py:153-185 | An admission that runs to its end leaves exactly the verified Service under its name and the session admitted, and nothing else changed; a revoked one changes nothing |
| Controller.ReconcileRestores | papers/receipt-gated-model-serving/experiments/controller_experiment.py:214-234 | A reconciliation that runs to its end repairs every admitted session's Service, removes every revoked one's and changes nothing else |
| EpochFloor.OwnerDatabase.Guard | python/src/wcm/provisioning_state.py:37-74 | The transaction runs, refuses or fails as its floor says, and only a commit changes the table |
| EpochFloor.FloorsNeverFall | python/src/wcm/provisioning_state.py:53-69 | Over every run of many owners a namespace's floor never goes back, and keeps its digest while its epoch lasts |
| EpochFloor.OneContextPerEpoch | python/src/wcm/provisioning_state.py:58-62 | Committed operations of a namespace never go back, and share their context when they share their epoch |
| EpochFloor.CommitExact | python/src/wcm/provisioning_state.py:37-74 | From the log of commits alone: an operation commits exactly when none of its namespace is above it, those at its epoch have its context, and there is one of those or it admits |
| EpochFloor.RefusedExactly | python/src/wcm/provisioning_state.py:37-74 | From the log of commits alone, which operations are rolled back, find no floor, are not admitted or fail |
| EpochFloor.NamespacesDoNotInterfere | python/src/wcm/provisioning_state.py:48-57 | What a namespace's floor becomes is what it becomes in the run of that namespace's operations alone |
| Lineage.CheckMonotoneRights | python/src/wcm/lineage.py:70-97 | Reports exactly a widened policy and added environments |
| Lineage.Walk | python/src/wcm/lineage.py:129-169 | Terminates for all manifests; returns the duplicate-free path to a root, a gap or a cycle, and reports exactly its broken links and its early end |
| Lineage.GateViolations | python/src/wcm/lineage.py:171-181 | Reports exactly the revoked and the unlogged members |
| Lineage.EndedIsUnique | python/src/wcm/lineage.py:129-149 | A complete path is the only path from its leaf that has ended |
| Lineage.NothingReported | python/src/wcm/lineage.py:118-183 | The walked chain is an allowed lineage exactly when there is nothing to report |
| Lineage.VerifyLineage | python/src/wcm/lineage.py:100-183 | ok exactly when a complete, allowed, logged and unrevoked lineage exists, which is then the chain returned; otherwise exactly its faults are reported |
| Lineage.ReportExact | python/src/wcm/lineage.py:70-183 | A violation is reported exactly when what it says is so of the manifests, the log and the revocations |
| Lineage.LineageByFields | python/src/wcm/lineage.py:70-183 | A lineage is a complete path on which nobody derives from a no-derivatives parent, widens a fine-tune-only one or adds an environment, every member logged and none revoked |
| Lineage.EnvironmentsNarrow | python/src/wcm/lineage.py:90-97 | No derivative may run where any ancestor may not |
| Lineage.PoliciesNarrow | python/src/wcm/lineage.py:80-89 | The derivative policy never widens along members that all declare one |
| Lineage.PolicyMonotoneExact | python/src/wcm/lineage.py:80-89 | Every accepted lineage of well-formed manifests with a given pattern of declared policies is monotone end to end exactly when no undeclared member lies between two declared ones |
| Lineage.GapHides | python/src/wcm/lineage.py:80-89 | For every pattern of declarations with a gap, an accepted lineage of well-formed manifests in which the gap hides a widening |

## Left out

- Merkle.VerifyConsistency: negative sizes, which no log has; the check promises nothing about them.
- Merkle.MerkleTree.constructor: the choice of hash algorithm and the refusal of an unknown one; digests are symbolic, so the length of proof terms, which the source does not check either, has no counterpart.
- MerklePositions.PositionExact: assumes distinct leaves, because a repeated leaf has more than one right index; `SameTurnsSuffice` does without.
- CanonicalCode.Serialize: floats, values of types JSON does not have, and Python's limit on integer digits; the NFC tables are a parameter.
- CanonicalCode.CanonicalBytes: the same, and `canonical_hash` on top.
- Custody.EnclaveSession.DoZeroize: exceptions raised by the stop hook, `ServingShutdown`'s ordered callbacks and `EnclaveSession.monitor` as real timing.
- Custody.EnclaveSession.constructor: `from_release` and its sealing; the first window is not clamped to the evidence, as in the source, so evidence bounds are stated for renewals only.
- Kbs.KeyBrokerService.VerifyAndRelease: the checks that compare evidence with policy (serving image, GPU, platform, quotes) enter as verdicts, because each is a flat comparison; challenge, revocation, memory sweep and renewal are modelled in full.
- Kbs.ReleaseNeedsEverything: the same verdicts.
- MemorySweep.RunMemorySweep: page values, which the source derives with HMAC, are inputs, and the readback is the list itself instead of its hash.
- BootBundle.BuildInitramfs: requires the runtime tar to be no shorter than the names of its members that have no pax headers, which every tar spells out one by one; tar parsing and the loader's ELF check are inputs.
- Controller.StepKeeps: the controller is a state machine over its API calls and ledger transactions instead of a class, because crashes and other writers fall between those calls; overlapping controllers and the stateless, memory-ledger and admission-predecessor variants are not modelled.
- JointSignature.VerifyManifest: consistency notes and error texts are not modelled.
- QuoteChain.VerifyCertChain: signature checks never raise, and reason texts carry the certificate instead of its name.
- EpochFloor.OwnerDatabase.Guard: deletion, restoring and cloning of the database, which the source leaves to its owner.
- Lineage.VerifyLineage: notes about unspecified policies are not modelled, and violations are values instead of texts.
- LeaseExact.ServedExactly: nonces are not drawn from the challenge store here, and a request may last at most the time the setting names.
- Cryptography: Ed25519, ML-DSA, AEAD, HMAC, SHA-256 and X.509 or OCSP parsing are symbolic values or abstract relations.
- Hardware adapters, HTTP servers, command lines, conformance corpora and the broker's receiver: input and output around the cores above.
