# vault-nacl in Dafny

A model of the core of vault-nacl, a library that encrypts values inside
configuration documents.

The two layers:

- **The envelope cipher `Vault`.** A password, a digest name and an iteration
  count feed PBKDF2, and the derived nonce and key feed `nacl.secretbox`. The
  box goes into a versioned binary envelope that is written as base64. The
  layout is: version byte, digest-id byte, iteration count as a 32-bit
  little-endian number, 32-byte salt, box.
- **The marker engines `EncDec` and `EncDecSync`.** They walk a JSON-like
  value. In every string they rewrite spans that carry one of two markers:
  - a sealed envelope `VAULT_NACL(<base64>)`;
  - a pending span `VAULT_NACL(<plaintext>)VAULT_NACL`, still to be sealed.

  There are four modes: decrypt, encrypt, rekey and check. Rekey first
  migrates the existing envelopes to a new vault and then seals the pending
  spans.

Around them sit:
- the helpers of `utils.js`: white-space removal, 80-column line splitting
  and the marker wrapper;
- the string pipeline of `readPwdFileSync`, which takes the first non-blank
  line of a password file.

Modules, following the program's structure:

| file | module | what it holds |
|---|---|---|
| base.dfy | Base | bytes, `Option`, `Result`, the error taxonomy and messages, `Buffer.slice` |
| primitives.dfy | Primitives | PBKDF2, secretbox, random bytes, base64 and utf8 as function values, with `Valid` collecting their laws, and a toy instance meeting them |
| vault.dfy | Vault | digest ids, 32-bit little-endian numbers, `_joinV1`/`_sliceV1`, the constructor, `clear`, key derivation, `encrypt`/`decrypt` |
| utils.dfy | Utils | `deleteWhiteSpace`, `splitLines`, `wrapEncrypted` |
| markers.dfy | Markers | the four regular expressions as hand-written matchers (`\b`, backtracking and the negative lookaheads included), leftmost search, and the two ways of iterating over matches |
| replace.dfy | Replace | the `replace` loop of EncDec and `String.prototype.replace` with a global pattern, against a splice reference |
| phases.dfy | Phases | the callbacks of `_replaceEncMode`: collect plaintexts, migrate envelopes, seal pending spans |
| envelopes.dfy | Envelopes | what the matchers find in sealed envelopes and in pending spans |
| traversal.dfy | Traversal | `_traverse`: the walk, the path stack and the visited stack |
| resplice.dfy | Resplice | what the envelope pattern of either engine finds after every envelope of a text is replaced by another one, as rekey does, and why EncDec's pending pattern then finds nothing new |
| relines.dfy | Relines | EncDecSync's lazy pending pattern under that rewrite: where its search stops, why one-line envelopes add no pending span, and how an envelope holding a line break does |
| encdec.dfy | EncDec | the asynchronous engine |
| encdec_sync.dfy | EncDecSync | the synchronous engine |
| pwdfile.dfy | PwdFile | `readPwdFileSync` after the file is read |

Modelling choices:
- **Foreign functions.** Cryptography, base64 and utf8 are fields of a
  `Primitives` record. The laws the model relies on are:
  - `open(seal(m, n, k), n, k) == Some(m)`;
  - PBKDF2 returns the requested length;
  - base64 decode∘encode is the identity, and encoding gives canonical text;
  - utf8 decode∘encode is the identity;
  - `randomBytes` returns the requested length.

  `ToyPrimitivesValid` shows that these laws can all hold at once.
- **Randomness.** The salt of the n-th encryption is `randomBytes(n, 32)`.
  The draw counter `n` is threaded through every encrypting call.
- **Values.** A value is `Text | List | Mapping(id, entries) | Other`. The
  walk carries the instance's `_keys` stack and the stack of visited object
  ids explicitly.
- **Instance fields.** The check flag and the random draw are the walk's
  state. The sticky split flag that `encryptString` sets is part of the
  `Engine` value it returns.

## Model

| member | source | states |
|---|---|---|
| Base.MessageDecryptFailed | src/EncDecSync.js:116-122 | the `e.message === 'Decrypt failed'` test of the catch recognises exactly the "Decrypt failed" condition and no other error |
| Base.Slice | src/Vault.js:80-86 | `Buffer.slice(lo, hi)` clamps both ends to the buffer, and is the plain sub-sequence when the bounds are in range |
| Utils.DeleteWhiteSpace | src/utils.js:2 | the result holds no white space, is never longer than the input, and is the input itself when the input has none |
| Utils.DeleteWhiteSpaceAppend | src/utils.js:2 | white-space removal distributes over concatenation |
| Utils.DeleteWhiteSpaceIdempotent | src/utils.js:2 | removing white space twice is removing it once, and a string with white space gets strictly shorter |
| Utils.Chunks | src/utils.js:5 | `match(/[^]{1,80}/g)` on a non-empty string: non-empty chunks of at most 80 characters, all but the last exactly 80, concatenating to the input |
| Utils.SplitLines | src/utils.js:4-6 | without splitting the text is returned as is; with splitting it fails exactly on the empty string, with the null-match error |
| Utils.WrapEncrypted | src/utils.js:8-10 | the wrapper starts with `VAULT_NACL(`, ends with `)`, and is two characters longer when splitting, for the two line breaks |
| Utils.DeleteWhiteSpaceJoin | src/utils.js:2-5 | chunks without white space joined by line breaks lose exactly the breaks when white space is removed |
| Utils.WrapRoundTrip | src/utils.js:2-10 | for a non-empty payload without white space, wrapping (split or not), taking the text between the marker and `)` and removing white space gives the payload back |
| Vault.DigestIdRoundTrip | src/Vault.js:11-20 | digest names and ids 0..4 are in bijection; an unknown name is written as 255; an id of 5 or more names no digest |
| Vault.NumToBuffer | src/Vault.js:22-26 | `writeUInt32LE` succeeds exactly on [0, 2^32) and gives four bytes |
| Vault.BufferToNum | src/Vault.js:27 | `readUInt32LE` succeeds exactly on buffers of four bytes or more and yields a number below 2^32 |
| Vault.LittleEndianRoundTrip | src/Vault.js:22-27 | numToBuffer and bufferToNum are mutual inverses on 32-bit numbers and four-byte buffers |
| Vault.JoinV1 | src/Vault.js:70-78 | the envelope is 6 + salt + box bytes: version 1, the digest id, the iterations as little-endian u32, the salt, then the box; an out-of-range count fails |
| Vault.SliceV1 | src/Vault.js:80-90 | a buffer under six bytes fails in readUInt32LE; a version byte above 1 is refused; otherwise the fields are read with clamping slices |
| Vault.SliceJoinV1 | src/Vault.js:70-90 | parsing a joined envelope with a 32-byte salt, a known digest and a 32-bit count gives back salt, digest, count and box, with version 1 |
| Vault.New | src/Vault.js:30-51 | the digest defaults to sha256; a falsy iteration count defaults to 120000 for sha512 and 310000 otherwise; the password is kept |
| Vault.Clear | src/Vault.js:53-55 | a cleared vault holds no password and keeps its digest and iteration count |
| Vault.DerivedKey | src/Vault.js:122-133 | the password is checked first ('No password'), then the digest ('Unsupported digest'), then the iteration count against the range [1, 2^31) that PBKDF2 accepts; derivation succeeds exactly when all three pass (the synchronous copy at src/Vault.js:57-68 is the same) |
| Vault.DerivedKeySplit | src/Vault.js:125-128 | the nonce is the first 24 bytes of the PBKDF2 output and the key the next 32; together they are the whole output |
| Vault.Dec | src/Vault.js:98-105 | decryption fails exactly when `secretbox.open` fails, and then always as "Decrypt failed" |
| Vault.Encrypt | src/Vault.js:135-141 | encryption fails with 'No password' on a cleared or empty password, then with 'Unsupported digest', then on an out-of-range count, and otherwise succeeds |
| Vault.Decrypt | src/Vault.js:143-148 | the error order of decryption: a short buffer, then the version, then the password, then the digest id, then the header's iteration count outside [1, 2^31) |
| Vault.ClearedVaultFails | src/Vault.js:53-55 | after `clear` encryption fails with 'No password', decryption fails before opening any box, and clearing again changes nothing |
| Vault.EncryptDecrypt | src/Vault.js:135-148 | what an active vault with a known digest and an iteration count in [1, 2^31) encrypts, the same vault decrypts to the original message |
| Vault.EncryptShape | src/Vault.js:92-96 | for an active vault with a known digest and an iteration count in [1, 2^31), the output of `encrypt` is base64 text of at least the 38-byte header: 38 or more alphabet characters, then at most two '=' |
| Vault.OpenFailureIsDecryptFailed | src/Vault.js:98-105 | once the header is accepted, any failure to open the box is reported as exactly "Decrypt failed" |
| Markers.EnvelopeScanIffSplit | src/EncDec.js:3 | the linear payload scan accepts exactly the payloads the pattern can split into a body of 37+ characters and a short padding |
| Markers.LazyCloseFirst | src/EncDecSync.js:4 | the lazy `(.+?)` stops at the first `)VAULT_NACL` not followed by `)`, with no line terminator before it |
| Markers.MatchPrefixValid | src/EncDec.js:3-4 | soundness: every match the matchers report has the marker, a payload the pattern allows, the right close and the lookahead satisfied |
| Markers.EnvelopeMatches | src/EncDec.js:3 | completeness for envelopes: a marker, envelope characters the payload test accepts, `)` and no marker right behind are matched |
| Markers.PendingAsyncMatches | src/EncDec.js:4 | completeness for EncDec's pending pattern: a non-empty payload without `)` and a close not followed by `)` are matched |
| Markers.PendingSyncMatches | src/EncDecSync.js:4 | completeness for EncDecSync's pending pattern: the first close behind a one-line payload is matched |
| Markers.FindFromFound | src/EncDec.js:178 | `exec` returns a match at the position it reports |
| Markers.FindFromLeftmost | src/EncDec.js:178 | `exec` returns the leftmost match: none starts before it |
| Markers.PendingIsNotEnvelope | src/EncDec.js:3-4 | a pending span with no `)` in its payload is never taken for an envelope, even with a base64-like payload |
| Markers.SliceSpans | src/EncDec.js:175-189 | the matches the `replace` loop visits are in order and do not overlap |
| Markers.GlobalSpans | src/EncDecSync.js:115 | the matches a global `String.prototype.replace` visits are in order and do not overlap |
| Markers.EnvelopeSpansAgree | src/EncDec.js:149 | for the envelope pattern the `replace` loop and the global replace visit the same spans |
| Replace.SpliceMatchedIsIdentity | src/EncDec.js:175-189 | putting back what every span covered restores the text: the text between spans is copied verbatim and in order |
| Replace.ReplaceLoop | src/EncDec.js:175-189 | without a match the input comes back unchanged, and the empty (default) input gives '' |
| Replace.ReplaceLoopIsSplice | src/EncDec.js:175-189 | the `replace` loop equals the reference: the spans the loop visits, rewritten one after another with the callback threading its state |
| Replace.ReplaceLoopRuns | src/EncDec.js:175-189 | the callbacks run strictly left to right and the first failure aborts the whole rewrite |
| Replace.EnvelopeReplaceAgrees | src/EncDec.js:149 | for envelopes, rewriting with the `replace` loop and with the global replace gives the same result |
| Phases.OpenAllSpec | src/EncDec.js:139-142 | mapping a fallible function over a list succeeds exactly when every element succeeds, keeps the order, and otherwise reports the first failure |
| Phases.GatherAll | src/EncDec.js:139-142 | phase one's callback collects the plaintexts in order and turns splitting on when some payload holds white space |
| Phases.CollectAll | src/EncDec.js:136-142 | phase one over a string yields the plaintexts of its envelope payloads in order, or the first decryption failure |
| Phases.EncryptOkIff | src/Vault.js:135-141 | whether encryption succeeds depends on the vault only, never on the message or the draw |
| Phases.ResealAllOk | src/EncDec.js:145-147 | re-encrypting the plaintexts fails exactly when there is one and the new vault cannot seal; otherwise it uses one draw per plaintext |
| Phases.ResealAllOuts | src/EncDec.js:145-147 | the i-th new ciphertext is the encryption of the i-th plaintext with the i-th draw |
| Phases.RewrapAll | src/EncDec.js:148-152 | the `decoded[i++]` callback hands out the wrapped ciphertexts in order, one per match, and counts the matches it has served |
| Phases.MigrateRewrites | src/EncDec.js:144-153 | with a new vault the i-th envelope span becomes the wrapped new encryption of the i-th plaintext, and the text between spans is copied |
| Phases.SealedText | src/EncDec.js:156-157 | a vault that can seal turns a payload into base64 text free of white space that decrypts back to the payload |
| Phases.WrappedPayload | src/EncDec.js:156-159 | a wrapped ciphertext is one envelope match over the whole text with no pending span; removing white space from its payload gives the ciphertext back, and the payload holds white space exactly when split |
| Envelopes.JoinChunksLayout | src/EncDec.js:10-12 | cutting padded base64 into 80-column lines leaves at most three padding characters, '=' or a break, behind the body |
| Envelopes.SealedIsEnvelope | src/EncDec.js:6-12 | what `wrapEncrypted(splitLines(c))` makes of base64 text is matched as one whole envelope and holds no pending span |
| Envelopes.PendingOnly | src/EncDec.js:60 | the text `encryptString` builds is one whole pending match and holds no envelope |
| Envelopes.PendingReplace | src/EncDec.js:175-189 | both iterations rewrite a lone pending span by the callback on its payload |
| Envelopes.EnvelopeReplace | src/EncDec.js:175-189 | both iterations rewrite a lone envelope by the callback on its payload |
| Traversal.Walk | src/EncDec.js:90-133 | the path and visited stacks come back as they were; the result has the input's shape; an object already being visited is returned as is |
| Traversal.WalkItems | src/EncDec.js:108-118 | an array becomes an array of the same length, in order, with the stacks restored |
| Traversal.WalkEntries | src/EncDec.js:96-107 | an object keeps its keys and their order, with the stacks restored |
| Traversal.WalkOneItem | src/EncDec.js:110-116 | an array element is walked with `[0]` pushed on the path and nothing pushed on the visited stack |
| Traversal.WalkOneEntry | src/EncDec.js:97-103 | an object's value is walked with its key on the path and the object on the visited stack |
| Traversal.WalkFlags | src/EncDec.js:119-123 | a handler that only raises a flag leaves the value unchanged, with the flag raised exactly when some reachable string qualifies |
| Traversal.WalkUntouched | src/EncDec.js:90-133 | a handler that keeps unmarked strings leaves a value with no reachable marked string exactly as it was |
| EncDec.Create | src/EncDec.js:23-28 | a new engine keeps its password and does not split |
| EncDec.ClearEngine | src/EncDec.js:30-33 | `clear` leaves the vault without a password and the split flag unchanged |
| EncDec.ClearedEngineFails | src/EncDec.js:30-33 | after `clear` encrypting a pending span fails with 'No password' |
| EncDec.ReplaceDecrypt | src/EncDec.js:162-172 | a string without an envelope is returned as is |
| EncDec.DecryptReplacesEnvelopes | src/EncDec.js:162-172 | the i-th envelope becomes the plaintext of its payload, white space removed first, and other text is copied; the first failure is returned unqualified |
| EncDec.EncryptSealsPendingOnly | src/EncDec.js:135-160 | encrypt mode decrypts every envelope (a failure aborts) and then rewrites only pending spans of the original string, split if the engine splits or a payload holds white space |
| EncDec.EncryptKeepsEnvelopes | src/EncDec.js:139-143 | in encrypt mode a string without pending spans whose envelopes all open comes back byte-identical, with no draw |
| EncDec.RekeyMigratesThenSeals | src/EncDec.js:135-160 | rekey collects the plaintexts, replaces the i-th envelope by the new vault's i-th encryption, and only then seals the pending spans with the new vault |
| EncDec.UnmarkedIsKept | src/EncDec.js:135-160 | a string with neither marker goes through encrypt and rekey mode unchanged, with no draw |
| EncDec.EncryptWithoutEnvelopes | src/EncDec.js:155-159 | on a string without envelopes, encrypt and rekey mode are the sealing of pending spans alone |
| EncDec.EncryptPendingString | src/EncDec.js:155-159 | a lone pending span is sealed by the engine's vault and wrapped |
| EncDec.DecryptValues | src/EncDec.js:39-42 | `decrypt` returns a value of the input's shape |
| EncDec.DecryptUntouched | src/EncDec.js:39-42 | `decrypt` returns a value with no reachable envelope unchanged |
| EncDec.EncryptValues | src/EncDec.js:48-51 | `encrypt` returns a value of the input's shape |
| EncDec.EncryptUntouched | src/EncDec.js:48-51 | `encrypt` returns a value with no reachable marker unchanged, with no draw |
| EncDec.RekeyValues | src/EncDec.js:68-77 | a truthy non-vault argument is refused with 'Need instanceof Vault'; a password string is the same as passing `new Vault(password)` with default digest and iteration count; no argument is encrypt mode; the shape is kept |
| EncDec.RekeyUntouched | src/EncDec.js:68-77 | `rekey` returns a value with no reachable marker unchanged, whatever the new vault |
| EncDec.CheckIff | src/EncDec.js:83-88 | `check` is true exactly when some reachable string matches either marker, and the walk returns every string as it was |
| EncDec.EncryptString | src/EncDec.js:57-61 | a non-string is refused with 'string expected' and the engine is unchanged; for a string the split flag becomes `!!doSplit`, on by default, and the vault is kept, whether or not the encryption then succeeds |
| EncDec.EncryptStringFailureSticks | src/EncDec.js:57-61 | when the encryption fails (a cleared vault), the engine returned still carries the new split flag, as `this._doSplit` is assigned before `encrypt` is awaited |
| EncDec.DecryptText | src/EncDec.js:119-127 | decrypt mode on a string is `_replace` on it |
| EncDec.EncryptText | src/EncDec.js:119-127 | encrypt mode on a string is `_replaceEncMode` on it without a new vault |
| EncDec.RekeyText | src/EncDec.js:119-127 | rekey mode on a string is `_replaceEncMode` on it with the new vault |
| EncDec.EncryptPending | src/EncDec.js:48-51 | `encrypt` of a lone pending span is the wrapped encryption of its payload |
| EncDec.EncryptKeepsSealed | src/EncDec.js:139-143 | a sealed envelope whose payload opens goes through encrypt mode unchanged, with no draw |
| EncDec.DecryptSealed | src/EncDec.js:162-164 | a sealed envelope decrypts to its plaintext |
| EncDec.SealedString | src/EncDec.js:156-159 | sealing a payload gives one whole envelope, with no pending span, whose payload opens to the original |
| EncDec.EncryptStringSeals | src/EncDec.js:57-61 | `encryptString` of a string without `)` under a vault that can seal is the sealed envelope of the string, with one draw |
| EncDec.EncryptStringRoundTrip | src/EncDec.js:57-61 | the envelope `encryptString` makes decrypts back to the string, `check` reports it, and encrypting it again leaves it unchanged |
| EncDec.WrapNew | src/EncDec.js:144-153 | a plaintext re-encrypted under a vault that can seal uses one draw, is wrapped as one whole envelope, and that envelope's payload opens under the new vault to the plaintext |
| EncDec.WrapAll | src/EncDec.js:144-153 | when every plaintext seals and wraps into an envelope that opens back, re-encrypting a list uses one draw per element and the wrapped envelopes open, in order, to the list |
| EncDec.DecryptRewrite | src/EncDec.js:162-172 | decrypting a string whose envelopes were replaced by new envelopes opening to given plaintexts yields the original string with its envelope spans replaced by those plaintexts |
| EncDec.RekeyRewrites | src/EncDec.js:135-160 | rekey of a string without pending spans whose envelopes open is the string with its i-th envelope replaced by a new envelope opening under the new vault to the i-th plaintext, one draw each |
| EncDec.RekeyTextRoundTrip | src/EncDec.js:68-77 | any string without a pending span whose envelopes all open under the old vault, rekeyed to a vault that can seal, uses one draw per envelope and decrypts under the new vault to exactly what it decrypted to under the old one |
| EncDec.RekeySealed | src/EncDec.js:144-153 | rekey turns an envelope of the old vault into one of the new vault, with one draw, which opens to the same plaintext |
| EncDec.RekeyRoundTrip | src/EncDec.js:68-77 | a string that is one envelope, rekeyed to a new vault, uses one draw and decrypts under that vault to the old plaintext |
| Resplice.WordMatches | src/EncDec.js:3 | a whole envelope followed by text that does not start with the marker is matched by the envelope pattern from its first to its last character |
| Resplice.EnvelopeBehind | src/EncDec.js:3 | an envelope match ends in ')' and, by the pattern's lookahead, is not followed by the marker |
| Resplice.NoMarkerInsideWord | src/EncDec.js:3 | no marker starts strictly inside a whole envelope, whatever follows it |
| Resplice.StepNoPending | src/EncDec.js:4 | replacing the first envelope match of a text free of pending spans by a whole envelope, in front of a rest free of them, creates no pending span |
| Resplice.SpliceWords | src/EncDec.js:144-153 | for either engine's envelope pattern: after every envelope span is replaced by a whole envelope, the pattern finds exactly the new envelopes with their payloads, the text between them is unchanged, and the text starts with the marker exactly when it did before |
| Resplice.PendingWords | src/EncDec.js:4 | for EncDec's pending pattern, replacing every envelope span of a text free of pending spans by whole envelopes leaves it free of pending spans |
| Relines.SyncMatchAt | src/EncDecSync.js:4 | EncDecSync's pending pattern matches at a position exactly when `\b` holds there, the marker follows, and the lazy search behind its '(' reaches a close |
| Relines.LineStops | src/EncDecSync.js:4 | a line terminator met before any ')' stops the lazy search: `.` does not cross it |
| Relines.Crossing | src/EncDecSync.js:4 | from anywhere inside a one-line whole envelope, the lazy search finds a close exactly when it finds one from the start of the text behind the envelope |
| Relines.CloseFromStep | src/EncDecSync.js:4 | two texts that differ only in one one-line envelope and in rests the search treats alike are treated alike from their start |
| Relines.SyncWords | src/EncDecSync.js:107 | when every old envelope payload and every new envelope is on one line, replacing the envelopes adds no pending span and leaves the lazy search from the start unchanged |
| Relines.NestedEnvelope | src/EncDecSync.js:3 | in `VAULT_NACL(` + w + `)VAULT_NACL` with w a whole envelope, the only envelope match is w, whose payload is w's payload |
| Relines.NestedNoPending | src/EncDecSync.js:4 | that text has no pending span when w's payload holds a line terminator |
| Relines.WrappedPending | src/EncDecSync.js:4 | with w a whole envelope on one line, the same text is one pending span from end to end whose payload is w |
| EncDecSync.Qualify | src/EncDecSync.js:116-122 | a bare "Decrypt failed" below the root becomes "Decrypt failed at" the '.'-joined path; every other error is rethrown as it is |
| EncDecSync.ReplaceDecrypt | src/EncDecSync.js:113-123 | a string without an envelope is returned as is |
| EncDecSync.DecryptReplacesEnvelopes | src/EncDecSync.js:113-123 | the i-th envelope becomes the plaintext of its payload as written and other text is copied; the first failure is qualified with the path |
| EncDecSync.DecryptFailureNamesPath | src/EncDecSync.js:113-123 | a failing payload reports "Decrypt failed at <path>" below the root and the bare error at the root; other errors pass through |
| EncDecSync.EncryptSealsPendingOnly | src/EncDecSync.js:98-111 | encrypt mode decrypts every envelope (a failure aborts) and then rewrites only the pending spans of the original string, on one line |
| EncDecSync.RekeyMigratesThenSeals | src/EncDecSync.js:98-111 | rekey replaces the i-th envelope by the new vault's i-th encryption on one line, and only then seals the pending spans with the new vault |
| EncDecSync.UnmarkedIsKept | src/EncDecSync.js:98-111 | a string with neither marker goes through encrypt and rekey mode unchanged, with no draw |
| EncDecSync.DecryptValues | src/EncDecSync.js:25-28 | `decrypt` returns a value of the input's shape |
| EncDecSync.DecryptUntouched | src/EncDecSync.js:25-28 | `decrypt` returns a value with no reachable envelope unchanged |
| EncDecSync.EncryptValues | src/EncDecSync.js:30-33 | `encrypt` returns a value of the input's shape |
| EncDecSync.EncryptUntouched | src/EncDecSync.js:30-33 | `encrypt` returns a value with no reachable marker unchanged, with no draw |
| EncDecSync.RekeyValues | src/EncDecSync.js:38-47 | a truthy non-vault argument is refused with 'Need instanceof Vault'; a password string is the same as passing `new Vault(password)` with default digest and iteration count; no argument is encrypt mode; the input's shape is kept |
| EncDecSync.RekeyUntouched | src/EncDecSync.js:38-47 | `rekey` returns a value with no reachable marker unchanged, whatever the new vault |
| EncDecSync.CheckIff | src/EncDecSync.js:49-54 | `check` is true exactly when some reachable string matches either marker, and the walk returns every string as it was |
| EncDecSync.DecryptText | src/EncDecSync.js:82-90 | decrypt mode on a top-level string is `_replace` with an empty path |
| EncDecSync.EncryptText | src/EncDecSync.js:82-90 | encrypt mode on a string is `_replaceEncMode` on it without a new vault |
| EncDecSync.EncryptPending | src/EncDecSync.js:110 | `encrypt` of a lone one-line pending span is the single-line envelope of the encrypted payload |
| EncDecSync.ClearedVaultFails | src/EncDecSync.js:20-23 | after `clear` encrypting a pending span fails with 'No password' |
| EncDecSync.SealedString | src/EncDecSync.js:110 | sealing a payload gives one whole single-line envelope, with no pending span, whose payload opens to the original |
| EncDecSync.EncryptKeepsSealed | src/EncDecSync.js:98-111 | a sealed envelope whose payload opens goes through encrypt mode unchanged, with no draw |
| EncDecSync.DecryptSealed | src/EncDecSync.js:115 | a sealed envelope decrypts to its plaintext at any path |
| EncDecSync.EncryptRoundTrip | src/EncDecSync.js:30-33 | the envelope `encrypt` makes of a pending span decrypts back to the payload, `check` reports it, and encrypting again leaves it unchanged |
| EncDecSync.FailingEnvelope | src/EncDecSync.js:113-123 | an envelope that does not open fails bare at the root and with the '.'-joined path below it |
| EncDecSync.FailsUnderKey | src/EncDecSync.js:63-71 | an object's value is walked with its key as the path |
| EncDecSync.FailsInArray | src/EncDecSync.js:75-80 | a failure in an array's first element names the segment `[0]` after the path |
| EncDecSync.DecryptFailedAtRoot | src/EncDecSync.js:117-121 | a failing envelope at the top level reports the bare "Decrypt failed" |
| EncDecSync.DecryptFailedAtKey | src/EncDecSync.js:113-123 | a failing envelope under key `val2` reports `Decrypt failed at "val2"` |
| EncDecSync.OtherPath | src/EncDecSync.js:76 | the path of the first element under `other` is written `other.[0]` |
| EncDecSync.DecryptFailedInArray | src/EncDecSync.js:113-123 | a failing envelope in the first element of the array under `other` reports `Decrypt failed at "other.[0]"` |
| EncDecSync.WrapNew | src/EncDecSync.js:104-107 | a plaintext re-encrypted under a vault that can seal uses one draw and is wrapped as one whole envelope on one line whose payload opens under the new vault to the plaintext |
| EncDecSync.WrapUnder | src/EncDecSync.js:103-107 | re-encrypting a list uses one draw per element and gives one-line whole envelopes that open, in order, to the list |
| EncDecSync.DecryptRewrite | src/EncDecSync.js:113-123 | decrypting a string whose envelopes were replaced by new envelopes opening to given plaintexts yields the original string with its envelope spans replaced by those plaintexts |
| EncDecSync.RekeyRewrites | src/EncDecSync.js:98-111 | rekey of a string without pending spans whose envelopes open and whose payloads are each on one line is the string with its i-th envelope replaced by a one-line envelope opening under the new vault to the i-th plaintext, one draw each |
| EncDecSync.RekeyTextRoundTrip | src/EncDecSync.js:38-47 | any string without a pending span whose envelopes open under the old vault and whose envelope payloads hold no line terminator, rekeyed to a vault that can seal, uses one draw per envelope and decrypts under the new vault to exactly what it decrypted to under the old one |
| EncDecSync.RekeySealsNewSpan | src/EncDecSync.js:107-110 | `VAULT_NACL(` + w + `)VAULT_NACL`, with w an envelope whose payload holds a line break, has no pending span; rekey writes w anew on one line, which makes the whole text a pending span, seals it with a second draw, and the result decrypts under the new vault to the new envelope, not to what the text decrypted to before |
| PwdFile.TrimSpec | src/readPwdFileSync.js:7 | `trim` leaves a piece of the text with no white space at either end, empty exactly for blank text |
| PwdFile.ReadPassword | src/readPwdFileSync.js:4-10 | the only failure is 'No password found in' the file name |
| PwdFile.StripCutsAt | src/readPwdFileSync.js:6 | `/^\s*[\n\r]/` cuts the text right after the last line break before its first non-space character |
| PwdFile.FirstLineAfterStripFrom | src/readPwdFileSync.js:5-7 | after the strip, the first line trimmed is the first non-blank line trimmed |
| PwdFile.ReadPasswordIsFirstNonBlankLine | src/readPwdFileSync.js:4-10 | the password is the first non-blank line of the file, trimmed, and the file is refused exactly when it holds only white space |
| PwdFile.PasswordShape | src/readPwdFileSync.js:6-7 | a password is non-empty, holds no line break, and has no white space at either end |
| PwdFile.ReadPasswordIdempotent | src/readPwdFileSync.js:5-9 | reading a file that holds just a password gives that password back |

## Left out

- Cryptography, base64 and utf8 are abstract functions bound only by the laws
  in `Valid`. PBKDF2 is section 5.2 of RFC 8018; base64 is section 4 of
  RFC 4648. "A wrong password fails to open" is an assumption about `open`,
  not a theorem.
- Node's lenient base64 decoding and the `inputEncoding`/`outputEncoding`
  options are abstract too. The model always uses utf8 and base64.
- Digest availability that depends on the Node version is not modelled.
  `ripemd` and `whirlpool` are accepted like the other three names.
- Asynchrony: every `await` is taken in program order. Callbacks run
  sequentially, one random draw per encryption.
- `_traverse` mutates objects in place and shares them. The model returns
  new values, which are finite trees. A cycle appears as an object id that
  is already on the visited stack. Some consequences are not modelled:
  - An object reached twice by different paths (src/EncDec.js:101,
    src/EncDec.js:139-141) is rewritten in place on the first visit. In
    encrypt mode the source then seals its pending spans once; the model
    seals each copy, with one draw each. In rekey mode the source's second
    visit finds envelopes of the new vault and tries to open them with the
    old one, which fails with "Decrypt failed"; the model rekeys each copy
    from the original and succeeds.
  - Arrays are never pushed on the visited stack (src/EncDec.js:108-118,
    src/EncDecSync.js:74-80). An array that contains itself is walked until
    the call stack overflows. The model's values cannot contain themselves,
    so it cannot state that case.
- Strings are sequences of UTF-16 code units in the source and sequences of
  characters here. A string holding an unpaired surrogate is outside the
  model. For it the source does not round-trip: utf8 encoding writes U+FFFD
  in its place, so Vault.EncryptDecrypt's promise does not hold for such a
  string in the source. Likewise `/[^]{1,80}/g` in Utils.Chunks counts code
  units, so a surrogate pair can be cut across two lines; the model counts
  characters.
- The `lastIndex` state of the global patterns in EncDecSync is left out.
  `RE_DECRYPT.test` at src/EncDecSync.js:83 leaves `lastIndex` after a
  successful match. A later `check` of the same text can then miss it and
  fall through into decryption. The model matches from index 0 every time.
- `readFile` at src/readPwdFileSync.js:3 is left out. The file content is a
  parameter of `ReadPassword`.
- The command line (bin/vault-nacl.js), the re-exports (src/index.js) and the
  type declarations are not part of this model. The declarations list an
  `encryptString` for EncDecSync that src/EncDecSync.js does not have, so it
  is not modelled.
- Utils.SplitLines: on the empty string it returns an error value. In the
  source `match` returns null there and the following `join` throws. Neither
  engine ever splits an empty ciphertext.
- Phases.Rewrap: the branch where the source would read `decoded[i]` past
  the end of the list returns an error. MigrateRewrites shows that this
  branch is never taken.
- EncDec.EncryptStringRoundTrip, EncDec.RekeyRoundTrip,
  EncDecSync.EncryptRoundTrip: these are stated for non-empty strings
  without `)`.
  - `encryptString('')` builds `VAULT_NACL()VAULT_NACL`. The pending pattern
    needs at least one payload character, so the string comes back
    unencrypted.
  - EncDec's pending pattern `([^)]+?)` (src/EncDec.js:4) cannot cross a
    `)`, so a string holding `)` is not sealed as one span. Depending on the
    markers inside it, parts of it or none of it are sealed. For
    `a) VAULT_NACL(b` only `b` is sealed, since `\b` holds after the space.
    For `a)VAULT_NACL)` nothing is sealed, since the close is followed by `)`.
  - EncDecSync additionally needs a one-line string, because `.` does not
    match a line terminator.
  - RekeyRoundTrip is stated for a value that is one sealed envelope.
    EncDec.RekeyTextRoundTrip and EncDecSync.RekeyTextRoundTrip state it for
    any string without a pending span whose envelopes open.
- EncDecSync.RekeyValues: the decrypt-back property of rekey is proved only
  for strings whose envelope payloads hold no line terminator
  (EncDecSync.RekeyTextRoundTrip). It fails for
  `VAULT_NACL(` + w + `)VAULT_NACL` with w an envelope whose payload holds a
  line break; see Findings.
- EncDec.RekeyTextRoundTrip, EncDecSync.RekeyTextRoundTrip: strings that
  still hold pending spans are not covered. Rekey seals them with the new vault, and decrypting the result
  gives their payloads where the old decryption left the pending text.
- The async `_replace` (src/EncDec.js:162-172) is modelled as written. Its
  `try`/`catch` surrounds a promise, so a decryption failure is never
  qualified with the path, even though the qualifying `catch` block is
  written there. Only EncDecSync qualifies failures.
- The path of an array element is written as written in the code. Segments
  are joined with '.', and an index segment is `[i]`. So the first element
  under `b` under `a` is `a.b.[0]`, not `a.b[0]`.

## Findings

| source | as written | input that shows it | evidently intended | confidence | as-written member | corrected member |
|---|---|---|---|---|---|---|
| src/EncDecSync.js:107-110 | rekey writes every envelope anew on one line (line 107) and then runs the lazy pending pattern, whose `.` stops at line breaks, over the result (line 110) | `VAULT_NACL(` + w + `)VAULT_NACL`, with w the split envelope that async `encryptString('abc')` writes (src/EncDec.js:57-61, src/utils.js:8-10): `VAULT_NACL(\n` + 76 base64 characters without `=` for its 57 bytes + `\n)`, which opens under the old vault | rekey keeps what a string decrypts to: the result opens under the new vault to what the input opened to under the old one | not executed | EncDecSync.RekeySealsNewSpan | EncDecSync.RekeyTextRoundTrip |

The model keeps `_replaceEncMode` as written. The corrected member states
the intended property on the strings where the code as written keeps it:
those whose envelope payloads hold no line terminator, which includes every
envelope EncDecSync writes itself.
