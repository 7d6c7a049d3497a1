/** The envelope cipher (`Vault`): a password, a digest name and an iteration
    count; password-derived nonce and key; the versioned binary envelope

      | offset | size  | field                                  |
      |      0 |     1 | version (VERSION = 1)                  |
      |      1 |     1 | digest id (index into DIGESTS)         |
      |      2 |     4 | iterations, unsigned little-endian     |
      |      6 |    32 | salt                                   |
      |     38 |  rest | secretbox output                       |

    and its base64 text form. The synchronous and the asynchronous flavours of
    each operation compute the same thing and share one model here. */
module Vault {
  import opened Base
  import opened Primitives

  const VERSION: uint8 := 1

  /** The supported digests; a digest's id is its index in this list. */
  const DIGESTS: seq<string> := ["sha256", "sha384", "sha512", "ripemd", "whirlpool"]

  /** Bytes in front of the secretbox output. */
  const HEADER_LEN: nat := 6 + KEY_LEN

  /** Iteration counts are written as unsigned 32-bit numbers. */
  const UINT32_LIMIT: int := 0x1_0000_0000

  /** Node's `pbkdf2` and `pbkdf2Sync` take the iteration count as a signed
      32-bit integer of at least 1 and throw a RangeError otherwise. */
  const INT32_LIMIT: int := 0x8000_0000

  predicate IterationsOk(n: int)
  {
    1 <= n < INT32_LIMIT
  }

  // ---------------------------------------------------------------- digests

  /** `Buffer.from([DIGESTS.indexOf(digest)])`: an unknown name gives index -1,
      which the one-byte buffer stores as 255. */
  function DigestToId(digest: string): (id: uint8)
  {
    if digest == DIGESTS[0] then 0
    else if digest == DIGESTS[1] then 1
    else if digest == DIGESTS[2] then 2
    else if digest == DIGESTS[3] then 3
    else if digest == DIGESTS[4] then 4
    else 255
  }

  /** `DIGESTS[id[0]]`: undefined (None) for an id outside the list. */
  function IdToDigest(id: uint8): (d: Option<string>)
  {
    if id < |DIGESTS| then Some(DIGESTS[id]) else None
  }

  /** Names and ids are in bijection on DIGESTS; every other id names nothing
      and every other name is written as 255. */
  lemma DigestIdRoundTrip(d: string, id: uint8)
    ensures d in DIGESTS ==> IdToDigest(DigestToId(d)) == Some(d)
    ensures d !in DIGESTS ==> DigestToId(d) == 255 && IdToDigest(DigestToId(d)) == None
    ensures id < 5 ==> IdToDigest(id).Some? && DigestToId(IdToDigest(id).value) == id
    ensures id >= 5 <==> IdToDigest(id) == None
  {
  }

  // ------------------------------------------------- 32-bit little-endian

  /** `numToBuffer`: `writeUInt32LE` rejects values outside [0, 2^32). */
  function NumToBuffer(n: int): (r: Result<Bytes>)
    ensures r.Ok? <==> 0 <= n < UINT32_LIMIT
    ensures r.Ok? ==> |r.value| == 4
    ensures r.Err? ==> r.error == OutOfRange
  {
    if 0 <= n < UINT32_LIMIT then
      Ok([n % 256, (n / 0x100) % 256, (n / 0x1_0000) % 256, n / 0x100_0000])
    else Err(OutOfRange)
  }

  /** `bufferToNum`: `readUInt32LE` at offset 0 needs four bytes. */
  function BufferToNum(b: Bytes): (r: Result<nat>)
    ensures r.Ok? <==> |b| >= 4
    ensures r.Ok? ==> r.value < UINT32_LIMIT
    ensures r.Err? ==> r.error == BufferOutOfBounds
  {
    if |b| < 4 then Err(BufferOutOfBounds)
    else Ok(LittleEndian(b[0], b[1], b[2], b[3]))
  }

  /** Positional value of four little-endian bytes. */
  function LittleEndian(b0: uint8, b1: uint8, b2: uint8, b3: uint8): nat
  {
    b0 as int + b1 as int * 0x100 + b2 as int * 0x1_0000 + b3 as int * 0x100_0000
  }

  lemma DivideBy256(n: nat)
    ensures n == (n / 0x100) * 0x100 + n % 0x100
    ensures n / 0x1_0000 == (n / 0x100) / 0x100
    ensures n / 0x100_0000 == (n / 0x1_0000) / 0x100
  {
  }

  /** numToBuffer and bufferToNum are mutual inverses on 32-bit numbers and
      four-byte buffers. */
  lemma LittleEndianRoundTrip(n: int, b: Bytes)
    ensures 0 <= n < UINT32_LIMIT ==> BufferToNum(NumToBuffer(n).value) == Ok(n)
    ensures |b| == 4 ==> NumToBuffer(BufferToNum(b).value) == Ok(b)
  {
    if 0 <= n < UINT32_LIMIT {
      var q1 := n / 0x100;
      var q2 := q1 / 0x100;
      var q3 := q2 / 0x100;
      DivideBy256(n);
      DivideBy256(q1);
      DivideBy256(q2);
      assert n / 0x1_0000 == q2;
      assert n / 0x100_0000 == q3 by {
        assert n / 0x100_0000 == (n / 0x1_0000) / 0x100;
      }
      assert LittleEndian(n % 256, q1 % 256, q2 % 256, q3) == n;
    }
    if |b| == 4 {
      var m := LittleEndian(b[0], b[1], b[2], b[3]);
      assert m % 256 == b[0];
      var q1 := b[1] as int + b[2] as int * 0x100 + b[3] as int * 0x1_0000;
      assert m == b[0] as int + q1 * 0x100;
      assert m / 0x100 == q1;
      var q2 := b[2] as int + b[3] as int * 0x100;
      assert q1 == b[1] as int + q2 * 0x100;
      assert q1 / 0x100 == q2;
      DivideBy256(m);
      DivideBy256(m / 0x100);
      assert NumToBuffer(m).value == b;
    }
  }

  // --------------------------------------------------------------- envelope

  /** What `_sliceV1` hands back. */
  datatype Parsed = Parsed(salt: Bytes, digest: Option<string>, iterations: nat, box: Bytes, version: uint8)

  /** `_joinV1`: version, digest id, iterations, salt, box. */
  function JoinV1(salt: Bytes, digest: string, iterations: int, box: Bytes): (r: Result<Bytes>)
    ensures r.Ok? <==> 0 <= iterations < UINT32_LIMIT
    ensures r.Err? ==> r.error == OutOfRange
    ensures r.Ok? ==>
      && |r.value| == 6 + |salt| + |box|
      && r.value[0] == VERSION
      && r.value[1] == DigestToId(digest)
      && BufferToNum(r.value[2..6]) == Ok(iterations)
      && r.value[6..6 + |salt|] == salt
      && r.value[6 + |salt|..] == box
  {
    var it :- NumToBuffer(iterations);
    LittleEndianRoundTrip(iterations, []);
    var buf := [VERSION] + [DigestToId(digest)] + it + salt + box;
    assert buf[2..6] == it;
    assert buf[6..6 + |salt|] == salt;
    assert buf[6 + |salt|..] == box;
    Ok(buf)
  }

  /** `_sliceV1`: reads the fields with clamping slices, fails in
      `readUInt32LE` on a buffer shorter than six bytes, and only then rejects
      a version newer than VERSION. */
  function SliceV1(buf: Bytes): (r: Result<Parsed>)
    ensures |buf| < 6 ==> r == Err(BufferOutOfBounds)
    ensures |buf| >= 6 && buf[0] > VERSION ==> r == Err(UnsupportedVersion(buf[0]))
    ensures |buf| >= 6 && buf[0] <= VERSION ==> r.Ok?
    ensures r.Ok? ==>
      && r.value.version == buf[0]
      && r.value.digest == IdToDigest(buf[1])
      && r.value.salt == Slice(buf, 6, HEADER_LEN)
      && r.value.box == SliceFrom(buf, HEADER_LEN)
      && Ok(r.value.iterations) == BufferToNum(buf[2..6])
  {
    var digest := if |buf| >= 2 then IdToDigest(buf[1]) else None;
    var iterations :- BufferToNum(Slice(buf, 2, 6));
    var salt := Slice(buf, 6, HEADER_LEN);
    var box := SliceFrom(buf, HEADER_LEN);
    if buf[0] > VERSION then Err(UnsupportedVersion(buf[0]))
    else Ok(Parsed(salt, digest, iterations, box, buf[0]))
  }

  /** Parsing a joined envelope gives back exactly what was joined, with version 1. */
  lemma SliceJoinV1(salt: Bytes, digest: string, iterations: int, box: Bytes)
    requires |salt| == KEY_LEN
    requires digest in DIGESTS
    requires 0 <= iterations < UINT32_LIMIT
    ensures SliceV1(JoinV1(salt, digest, iterations, box).value)
         == Ok(Parsed(salt, Some(digest), iterations, box, VERSION))
  {
    DigestIdRoundTrip(digest, 0);
  }

  // ------------------------------------------------------------------ vault

  /** A Vault: digest name, iteration count and the password slot. */
  datatype Vault = Vault(digest: string, iterations: int, password: Option<string>)

  /** The password lifecycle: `Active` while a non-empty password is held;
      `clear` moves to the terminal cleared state. */
  predicate Active(v: Vault)
  {
    v.password.Some? && v.password.value != ""
  }

  /** Default iteration count when none (or 0) is given. */
  function DefaultIterations(digest: string): nat
  {
    if digest == "sha512" then 120000 else 310000
  }

  /** The constructor: digest defaults to sha256, a falsy iteration count to
      120000 for sha512 and 310000 otherwise. */
  function New(password: Option<string>, digest: Option<string>, iterations: Option<int>): (v: Vault)
    ensures digest.None? ==> v.digest == "sha256"
    ensures digest.Some? ==> v.digest == digest.value
    ensures (iterations.None? || iterations.value == 0) && v.digest == "sha512" ==> v.iterations == 120000
    ensures (iterations.None? || iterations.value == 0) && v.digest != "sha512" ==> v.iterations == 310000
    ensures iterations.Some? && iterations.value != 0 ==> v.iterations == iterations.value
    ensures v.password == password
  {
    var d := if digest.Some? then digest.value else "sha256";
    var it := if iterations.None? || iterations.value == 0 then DefaultIterations(d) else iterations.value;
    Vault(d, it, password)
  }

  /** `clear`: drops the password for good. */
  function Clear(v: Vault): (c: Vault)
    ensures !Active(c)
    ensures c.digest == v.digest && c.iterations == v.iterations
  {
    v.(password := None)
  }

  /** Nonce and key split off the KDF output. */
  datatype Keys = Keys(nonce: Bytes, key: Bytes)

  /** `_derivedKey(Sync)`: password first, then digest, then PBKDF2 for
      NONCE_LEN + KEY_LEN bytes, split as nonce then key. PBKDF2 itself
      refuses an iteration count outside [1, 2^31). */
  function DerivedKey(p: Primitives, password: Option<string>, salt: Bytes, iterations: int,
                      digest: Option<string>): (r: Result<Keys>)
    ensures (password.None? || password.value == "") ==> r == Err(NoPassword)
    ensures password.Some? && password.value != "" && (digest.None? || digest.value !in DIGESTS)
            ==> r == Err(UnsupportedDigest)
    ensures password.Some? && password.value != "" && digest.Some? && digest.value in DIGESTS && !IterationsOk(iterations)
            ==> r == Err(IterationsOutOfRange)
    ensures r.Ok? <==> password.Some? && password.value != "" && digest.Some? && digest.value in DIGESTS
                       && IterationsOk(iterations)
  {
    if password.None? || password.value == "" then Err(NoPassword)
    else if digest.None? || digest.value !in DIGESTS then Err(UnsupportedDigest)
    else if !IterationsOk(iterations) then Err(IterationsOutOfRange)
    else
      var dk := p.pbkdf2(password.value, salt, iterations, NONCE_LEN + KEY_LEN, digest.value);
      Ok(Keys(Slice(dk, 0, NONCE_LEN), Slice(dk, NONCE_LEN, NONCE_LEN + KEY_LEN)))
  }

  /** The nonce is the first NONCE_LEN bytes of the KDF output and the key the
      KEY_LEN bytes after it; together they are the whole output. */
  lemma DerivedKeySplit(p: Primitives, pw: string, salt: Bytes, iterations: int, digest: string)
    requires Valid(p)
    requires pw != "" && digest in DIGESTS && IterationsOk(iterations)
    ensures var r := DerivedKey(p, Some(pw), salt, iterations, Some(digest));
            var dk := p.pbkdf2(pw, salt, iterations, NONCE_LEN + KEY_LEN, digest);
            && r.Ok?
            && |r.value.nonce| == NONCE_LEN && |r.value.key| == KEY_LEN
            && r.value.nonce + r.value.key == dk
  {
    var dk := p.pbkdf2(pw, salt, iterations, NONCE_LEN + KEY_LEN, digest);
    assert dk == dk[..NONCE_LEN] + dk[NONCE_LEN..];
  }

  /** `_enc`: seal, join, base64. */
  function Enc(p: Primitives, salt: Bytes, digest: string, iterations: int, msg: Bytes, keys: Keys): Result<string>
  {
    var box := p.seal(msg, keys.nonce, keys.key);
    var buf :- JoinV1(salt, digest, iterations, box);
    Ok(p.toBase64(buf))
  }

  /** `_dec`: any failure of `secretbox.open` becomes "Decrypt failed". */
  function Dec(p: Primitives, box: Bytes, keys: Keys): (r: Result<string>)
    ensures r.Err? <==> p.open(box, keys.nonce, keys.key).None?
    ensures r.Err? ==> r.error == DecryptFailed
    ensures r.Ok? ==> r.value == p.utf8Decode(p.open(box, keys.nonce, keys.key).value)
  {
    match p.open(box, keys.nonce, keys.key)
    case None => Err(DecryptFailed)
    case Some(m) => Ok(p.utf8Decode(m))
  }

  /** `encrypt` / `encryptSync`, drawing the salt as the `draw`-th random value. */
  function Encrypt(p: Primitives, v: Vault, message: string, draw: nat): (r: Result<string>)
    ensures !Active(v) ==> r == Err(NoPassword)
    ensures Active(v) && v.digest !in DIGESTS ==> r == Err(UnsupportedDigest)
    ensures Active(v) && v.digest in DIGESTS && !IterationsOk(v.iterations) ==> r == Err(IterationsOutOfRange)
    ensures Active(v) && v.digest in DIGESTS ==> (r.Ok? <==> IterationsOk(v.iterations))
    ensures r.Err? ==> r.error in {NoPassword, UnsupportedDigest, IterationsOutOfRange}
  {
    var msg := p.utf8Encode(message);
    var salt := p.randomBytes(draw, KEY_LEN);
    var keys :- DerivedKey(p, v.password, salt, v.iterations, Some(v.digest));
    Enc(p, salt, v.digest, v.iterations, msg, keys)
  }

  /** `decrypt` / `decryptSync`: parse (version gate), derive (password, then
      digest gate), open. */
  function Decrypt(p: Primitives, v: Vault, message: string): (r: Result<string>)
    ensures var buf := p.fromBase64(message);
      && (|buf| < 6 ==> r == Err(BufferOutOfBounds))
      && (|buf| >= 6 && buf[0] > VERSION ==> r == Err(UnsupportedVersion(buf[0])))
      && (|buf| >= 6 && buf[0] <= VERSION && !Active(v) ==> r == Err(NoPassword))
      && (|buf| >= 6 && buf[0] <= VERSION && Active(v) && buf[1] >= |DIGESTS| ==> r == Err(UnsupportedDigest))
      && (|buf| >= 6 && buf[0] <= VERSION && Active(v) && buf[1] < |DIGESTS| && !IterationsOk(BufferToNum(buf[2..6]).value)
          ==> r == Err(IterationsOutOfRange))
    ensures r.Err? ==> (r.error.UnsupportedVersion?
                        || r.error in {BufferOutOfBounds, NoPassword, UnsupportedDigest, IterationsOutOfRange, DecryptFailed})
  {
    var buf := p.fromBase64(message);
    var parsed :- SliceV1(buf);
    var keys :- DerivedKey(p, v.password, parsed.salt, parsed.iterations, parsed.digest);
    Dec(p, parsed.box, keys)
  }

  /** Once cleared, a vault can neither encrypt nor derive a key to decrypt. */
  lemma ClearedVaultFails(p: Primitives, v: Vault, message: string, draw: nat)
    ensures Encrypt(p, Clear(v), message, draw) == Err(NoPassword)
    ensures Decrypt(p, Clear(v), message).Err?
    ensures Decrypt(p, Clear(v), message).error in {NoPassword, BufferOutOfBounds}
         || Decrypt(p, Clear(v), message).error.UnsupportedVersion?
    ensures Clear(Clear(v)) == Clear(v)
  {
  }

  /** An envelope a vault made opens again under the same vault. */
  lemma EncryptDecrypt(p: Primitives, v: Vault, message: string, draw: nat)
    requires Valid(p)
    requires Active(v) && v.digest in DIGESTS && IterationsOk(v.iterations)
    ensures Encrypt(p, v, message, draw).Ok?
    ensures Decrypt(p, v, Encrypt(p, v, message, draw).value) == Ok(message)
  {
    var salt := p.randomBytes(draw, KEY_LEN);
    var keys := DerivedKey(p, v.password, salt, v.iterations, Some(v.digest)).value;
    var box := p.seal(p.utf8Encode(message), keys.nonce, keys.key);
    var buf := JoinV1(salt, v.digest, v.iterations, box).value;
    SliceJoinV1(salt, v.digest, v.iterations, box);
    assert p.fromBase64(p.toBase64(buf)) == buf;
  }

  /** What `encrypt` returns is the canonical base64 text of a buffer holding
      at least the header: HEADER_LEN alphabet characters or more, then at most
      two '='. */
  lemma EncryptShape(p: Primitives, v: Vault, message: string, draw: nat)
    requires Valid(p)
    requires Active(v) && v.digest in DIGESTS && IterationsOk(v.iterations)
    ensures Encrypt(p, v, message, draw).Ok?
    ensures Base64Shape(Encrypt(p, v, message, draw).value, HEADER_LEN)
  {
    var salt := p.randomBytes(draw, KEY_LEN);
    var keys := DerivedKey(p, v.password, salt, v.iterations, Some(v.digest)).value;
    var box := p.seal(p.utf8Encode(message), keys.nonce, keys.key);
    var buf := JoinV1(salt, v.digest, v.iterations, box).value;
    assert |buf| >= HEADER_LEN;
    assert Base64Shape(p.toBase64(buf), |buf|);
  }

  /** A wrong key, a tampered box or a truncated envelope all surface as the one
      condition "Decrypt failed" once the header is accepted. */
  lemma OpenFailureIsDecryptFailed(p: Primitives, v: Vault, message: string)
    requires Active(v)
    requires var buf := p.fromBase64(message); |buf| >= 6 && buf[0] <= VERSION && buf[1] < |DIGESTS|
    requires IterationsOk(BufferToNum(p.fromBase64(message)[2..6]).value)
    requires var buf := p.fromBase64(message);
             var keys := DerivedKey(p, v.password, Slice(buf, 6, HEADER_LEN), BufferToNum(buf[2..6]).value,
                                    IdToDigest(buf[1])).value;
             p.open(SliceFrom(buf, HEADER_LEN), keys.nonce, keys.key).None?
    ensures Decrypt(p, v, message) == Err(DecryptFailed)
    ensures Message(Decrypt(p, v, message).error) == "Decrypt failed"
  {
  }
}
