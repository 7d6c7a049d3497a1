/** The foreign primitives the cipher relies on, kept abstract.

    PBKDF2 (section 5.2 of RFC 8018), `nacl.secretbox` / `nacl.secretbox.open`
    (XSalsa20-Poly1305), `nacl.randomBytes`, base64 (section 4 of RFC 4648) and
    UTF-8 conversion are not modelled bit for bit. They are fields of a record of
    function values, and `Valid` collects the only facts the model may use about
    them. `ToyPrimitivesValid` exhibits one record satisfying `Valid`, so the
    assumptions are consistent. */
module Primitives {
  import opened Base

  /** Length of the derived nonce (`nacl.box.nonceLength`). */
  const NONCE_LEN: nat := 24
  /** Length of the derived secret key and of the salt (`nacl.box.secretKeyLength`). */
  const KEY_LEN: nat := 32

  datatype Primitives = Primitives(
    /** pbkdf2(password, salt, iterations, keylen, digest) */
    pbkdf2: (string, Bytes, int, nat, string) -> Bytes,
    /** secretbox(message, nonce, key) */
    seal: (Bytes, Bytes, Bytes) -> Bytes,
    /** secretbox.open(box, nonce, key); None where the library returns null */
    open: (Bytes, Bytes, Bytes) -> Option<Bytes>,
    /** randomBytes: the `draw`-th call of the generator asking for `n` bytes */
    randomBytes: (nat, nat) -> Bytes,
    /** Buffer.toString('base64') */
    toBase64: Bytes -> string,
    /** Buffer.from(text, 'base64'); lenient, never fails */
    fromBase64: string -> Bytes,
    /** Buffer.from(text, 'utf8') */
    utf8Encode: string -> Bytes,
    /** Buffer.toString('utf8') */
    utf8Decode: Bytes -> string
  )

  /** The base64 alphabet of section 4 of RFC 4648, without the pad character. */
  predicate IsBase64Char(c: char)
  {
    ('A' <= c <= 'Z') || ('a' <= c <= 'z') || ('0' <= c <= '9') || c == '+' || c == '/'
  }

  /** The shape of the canonical encoding of `n` bytes: alphabet characters,
      at least `n` of them first, followed by at most two trailing '='. */
  predicate Base64Shape(t: string, n: nat)
  {
    && |t| >= n
    && (forall i :: 0 <= i < |t| ==> IsBase64Char(t[i]) || (t[i] == '=' && i + 2 >= |t|))
    && (forall i :: 0 <= i < n ==> IsBase64Char(t[i]))
    && (|t| >= 2 && t[|t| - 2] == '=' ==> t[|t| - 1] == '=')
  }

  /** The facts the model assumes of the primitives. */
  ghost predicate Valid(p: Primitives)
  {
    && (forall pw, salt, it, n, d :: |p.pbkdf2(pw, salt, it, n, d)| == n)
    && (forall m, nonce, key :: p.open(p.seal(m, nonce, key), nonce, key) == Some(m))
    && (forall draw, n :: |p.randomBytes(draw, n)| == n)
    && (forall b :: p.fromBase64(p.toBase64(b)) == b)
    && (forall b :: Base64Shape(p.toBase64(b), |b|))
    && (forall s :: p.utf8Decode(p.utf8Encode(s)) == s)
  }

  // A toy instance: no security, only the algebra `Valid` asks for.

  function ToyHex(b: Bytes): (t: string)
    ensures |t| == 2 * |b|
    ensures forall i :: 0 <= i < |t| ==> 'A' <= t[i] <= 'P'
  {
    if b == [] then ""
    else [('A' as int + b[0] / 16) as char, ('A' as int + b[0] % 16) as char] + ToyHex(b[1..])
  }

  function ToyNibble(c: char): nat
  {
    if 'A' <= c <= 'P' then c as int - 'A' as int else 0
  }

  function ToyUnhex(t: string): Bytes
  {
    if |t| < 2 then []
    else [ToyNibble(t[0]) * 16 + ToyNibble(t[1])] + ToyUnhex(t[2..])
  }

  lemma {:induction false} ToyUnhexHex(b: Bytes)
    ensures ToyUnhex(ToyHex(b)) == b
  {
    if b != [] {
      var t := ToyHex(b);
      assert t[2..] == ToyHex(b[1..]);
      ToyUnhexHex(b[1..]);
    }
  }

  /** Three bytes per code point: big-endian 21-bit value. */
  function ToyUtf8(s: string): (b: Bytes)
    ensures |b| == 3 * |s|
  {
    if s == [] then []
    else
      var c := s[0] as int;
      [c / 65536, (c / 256) % 256, c % 256] + ToyUtf8(s[1..])
  }

  function ToyChar(x: nat): char
  {
    if x < 0xD800 || 0xE000 <= x < 0x11_0000 then x as char else ' '
  }

  function ToyUnutf8(b: Bytes): string
  {
    if |b| < 3 then ""
    else [ToyChar(b[0] as int * 65536 + b[1] as int * 256 + b[2] as int)] + ToyUnutf8(b[3..])
  }

  lemma ToyCharCode(c: char)
    ensures ToyChar((c as int / 65536) * 65536 + ((c as int / 256) % 256) * 256 + c as int % 256) == c
  {
    var x := c as int;
    assert (x / 65536) * 65536 + ((x / 256) % 256) * 256 + x % 256 == x;
  }

  lemma {:induction false} ToyUnutf8Utf8(s: string)
    ensures ToyUnutf8(ToyUtf8(s)) == s
  {
    if s != [] {
      var b := ToyUtf8(s);
      assert b[3..] == ToyUtf8(s[1..]);
      ToyCharCode(s[0]);
      ToyUnutf8Utf8(s[1..]);
    }
  }

  function ToyPrimitives(): Primitives
  {
    Primitives(
      (pw: string, salt: Bytes, it: int, n: nat, d: string) => seq(n, _ => 0),
      (m: Bytes, nonce: Bytes, key: Bytes) => m,
      (box: Bytes, nonce: Bytes, key: Bytes) => Some(box),
      (draw: nat, n: nat) => seq(n, _ => 0),
      ToyHex,
      ToyUnhex,
      ToyUtf8,
      ToyUnutf8)
  }

  /** The assumptions collected in `Valid` can all be met at once. */
  lemma ToyPrimitivesValid()
    ensures Valid(ToyPrimitives())
  {
    var p := ToyPrimitives();
    forall pw, salt, it, n, d ensures |p.pbkdf2(pw, salt, it, n, d)| == n {
    }
    forall m, nonce, key ensures p.open(p.seal(m, nonce, key), nonce, key) == Some(m) {
    }
    forall draw, n ensures |p.randomBytes(draw, n)| == n {
    }
    forall b: Bytes ensures Base64Shape(p.toBase64(b), |b|) {
      var t := ToyHex(b);
      assert forall i :: 0 <= i < |t| ==> IsBase64Char(t[i]);
    }
    forall b: Bytes ensures p.fromBase64(p.toBase64(b)) == b {
      ToyUnhexHex(b);
    }
    forall s: string ensures p.utf8Decode(p.utf8Encode(s)) == s {
      ToyUnutf8Utf8(s);
    }
  }
}
