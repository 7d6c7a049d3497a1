/** Shared vocabulary: bytes, optional values, results and the error taxonomy
    of the library (configuration, authentication and usage errors). */
module Base {

  /** One octet of a Node `Buffer`. */
  type uint8 = x: int | 0 <= x < 256

  type Bytes = seq<uint8>

  datatype Option<+T> = None | Some(value: T)

  /** Every error the core can raise. Each constructor carries what its message needs. */
  datatype Error =
    | NoPassword                        // password missing, empty or cleared
    | UnsupportedDigest                 // digest name or id outside DIGESTS
    | UnsupportedVersion(version: nat)  // envelope version byte newer than VERSION
    | DecryptFailed                     // any failure of the authenticated decryption
    | DecryptFailedAt(path: string)     // the same, qualified with a traversal path
    | NeedVault                         // rekey target neither a string nor a Vault
    | StringExpected                    // encryptString called with a non-string
    | OutOfRange                        // writeUInt32LE of an iteration count outside [0, 2^32)
    | BufferOutOfBounds                 // readUInt32LE on a buffer shorter than four bytes
    | IterationsOutOfRange              // pbkdf2's check that the count is a 31-bit positive integer
    | NullMatch                         // `null.join` after splitting the empty string
    | NoPasswordFound(filename: string) // password file without a usable line

  /** A value or the error that aborted the computation; usable with `:-`. */
  datatype Result<+T> = Ok(value: T) | Err(error: Error) {
    predicate IsFailure() {
      Err?
    }

    function PropagateFailure<U>(): Result<U>
      requires Err?
    {
      Err(error)
    }

    function Extract(): T
      requires Ok?
    {
      value
    }
  }

  /** Decimal rendering of a natural number, as template literals print it. */
  function NatToString(n: nat): (r: string)
    ensures |r| > 0
    ensures forall i :: 0 <= i < |r| ==> '0' <= r[i] <= '9'
    decreases n
  {
    var d := [('0' as int + n % 10) as char];
    if n < 10 then d else NatToString(n / 10) + d
  }

  /** The `message` property of the error each constructor stands for. The
      messages the library writes itself are exact. For the errors Node
      raises, `OutOfRange` and `IterationsOutOfRange` give only the first
      sentence, without the bounds and the received value Node appends, and
      `NullMatch` gives the wording of current Node versions. The model relies
      only on "Decrypt failed" being exact (`MessageDecryptFailed`). */
  function Message(e: Error): string
  {
    match e
    case NoPassword => "No password"
    case UnsupportedDigest => "Unsupported digest"
    case UnsupportedVersion(v) => "Unsupported version " + NatToString(v)
    case DecryptFailed => "Decrypt failed"
    case DecryptFailedAt(path) => "Decrypt failed at \"" + path + "\""
    case NeedVault => "Need instanceof Vault"
    case StringExpected => "string expected"
    case OutOfRange => "The value of \"value\" is out of range."
    case BufferOutOfBounds => "Attempt to access memory outside buffer bounds"
    case IterationsOutOfRange => "The value of \"iterations\" is out of range."
    case NullMatch => "Cannot read properties of null (reading 'join')"
    case NoPasswordFound(f) => "No password found in " + f
  }

  /** Only `DecryptFailed` carries the bare message "Decrypt failed", so a test
      of the message (as the synchronous engine does) is a test of the kind. */
  lemma MessageDecryptFailed(e: Error)
    ensures Message(e) == "Decrypt failed" <==> e == DecryptFailed
  {
    match e
    case UnsupportedVersion(v) =>
      assert Message(e)[0] != "Decrypt failed"[0];
    case DecryptFailedAt(path) =>
      assert |Message(e)| != |"Decrypt failed"|;
    case NoPasswordFound(f) =>
      assert Message(e)[1] != "Decrypt failed"[1];
    case _ =>
  }

  /** `Buffer.prototype.slice(lo, hi)`: both ends clamped to the buffer. */
  function Slice<T>(s: seq<T>, lo: nat, hi: nat): (r: seq<T>)
    ensures |r| == if hi <= |s| then (if lo <= hi then hi - lo else 0)
                   else (if lo <= |s| then |s| - lo else 0)
    ensures lo <= hi <= |s| ==> r == s[lo..hi]
  {
    var h := if hi <= |s| then hi else |s|;
    if lo <= h then s[lo..h] else []
  }

  /** `Buffer.prototype.slice(lo)`. */
  function SliceFrom<T>(s: seq<T>, lo: nat): (r: seq<T>)
    ensures lo <= |s| ==> r == s[lo..]
    ensures lo >= |s| ==> r == []
  {
    if lo <= |s| then s[lo..] else []
  }
}
