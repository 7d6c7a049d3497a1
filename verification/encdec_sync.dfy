/** The synchronous engine `EncDecSync` (src/EncDecSync.js). It walks values
    as `EncDec` does and runs the same three phases in encrypt mode, but: every
    iteration is `String.prototype.replace` with a global pattern; the patterns
    are the synchronous ones (multi-line, pending payloads on one line, lazily
    closed); payloads are decrypted as they are, without removing white space;
    new envelopes are never split; and a payload that does not decrypt in
    decrypt or check mode is reported with its path. The instance is its vault
    and the path stack, which is the walk's context here. */
module EncDecSync {
  import opened Base
  import opened Utils
  import opened Primitives
  import opened Vault
  import opened Markers
  import opened Replace
  import opened Phases
  import opened Traversal
  import opened Envelopes
  import opened Resplice
  import opened Relines
  import EncDec

  // ------------------------------------------------------------ one string

  /** The decrypt callback: `decryptSync` on the payload as it is. */
  function Open(p: Primitives, v: Vault): string -> Result<string>
  {
    (x: string) => Decrypt(p, v, x)
  }

  /** The `catch` of `_replace`: a bare "Decrypt failed" below the root names
      the path, its segments joined with '.'; anything else is rethrown. */
  function Qualify(e: Error, keys: seq<string>): (r: Error)
    ensures r.DecryptFailedAt? <==> e.DecryptFailedAt? || (e == DecryptFailed && |keys| > 0)
    ensures r != e ==> e == DecryptFailed && r == DecryptFailedAt(Join(keys, "."))
  {
    MessageDecryptFailed(e);
    if Message(e) == "Decrypt failed" && |keys| > 0 then DecryptFailedAt(Join(keys, ".")) else e
  }

  /** `_replace`: every envelope payload decrypted in place, at path `keys`. */
  function ReplaceDecrypt(p: Primitives, v: Vault, keys: seq<string>, s: string): (r: Result<string>)
    ensures !Contains(Envelope(Sync), s) ==> r == Ok(s)
  {
    EnvelopeReplaceAgrees(Sync, s, Stateless(Open(p, v)), ());
    match GlobalReplace(Envelope(Sync), s, Stateless(Open(p, v)), ())
    case Err(e) => Err(Qualify(e, keys))
    case Ok(ran) => Ok(ran.out)
  }

  /** Decrypting a string replaces the i-th envelope span by the plaintext of
      the i-th payload and copies everything else, or reports the first payload
      that does not open, qualified with the path. */
  lemma DecryptReplacesEnvelopes(p: Primitives, v: Vault, keys: seq<string>, s: string)
    ensures var spans := SliceSpans(Envelope(Sync), s);
            ReplaceDecrypt(p, v, keys, s) ==
              match OpenAll(Open(p, v), Payloads(s, spans, 0))
              case Err(e) => Err(Qualify(e, keys))
              case Ok(ys) => Ok(Splice(s, spans, ys, 0))
  {
    var spans := SliceSpans(Envelope(Sync), s);
    EnvelopeReplaceAgrees(Sync, s, Stateless(Open(p, v)), ());
    ReplaceLoopIsSplice(Envelope(Sync), s, Stateless(Open(p, v)), ());
    StatelessAll(Open(p, v), Payloads(s, spans, 0), ());
  }

  /** A payload that fails with "Decrypt failed" is reported at its path when
      there is one, and bare at the root; other failures are passed on as
      they are. */
  lemma DecryptFailureNamesPath(p: Primitives, v: Vault, keys: seq<string>, s: string)
    requires OpenAll(Open(p, v), EnvelopePayloads(Sync, s)).Err?
    ensures var e := OpenAll(Open(p, v), EnvelopePayloads(Sync, s)).error;
            ReplaceDecrypt(p, v, keys, s) ==
              Err(if e == DecryptFailed && keys != [] then DecryptFailedAt(Join(keys, ".")) else e)
  {
    DecryptReplacesEnvelopes(p, v, keys, s);
    MessageDecryptFailed(OpenAll(Open(p, v), EnvelopePayloads(Sync, s)).error);
  }

  /** Phase one's marker: the synchronous engine never splits. */
  predicate NeverMarks(x: string)
  {
    false
  }

  /** `_replaceEncMode`, with the random draw threaded through. Failures are
      not qualified: the `catch` is in `_replace` only. */
  function ReplaceEncMode(p: Primitives, v: Vault, nv: Option<Vault>, s: string, draw: nat): Result<Step<nat>>
  {
    match Collect(Sync, Open(p, v), NeverMarks, s, false)
    case Err(err) => Err(err)
    case Ok(c) =>
      match Migrate(p, Sync, nv, s, c.decoded, false, draw)
      case Err(err) => Err(err)
      case Ok(two) =>
        var sealer := match nv case Some(w) => w case None => v;
        GlobalReplace(Pending(Sync), two.out, Seal(p, sealer, false), two.st)
  }

  /** Encrypt mode without a new vault: every envelope is decrypted (a failure
      aborts), and then only pending spans are rewritten, on the original
      string, on one line. */
  lemma EncryptSealsPendingOnly(p: Primitives, v: Vault, s: string, draw: nat)
    ensures ReplaceEncMode(p, v, None, s, draw) ==
              match OpenAll(Open(p, v), EnvelopePayloads(Sync, s))
              case Err(err) => Err(err)
              case Ok(_) => GlobalReplace(Pending(Sync), s, Seal(p, v, false), draw)
  {
    CollectAll(Sync, Open(p, v), NeverMarks, s, false);
  }

  /** Phases two and three of rekey, once the plaintexts `ds` are known. */
  function Rekeyed(p: Primitives, nv: Vault, s: string, ds: seq<string>, draw: nat): Result<Step<nat>>
    requires |ds| == |SliceSpans(Envelope(Sync), s)|
  {
    var enc :- RunAll(Reseal(p, nv), ds, draw);
    var ws :- OpenAll(WrapOne(false), enc.outs);
    GlobalReplace(Pending(Sync), Splice(s, SliceSpans(Envelope(Sync), s), ws, 0), Seal(p, nv, false), enc.st)
  }

  /** Rekey: the plaintexts are collected as in encrypt mode; the i-th is
      sealed with the new vault on the i-th draw; the i-th envelope span is
      replaced by its envelope; and then the pending spans of that text are
      sealed with the new vault. */
  lemma RekeyMigratesThenSeals(p: Primitives, v: Vault, nv: Vault, s: string, draw: nat)
    ensures ReplaceEncMode(p, v, Some(nv), s, draw) ==
              match OpenAll(Open(p, v), EnvelopePayloads(Sync, s))
              case Err(err) => Err(err)
              case Ok(plain) => Rekeyed(p, nv, s, plain, draw)
  {
    CollectAll(Sync, Open(p, v), NeverMarks, s, false);
    EnvelopeSpansAgree(Sync, s);
    match OpenAll(Open(p, v), EnvelopePayloads(Sync, s))
    case Err(_) =>
    case Ok(plain) =>
      assert !AnyMarked(NeverMarks, EnvelopePayloads(Sync, s));
      MigrateRewrites(p, Sync, nv, s, plain, false, draw);
  }

  /** A string with no marker of either kind goes through encrypt and rekey
      mode unchanged, without a draw. */
  lemma UnmarkedIsKept(p: Primitives, v: Vault, nv: Option<Vault>, s: string, d: nat)
    requires !Marked(s)
    ensures ReplaceEncMode(p, v, nv, s, d) == Ok(Step(s, d))
  {
    CollectNone(Sync, Open(p, v), NeverMarks, s, false);
    MigrateNone(p, Sync, nv, s, false, d);
    PendingNoneGlobal(s, Seal(p, if nv.Some? then nv.value else v, false), d);
  }

  /** Without a pending span the global replace leaves the string alone. */
  lemma PendingNoneGlobal<S>(s: string, fn: (string, S) -> Result<Step<S>>, st: S)
    requires !Contains(Pending(Sync), s)
    ensures GlobalReplace(Pending(Sync), s, fn, st) == Ok(Step(s, st))
  {
    assert GlobalSpans(Pending(Sync), s, 0) == [];
    assert s[0..] == s;
  }

  // ------------------------------------------------------------ the walk

  /** Decrypt mode's handler. */
  function DecryptHandler(p: Primitives, v: Vault): Handler<()>
  {
    (keys: seq<string>, s: string, u: ()) =>
      match ReplaceDecrypt(p, v, keys, s)
      case Err(e) => Err(e)
      case Ok(t) => Ok(Step(t, u))
  }

  /** Encrypt and rekey mode's handler; the state is the random draw. */
  function EncryptHandler(p: Primitives, v: Vault, nv: Option<Vault>): Handler<nat>
  {
    (keys: seq<string>, s: string, d: nat) => ReplaceEncMode(p, v, nv, s, d)
  }

  /** What check mode looks for: `RE_DECRYPT.test(s) || RE_ENCRYPT.test(s)`. */
  predicate Marked(s: string)
  {
    Contains(Envelope(Sync), s) || Contains(Pending(Sync), s)
  }

  /** Check mode's handler: a marked string raises the flag and stays; any
      other string goes through `_replace`. */
  function CheckHandler(p: Primitives, v: Vault): Handler<bool>
  {
    (keys: seq<string>, s: string, b: bool) =>
      if Marked(s) then Ok(Step(s, true))
      else
        match ReplaceDecrypt(p, v, keys, s)
        case Err(e) => Err(e)
        case Ok(t) => Ok(Step(t, b))
  }

  /** `decrypt`. */
  function DecryptValues(p: Primitives, v: Vault, x: Value): (r: Result<Value>)
    ensures r.Ok? ==> Skeleton(r.value) == Skeleton(x)
  {
    var o :- Walk(x, EncDec.ROOT, DecryptHandler(p, v), ());
    Ok(o.val)
  }

  /** Decrypt mode returns a value without envelopes as it is. */
  lemma DecryptUntouched(p: Primitives, v: Vault, x: Value)
    requires !Reaches(x, [], s => Contains(Envelope(Sync), s))
    ensures DecryptValues(p, v, x) == Ok(x)
  {
    WalkUntouched(x, EncDec.ROOT, DecryptHandler(p, v), s => Contains(Envelope(Sync), s), ());
  }

  /** `encrypt`. */
  function EncryptValues(p: Primitives, v: Vault, x: Value, draw: nat): (r: Result<EncDec.Done>)
    ensures r.Ok? ==> Skeleton(r.value.val) == Skeleton(x)
  {
    var o :- Walk(x, EncDec.ROOT, EncryptHandler(p, v, None), draw);
    Ok(EncDec.Done(o.val, o.st))
  }

  /** Encrypt mode returns a value without markers as it is and draws
      nothing. */
  lemma EncryptUntouched(p: Primitives, v: Vault, x: Value, draw: nat)
    requires !Reaches(x, [], Marked)
    ensures EncryptValues(p, v, x, draw) == Ok(EncDec.Done(x, draw))
  {
    forall path: seq<string>, s: string, d: nat | !Marked(s)
      ensures EncryptHandler(p, v, None)(path, s, d) == Ok(Step(s, d))
    {
      UnmarkedIsKept(p, v, None, s, d);
    }
    WalkUntouched(x, EncDec.ROOT, EncryptHandler(p, v, None), Marked, draw);
  }

  /** `rekey`: the argument is taken as in `EncDec`. */
  function RekeyValues(p: Primitives, v: Vault, x: Value, nv: EncDec.NewVault, draw: nat): (r: Result<EncDec.Done>)
    ensures nv.NotAVault? ==> r == Err(NeedVault)
    ensures nv.Absent? ==> r == EncryptValues(p, v, x, draw)
    ensures nv.Password? ==> r == RekeyValues(p, v, x, EncDec.AVault(New(Some(nv.pw), None, None)), draw)
    ensures r.Ok? ==> Skeleton(r.value.val) == Skeleton(x)
    decreases if nv.Password? then 1 else 0
  {
    var target :- EncDec.RekeyTarget(nv);
    var o :- Walk(x, EncDec.ROOT, EncryptHandler(p, v, target), draw);
    Ok(EncDec.Done(o.val, o.st))
  }

  /** Rekey returns a value without markers as it is and draws nothing,
      whatever the new vault. */
  lemma RekeyUntouched(p: Primitives, v: Vault, x: Value, nv: EncDec.NewVault, draw: nat)
    requires !nv.NotAVault?
    requires !Reaches(x, [], Marked)
    ensures RekeyValues(p, v, x, nv, draw) == Ok(EncDec.Done(x, draw))
  {
    var target := EncDec.RekeyTarget(nv).value;
    forall path: seq<string>, s: string, d: nat | !Marked(s)
      ensures EncryptHandler(p, v, target)(path, s, d) == Ok(Step(s, d))
    {
      UnmarkedIsKept(p, v, target, s, d);
    }
    WalkUntouched(x, EncDec.ROOT, EncryptHandler(p, v, target), Marked, draw);
  }

  /** `check`. */
  function Check(p: Primitives, v: Vault, x: Value): Result<bool>
  {
    var o :- Walk(x, EncDec.ROOT, CheckHandler(p, v), false);
    Ok(o.st)
  }

  /** Check mode answers whether some reachable string holds a marker of either
      kind, and the walk gives every string back as it was. */
  lemma CheckIff(p: Primitives, v: Vault, x: Value)
    ensures Walk(x, EncDec.ROOT, CheckHandler(p, v), false) == Ok(Out(x, EncDec.ROOT, Reaches(x, [], Marked)))
    ensures Check(p, v, x) == Ok(Reaches(x, [], Marked))
  {
    WalkFlags(x, EncDec.ROOT, CheckHandler(p, v), Marked, false);
  }

  // ------------------------------------------------------------ round trips

  /** Decrypt mode on a lone string. */
  lemma DecryptText(p: Primitives, v: Vault, s: string)
    ensures DecryptValues(p, v, Text(s)) ==
              match ReplaceDecrypt(p, v, [], s)
              case Err(err) => Err(err)
              case Ok(t) => Ok(Text(t))
  {
  }

  /** Encrypt mode on a lone string. */
  lemma EncryptText(p: Primitives, v: Vault, s: string, draw: nat)
    ensures EncryptValues(p, v, Text(s), draw) ==
              match ReplaceEncMode(p, v, None, s, draw)
              case Err(err) => Err(err)
              case Ok(h) => Ok(EncDec.Done(Text(h.out), h.st))
  {
  }

  /** A one-line pending span without ')' is sealed on its own. */
  predicate PendingPayload(str: string)
  {
    && |str| > 0
    && (forall j :: 0 <= j < |str| ==> str[j] != ')')
    && (forall j :: 0 <= j < |str| ==> !IsLineTerminator(str[j]))
  }

  /** `encrypt` of a lone pending span is the sealed envelope of its payload. */
  lemma EncryptPending(p: Primitives, v: Vault, str: string, draw: nat)
    requires PendingPayload(str)
    ensures EncryptValues(p, v, Text(MARKER_OPEN + str + PENDING_CLOSE), draw) ==
              match Seal(p, v, false)(str, draw)
              case Err(err) => Err(err)
              case Ok(h) => Ok(EncDec.Done(Text(h.out), h.st))
  {
    var t := MARKER_OPEN + str + PENDING_CLOSE;
    PendingReplace(Sync, str, Seal(p, v, false), draw);
    CollectNone(Sync, Open(p, v), NeverMarks, t, false);
    EncryptText(p, v, t, draw);
  }

  /** After `clear` a pending span can no longer be sealed. */
  lemma ClearedVaultFails(p: Primitives, v: Vault, str: string, draw: nat)
    requires PendingPayload(str)
    ensures EncryptValues(p, Clear(v), Text(MARKER_OPEN + str + PENDING_CLOSE), draw) == Err(NoPassword)
  {
    EncryptPending(p, Clear(v), str, draw);
    SealCleared(p, v, false, str, draw);
  }

  /** The envelope a vault that can seal makes of a payload, and what it is. */
  lemma SealedString(p: Primitives, v: Vault, str: string, draw: nat) returns (w: string)
    requires Valid(p) && CanEncrypt(v)
    ensures Seal(p, v, false)(str, draw) == Ok(Step(w, (draw + 1) as nat))
    ensures |w| > |MARKER_OPEN|
    ensures FindFrom(Envelope(Sync), w, 0) == Some(Span(0, |MARKER_OPEN|, |w| - 1, |w|))
    ensures FindFrom(Pending(Sync), w, 0).None?
    ensures Open(p, v)(w[|MARKER_OPEN|..|w| - 1]) == Ok(str)
  {
    var c := SealedText(p, v, str, draw);
    SealUnfold(p, v, str, false, draw, c);
    w := WrappedPayload(Sync, c, false);
  }

  /** A sealed envelope goes through encrypt mode unchanged, without a draw. */
  lemma EncryptKeepsSealed(p: Primitives, v: Vault, w: string, x: string, draw: nat)
    requires |w| > |MARKER_OPEN|
    requires FindFrom(Envelope(Sync), w, 0) == Some(Span(0, |MARKER_OPEN|, |w| - 1, |w|))
    requires FindFrom(Pending(Sync), w, 0).None?
    requires Open(p, v)(w[|MARKER_OPEN|..|w| - 1]) == Ok(x)
    ensures ReplaceEncMode(p, v, None, w, draw) == Ok(Step(w, draw))
  {
    CollectWhole(Sync, Open(p, v), NeverMarks, w, false, x);
    PendingNoneGlobal(w, Seal(p, v, false), draw);
  }

  /** A sealed envelope decrypts to its plaintext, at any path. */
  lemma DecryptSealed(p: Primitives, v: Vault, keys: seq<string>, w: string, x: string)
    requires |w| > |MARKER_OPEN|
    requires FindFrom(Envelope(Sync), w, 0) == Some(Span(0, |MARKER_OPEN|, |w| - 1, |w|))
    requires Open(p, v)(w[|MARKER_OPEN|..|w| - 1]) == Ok(x)
    ensures ReplaceDecrypt(p, v, keys, w) == Ok(x)
  {
    EnvelopeReplace(Sync, w, Stateless(Open(p, v)), ());
  }

  /** `encrypt` of a one-line pending span without ')' under a vault that can
      seal gives, with one draw, an envelope that decrypts back to the payload,
      that check reports, and that encrypting again leaves as it is. */
  lemma EncryptRoundTrip(p: Primitives, v: Vault, str: string, draw: nat)
    requires Valid(p) && CanEncrypt(v)
    requires PendingPayload(str)
    ensures var r := EncryptValues(p, v, Text(MARKER_OPEN + str + PENDING_CLOSE), draw);
            && r.Ok? && r.value.val.Text? && r.value.draw == draw + 1
            && DecryptValues(p, v, r.value.val) == Ok(Text(str))
            && Check(p, v, r.value.val) == Ok(true)
            && EncryptValues(p, v, r.value.val, r.value.draw) == Ok(r.value)
  {
    EncryptPending(p, v, str, draw);
    var w := SealedString(p, v, str, draw);
    DecryptSealed(p, v, [], w, str);
    DecryptText(p, v, w);
    EncryptKeepsSealed(p, v, w, str, draw + 1);
    EncryptText(p, v, w, draw + 1);
    CheckIff(p, v, Text(w));
    assert Marked(w);
  }

  /** A string that is one envelope whose payload does not open fails with
      "Decrypt failed", qualified with the path. */
  lemma FailingEnvelope(p: Primitives, v: Vault, keys: seq<string>, w: string)
    requires |w| > |MARKER_OPEN|
    requires FindFrom(Envelope(Sync), w, 0) == Some(Span(0, |MARKER_OPEN|, |w| - 1, |w|))
    requires Open(p, v)(w[|MARKER_OPEN|..|w| - 1]) == Err(DecryptFailed)
    ensures ReplaceDecrypt(p, v, keys, w) == Err(if keys == [] then DecryptFailed else DecryptFailedAt(Join(keys, ".")))
  {
    EnvelopeReplace(Sync, w, Stateless(Open(p, v)), ());
  }

  /** Under a key of an object, the value is walked at that key. */
  lemma FailsUnderKey(p: Primitives, v: Vault, k: string, x: Value, e: Error)
    requires k != PROTO
    requires Walk(x, Ctx([k], [0]), DecryptHandler(p, v), ()) == Err(e)
    ensures DecryptValues(p, v, Mapping(0, [Entry(k, x)])) == Err(e)
  {
    WalkOneEntry(0, k, x, EncDec.ROOT, DecryptHandler(p, v), ());
    assert EncDec.ROOT.keys + [k] == [k] && EncDec.ROOT.visited + [0] == [0];
  }

  /** In the first element of an array, the failure names the index. */
  lemma FailsInArray(p: Primitives, v: Vault, w: string, keys: seq<string>, visited: seq<nat>)
    requires |w| > |MARKER_OPEN|
    requires FindFrom(Envelope(Sync), w, 0) == Some(Span(0, |MARKER_OPEN|, |w| - 1, |w|))
    requires Open(p, v)(w[|MARKER_OPEN|..|w| - 1]) == Err(DecryptFailed)
    ensures Walk(List([Text(w)]), Ctx(keys, visited), DecryptHandler(p, v), ()) ==
              Err(DecryptFailedAt(Join(keys + [Index(0)], ".")))
  {
    FailingEnvelope(p, v, keys + [Index(0)], w);
    WalkOneItem(Text(w), Ctx(keys, visited), DecryptHandler(p, v), ());
  }

  /** An envelope that does not open is reported bare at the root. */
  lemma DecryptFailedAtRoot(p: Primitives, v: Vault, w: string)
    requires |w| > |MARKER_OPEN|
    requires FindFrom(Envelope(Sync), w, 0) == Some(Span(0, |MARKER_OPEN|, |w| - 1, |w|))
    requires Open(p, v)(w[|MARKER_OPEN|..|w| - 1]) == Err(DecryptFailed)
    ensures DecryptValues(p, v, Text(w)) == Err(DecryptFailed)
  {
    FailingEnvelope(p, v, [], w);
  }

  /** An envelope that does not open is reported as `val2` under that key. */
  lemma DecryptFailedAtKey(p: Primitives, v: Vault, w: string)
    requires |w| > |MARKER_OPEN|
    requires FindFrom(Envelope(Sync), w, 0) == Some(Span(0, |MARKER_OPEN|, |w| - 1, |w|))
    requires Open(p, v)(w[|MARKER_OPEN|..|w| - 1]) == Err(DecryptFailed)
    ensures DecryptValues(p, v, Mapping(0, [Entry("val2", Text(w))])) == Err(DecryptFailedAt("val2"))
  {
    FailingEnvelope(p, v, ["val2"], w);
    FailsUnderKey(p, v, "val2", Text(w), DecryptFailedAt("val2"));
  }

  /** The path of the first element of the array under `other`. */
  lemma OtherPath()
    ensures Join(["other"] + [Index(0)], ".") == "other.[0]"
  {
    assert NatToString(0) == ['0'];
    assert Index(0) == "[0]";
    assert ["other"] + [Index(0)] == ["other", "[0]"];
  }

  /** An envelope that does not open is reported as `other.[0]` as the first
      element of an array under `other`. */
  lemma DecryptFailedInArray(p: Primitives, v: Vault, w: string)
    requires |w| > |MARKER_OPEN|
    requires FindFrom(Envelope(Sync), w, 0) == Some(Span(0, |MARKER_OPEN|, |w| - 1, |w|))
    requires Open(p, v)(w[|MARKER_OPEN|..|w| - 1]) == Err(DecryptFailed)
    ensures DecryptValues(p, v, Mapping(0, [Entry("other", List([Text(w)]))])) == Err(DecryptFailedAt("other.[0]"))
  {
    FailsInArray(p, v, w, ["other"], [0]);
    OtherPath();
    FailsUnderKey(p, v, "other", List([Text(w)]), DecryptFailedAt("other.[0]"));
  }

  // ------------------------------------------------------------ rekey

  /** Rekey mode on a lone string. */
  lemma RekeyText(p: Primitives, v: Vault, nv: Vault, s: string, draw: nat)
    ensures RekeyValues(p, v, Text(s), EncDec.AVault(nv), draw) ==
              match ReplaceEncMode(p, v, Some(nv), s, draw)
              case Err(err) => Err(err)
              case Ok(h) => Ok(EncDec.Done(Text(h.out), h.st))
  {
  }

  /** A vault that can seal turns a plaintext into a whole envelope on one
      line whose payload opens under that vault to the plaintext again. */
  lemma {:induction false} WrapNew(p: Primitives, nv: Vault, x: string, d: nat)
    requires Valid(p) && CanEncrypt(nv)
    ensures EncDec.WrapsBack(Sync, Reseal(p, nv), WrapOne(false), Open(p, nv), x, d)
  {
    var c := SealedText(p, nv, x, d);
    EncDec.ResealOne(p, nv, x, d, c);
    var w := WrappedPayload(Sync, c, false);
    WordOfMatch(Sync, w);
    SpacelessWritten(w);
    EncDec.WrapsBackOf(Sync, Reseal(p, nv), WrapOne(false), Open(p, nv), x, d, c, w);
  }

  /** `WrapNew` for every plaintext and draw. */
  lemma {:induction false} WrapsUnder(p: Primitives, nv: Vault)
    requires Valid(p) && CanEncrypt(nv)
    ensures forall x, d' :: EncDec.WrapsBack(Sync, Reseal(p, nv), WrapOne(false), Open(p, nv), x, d')
  {
    forall x, d' | true
      ensures EncDec.WrapsBack(Sync, Reseal(p, nv), WrapOne(false), Open(p, nv), x, d')
    {
      WrapNew(p, nv, x, d');
    }
  }

  /** Phase two under a vault that can seal: one draw per plaintext, and whole
      envelopes on one line that open to the plaintexts, in order. */
  lemma {:induction false} WrapUnder(p: Primitives, nv: Vault, plain: seq<string>, draw: nat) returns (ws: seq<string>)
    requires Valid(p) && CanEncrypt(nv)
    ensures RunAll(Reseal(p, nv), plain, draw).Ok?
    ensures RunAll(Reseal(p, nv), plain, draw).value.st == draw + |plain|
    ensures OpenAll(WrapOne(false), RunAll(Reseal(p, nv), plain, draw).value.outs) == Ok(ws)
    ensures |ws| == |plain| && forall i :: 0 <= i < |ws| ==> Written(Sync, ws[i]) && IsWord(Sync, ws[i])
    ensures forall i :: 0 <= i < |ws| ==> |ws[i]| > |MARKER_OPEN|
    ensures OpenAll(Open(p, nv), Inners(ws)) == Ok(plain)
  {
    WrapsUnder(p, nv);
    ws := EncDec.WrapAll(Sync, Reseal(p, nv), WrapOne(false), Open(p, nv), plain, draw);
    forall i | 0 <= i < |ws|
      ensures IsWord(Sync, ws[i])
    {
      assert Written(Sync, ws[i]);
    }
  }

  /** Phases two and three of rekey once the new envelopes are known: when
      the rewrite has no pending span, it is the result. */
  lemma {:induction false} RekeyedRewrite(p: Primitives, nv: Vault, s: string, plain: seq<string>, draw: nat, ws: seq<string>,
                                          t: string, n: nat)
    requires |plain| == |SliceSpans(Envelope(Sync), s)|
    requires RunAll(Reseal(p, nv), plain, draw).Ok?
    requires RunAll(Reseal(p, nv), plain, draw).value.st == n == draw + |plain|
    requires OpenAll(WrapOne(false), RunAll(Reseal(p, nv), plain, draw).value.outs) == Ok(ws)
    requires |ws| == |plain| && t == Rewrite(Sync, s, ws) && !Contains(Pending(Sync), t)
    ensures Rekeyed(p, nv, s, plain, draw) == Ok(Step(t, n))
  {
    PendingNoneGlobal(t, Seal(p, nv, false), n);
  }

  /** Rekey of a lone string whose envelopes open, once phases two and three
      are known. */
  lemma {:induction false} RekeyByPhases(p: Primitives, v: Vault, nv: Vault, s: string, draw: nat,
                                         plain: seq<string>, t: string, n: nat)
    requires OpenAll(Open(p, v), EnvelopePayloads(Sync, s)) == Ok(plain)
    requires Rekeyed(p, nv, s, plain, draw) == Ok(Step(t, n))
    ensures var r := RekeyValues(p, v, Text(s), EncDec.AVault(nv), draw);
            r.Ok? && r.value.val == Text(t) && r.value.draw == n
  {
    RekeyMigratesThenSeals(p, v, nv, s, draw);
    assert ReplaceEncMode(p, v, Some(nv), s, draw) == Ok(Step(t, n));
    RekeyText(p, v, nv, s, draw);
  }

  /** Rekey of a string without a pending span whose envelopes open and whose
      payloads stay on one line: the envelope spans are rewritten with whole
      envelopes under the new vault that open to the old plaintexts, one draw
      each, and nothing else changes. */
  lemma {:induction false} RekeyRewrites(p: Primitives, v: Vault, nv: Vault, s: string, draw: nat, plain: seq<string>)
    returns (ws: seq<string>)
    requires Valid(p) && CanEncrypt(nv)
    requires !Contains(Pending(Sync), s) && PayloadsOneLine(s)
    requires OpenAll(Open(p, v), EnvelopePayloads(Sync, s)) == Ok(plain)
    ensures |ws| == |SliceSpans(Envelope(Sync), s)| == |plain|
    ensures forall i :: 0 <= i < |ws| ==> IsWord(Sync, ws[i]) && |ws[i]| > |MARKER_OPEN|
    ensures SplicesWell(Sync, s, ws, plain)
    ensures OpenAll(Open(p, nv), Inners(ws)) == Ok(plain)
    ensures var r := RekeyValues(p, v, Text(s), EncDec.AVault(nv), draw);
            r.Ok? && r.value.val == Text(Rewrite(Sync, s, ws)) && r.value.draw == draw + |plain|
  {
    ws := WrapUnder(p, nv, plain, draw);
    RewriteKept(s, ws, plain);
    RekeyOfRewrite(p, v, nv, s, draw, plain, ws);
  }

  /** Rekey of a lone string once phase two's envelopes are known and the
      rewrite has no pending span. */
  lemma {:induction false} RekeyOfRewrite(p: Primitives, v: Vault, nv: Vault, s: string, draw: nat, plain: seq<string>, ws: seq<string>)
    requires OpenAll(Open(p, v), EnvelopePayloads(Sync, s)) == Ok(plain)
    requires |plain| == |SliceSpans(Envelope(Sync), s)|
    requires RunAll(Reseal(p, nv), plain, draw).Ok?
    requires RunAll(Reseal(p, nv), plain, draw).value.st == draw + |plain|
    requires OpenAll(WrapOne(false), RunAll(Reseal(p, nv), plain, draw).value.outs) == Ok(ws)
    requires |ws| == |plain| && !Contains(Pending(Sync), Rewrite(Sync, s, ws))
    ensures var r := RekeyValues(p, v, Text(s), EncDec.AVault(nv), draw);
            r.Ok? && r.value.val == Text(Rewrite(Sync, s, ws)) && r.value.draw == draw + |plain|
  {
    var t := Rewrite(Sync, s, ws);
    var n: nat := draw + |plain|;
    RekeyedRewrite(p, nv, s, plain, draw, ws, t, n);
    RekeyByPhases(p, v, nv, s, draw, plain, t, n);
  }

  /** What the rewrite of phase two keeps, for a string without a pending
      span whose payloads stay on one line. */
  lemma {:induction false} RewriteKept(s: string, ws: seq<string>, ys: seq<string>)
    requires |ws| == |SliceSpans(Envelope(Sync), s)| == |ys|
    requires forall i :: 0 <= i < |ws| ==> Written(Sync, ws[i]) && IsWord(Sync, ws[i])
    requires !Contains(Pending(Sync), s) && PayloadsOneLine(s)
    ensures SplicesWell(Sync, s, ws, ys) && !Contains(Pending(Sync), Rewrite(Sync, s, ws))
  {
    SpliceWords(Sync, s, ws, ys);
    SyncWords(s, ws);
  }

  /** Decrypting the rewrite of `s` with whole envelopes that open to `plain`
      puts `plain` into the old envelope spans. */
  lemma {:induction false} DecryptRewrite(p: Primitives, v: Vault, s: string, ws: seq<string>, plain: seq<string>)
    requires |ws| == |SliceSpans(Envelope(Sync), s)| == |plain|
    requires forall i :: 0 <= i < |ws| ==> IsWord(Sync, ws[i]) && |ws[i]| > |MARKER_OPEN|
    requires SpansKept(Sync, s, ws) && SpliceKept(Sync, s, ws, plain)
    requires OpenAll(Open(p, v), Inners(ws)) == Ok(plain)
    ensures ReplaceDecrypt(p, v, [], Rewrite(Sync, s, ws)) == Ok(Splice(s, SliceSpans(Envelope(Sync), s), plain, 0))
  {
    DecryptReplacesEnvelopes(p, v, [], Rewrite(Sync, s, ws));
  }

  /** `rekey` of any string without a pending span whose envelopes open under
      the old vault and whose payloads hold no line terminator: the result
      decrypts under the new vault to what the string decrypts to under the
      old one, which is the string with every envelope span replaced by its
      plaintext; one draw per envelope. */
  lemma {:induction false} RekeyTextRoundTrip(p: Primitives, v: Vault, nv: Vault, s: string, draw: nat)
    requires Valid(p) && CanEncrypt(nv)
    requires !Contains(Pending(Sync), s) && PayloadsOneLine(s)
    requires OpenAll(Open(p, v), EnvelopePayloads(Sync, s)).Ok?
    ensures var plain := OpenAll(Open(p, v), EnvelopePayloads(Sync, s)).value;
            var r := RekeyValues(p, v, Text(s), EncDec.AVault(nv), draw);
            && r.Ok? && r.value.val.Text? && r.value.draw == draw + |plain|
            && DecryptValues(p, v, Text(s)) == Ok(Text(Splice(s, SliceSpans(Envelope(Sync), s), plain, 0)))
            && DecryptValues(p, nv, r.value.val) == DecryptValues(p, v, Text(s))
  {
    var plain := OpenAll(Open(p, v), EnvelopePayloads(Sync, s)).value;
    var ws := RekeyRewrites(p, v, nv, s, draw, plain);
    var t := Rewrite(Sync, s, ws);
    DecryptRewrite(p, nv, s, ws, plain);
    DecryptText(p, nv, t);
    DecryptReplacesEnvelopes(p, v, [], s);
    DecryptText(p, v, s);
  }

  // ------------------------------------------------------------ a line break inside an envelope

  /** As written, rekey of `VAULT_NACL(` + w + `)VAULT_NACL`, where `w` is a
      whole envelope whose payload opens under the old vault and holds a line
      terminator: the text has no pending span and one envelope, but once the
      envelope is written anew on one line, the lazy pending pattern runs
      across it and seals the whole text a second time. The result opens under
      the new vault to the new envelope `w'`, not to what the text opens to
      under the old vault, and two draws are spent where one was due. */
  lemma {:induction false} RekeySealsNewSpan(p: Primitives, v: Vault, nv: Vault, w: string, x: string, draw: nat)
    returns (w': string)
    requires Valid(p) && CanEncrypt(nv)
    requires IsWord(Sync, w) && !OneLine(Inner(w))
    requires Open(p, v)(Inner(w)) == Ok(x)
    ensures var s := MARKER_OPEN + w + PENDING_CLOSE;
            && !Contains(Pending(Sync), s) && EnvelopePayloads(Sync, s) == [Inner(w)]
            && DecryptValues(p, v, Text(s)) == Ok(Text(MARKER_OPEN + x + PENDING_CLOSE))
            && Written(Sync, w') && Open(p, nv)(Inner(w')) == Ok(x)
            && var r := RekeyValues(p, v, Text(s), EncDec.AVault(nv), draw);
               && r.Ok? && r.value.draw == draw + 2
               && DecryptValues(p, nv, r.value.val) == Ok(Text(w'))
               && DecryptValues(p, nv, r.value.val) != DecryptValues(p, v, Text(s))
  {
    var s := MARKER_OPEN + w + PENDING_CLOSE;
    NestedNoPending(w);
    NestedDecrypt(p, v, w, x);
    w' := NestedMigrated(p, nv, x, draw);
    var w2 := NestedRekeyed(p, v, nv, w, x, draw, w');
    DecryptText(p, nv, w2);
    var y := MARKER_OPEN + x + PENDING_CLOSE;
    assert y[|y| - 1] == PENDING_CLOSE[|PENDING_CLOSE| - 1] != ')';
    assert Text(w') != Text(y);
  }

  /** The nested text decrypts to the plaintext inside the outer marker and
      close. */
  lemma {:induction false} NestedDecrypt(p: Primitives, v: Vault, w: string, x: string)
    requires IsWord(Sync, w) && Open(p, v)(Inner(w)) == Ok(x)
    ensures var s := MARKER_OPEN + w + PENDING_CLOSE;
            && EnvelopePayloads(Sync, s) == [Inner(w)]
            && OpenAll(Open(p, v), EnvelopePayloads(Sync, s)) == Ok([x])
            && DecryptValues(p, v, Text(s)) == Ok(Text(MARKER_OPEN + x + PENDING_CLOSE))
  {
    var s := MARKER_OPEN + w + PENDING_CLOSE;
    var a := |MARKER_OPEN|;
    var m := Span(a, a + a, a + |w| - 1, a + |w|);
    NestedEnvelope(w);
    NestedSplice(w, x);
    assert Payloads(s, [m], 0) == [Payload(s, m)] + Payloads(s, [], m.end);
    OpenAllOne(Open(p, v), Inner(w));
    DecryptReplacesEnvelopes(p, v, [], s);
    DecryptText(p, v, s);
  }

  /** Phase two of rekey on a single plaintext: one draw, and a whole
      envelope on one line that opens to it. */
  lemma {:induction false} NestedMigrated(p: Primitives, nv: Vault, x: string, draw: nat) returns (w': string)
    requires Valid(p) && CanEncrypt(nv)
    ensures RunAll(Reseal(p, nv), [x], draw).Ok?
    ensures RunAll(Reseal(p, nv), [x], draw).value.st == draw + 1
    ensures OpenAll(WrapOne(false), RunAll(Reseal(p, nv), [x], draw).value.outs) == Ok([w'])
    ensures Written(Sync, w') && IsWord(Sync, w') && Open(p, nv)(Inner(w')) == Ok(x)
  {
    var ws := WrapUnder(p, nv, [x], draw);
    w' := ws[0];
    assert ws == [w'];
    assert Inners(ws) == [Inner(w')];
    OpenAllOne(Open(p, nv), Inner(w'));
  }

  /** Phase three on the migrated nested text: the new envelope sits inside
      a pending span, which is sealed on the next draw into an envelope that
      opens to it. */
  lemma {:induction false} NestedResealed(p: Primitives, nv: Vault, w': string, d: nat) returns (w2: string)
    requires Valid(p) && CanEncrypt(nv) && Written(Sync, w')
    ensures GlobalReplace(Pending(Sync), MARKER_OPEN + w' + PENDING_CLOSE, Seal(p, nv, false), d) == Ok(Step(w2, (d + 1) as nat))
    ensures ReplaceDecrypt(p, nv, [], w2) == Ok(w')
  {
    var t := MARKER_OPEN + w' + PENDING_CLOSE;
    var m := Span(0, |MARKER_OPEN|, |MARKER_OPEN| + |w'|, |t|);
    WrappedPending(w');
    ReplaceWhole(Pending(Sync), t, m, Seal(p, nv, false), d);
    assert Payload(t, m) == w';
    w2 := SealedString(p, nv, w', d);
    DecryptSealed(p, nv, [], w2, w');
  }

  /** Rekey of the nested text, as written: phase two and then phase three on
      the migrated text. */
  lemma {:induction false} NestedRekeyed(p: Primitives, v: Vault, nv: Vault, w: string, x: string, draw: nat, w': string)
    returns (w2: string)
    requires Valid(p) && CanEncrypt(nv)
    requires IsWord(Sync, w) && Open(p, v)(Inner(w)) == Ok(x)
    requires RunAll(Reseal(p, nv), [x], draw).Ok?
    requires RunAll(Reseal(p, nv), [x], draw).value.st == draw + 1
    requires OpenAll(WrapOne(false), RunAll(Reseal(p, nv), [x], draw).value.outs) == Ok([w'])
    requires Written(Sync, w')
    ensures var r := RekeyValues(p, v, Text(MARKER_OPEN + w + PENDING_CLOSE), EncDec.AVault(nv), draw);
            r.Ok? && r.value.val == Text(w2) && r.value.draw == draw + 2
    ensures ReplaceDecrypt(p, nv, [], w2) == Ok(w')
  {
    var s := MARKER_OPEN + w + PENDING_CLOSE;
    NestedDecrypt(p, v, w, x);
    w2 := NestedPhases(p, nv, w, x, draw, w');
    RekeyByPhases(p, v, nv, s, draw, [x], w2, draw + 2);
  }

  /** Phases two and three on the nested text. */
  lemma {:induction false} NestedPhases(p: Primitives, nv: Vault, w: string, x: string, draw: nat, w': string)
    returns (w2: string)
    requires Valid(p) && CanEncrypt(nv) && IsWord(Sync, w)
    requires RunAll(Reseal(p, nv), [x], draw).Ok?
    requires RunAll(Reseal(p, nv), [x], draw).value.st == draw + 1
    requires OpenAll(WrapOne(false), RunAll(Reseal(p, nv), [x], draw).value.outs) == Ok([w'])
    requires Written(Sync, w')
    requires |SliceSpans(Envelope(Sync), MARKER_OPEN + w + PENDING_CLOSE)| == 1
    ensures Rekeyed(p, nv, MARKER_OPEN + w + PENDING_CLOSE, [x], draw) == Ok(Step(w2, (draw + 2) as nat))
    ensures ReplaceDecrypt(p, nv, [], w2) == Ok(w')
  {
    NestedEnvelope(w);
    NestedSplice(w, w');
    w2 := NestedResealed(p, nv, w', draw + 1);
  }
}
