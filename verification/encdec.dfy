/** The asynchronous engine `EncDec` (src/EncDec.js): the walk of `_traverse`
    with the callbacks of the four modes. The instance fields `_keys`,
    `_hasVaults` and `_doSplit` are threaded explicitly: the path stack is the
    walk's context, the check flag its state, and the sticky split flag part of
    the `Engine` value that `EncryptString` returns. */
module EncDec {
  import opened Base
  import opened Utils
  import opened Primitives
  import opened Vault
  import opened Markers
  import opened Replace
  import opened Phases
  import opened Traversal
  import opened Envelopes
  import opened Resplice

  /** An `EncDec` instance: its vault and the split flag for new envelopes. */
  datatype Engine = Engine(vault: Vault, doSplit: bool)

  /** The constructor: a new vault, and envelopes kept on one line. */
  function Create(password: Option<string>, digest: Option<string>, iterations: Option<int>): (e: Engine)
    ensures !e.doSplit && e.vault.password == password
  {
    Engine(New(password, digest, iterations), false)
  }

  /** `clear`: the vault drops its password for good. */
  function ClearEngine(e: Engine): (c: Engine)
    ensures !Active(c.vault) && c.doSplit == e.doSplit
  {
    e.(vault := Clear(e.vault))
  }

  /** After `clear` a pending span can no longer be sealed. */
  lemma ClearedEngineFails(p: Primitives, e: Engine, str: string, draw: nat)
    requires |str| > 0 && forall j :: 0 <= j < |str| ==> str[j] != ')'
    ensures EncryptValues(p, ClearEngine(e), Text(MARKER_OPEN + str + PENDING_CLOSE), draw) == Err(NoPassword)
  {
    EncryptPending(p, ClearEngine(e), str, draw);
    SealCleared(p, e.vault, e.doSplit, str, draw);
  }

  // ------------------------------------------------------------ one string

  /** The decrypt callback: white space is removed from the payload first. */
  function Open(p: Primitives, v: Vault): string -> Result<string>
  {
    (x: string) => Decrypt(p, v, DeleteWhiteSpace(x))
  }

  /** `_replace`: every envelope payload decrypted in place. Errors come back
      as they are: the `catch` around the asynchronous call never sees them. */
  function ReplaceDecrypt(p: Primitives, v: Vault, s: string): (r: Result<string>)
    ensures !Contains(Envelope(Async), s) ==> r == Ok(s)
  {
    match ReplaceLoop(Envelope(Async), s, Stateless(Open(p, v)), ())
    case Err(e) => Err(e)
    case Ok(ran) => Ok(ran.out)
  }

  /** Decrypting a string replaces the i-th envelope span by the plaintext of
      the i-th payload and copies everything else, or reports the first payload
      that does not open. */
  lemma DecryptReplacesEnvelopes(p: Primitives, v: Vault, s: string)
    ensures var spans := SliceSpans(Envelope(Async), s);
            ReplaceDecrypt(p, v, s) ==
              match OpenAll(Open(p, v), Payloads(s, spans, 0))
              case Err(e) => Err(e)
              case Ok(ys) => Ok(Splice(s, spans, ys, 0))
  {
    var spans := SliceSpans(Envelope(Async), s);
    ReplaceLoopIsSplice(Envelope(Async), s, Stateless(Open(p, v)), ());
    StatelessAll(Open(p, v), Payloads(s, spans, 0), ());
  }

  /** `_replaceEncMode`, with the random draw threaded through. */
  function ReplaceEncMode(p: Primitives, e: Engine, nv: Option<Vault>, s: string, draw: nat): Result<Step<nat>>
  {
    match Collect(Async, Open(p, e.vault), HasSpace, s, e.doSplit)
    case Err(err) => Err(err)
    case Ok(c) =>
      match Migrate(p, Async, nv, s, c.decoded, c.split, draw)
      case Err(err) => Err(err)
      case Ok(two) =>
        var v := match nv case Some(w) => w case None => e.vault;
        ReplaceLoop(Pending(Async), two.out, Seal(p, v, c.split), two.st)
  }

  /** Encrypt mode without a new vault: every envelope is decrypted (a failure
      aborts, unqualified), and then only pending spans are rewritten, on the
      original string, split when the engine splits or some envelope payload
      holds white space. */
  lemma EncryptSealsPendingOnly(p: Primitives, e: Engine, s: string, draw: nat)
    ensures ReplaceEncMode(p, e, None, s, draw) ==
              match OpenAll(Open(p, e.vault), EnvelopePayloads(Async, s))
              case Err(err) => Err(err)
              case Ok(_) =>
                ReplaceLoop(Pending(Async), s, Seal(p, e.vault, e.doSplit || AnyMarked(HasSpace, EnvelopePayloads(Async, s))), draw)
  {
    CollectAll(Async, Open(p, e.vault), HasSpace, s, e.doSplit);
  }

  /** Encrypt mode leaves a string without pending spans byte-identical, once
      its envelopes open. */
  lemma EncryptKeepsEnvelopes(p: Primitives, e: Engine, s: string, draw: nat)
    requires !Contains(Pending(Async), s)
    requires OpenAll(Open(p, e.vault), EnvelopePayloads(Async, s)).Ok?
    ensures ReplaceEncMode(p, e, None, s, draw) == Ok(Step(s, draw))
  {
    EncryptSealsPendingOnly(p, e, s, draw);
  }

  /** The split flag of encrypt and rekey mode after phase one. */
  predicate SplitAfter(e: Engine, s: string)
  {
    e.doSplit || AnyMarked(HasSpace, EnvelopePayloads(Async, s))
  }

  /** Phases two and three of rekey, once the plaintexts `ds` are known, with
      the sealing callbacks of the new vault as parameters. */
  function Rekeyed(reseal: (string, nat) -> Result<Step<nat>>, seal: (string, nat) -> Result<Step<nat>>,
                   s: string, ds: seq<string>, split: bool, draw: nat): Result<Step<nat>>
    requires |ds| == |SliceSpans(Envelope(Async), s)|
  {
    var enc :- RunAll(reseal, ds, draw);
    var ws :- OpenAll(WrapOne(split), enc.outs);
    ReplaceLoop(Pending(Async), Splice(s, SliceSpans(Envelope(Async), s), ws, 0), seal, enc.st)
  }

  /** Rekey: the plaintexts are collected as in encrypt mode; the i-th is
      sealed with the new vault on the i-th draw and wrapped; the i-th envelope
      span is replaced by it; and then the pending spans of that text are
      sealed with the new vault. */
  lemma RekeyMigratesThenSeals(p: Primitives, e: Engine, nv: Vault, s: string, draw: nat)
    ensures ReplaceEncMode(p, e, Some(nv), s, draw) ==
              match OpenAll(Open(p, e.vault), EnvelopePayloads(Async, s))
              case Err(err) => Err(err)
              case Ok(plain) => Rekeyed(Reseal(p, nv), Seal(p, nv, SplitAfter(e, s)), s, plain, SplitAfter(e, s), draw)
  {
    CollectAll(Async, Open(p, e.vault), HasSpace, s, e.doSplit);
    match OpenAll(Open(p, e.vault), EnvelopePayloads(Async, s))
    case Err(_) =>
    case Ok(plain) =>
      RekeyAfterCollect(p, e, nv, s, draw, plain);
  }

  /** Rekey once phase one has produced the plaintexts `plain`. */
  lemma RekeyAfterCollect(p: Primitives, e: Engine, nv: Vault, s: string, draw: nat, plain: seq<string>)
    requires Collect(Async, Open(p, e.vault), HasSpace, s, e.doSplit) == Ok(Collected(plain, SplitAfter(e, s)))
    requires |plain| == |SliceSpans(Envelope(Async), s)|
    ensures ReplaceEncMode(p, e, Some(nv), s, draw) ==
              Rekeyed(Reseal(p, nv), Seal(p, nv, SplitAfter(e, s)), s, plain, SplitAfter(e, s), draw)
  {
    EnvelopeSpansAgree(Async, s);
    MigrateRewrites(p, Async, nv, s, plain, SplitAfter(e, s), draw);
  }

  // ------------------------------------------------------------ the walk

  /** Decrypt mode's handler. */
  function DecryptHandler(p: Primitives, v: Vault): Handler<()>
  {
    (keys: seq<string>, s: string, u: ()) =>
      match ReplaceDecrypt(p, v, s)
      case Err(e) => Err(e)
      case Ok(t) => Ok(Step(t, u))
  }

  /** Encrypt and rekey mode's handler; the state is the random draw. */
  function EncryptHandler(p: Primitives, e: Engine, nv: Option<Vault>): Handler<nat>
  {
    (keys: seq<string>, s: string, d: nat) => ReplaceEncMode(p, e, nv, s, d)
  }

  /** What check mode looks for: `RE_DECRYPT.test(s) || RE_ENCRYPT.test(s)`. */
  predicate Marked(s: string)
  {
    Contains(Envelope(Async), s) || Contains(Pending(Async), s)
  }

  /** Check mode's handler: a marked string raises the flag and stays; any
      other string goes through `_replace`. */
  function CheckHandler(p: Primitives, v: Vault): Handler<bool>
  {
    (keys: seq<string>, s: string, b: bool) =>
      if Marked(s) then Ok(Step(s, true))
      else
        match ReplaceDecrypt(p, v, s)
        case Err(e) => Err(e)
        case Ok(t) => Ok(Step(t, b))
  }

  /** Every public call starts with an empty path and nothing visited. */
  const ROOT: Ctx := Ctx([], [])

  /** A walked value and the next random draw. */
  datatype Done = Done(val: Value, draw: nat)

  /** `decrypt`. */
  function DecryptValues(p: Primitives, e: Engine, v: Value): (r: Result<Value>)
    ensures r.Ok? ==> Skeleton(r.value) == Skeleton(v)
  {
    var o :- Walk(v, ROOT, DecryptHandler(p, e.vault), ());
    Ok(o.val)
  }

  /** Decrypt mode returns a value without envelopes as it is. */
  lemma DecryptUntouched(p: Primitives, e: Engine, v: Value)
    requires !Reaches(v, [], s => Contains(Envelope(Async), s))
    ensures DecryptValues(p, e, v) == Ok(v)
  {
    WalkUntouched(v, ROOT, DecryptHandler(p, e.vault), s => Contains(Envelope(Async), s), ());
  }

  /** `encrypt`. */
  function EncryptValues(p: Primitives, e: Engine, v: Value, draw: nat): (r: Result<Done>)
    ensures r.Ok? ==> Skeleton(r.value.val) == Skeleton(v)
  {
    var o :- Walk(v, ROOT, EncryptHandler(p, e, None), draw);
    Ok(Done(o.val, o.st))
  }

  /** Encrypt mode returns a value without markers as it is and draws
      nothing. */
  lemma EncryptUntouched(p: Primitives, e: Engine, v: Value, draw: nat)
    requires !Reaches(v, [], Marked)
    ensures EncryptValues(p, e, v, draw) == Ok(Done(v, draw))
  {
    WalkUntouched(v, ROOT, EncryptHandler(p, e, None), Marked, draw);
  }

  /** The argument of `rekey`: absent (or falsy), a password string, a Vault, or
      some other truthy value. */
  datatype NewVault = Absent | Password(pw: string) | AVault(vault: Vault) | NotAVault

  /** A password becomes a vault with the default options; anything else that
      is not a vault is refused. */
  function RekeyTarget(nv: NewVault): Result<Option<Vault>>
  {
    match nv
    case Absent => Ok(None)
    case Password(pw) => Ok(Some(New(Some(pw), None, None)))
    case AVault(v) => Ok(Some(v))
    case NotAVault => Err(NeedVault)
  }

  /** `rekey`. */
  function RekeyValues(p: Primitives, e: Engine, v: Value, nv: NewVault, draw: nat): (r: Result<Done>)
    ensures nv.NotAVault? ==> r == Err(NeedVault)
    ensures nv.Absent? ==> r == EncryptValues(p, e, v, draw)
    ensures nv.Password? ==> r == RekeyValues(p, e, v, AVault(New(Some(nv.pw), None, None)), draw)
    ensures r.Ok? ==> Skeleton(r.value.val) == Skeleton(v)
    decreases if nv.Password? then 1 else 0
  {
    var target :- RekeyTarget(nv);
    var o :- Walk(v, ROOT, EncryptHandler(p, e, target), draw);
    Ok(Done(o.val, o.st))
  }

  /** Rekey returns a value without markers as it is and draws nothing,
      whatever the new vault. */
  lemma RekeyUntouched(p: Primitives, e: Engine, v: Value, nv: NewVault, draw: nat)
    requires !nv.NotAVault?
    requires !Reaches(v, [], Marked)
    ensures RekeyValues(p, e, v, nv, draw) == Ok(Done(v, draw))
  {
    var target := RekeyTarget(nv).value;
    forall path: seq<string>, s: string, d: nat | !Marked(s)
      ensures EncryptHandler(p, e, target)(path, s, d) == Ok(Step(s, d))
    {
      UnmarkedIsKept(p, e, target, s, d);
    }
    WalkUntouched(v, ROOT, EncryptHandler(p, e, target), Marked, draw);
  }

  /** A string with no marker of either kind goes through encrypt and rekey
      mode unchanged, without a draw. */
  lemma UnmarkedIsKept(p: Primitives, e: Engine, nv: Option<Vault>, s: string, d: nat)
    requires !Marked(s)
    ensures ReplaceEncMode(p, e, nv, s, d) == Ok(Step(s, d))
  {
    EncryptWithoutEnvelopes(p, e, nv, s, d);
  }

  /** `check`. */
  function Check(p: Primitives, e: Engine, v: Value): Result<bool>
  {
    var o :- Walk(v, ROOT, CheckHandler(p, e.vault), false);
    Ok(o.st)
  }

  /** Check mode answers whether some reachable string holds a marker of either
      kind, and the walk gives every string back as it was. */
  lemma CheckIff(p: Primitives, e: Engine, v: Value)
    ensures Walk(v, ROOT, CheckHandler(p, e.vault), false) == Ok(Out(v, ROOT, Reaches(v, [], Marked)))
    ensures Check(p, e, v) == Ok(Reaches(v, [], Marked))
  {
    CheckHandlerFlags(p, e.vault);
    WalkFlags(v, ROOT, CheckHandler(p, e.vault), Marked, false);
  }

  /** Check mode's handler raises the flag exactly on a marked string and
      gives every string back. */
  lemma CheckHandlerFlags(p: Primitives, v: Vault)
    ensures forall path, s, b :: CheckHandler(p, v)(path, s, b) == Ok(Step(s, b || Marked(s)))
  {
    forall path, s, b
      ensures CheckHandler(p, v)(path, s, b) == Ok(Step(s, b || Marked(s)))
    {
      if !Marked(s) {
        assert ReplaceDecrypt(p, v, s) == Ok(s);
      }
    }
  }

  // ------------------------------------------------------------ encryptString

  /** `encryptString`: only a string is accepted; the split flag is set for
      this and every later call (default on) before the string is encrypted as
      a pending span, so the engine keeps the new flag even when encryption
      fails. */
  function EncryptString(p: Primitives, e: Engine, x: Value, doSplit: Option<bool>, draw: nat): (r: (Engine, Result<Done>))
    ensures !x.Text? ==> r == (e, Err(StringExpected))
    ensures x.Text? ==> r.0.vault == e.vault && r.0.doSplit == (doSplit != Some(false))
  {
    if !x.Text? then (e, Err(StringExpected))
    else
      var e' := e.(doSplit := doSplit != Some(false));
      (e', EncryptValues(p, e', Text(MARKER_OPEN + x.s + PENDING_CLOSE), draw))
  }

  /** A failing `encryptString` still leaves the engine with the new split
      flag: after `clear` the call fails with 'No password', and a later
      `encrypt` on the returned engine splits as asked. */
  lemma EncryptStringFailureSticks(p: Primitives, e: Engine, str: string, doSplit: Option<bool>, draw: nat)
    requires |str| > 0 && forall j :: 0 <= j < |str| ==> str[j] != ')'
    ensures var r := EncryptString(p, ClearEngine(e), Text(str), doSplit, draw);
            && r.1 == Err(NoPassword)
            && r.0.doSplit == (doSplit != Some(false))
            && !Active(r.0.vault)
  {
    var e' := ClearEngine(e).(doSplit := doSplit != Some(false));
    ClearedEngineFails(p, e', str, draw);
    assert ClearEngine(e') == e';
  }

  /** Encrypt and rekey mode on a string without envelopes are phase three
      alone, with the sealing vault and the engine's split flag. */
  lemma EncryptWithoutEnvelopes(p: Primitives, e: Engine, nv: Option<Vault>, t: string, draw: nat)
    requires !Contains(Envelope(Async), t)
    ensures ReplaceEncMode(p, e, nv, t, draw) ==
              ReplaceLoop(Pending(Async), t, Seal(p, if nv.Some? then nv.value else e.vault, e.doSplit), draw)
  {
    CollectNone(Async, Open(p, e.vault), HasSpace, t, e.doSplit);
    MigrateNone(p, Async, nv, t, e.doSplit, draw);
    EncModeSteps(p, e, nv, t, draw, Collected([], e.doSplit), Step(t, draw));
  }

  /** Encrypting a lone pending span is phase three on its payload. */
  lemma EncryptPendingString(p: Primitives, e: Engine, str: string, draw: nat)
    requires |str| > 0 && forall j :: 0 <= j < |str| ==> str[j] != ')'
    ensures ReplaceEncMode(p, e, None, MARKER_OPEN + str + PENDING_CLOSE, draw) == Seal(p, e.vault, e.doSplit)(str, draw)
  {
    var t := MARKER_OPEN + str + PENDING_CLOSE;
    PendingReplace(Async, str, Seal(p, e.vault, e.doSplit), draw);
    EncryptWithoutEnvelopes(p, e, None, t, draw);
  }

  /** Decrypt mode on a lone string. */
  lemma DecryptText(p: Primitives, e: Engine, s: string)
    ensures DecryptValues(p, e, Text(s)) ==
              match ReplaceDecrypt(p, e.vault, s)
              case Err(err) => Err(err)
              case Ok(t) => Ok(Text(t))
  {
  }

  /** Encrypt mode on a lone string. */
  lemma EncryptText(p: Primitives, e: Engine, s: string, draw: nat)
    ensures EncryptValues(p, e, Text(s), draw) ==
              match ReplaceEncMode(p, e, None, s, draw)
              case Err(err) => Err(err)
              case Ok(h) => Ok(Done(Text(h.out), h.st))
  {
  }

  /** `encrypt` of a lone pending span is the sealed envelope of its payload. */
  lemma EncryptPending(p: Primitives, e: Engine, str: string, draw: nat)
    requires |str| > 0 && forall j :: 0 <= j < |str| ==> str[j] != ')'
    ensures EncryptValues(p, e, Text(MARKER_OPEN + str + PENDING_CLOSE), draw) ==
              match Seal(p, e.vault, e.doSplit)(str, draw)
              case Err(err) => Err(err)
              case Ok(h) => Ok(Done(Text(h.out), h.st))
  {
    EncryptPendingString(p, e, str, draw);
    EncryptText(p, e, MARKER_OPEN + str + PENDING_CLOSE, draw);
  }

  /** A sealed envelope goes through encrypt mode unchanged, without a draw:
      its payload is opened (and must open), and nothing else matches. */
  lemma EncryptKeepsSealed(p: Primitives, e: Engine, w: string, x: string, draw: nat)
    requires |w| > |MARKER_OPEN|
    requires FindFrom(Envelope(Async), w, 0) == Some(Span(0, |MARKER_OPEN|, |w| - 1, |w|))
    requires FindFrom(Pending(Async), w, 0).None?
    requires Open(p, e.vault)(w[|MARKER_OPEN|..|w| - 1]) == Ok(x)
    ensures ReplaceEncMode(p, e, None, w, draw) == Ok(Step(w, draw))
  {
    CollectWhole(Async, Open(p, e.vault), HasSpace, w, e.doSplit, x);
  }

  /** A sealed envelope decrypts to its plaintext. */
  lemma DecryptSealed(p: Primitives, v: Vault, w: string, x: string)
    requires |w| > |MARKER_OPEN|
    requires FindFrom(Envelope(Async), w, 0) == Some(Span(0, |MARKER_OPEN|, |w| - 1, |w|))
    requires Open(p, v)(w[|MARKER_OPEN|..|w| - 1]) == Ok(x)
    ensures ReplaceDecrypt(p, v, w) == Ok(x)
  {
    var fn := Stateless(Open(p, v));
    EnvelopeReplace(Async, w, fn, ());
    assert fn(w[|MARKER_OPEN|..|w| - 1], ()) == Ok(Step(x, ()));
    assert ReplaceLoop(Envelope(Async), w, fn, ()) == Ok(Step(x, ()));
  }

  /** The string a vault that can seal makes of a payload, and what it is. */
  lemma SealedString(p: Primitives, v: Vault, str: string, doSplit: bool, draw: nat) returns (w: string)
    requires Valid(p) && CanEncrypt(v)
    ensures Seal(p, v, doSplit)(str, draw) == Ok(Step(w, (draw + 1) as nat))
    ensures |w| > |MARKER_OPEN|
    ensures FindFrom(Envelope(Async), w, 0) == Some(Span(0, |MARKER_OPEN|, |w| - 1, |w|))
    ensures FindFrom(Pending(Async), w, 0).None?
    ensures Open(p, v)(w[|MARKER_OPEN|..|w| - 1]) == Ok(str)
  {
    var c := SealedText(p, v, str, draw);
    SealUnfold(p, v, str, doSplit, draw, c);
    w := WrappedPayload(Async, c, doSplit);
  }

  /** `encryptString` of a string without ')' under a vault that can seal is
      the sealed envelope of the string, with one draw. */
  lemma EncryptStringSeals(p: Primitives, e: Engine, str: string, doSplit: Option<bool>, draw: nat) returns (w: string)
    requires Valid(p) && CanEncrypt(e.vault)
    requires |str| > 0 && forall j :: 0 <= j < |str| ==> str[j] != ')'
    ensures var e' := e.(doSplit := doSplit != Some(false));
            EncryptString(p, e, Text(str), doSplit, draw) == (e', Ok(Done(Text(w), draw + 1)))
    ensures |w| > |MARKER_OPEN|
    ensures FindFrom(Envelope(Async), w, 0) == Some(Span(0, |MARKER_OPEN|, |w| - 1, |w|))
    ensures FindFrom(Pending(Async), w, 0).None?
    ensures Open(p, e.vault)(w[|MARKER_OPEN|..|w| - 1]) == Ok(str)
  {
    var e' := e.(doSplit := doSplit != Some(false));
    w := SealedString(p, e'.vault, str, e'.doSplit, draw);
    EncryptStringIs(p, e, str, doSplit, draw, w);
  }

  /** `encryptString` of a string without ')' is the seal of the string. */
  lemma EncryptStringIs(p: Primitives, e: Engine, str: string, doSplit: Option<bool>, draw: nat, w: string)
    requires |str| > 0 && forall j :: 0 <= j < |str| ==> str[j] != ')'
    requires Seal(p, e.vault, doSplit != Some(false))(str, draw) == Ok(Step(w, (draw + 1) as nat))
    ensures var e' := e.(doSplit := doSplit != Some(false));
            EncryptString(p, e, Text(str), doSplit, draw) == (e', Ok(Done(Text(w), draw + 1)))
  {
    var e' := e.(doSplit := doSplit != Some(false));
    EncryptPending(p, e', str, draw);
  }

  /** `encryptString` of a string without ')' succeeds when the vault can seal,
      uses one draw, and gives an envelope that decrypts back to the string,
      that check reports, and that encrypting again leaves as it is. */
  lemma EncryptStringRoundTrip(p: Primitives, e: Engine, str: string, doSplit: Option<bool>, draw: nat)
    requires Valid(p) && CanEncrypt(e.vault)
    requires |str| > 0 && forall j :: 0 <= j < |str| ==> str[j] != ')'
    ensures var r := EncryptString(p, e, Text(str), doSplit, draw);
            && r.1.Ok? && r.1.value.val.Text? && r.1.value.draw == draw + 1
            && DecryptValues(p, r.0, r.1.value.val) == Ok(Text(str))
            && Check(p, r.0, r.1.value.val) == Ok(true)
            && EncryptValues(p, r.0, r.1.value.val, r.1.value.draw) == r.1
  {
    var e' := e.(doSplit := doSplit != Some(false));
    var w := EncryptStringSeals(p, e, str, doSplit, draw);
    DecryptSealed(p, e'.vault, w, str);
    DecryptText(p, e', w);
    EncryptKeepsSealed(p, e', w, str, draw + 1);
    EncryptText(p, e', w, draw + 1);
    CheckIff(p, e', Text(w));
    assert Marked(w);
  }

  /** Rekey turns an envelope sealed under the engine's vault into one sealed
      under the new vault, with one draw; the new one opens to the same
      plaintext. */
  lemma RekeySealed(p: Primitives, e: Engine, nv: Vault, w: string, x: string, draw: nat) returns (w': string)
    requires Valid(p) && CanEncrypt(nv)
    requires |w| > |MARKER_OPEN|
    requires FindFrom(Envelope(Async), w, 0) == Some(Span(0, |MARKER_OPEN|, |w| - 1, |w|))
    requires Open(p, e.vault)(w[|MARKER_OPEN|..|w| - 1]) == Ok(x)
    ensures ReplaceEncMode(p, e, Some(nv), w, draw) == Ok(Step(w', (draw + 1) as nat))
    ensures |w'| > |MARKER_OPEN|
    ensures FindFrom(Envelope(Async), w', 0) == Some(Span(0, |MARKER_OPEN|, |w'| - 1, |w'|))
    ensures FindFrom(Pending(Async), w', 0).None?
    ensures Open(p, nv)(w'[|MARKER_OPEN|..|w'| - 1]) == Ok(x)
  {
    var split := e.doSplit || HasSpace(w[|MARKER_OPEN|..|w| - 1]);
    CollectWhole(Async, Open(p, e.vault), HasSpace, w, e.doSplit, x);
    w' := SealedString(p, nv, x, split, draw);
    MigrateWhole(p, Async, nv, w, x, split, draw);
    RekeyWhole(p, e, nv, w, draw, Collected([x], split), w');
  }

  /** Rekey of a whole envelope once phases one and two are known: phase
      three finds no pending span in the new envelope. */
  lemma RekeyWhole(p: Primitives, e: Engine, nv: Vault, w: string, draw: nat, c: Collected, w': string)
    requires Collect(Async, Open(p, e.vault), HasSpace, w, e.doSplit) == Ok(c)
    requires Migrate(p, Async, Some(nv), w, c.decoded, c.split, draw) == Ok(Step(w', (draw + 1) as nat))
    requires FindFrom(Pending(Async), w', 0).None?
    ensures ReplaceEncMode(p, e, Some(nv), w, draw) == Ok(Step(w', (draw + 1) as nat))
  {
    EncModeSteps(p, e, Some(nv), w, draw, c, Step(w', (draw + 1) as nat));
  }

  /** Encrypt mode once phases one and two are known. */
  lemma EncModeSteps(p: Primitives, e: Engine, nv: Option<Vault>, s: string, draw: nat, c: Collected, two: Step<nat>)
    requires Collect(Async, Open(p, e.vault), HasSpace, s, e.doSplit) == Ok(c)
    requires Migrate(p, Async, nv, s, c.decoded, c.split, draw) == Ok(two)
    ensures ReplaceEncMode(p, e, nv, s, draw) ==
              ReplaceLoop(Pending(Async), two.out, Seal(p, if nv.Some? then nv.value else e.vault, c.split), two.st)
  {
  }

  /** `rekey` of a sealed envelope to a new vault, and back: the result
      decrypts under the new vault to the old plaintext. */
  lemma RekeyRoundTrip(p: Primitives, e: Engine, nv: Vault, w: string, x: string, draw: nat)
    requires Valid(p) && CanEncrypt(nv)
    requires |w| > |MARKER_OPEN|
    requires FindFrom(Envelope(Async), w, 0) == Some(Span(0, |MARKER_OPEN|, |w| - 1, |w|))
    requires Open(p, e.vault)(w[|MARKER_OPEN|..|w| - 1]) == Ok(x)
    ensures var r := RekeyValues(p, e, Text(w), AVault(nv), draw);
            && r.Ok? && r.value.val.Text? && r.value.draw == draw + 1
            && DecryptValues(p, Engine(nv, e.doSplit), r.value.val) == Ok(Text(x))
  {
    var w' := RekeySealed(p, e, nv, w, x, draw);
    RekeyText(p, e, nv, w, draw);
    DecryptSealed(p, nv, w', x);
    DecryptText(p, Engine(nv, e.doSplit), w');
  }

  /** Rekey mode on a lone string. */
  lemma RekeyText(p: Primitives, e: Engine, nv: Vault, s: string, draw: nat)
    ensures RekeyValues(p, e, Text(s), AVault(nv), draw) ==
              match ReplaceEncMode(p, e, Some(nv), s, draw)
              case Err(err) => Err(err)
              case Ok(h) => Ok(Done(Text(h.out), h.st))
  {
  }

  /** Sealing `x` on draw `d` succeeds with the next draw, and wrapping the
      result gives a whole envelope whose payload opens to `x` again. */
  predicate WrapsBack(f: Flavor, seal: (string, nat) -> Result<Step<nat>>, wrap: string -> Result<string>,
                      open: string -> Result<string>, x: string, d: nat)
  {
    && seal(x, d).Ok? && seal(x, d).value.st == d + 1
    && wrap(seal(x, d).value.out).Ok?
    && Written(f, wrap(seal(x, d).value.out).value)
    && open(Inner(wrap(seal(x, d).value.out).value)) == Ok(x)
  }

  lemma {:induction false} ResealOne(p: Primitives, v: Vault, x: string, d: nat, c: string)
    requires Encrypt(p, v, x, d) == Ok(c)
    ensures Reseal(p, v)(x, d) == Ok(Step(c, (d + 1) as nat))
  {
  }

  /** Wrapping base64 text gives a whole envelope whose payload is the text
      once white space is removed. */
  lemma {:induction false} WrapBase64(c: string, split: bool) returns (w: string)
    requires Base64Shape(c, MIN_BODY) && NoSpace(c)
    ensures WrapOne(split)(c) == Ok(w) && Written(Async, w) && DeleteWhiteSpace(Inner(w)) == c
  {
    w := WrappedPayload(Async, c, split);
    WordOfMatch(Async, w);
  }

  /** A vault that can seal turns a plaintext into a whole envelope whose
      payload opens under that vault to the plaintext again. */
  lemma {:induction false} WrapNew(p: Primitives, nv: Vault, x: string, d: nat, split: bool)
    requires Valid(p) && CanEncrypt(nv)
    ensures WrapsBack(Async, Reseal(p, nv), WrapOne(split), Open(p, nv), x, d)
  {
    var c := SealedText(p, nv, x, d);
    ResealOne(p, nv, x, d, c);
    var w := WrapBase64(c, split);
    assert Open(p, nv)(Inner(w)) == Decrypt(p, nv, c);
    WrapsBackOf(Async, Reseal(p, nv), WrapOne(split), Open(p, nv), x, d, c, w);
  }

  lemma {:induction false} WrapsBackOf(f: Flavor, seal: (string, nat) -> Result<Step<nat>>, wrap: string -> Result<string>,
                                       open: string -> Result<string>, x: string, d: nat, c: string, w: string)
    requires seal(x, d) == Ok(Step(c, (d + 1) as nat)) && wrap(c) == Ok(w)
    requires Written(f, w) && open(Inner(w)) == Ok(x)
    ensures WrapsBack(f, seal, wrap, open, x, d)
  {
  }

  /** Phase two's sealing and wrapping of a list of plaintexts, when every
      plaintext wraps back: one draw each, and whole envelopes that open to
      the plaintexts, in order. */
  lemma {:induction false} WrapAll(f: Flavor, seal: (string, nat) -> Result<Step<nat>>, wrap: string -> Result<string>,
                                   open: string -> Result<string>, plain: seq<string>, d: nat) returns (ws: seq<string>)
    requires forall x, d' :: WrapsBack(f, seal, wrap, open, x, d')
    ensures RunAll(seal, plain, d).Ok?
    ensures RunAll(seal, plain, d).value.st == d + |plain|
    ensures OpenAll(wrap, RunAll(seal, plain, d).value.outs) == Ok(ws)
    ensures |ws| == |plain| && forall i :: 0 <= i < |ws| ==> Written(f, ws[i])
    ensures forall i :: 0 <= i < |ws| ==> |ws[i]| > |MARKER_OPEN|
    ensures OpenAll(open, Inners(ws)) == Ok(plain)
    decreases |plain|
  {
    if plain == [] {
      ws := [];
    } else {
      assert WrapsBack(f, seal, wrap, open, plain[0], d);
      var w := wrap(seal(plain[0], d).value.out).value;
      var ws' := WrapAll(f, seal, wrap, open, plain[1..], d + 1);
      ws := [w] + ws';
      assert ws[1..] == ws';
      assert Inners(ws)[0] == Inner(w) && Inners(ws)[1..] == Inners(ws');
      assert plain == [plain[0]] + plain[1..];
    }
  }

  /** Decrypting a string whose envelopes all open replaces each envelope
      span by its plaintext. */
  lemma {:induction false} DecryptOpened(p: Primitives, v: Vault, s: string)
    requires OpenAll(Open(p, v), EnvelopePayloads(Async, s)).Ok?
    ensures ReplaceDecrypt(p, v, s) ==
              Ok(Splice(s, SliceSpans(Envelope(Async), s), OpenAll(Open(p, v), EnvelopePayloads(Async, s)).value, 0))
  {
    DecryptReplacesEnvelopes(p, v, s);
  }

  /** Decrypting the rewrite of `s` with whole envelopes that open to `plain`
      puts `plain` into the old envelope spans. */
  lemma {:induction false} DecryptRewrite(p: Primitives, v: Vault, s: string, ws: seq<string>, plain: seq<string>)
    requires |ws| == |SliceSpans(Envelope(Async), s)| == |plain|
    requires forall i :: 0 <= i < |ws| ==> IsWord(Async, ws[i]) && |ws[i]| > |MARKER_OPEN|
    requires SpansKept(Async, s, ws) && SpliceKept(Async, s, ws, plain)
    requires OpenAll(Open(p, v), Inners(ws)) == Ok(plain)
    ensures ReplaceDecrypt(p, v, Rewrite(Async, s, ws)) == Ok(Splice(s, SliceSpans(Envelope(Async), s), plain, 0))
  {
    DecryptReplacesEnvelopes(p, v, Rewrite(Async, s, ws));
  }

  /** Rekey of a string without a pending span whose envelopes open: the
      envelope spans are rewritten with whole envelopes under the new vault
      that open to the old plaintexts, one draw each, and nothing else
      changes. */
  lemma {:induction false} RekeyRewrites(p: Primitives, e: Engine, nv: Vault, s: string, draw: nat) returns (ws: seq<string>)
    requires Valid(p) && CanEncrypt(nv)
    requires !Contains(Pending(Async), s)
    requires OpenAll(Open(p, e.vault), EnvelopePayloads(Async, s)).Ok?
    ensures var plain := OpenAll(Open(p, e.vault), EnvelopePayloads(Async, s)).value;
            && |ws| == |SliceSpans(Envelope(Async), s)| == |plain|
            && (forall i :: 0 <= i < |ws| ==> IsWord(Async, ws[i]))
            && SplicesWell(Async, s, ws, plain)
            && OpenAll(Open(p, nv), Inners(ws)) == Ok(plain)
            && var r := RekeyValues(p, e, Text(s), AVault(nv), draw);
               r.Ok? && r.value.val == Text(Rewrite(Async, s, ws)) && r.value.draw == draw + |plain|
  {
    var plain := OpenAll(Open(p, e.vault), EnvelopePayloads(Async, s)).value;
    var split := SplitAfter(e, s);
    ws := WrapUnder(p, nv, plain, draw, split);
    SpliceWords(Async, s, ws, plain);
    PendingWords(s, ws);
    RekeyOfRewrite(p, e, nv, s, draw, plain, ws);
  }

  /** Rekey of a lone string once the new envelopes `ws` are known and the
      rewrite holds no pending span. */
  lemma {:induction false} RekeyOfRewrite(p: Primitives, e: Engine, nv: Vault, s: string, draw: nat,
                                          plain: seq<string>, ws: seq<string>)
    requires OpenAll(Open(p, e.vault), EnvelopePayloads(Async, s)) == Ok(plain)
    requires |plain| == |SliceSpans(Envelope(Async), s)|
    requires RunAll(Reseal(p, nv), plain, draw).Ok?
    requires RunAll(Reseal(p, nv), plain, draw).value.st == draw + |plain|
    requires OpenAll(WrapOne(SplitAfter(e, s)), RunAll(Reseal(p, nv), plain, draw).value.outs) == Ok(ws)
    requires |ws| == |plain| && !Contains(Pending(Async), Rewrite(Async, s, ws))
    ensures var r := RekeyValues(p, e, Text(s), AVault(nv), draw);
            r.Ok? && r.value.val == Text(Rewrite(Async, s, ws)) && r.value.draw == draw + |plain|
  {
    var split := SplitAfter(e, s);
    var t := Rewrite(Async, s, ws);
    var n: nat := draw + |plain|;
    RekeyedRewrite(Reseal(p, nv), Seal(p, nv, split), s, plain, split, draw, ws, t, n);
    RekeyByPhases(p, e, nv, s, draw, plain, t, n);
  }

  /** Rekey of a lone string whose envelopes open, once phases two and three
      are known. */
  lemma {:induction false} RekeyByPhases(p: Primitives, e: Engine, nv: Vault, s: string, draw: nat,
                                         plain: seq<string>, t: string, n: nat)
    requires OpenAll(Open(p, e.vault), EnvelopePayloads(Async, s)) == Ok(plain)
    requires Rekeyed(Reseal(p, nv), Seal(p, nv, SplitAfter(e, s)), s, plain, SplitAfter(e, s), draw)
               == Ok(Step(t, n))
    ensures var r := RekeyValues(p, e, Text(s), AVault(nv), draw);
            r.Ok? && r.value.val == Text(t) && r.value.draw == n
  {
    RekeyMigratesThenSeals(p, e, nv, s, draw);
    assert ReplaceEncMode(p, e, Some(nv), s, draw) == Ok(Step(t, n));
    RekeyText(p, e, nv, s, draw);
  }

  /** `WrapNew` for every plaintext and draw. */
  lemma {:induction false} WrapsUnder(p: Primitives, nv: Vault, split: bool)
    requires Valid(p) && CanEncrypt(nv)
    ensures forall x, d' :: WrapsBack(Async, Reseal(p, nv), WrapOne(split), Open(p, nv), x, d')
  {
    forall x, d' | true
      ensures WrapsBack(Async, Reseal(p, nv), WrapOne(split), Open(p, nv), x, d')
    {
      WrapNew(p, nv, x, d', split);
    }
  }

  /** `WrapAll` for sealing under a vault that can seal. */
  lemma {:induction false} WrapUnder(p: Primitives, nv: Vault, plain: seq<string>, draw: nat, split: bool) returns (ws: seq<string>)
    requires Valid(p) && CanEncrypt(nv)
    ensures RunAll(Reseal(p, nv), plain, draw).Ok?
    ensures RunAll(Reseal(p, nv), plain, draw).value.st == draw + |plain|
    ensures OpenAll(WrapOne(split), RunAll(Reseal(p, nv), plain, draw).value.outs) == Ok(ws)
    ensures |ws| == |plain| && forall i :: 0 <= i < |ws| ==> IsWord(Async, ws[i])
    ensures forall i :: 0 <= i < |ws| ==> |ws[i]| > |MARKER_OPEN|
    ensures OpenAll(Open(p, nv), Inners(ws)) == Ok(plain)
  {
    WrapsUnder(p, nv, split);
    ws := WrapAll(Async, Reseal(p, nv), WrapOne(split), Open(p, nv), plain, draw);
    forall i | 0 <= i < |ws|
      ensures IsWord(Async, ws[i])
    {
      assert Written(Async, ws[i]);
    }
  }

  /** Phases two and three of rekey once the new envelopes are known: when
      the rewrite has no pending span, it is the result. */
  lemma {:induction false} RekeyedRewrite(reseal: (string, nat) -> Result<Step<nat>>, seal: (string, nat) -> Result<Step<nat>>,
                                          s: string, plain: seq<string>, split: bool, draw: nat, ws: seq<string>,
                                          t: string, n: nat)
    requires |plain| == |SliceSpans(Envelope(Async), s)|
    requires RunAll(reseal, plain, draw).Ok?
    requires RunAll(reseal, plain, draw).value.st == n == draw + |plain|
    requires OpenAll(WrapOne(split), RunAll(reseal, plain, draw).value.outs) == Ok(ws)
    requires |ws| == |plain| && t == Rewrite(Async, s, ws) && !Contains(Pending(Async), t)
    ensures Rekeyed(reseal, seal, s, plain, split, draw) == Ok(Step(t, n))
  {
    assert ReplaceLoop(Pending(Async), t, seal, n) == Ok(Step(t, n));
  }

  /** `rekey` of any string without a pending span whose envelopes open under
      the engine's vault: the result decrypts under the new vault to what the
      string decrypts to under the old one, which is the string with every
      envelope span replaced by its plaintext; one draw per envelope. */
  lemma {:induction false} RekeyTextRoundTrip(p: Primitives, e: Engine, nv: Vault, s: string, draw: nat)
    requires Valid(p) && CanEncrypt(nv)
    requires !Contains(Pending(Async), s)
    requires OpenAll(Open(p, e.vault), EnvelopePayloads(Async, s)).Ok?
    ensures var plain := OpenAll(Open(p, e.vault), EnvelopePayloads(Async, s)).value;
            var r := RekeyValues(p, e, Text(s), AVault(nv), draw);
            && r.Ok? && r.value.val.Text? && r.value.draw == draw + |plain|
            && DecryptValues(p, e, Text(s)) == Ok(Text(Splice(s, SliceSpans(Envelope(Async), s), plain, 0)))
            && DecryptValues(p, Engine(nv, e.doSplit), r.value.val) == DecryptValues(p, e, Text(s))
  {
    var plain := OpenAll(Open(p, e.vault), EnvelopePayloads(Async, s)).value;
    var ws := RekeyRewrites(p, e, nv, s, draw);
    var t := Rewrite(Async, s, ws);
    DecryptRewrite(p, nv, s, ws, plain);
    DecryptText(p, Engine(nv, e.doSplit), t);
    DecryptOpened(p, e.vault, s);
    DecryptText(p, e, s);
  }
}
