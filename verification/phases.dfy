/** The callbacks the engines hand to the replacement loops, and what a whole
    run of each amounts to (`_replaceEncMode` and `_replace` in src/EncDec.js
    and src/EncDecSync.js).

    Encrypt mode works in three phases on each string:
    1. every envelope payload is decrypted with the engine's vault, and the
       plaintexts are collected (the rewritten string is thrown away);
    2. with a new vault, the plaintexts are encrypted again and the i-th
       envelope span is replaced by the i-th new envelope;
    3. every pending span is sealed with the new vault, or the engine's. */
module Phases {
  import opened Base
  import opened Utils
  import opened Primitives
  import opened Vault
  import opened Markers
  import opened Replace
  import opened Envelopes

  /** Applies a fallible map to every element in order; the first failure
      aborts the run and is what it returns (`OpenAllSpec`). */
  function OpenAll(open: string -> Result<string>, xs: seq<string>): (r: Result<seq<string>>)
    ensures r.Ok? ==> |r.value| == |xs|
    decreases |xs|
  {
    if xs == [] then Ok([])
    else
      var d :- open(xs[0]);
      var ds :- OpenAll(open, xs[1..]);
      Ok([d] + ds)
  }

  /** A map over one element is one call. */
  lemma {:induction false} OpenAllOne(open: string -> Result<string>, y: string)
    ensures OpenAll(open, [y]) ==
              match open(y)
              case Err(e) => Err(e)
              case Ok(x) => Ok([x])
  {
    assert [y][0] == y && [y][1..] == [];
    match open(y)
    case Err(_) =>
    case Ok(x) =>
      assert OpenAll(open, []) == Ok([]);
      assert [x] + [] == [x];
  }

  /** The map succeeds when every element opens, and then holds the opened
      elements in order; otherwise it reports the first failure. */
  lemma {:induction false} OpenAllSpec(open: string -> Result<string>, xs: seq<string>)
    ensures var r := OpenAll(open, xs);
            && (r.Ok? <==> forall i :: 0 <= i < |xs| ==> open(xs[i]).Ok?)
            && (r.Ok? ==> forall i :: 0 <= i < |xs| ==> open(xs[i]) == Ok(r.value[i]))
            && (r.Err? ==> exists i :: 0 <= i < |xs| && open(xs[i]) == Err(r.error) && forall j :: 0 <= j < i ==> open(xs[j]).Ok?)
    decreases |xs|
  {
    if xs != [] {
      OpenAllSpec(open, xs[1..]);
      var r := OpenAll(open, xs);
      var t := OpenAll(open, xs[1..]);
      if open(xs[0]).Ok? {
        if t.Ok? {
          assert r.value == [open(xs[0]).value] + t.value;
          forall i | 0 <= i < |xs|
            ensures open(xs[i]) == Ok(r.value[i])
          {
            if i > 0 {
              assert xs[1..][i - 1] == xs[i];
            }
          }
        } else {
          var i :| 0 <= i < |xs[1..]| && open(xs[1..][i]) == Err(t.error) && forall j :: 0 <= j < i ==> open(xs[1..][j]).Ok?;
          assert xs[1..][i] == xs[i + 1];
          forall j | 0 <= j < i + 1
            ensures open(xs[j]).Ok?
          {
            if j > 0 {
              assert xs[1..][j - 1] == xs[j];
            }
          }
        }
      } else {
        assert open(xs[0]) == Err(r.error);
      }
    }
  }

  /** A callback that maps the payload and leaves the state alone. */
  function Stateless<S>(g: string -> Result<string>): (string, S) -> Result<Step<S>>
  {
    (x: string, st: S) =>
      match g(x)
      case Err(e) => Err(e)
      case Ok(y) => Ok(Step(y, st))
  }

  /** A run of a stateless callback is the map of its function. */
  lemma {:induction false} StatelessAll<S>(g: string -> Result<string>, xs: seq<string>, st: S)
    ensures RunAll(Stateless(g), xs, st) ==
              match OpenAll(g, xs)
              case Err(e) => Err(e)
              case Ok(ys) => Ok(Ran(ys, st))
    decreases |xs|
  {
    if xs != [] {
      StatelessAll(g, xs[1..], st);
    }
  }

  // ------------------------------------------------------------ phase one

  /** Phase one's state: the plaintexts so far (`decoded`) and the split flag. */
  datatype Collected = Collected(decoded: seq<string>, split: bool)

  /** Phase one's callback: open the payload, remember the plaintext, and turn
      splitting on when `marks` holds of the payload. */
  function Gather(open: string -> Result<string>, marks: string -> bool): (string, Collected) -> Result<Step<Collected>>
  {
    (x: string, c: Collected) =>
      match open(x)
      case Err(e) => Err(e)
      case Ok(d) => Ok(Step("", Collected(c.decoded + [d], c.split || marks(x))))
  }

  predicate AnyMarked(marks: string -> bool, xs: seq<string>)
  {
    exists i :: 0 <= i < |xs| && marks(xs[i])
  }

  /** `n` empty strings. */
  function Blank(n: nat): (r: seq<string>)
    ensures |r| == n
  {
    if n == 0 then [] else [""] + Blank(n - 1)
  }

  /** Phase one collects the plaintexts of all payloads in order, or fails with
      the first payload that does not open; splitting ends up on when it was on
      or some payload is marked. */
  lemma {:induction false} GatherAll(open: string -> Result<string>, marks: string -> bool, xs: seq<string>, c: Collected)
    ensures RunAll(Gather(open, marks), xs, c) ==
              match OpenAll(open, xs)
              case Err(e) => Err(e)
              case Ok(ds) => Ok(Ran(Blank(|xs|), Collected(c.decoded + ds, c.split || AnyMarked(marks, xs))))
    decreases |xs|
  {
    if xs == [] {
      assert c.decoded + [] == c.decoded;
      assert !AnyMarked(marks, xs);
    } else {
      match open(xs[0])
      case Err(e) =>
        assert Gather(open, marks)(xs[0], c) == Err(e);
      case Ok(d) =>
        var c1 := Collected(c.decoded + [d], c.split || marks(xs[0]));
        assert Gather(open, marks)(xs[0], c) == Ok(Step("", c1));
        GatherAll(open, marks, xs[1..], c1);
        assert RunAll(Gather(open, marks), xs, c) ==
                 match RunAll(Gather(open, marks), xs[1..], c1)
                 case Err(e) => Err(e)
                 case Ok(t) => Ok(Ran([""] + t.outs, t.st));
        match OpenAll(open, xs[1..])
        case Err(_) =>
        case Ok(ds) =>
          assert OpenAll(open, xs) == Ok([d] + ds);
          assert c.decoded + [d] + ds == c.decoded + ([d] + ds);
          assert Blank(|xs|) == [""] + Blank(|xs[1..]|);
          assert AnyMarked(marks, xs) == (marks(xs[0]) || AnyMarked(marks, xs[1..])) by {
            if AnyMarked(marks, xs) && !marks(xs[0]) {
              var i :| 0 <= i < |xs| && marks(xs[i]);
              assert i > 0 && xs[1..][i - 1] == xs[i];
            }
            if AnyMarked(marks, xs[1..]) {
              var i :| 0 <= i < |xs[1..]| && marks(xs[1..][i]);
              assert xs[i + 1] == xs[1..][i];
            }
          }
    }
  }

  /** Phase one over a string: EncDec iterates with its `replace` loop,
      EncDecSync with `String.prototype.replace`; the text either produces is
      thrown away, only the collected state is kept. */
  function Collect(f: Flavor, open: string -> Result<string>, marks: string -> bool, s: string, split: bool): Result<Collected>
  {
    var fn := Gather(open, marks);
    var one :- if f == Async then ReplaceLoop(Envelope(f), s, fn, Collected([], split))
               else GlobalReplace(Envelope(f), s, fn, Collected([], split));
    Ok(one.st)
  }

  /** The envelope payloads of a string, in order. */
  function EnvelopePayloads(f: Flavor, s: string): (xs: seq<string>)
    ensures |xs| == |SliceSpans(Envelope(f), s)|
  {
    Payloads(s, SliceSpans(Envelope(f), s), 0)
  }

  /** Phase one yields the plaintexts of the envelope payloads in order (or
      the first failure), and turns splitting on when some payload is
      marked. */
  lemma CollectAll(f: Flavor, open: string -> Result<string>, marks: string -> bool, s: string, split: bool)
    ensures Collect(f, open, marks, s, split) ==
              match OpenAll(open, EnvelopePayloads(f, s))
              case Err(err) => Err(err)
              case Ok(ds) => Ok(Collected(ds, split || AnyMarked(marks, EnvelopePayloads(f, s))))
  {
    var xs := EnvelopePayloads(f, s);
    var c0 := Collected([], split);
    var fn := Gather(open, marks);
    EnvelopeReplaceAgrees(f, s, fn, c0);
    ReplaceLoopRuns(Envelope(f), s, fn, c0);
    GatherAll(open, marks, xs, c0);
    match OpenAll(open, xs)
    case Err(_) =>
    case Ok(plain) =>
      assert c0.decoded + plain == plain;
  }

  /** Without envelopes, phase one collects nothing. */
  lemma CollectNone(f: Flavor, open: string -> Result<string>, marks: string -> bool, s: string, split: bool)
    requires !Contains(Envelope(f), s)
    ensures Collect(f, open, marks, s, split) == Ok(Collected([], split))
  {
    CollectAll(f, open, marks, s, split);
    assert SliceSpans(Envelope(f), s) == [];
    assert !AnyMarked(marks, []);
  }

  /** Over a lone envelope, phase one collects its plaintext. */
  lemma CollectWhole(f: Flavor, open: string -> Result<string>, marks: string -> bool, w: string, split: bool, x: string)
    requires |w| > |MARKER_OPEN|
    requires FindFrom(Envelope(f), w, 0) == Some(Span(0, |MARKER_OPEN|, |w| - 1, |w|))
    requires open(w[|MARKER_OPEN|..|w| - 1]) == Ok(x)
    ensures Collect(f, open, marks, w, split) == Ok(Collected([x], split || marks(w[|MARKER_OPEN|..|w| - 1])))
  {
    EnvelopeReplace(f, w, Gather(open, marks), Collected([], split));
    assert [] + [x] == [x];
  }

  // ------------------------------------------------------------ phase two

  /** The vault can seal: a password is held, the digest is known and PBKDF2
      accepts the iteration count. */
  predicate CanEncrypt(v: Vault)
  {
    Active(v) && v.digest in DIGESTS && IterationsOk(v.iterations)
  }

  /** Whether `encrypt` succeeds depends on the vault alone. */
  lemma EncryptOkIff(p: Primitives, v: Vault, m: string, draw: nat)
    ensures Encrypt(p, v, m, draw).Ok? <==> CanEncrypt(v)
    ensures Encrypt(p, v, m, draw).Err? ==> Encrypt(p, v, m, draw) == Encrypt(p, v, "", 0)
  {
  }

  /** `encryptSync` as a callback, one random draw per call. */
  function Reseal(p: Primitives, v: Vault): (string, nat) -> Result<Step<nat>>
  {
    (x: string, d: nat) =>
      match Encrypt(p, v, x, d)
      case Err(e) => Err(e)
      case Ok(c) => Ok(Step(c, (d + 1) as nat))
  }

  /** Re-encrypting a list fails (with the vault's error) exactly when the list
      is non-empty and the vault cannot seal; otherwise it uses one draw per
      element. */
  lemma {:induction false} ResealAllOk(p: Primitives, v: Vault, xs: seq<string>, d: nat)
    ensures var r := RunAll(Reseal(p, v), xs, d);
            && (r.Ok? <==> xs == [] || CanEncrypt(v))
            && (r.Err? ==> r.error == Encrypt(p, v, "", 0).error)
            && (r.Ok? ==> r.value.st == d + |xs|)
    decreases |xs|
  {
    if xs != [] {
      EncryptOkIff(p, v, xs[0], d);
      ResealAllOk(p, v, xs[1..], d + 1);
    }
  }

  /** Re-encrypting a list seals the i-th element with the i-th draw. */
  lemma ResealAllOuts(p: Primitives, v: Vault, xs: seq<string>, d: nat)
    requires RunAll(Reseal(p, v), xs, d).Ok?
    ensures var outs := RunAll(Reseal(p, v), xs, d).value.outs;
            forall i :: 0 <= i < |xs| ==> Encrypt(p, v, xs[i], d + i) == Ok(outs[i])
  {
    var outs := RunAll(Reseal(p, v), xs, d).value.outs;
    RunAllCounted(Reseal(p, v), xs, d);
    forall i | 0 <= i < |xs|
      ensures Encrypt(p, v, xs[i], d + i) == Ok(outs[i])
    {
      assert Reseal(p, v)(xs[i], d + i) == Ok(Step(outs[i], (d + i + 1) as nat));
    }
  }

  /** `wrapEncrypted(splitLines(x, doSplit), doSplit)`. */
  function WrapOne(doSplit: bool): string -> Result<string>
  {
    (x: string) =>
      match SplitLines(x, doSplit)
      case Err(e) => Err(e)
      case Ok(lines) => Ok(WrapEncrypted(lines, doSplit))
  }

  /** Phase two's callback: the i-th match becomes the i-th new envelope. The
      index never runs past the list (`MigrateRewrites`), so the last branch,
      where the source would read `undefined`, is never taken. */
  function Rewrap(encs: seq<string>, doSplit: bool): (string, nat) -> Result<Step<nat>>
  {
    (x: string, i: nat) =>
      if i < |encs| then
        match WrapOne(doSplit)(encs[i])
        case Err(e) => Err(e)
        case Ok(w) => Ok(Step(w, (i + 1) as nat))
      else Err(OutOfRange)
  }

  lemma {:induction false} RewrapAll(encs: seq<string>, doSplit: bool, xs: seq<string>, i: nat)
    requires i + |xs| <= |encs|
    ensures RunAll(Rewrap(encs, doSplit), xs, i) ==
              match OpenAll(WrapOne(doSplit), encs[i..i + |xs|])
              case Err(e) => Err(e)
              case Ok(ws) => Ok(Ran(ws, (i + |xs|) as nat))
    decreases |xs|
  {
    if xs != [] {
      RewrapAll(encs, doSplit, xs[1..], i + 1);
      assert encs[i..i + |xs|][1..] == encs[i + 1..i + 1 + |xs[1..]|];
      assert encs[i..i + |xs|][0] == encs[i];
    }
  }

  /** Phase two. Without a new vault the string is left as it is; with one, the
      plaintexts are sealed again and the envelope spans rewritten, with the
      global pattern. */
  function Migrate(p: Primitives, f: Flavor, nv: Option<Vault>, s: string, decoded: seq<string>,
                   doSplit: bool, draw: nat): Result<Step<nat>>
  {
    if nv.None? then Ok(Step(s, draw))
    else
      var enc :- RunAll(Reseal(p, nv.value), decoded, draw);
      var r :- GlobalReplace(Envelope(f), s, Rewrap(enc.outs, doSplit), 0);
      Ok(Step(r.out, enc.st))
  }

  /** Without envelopes, phase two leaves the string alone. */
  lemma MigrateNone(p: Primitives, f: Flavor, nv: Option<Vault>, s: string, doSplit: bool, draw: nat)
    requires !Contains(Envelope(f), s)
    ensures Migrate(p, f, nv, s, [], doSplit, draw) == Ok(Step(s, draw))
  {
    if nv.Some? {
      assert GlobalSpans(Envelope(f), s, 0) == [];
      assert RunAll(Reseal(p, nv.value), [], draw) == Ok(Ran([], draw));
      assert Splice(s, [], [], 0) == s[0..] == s;
    }
  }

  /** Over a lone envelope, phase two puts the new envelope of its plaintext
      in its place, with one draw. */
  lemma MigrateWhole(p: Primitives, f: Flavor, nv: Vault, w: string, x: string, doSplit: bool, draw: nat)
    requires |w| > |MARKER_OPEN|
    requires FindFrom(Envelope(f), w, 0) == Some(Span(0, |MARKER_OPEN|, |w| - 1, |w|))
    ensures Migrate(p, f, Some(nv), w, [x], doSplit, draw) == Seal(p, nv, doSplit)(x, draw)
  {
    RunAllOne(Reseal(p, nv), x, draw);
    match Encrypt(p, nv, x, draw)
    case Err(_) =>
    case Ok(c) =>
      EnvelopeReplace(f, w, Rewrap([c], doSplit), 0);
  }

  /** With as many plaintexts as envelope spans, phase two puts the i-th new
      envelope in place of the i-th span and copies everything else. */
  lemma MigrateRewrites(p: Primitives, f: Flavor, v: Vault, s: string, decoded: seq<string>, doSplit: bool, draw: nat)
    requires |decoded| == |GlobalSpans(Envelope(f), s, 0)|
    ensures var spans := GlobalSpans(Envelope(f), s, 0);
            Migrate(p, f, Some(v), s, decoded, doSplit, draw) ==
              match RunAll(Reseal(p, v), decoded, draw)
              case Err(e) => Err(e)
              case Ok(enc) =>
                match OpenAll(WrapOne(doSplit), enc.outs)
                case Err(e) => Err(e)
                case Ok(ws) => Ok(Step(Splice(s, spans, ws, 0), enc.st))
  {
    var spans := GlobalSpans(Envelope(f), s, 0);
    match RunAll(Reseal(p, v), decoded, draw)
    case Err(_) =>
    case Ok(enc) =>
      var xs := Payloads(s, spans, 0);
      RewrapAll(enc.outs, doSplit, xs, 0);
      assert enc.outs[0..|xs|] == enc.outs;
  }

  // ------------------------------------------------------------ phase three

  /** Phase three's callback: seal the pending payload and wrap it. */
  function Seal(p: Primitives, v: Vault, doSplit: bool): (string, nat) -> Result<Step<nat>>
  {
    (x: string, d: nat) =>
      match Encrypt(p, v, x, d)
      case Err(e) => Err(e)
      case Ok(c) =>
        match WrapOne(doSplit)(c)
        case Err(e) => Err(e)
        case Ok(w) => Ok(Step(w, (d + 1) as nat))
  }

  /** Base64 text has no white space in it. */
  lemma Base64NoSpace(c: string, n: nat)
    requires Base64Shape(c, n)
    ensures NoSpace(c)
  {
    forall i | 0 <= i < |c|
      ensures !IsSpace(c[i])
    {
      assert IsBase64Char(c[i]) || c[i] == '=';
    }
  }

  lemma SealUnfold(p: Primitives, v: Vault, x: string, doSplit: bool, d: nat, c: string)
    requires Encrypt(p, v, x, d) == Ok(c) && |c| > 0
    ensures SplitLines(c, doSplit).Ok?
    ensures Seal(p, v, doSplit)(x, d) == Ok(Step(WrapEncrypted(SplitLines(c, doSplit).value, doSplit), (d + 1) as nat))
  {
    assert WrapOne(doSplit)(c) == Ok(WrapEncrypted(SplitLines(c, doSplit).value, doSplit));
  }

  /** A cleared vault seals nothing. */
  lemma SealCleared(p: Primitives, v: Vault, doSplit: bool, x: string, d: nat)
    ensures Seal(p, Clear(v), doSplit)(x, d) == Err(NoPassword)
  {
    assert Encrypt(p, Clear(v), x, d) == Err(NoPassword);
  }

  /** A vault that can seal turns a payload into canonical base64 text,
      free of white space, that opens again to the payload. */
  lemma SealedText(p: Primitives, v: Vault, x: string, d: nat) returns (c: string)
    requires Valid(p) && CanEncrypt(v)
    ensures Encrypt(p, v, x, d) == Ok(c)
    ensures Base64Shape(c, MIN_BODY) && NoSpace(c) && Decrypt(p, v, c) == Ok(x)
  {
    EncryptShape(p, v, x, d);
    EncryptDecrypt(p, v, x, d);
    c := Encrypt(p, v, x, d).value;
    Base64NoSpace(c, HEADER_LEN);
  }

  /** The wrapped text of base64 `c` is a single envelope over the whole text,
      with no pending span in it, whose payload is `c` once white space is
      removed; the payload holds white space exactly when it was cut into
      lines. */
  lemma WrappedPayload(f: Flavor, c: string, doSplit: bool) returns (w: string)
    requires Base64Shape(c, MIN_BODY) && NoSpace(c)
    requires f == Sync ==> !doSplit
    ensures SplitLines(c, doSplit).Ok? && w == WrapEncrypted(SplitLines(c, doSplit).value, doSplit)
    ensures |w| > |MARKER_OPEN|
    ensures FindFrom(Envelope(f), w, 0) == Some(Span(0, |MARKER_OPEN|, |w| - 1, |w|))
    ensures FindFrom(Pending(f), w, 0).None?
    ensures DeleteWhiteSpace(w[|MARKER_OPEN|..|w| - 1]) == c
    ensures !doSplit ==> w[|MARKER_OPEN|..|w| - 1] == c
    ensures HasSpace(w[|MARKER_OPEN|..|w| - 1]) <==> doSplit
  {
    if doSplit {
      assert f == Async;
      w := WrappedSplit(c);
    } else {
      w := WrappedFlat(f, c);
      assert SplitLines(c, doSplit) == Ok(c);
    }
  }

  lemma WrappedFlat(f: Flavor, c: string) returns (w: string)
    requires Base64Shape(c, MIN_BODY) && NoSpace(c)
    ensures w == WrapEncrypted(c, false) && |w| > |MARKER_OPEN|
    ensures FindFrom(Envelope(f), w, 0) == Some(Span(0, |MARKER_OPEN|, |w| - 1, |w|))
    ensures FindFrom(Pending(f), w, 0).None?
    ensures w[|MARKER_OPEN|..|w| - 1] == c && DeleteWhiteSpace(c) == c && !HasSpace(c)
  {
    FlatIsEnvelope(f, c);
    w := WrapEncrypted(c, false);
    assert w == MARKER_OPEN + c + ")";
    assert w[|MARKER_OPEN|..|w| - 1] == c;
  }

  lemma WrappedSplit(c: string) returns (w: string)
    requires Base64Shape(c, MIN_BODY) && NoSpace(c)
    ensures SplitLines(c, true).Ok? && w == WrapEncrypted(SplitLines(c, true).value, true)
    ensures |w| > |MARKER_OPEN|
    ensures FindFrom(Envelope(Async), w, 0) == Some(Span(0, |MARKER_OPEN|, |w| - 1, |w|))
    ensures FindFrom(Pending(Async), w, 0).None?
    ensures DeleteWhiteSpace(w[|MARKER_OPEN|..|w| - 1]) == c
    ensures HasSpace(w[|MARKER_OPEN|..|w| - 1])
  {
    WrapRoundTrip(c, true);
    SplitIsEnvelope(c);
    var lines := SplitLines(c, true).value;
    w := WrapEncrypted(lines, true);
    assert w == MARKER_OPEN + "\n" + lines + "\n)";
    assert w[|MARKER_OPEN|..|w| - 1][0] == '\n';
  }
}
