/** Rewriting the marker spans of one string.

    Two iterations over the matches exist in the library: the asynchronous
    `replace` helper of EncDec (src/EncDec.js) matches, replaces, and goes on
    with the remainder cut after the match; `String.prototype.replace` with a
    global regular expression (EncDecSync throughout, and the re-encryption
    step of EncDec) scans the whole string. Both are given here as one
    reference: run the callback over the captured payloads in order, then
    splice the results into the gaps of the original text. */
module Replace {
  import opened Base
  import opened Markers

  /** What a callback returns: the replacement and the state it threads on. */
  datatype Step<S> = Step(out: string, st: S)

  /** The replacements of a run of callbacks and the final state. */
  datatype Ran<S> = Ran(outs: seq<string>, st: S)

  lemma {:induction false} OrderedInside(spans: seq<Span>, from: nat, n: nat)
    requires Ordered(spans, from, n)
    ensures forall i :: 0 <= i < |spans| ==> from <= spans[i].start && WellFormed(spans[i], n)
    decreases |spans|
  {
    if |spans| > 0 {
      OrderedInside(spans[1..], spans[0].end, n);
    }
  }

  /** The captured group of a match. */
  function Payload(s: string, m: Span): string
    requires WellFormed(m, |s|)
  {
    s[m.pstart..m.pend]
  }

  /** The text a match covers. */
  function Matched(s: string, m: Span): string
    requires WellFormed(m, |s|)
  {
    s[m.start..m.end]
  }

  function Payloads(s: string, spans: seq<Span>, from: nat): (r: seq<string>)
    requires Ordered(spans, from, |s|)
    ensures |r| == |spans|
    decreases |spans|
  {
    if spans == [] then [] else [Payload(s, spans[0])] + Payloads(s, spans[1..], spans[0].end)
  }

  function MatchedTexts(s: string, spans: seq<Span>, from: nat): (r: seq<string>)
    requires Ordered(spans, from, |s|)
    ensures |r| == |spans|
    decreases |spans|
  {
    if spans == [] then [] else [Matched(s, spans[0])] + MatchedTexts(s, spans[1..], spans[0].end)
  }

  /** The text from `pos` on with the i-th span replaced by `reps[i]` and
      every gap between spans copied. */
  function Splice(s: string, spans: seq<Span>, reps: seq<string>, pos: nat): string
    requires pos <= |s| && Ordered(spans, pos, |s|) && |reps| == |spans|
    decreases |spans|
  {
    if spans == [] then s[pos..]
    else s[pos..spans[0].start] + reps[0] + Splice(s, spans[1..], reps[1..], spans[0].end)
  }

  /** Putting back what each span covered restores the text: everything
      outside the spans is copied verbatim, and in order. */
  lemma {:induction false} SpliceMatchedIsIdentity(s: string, spans: seq<Span>, pos: nat)
    requires pos <= |s| && Ordered(spans, pos, |s|)
    ensures Splice(s, spans, MatchedTexts(s, spans, pos), pos) == s[pos..]
    decreases |spans|
  {
    if spans != [] {
      var m := spans[0];
      SpliceMatchedIsIdentity(s, spans[1..], m.end);
      assert s[pos..] == s[pos..m.start] + s[m.start..m.end] + s[m.end..];
    }
  }

  /** Runs the callback over `inputs` in order, threading the state; the first
      error aborts the run. */
  function RunAll<S>(fn: (string, S) -> Result<Step<S>>, inputs: seq<string>, st: S): (r: Result<Ran<S>>)
    ensures r.Ok? ==> |r.value.outs| == |inputs|
    decreases |inputs|
  {
    if inputs == [] then Ok(Ran([], st))
    else
      var head :- fn(inputs[0], st);
      var tail :- RunAll(fn, inputs[1..], head.st);
      Ok(Ran([head.out] + tail.outs, tail.st))
  }

  /** A run over one input is one call of the callback. */
  lemma RunAllOne<S>(fn: (string, S) -> Result<Step<S>>, x: string, st: S)
    ensures RunAll(fn, [x], st) ==
              match fn(x, st)
              case Err(e) => Err(e)
              case Ok(h) => Ok(Ran([h.out], h.st))
  {
    assert [x][0] == x && [x][1..] == [];
    match fn(x, st)
    case Err(_) =>
    case Ok(h) =>
      assert RunAll(fn, [], h.st) == Ok(Ran([], h.st));
      assert [h.out] + [] == [h.out];
  }

  /** A run over a concatenation is a run over the first part, then over the
      second part from the state the first part ended in. */
  lemma {:induction false} RunAllAppend<S>(fn: (string, S) -> Result<Step<S>>, a: seq<string>, b: seq<string>, st: S)
    ensures RunAll(fn, a + b, st) ==
              match RunAll(fn, a, st)
              case Err(e) => Err(e)
              case Ok(ra) =>
                match RunAll(fn, b, ra.st)
                case Err(e) => Err(e)
                case Ok(rb) => Ok(Ran(ra.outs + rb.outs, rb.st))
    decreases |a|
  {
    if a == [] {
      assert a + b == b;
      match RunAll(fn, b, st)
      case Err(_) =>
      case Ok(rb) =>
        assert [] + rb.outs == rb.outs;
    } else {
      assert (a + b)[0] == a[0];
      assert (a + b)[1..] == a[1..] + b;
      match fn(a[0], st)
      case Err(_) =>
      case Ok(h) =>
        RunAllAppend(fn, a[1..], b, h.st);
        match RunAll(fn, a[1..], h.st)
        case Err(_) =>
        case Ok(ra) =>
          match RunAll(fn, b, ra.st)
          case Err(_) =>
          case Ok(rb) =>
            assert [h.out] + (ra.outs + rb.outs) == ([h.out] + ra.outs) + rb.outs;
    }
  }

  /** With a callback that counts its calls, a successful run feeds the i-th
      input to the callback with the i-th count. */
  lemma {:induction false} RunAllCounted(fn: (string, nat) -> Result<Step<nat>>, xs: seq<string>, d: nat)
    requires forall x: string, e: nat :: fn(x, e).Ok? ==> fn(x, e).value.st == e + 1
    requires RunAll(fn, xs, d).Ok?
    ensures var outs := RunAll(fn, xs, d).value.outs;
            forall i :: 0 <= i < |xs| ==> fn(xs[i], d + i) == Ok(Step(outs[i], (d + i + 1) as nat))
    decreases |xs|
  {
    if xs != [] {
      var outs := RunAll(fn, xs, d).value.outs;
      var h := fn(xs[0], d).value;
      assert h.st == d + 1;
      var tail := RunAll(fn, xs[1..], d + 1);
      assert outs == [h.out] + tail.value.outs;
      RunAllCounted(fn, xs[1..], d + 1);
      forall i | 0 <= i < |xs|
        ensures fn(xs[i], d + i) == Ok(Step(outs[i], (d + i + 1) as nat))
      {
        if i > 0 {
          var j := i - 1;
          assert xs[1..][j] == xs[i] && tail.value.outs[j] == outs[i] && d + 1 + j == d + i;
        }
      }
    }
  }

  /** The reference: run the callback over the payloads, then splice. */
  function ReplaceSpans<S>(s: string, spans: seq<Span>, fn: (string, S) -> Result<Step<S>>, st: S): Result<Step<S>>
    requires Ordered(spans, 0, |s|)
  {
    var ran :- RunAll(fn, Payloads(s, spans, 0), st);
    Ok(Step(Splice(s, spans, ran.outs, 0), ran.st))
  }

  /** The `replace` helper of EncDec: match from the start of what is left, emit
      the text before the match and the callback's result, and go on with the
      text after the match. */
  function ReplaceLoop<S>(pat: Pattern, s: string, fn: (string, S) -> Result<Step<S>>, st: S): (r: Result<Step<S>>)
    ensures !Contains(pat, s) ==> r == Ok(Step(s, st))
    ensures s == "" ==> r == Ok(Step("", st))
    decreases |s|
  {
    match FindFrom(pat, s, 0)
    case None => Ok(Step(s, st))
    case Some(m) =>
      var head :- fn(Payload(s, m), st);
      var tail :- ReplaceLoop(pat, s[m.end..], fn, head.st);
      Ok(Step(s[..m.start] + head.out + tail.out, tail.st))
  }

  /** `String.prototype.replace` with a global pattern and a callback. */
  function GlobalReplace<S>(pat: Pattern, s: string, fn: (string, S) -> Result<Step<S>>, st: S): Result<Step<S>>
  {
    ReplaceSpans(s, GlobalSpans(pat, s, 0), fn, st)
  }

  lemma {:induction false} ShiftAllUnfold(spans: seq<Span>, d: nat)
    requires spans != []
    ensures ShiftAll(spans, d)[0] == Shift(spans[0], d)
    ensures ShiftAll(spans, d)[1..] == ShiftAll(spans[1..], d)
  {
  }

  lemma {:induction false} PayloadsShift(s: string, spans: seq<Span>, e: nat, from: nat)
    requires e <= |s| && Ordered(spans, from, |s| - e)
    ensures Ordered(ShiftAll(spans, e), from + e, |s|)
    ensures Payloads(s, ShiftAll(spans, e), from + e) == Payloads(s[e..], spans, from)
    decreases |spans|
  {
    OrderedShift(spans, from, |s| - e, e);
    if spans != [] {
      var m := spans[0];
      var sm := Shift(m, e);
      ShiftAllUnfold(spans, e);
      PayloadsShift(s, spans[1..], e, m.end);
      assert sm.end == m.end + e;
      assert s[e..][m.pstart..m.pend] == s[sm.pstart..sm.pend];
    }
  }

  lemma {:induction false} SpliceShift(s: string, spans: seq<Span>, reps: seq<string>, e: nat, pos: nat)
    requires e <= |s| && pos <= |s| - e && Ordered(spans, pos, |s| - e) && |reps| == |spans|
    ensures Ordered(ShiftAll(spans, e), pos + e, |s|)
    ensures Splice(s, ShiftAll(spans, e), reps, pos + e) == Splice(s[e..], spans, reps, pos)
    decreases |spans|
  {
    OrderedShift(spans, pos, |s| - e, e);
    if spans == [] {
      assert s[e..][pos..] == s[pos + e..];
    } else {
      var m := spans[0];
      var sm := Shift(m, e);
      ShiftAllUnfold(spans, e);
      SpliceShift(s, spans[1..], reps[1..], e, m.end);
      assert sm.end == m.end + e;
      assert s[e..][pos..m.start] == s[pos + e..sm.start];
    }
  }

  /** The reference over a first match and the shifted matches of the rest
      is the callback on the first payload followed by the reference on the
      rest. */
  lemma {:induction false} ReplaceSpansCons<S>(s: string, m: Span, rest: seq<Span>, fn: (string, S) -> Result<Step<S>>, st: S)
    requires WellFormed(m, |s|) && Ordered(rest, 0, |s| - m.end)
    ensures Ordered([m] + ShiftAll(rest, m.end), 0, |s|)
    ensures ReplaceSpans(s, [m] + ShiftAll(rest, m.end), fn, st) ==
              match fn(Payload(s, m), st)
              case Err(e) => Err(e)
              case Ok(h) =>
                match ReplaceSpans(s[m.end..], rest, fn, h.st)
                case Err(e) => Err(e)
                case Ok(r) => Ok(Step(s[..m.start] + h.out + r.out, r.st))
  {
    OrderedAfter(m, rest, |s|);
    var spans := [m] + ShiftAll(rest, m.end);
    var t := s[m.end..];
    assert spans[0] == m;
    assert spans[1..] == ShiftAll(rest, m.end);
    PayloadsShift(s, rest, m.end, 0);
    assert Payloads(s, spans, 0) == [Payload(s, m)] + Payloads(t, rest, 0);
    match fn(Payload(s, m), st)
    case Err(_) =>
    case Ok(h) =>
      match RunAll(fn, Payloads(t, rest, 0), h.st)
      case Err(_) =>
      case Ok(ran) =>
        SpliceShift(s, rest, ran.outs, m.end, 0);
        assert ([h.out] + ran.outs)[0] == h.out;
        assert ([h.out] + ran.outs)[1..] == ran.outs;
        assert s[..m.start] == s[0..m.start];
  }

  /** The `replace` loop is the reference applied to the matches it visits:
      payloads go through the callback strictly left to right, and the text
      between matches is copied. */
  lemma {:induction false} ReplaceLoopIsSplice<S>(pat: Pattern, s: string, fn: (string, S) -> Result<Step<S>>, st: S)
    ensures ReplaceLoop(pat, s, fn, st) == ReplaceSpans(s, SliceSpans(pat, s), fn, st)
    decreases |s|
  {
    match FindFrom(pat, s, 0)
    case None =>
      assert SliceSpans(pat, s) == [];
      assert s[0..] == s;
    case Some(m) =>
      var t := s[m.end..];
      var rest := SliceSpans(pat, t);
      assert SliceSpans(pat, s) == [m] + ShiftAll(rest, m.end);
      ReplaceSpansCons(s, m, rest, fn, st);
      match fn(Payload(s, m), st)
      case Err(_) =>
      case Ok(h) =>
        ReplaceLoopIsSplice(pat, t, fn, h.st);
  }

  /** The `replace` loop, as a run of the callback over the payloads. */
  lemma ReplaceLoopRuns<S>(pat: Pattern, s: string, fn: (string, S) -> Result<Step<S>>, st: S)
    ensures match RunAll(fn, Payloads(s, SliceSpans(pat, s), 0), st)
            case Err(e) => ReplaceLoop(pat, s, fn, st) == Err(e)
            case Ok(ran) => ReplaceLoop(pat, s, fn, st) == Ok(Step(Splice(s, SliceSpans(pat, s), ran.outs, 0), ran.st))
  {
    ReplaceLoopIsSplice(pat, s, fn, st);
  }

  /** For envelopes both iterations rewrite the same spans with the same
      results. */
  lemma EnvelopeReplaceAgrees<S>(f: Flavor, s: string, fn: (string, S) -> Result<Step<S>>, st: S)
    ensures ReplaceLoop(Envelope(f), s, fn, st) == GlobalReplace(Envelope(f), s, fn, st)
  {
    ReplaceLoopIsSplice(Envelope(f), s, fn, st);
    EnvelopeSpansAgree(f, s);
  }

  /** When the first match covers the whole string, both iterations are the
      callback on its payload alone. */
  lemma ReplaceWhole<S>(pat: Pattern, s: string, m: Span, fn: (string, S) -> Result<Step<S>>, st: S)
    requires FindFrom(pat, s, 0) == Some(m) && m.start == 0 && m.end == |s|
    ensures ReplaceLoop(pat, s, fn, st) == GlobalReplace(pat, s, fn, st)
    ensures GlobalReplace(pat, s, fn, st) ==
              match fn(Payload(s, m), st)
              case Err(e) => Err(e)
              case Ok(h) => Ok(Step(h.out, h.st))
  {
    assert s[m.end..] == [] && s[..m.start] == [];
    assert FindFrom(pat, s, |s|).None?;
    assert GlobalSpans(pat, s, 0) == [m];
    assert Payloads(s, [m], 0) == [Payload(s, m)];
    match fn(Payload(s, m), st)
    case Err(_) =>
    case Ok(h) =>
      assert [Payload(s, m)][1..] == [];
      assert RunAll(fn, [], h.st) == Ok(Ran([], h.st));
      assert [h.out] + [] == [h.out];
      assert RunAll(fn, [Payload(s, m)], st) == Ok(Ran([h.out], h.st));
      assert Splice(s, [m], [h.out], 0) == h.out;
  }
}
