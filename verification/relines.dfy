/** EncDecSync's pending pattern `\bVAULT_NACL\((.+?)\)VAULT_NACL(?!\))` under
    phase two of rekey. Its lazy payload may run across whole envelopes, up to
    the first `)VAULT_NACL` not followed by ')', and stops only at a line
    terminator. Whether a marker opens a pending span therefore depends on
    everything up to that close; `CloseAhead` is that search, detached from
    the marker so that it can be cut at any position.

    When every envelope of a string, old and new, stays on one line, the
    search runs through each envelope alike and finds behind it what it finds
    in the rest: rewriting the envelopes adds no pending span (`SyncWords`).
    An envelope payload may however hold a line break, which `.` does not
    cross; written anew on one line, such an envelope lets a pending span run
    across it (`EncDecSync.RekeySealsNewSpan`). */
module Relines {
  import opened Base
  import opened Utils
  import opened Markers
  import opened Replace
  import opened Phases
  import opened Envelopes
  import opened Resplice

  /** The lazy search from `k` on, the character before `k` included: a
      pending close is reached before any line terminator. */
  predicate CloseAhead(t: string, k: nat)
    requires 1 <= k <= |t|
    decreases |t| - k
  {
    !IsLineTerminator(t[k - 1]) && (PendingCloseAt(t, k) || (k < |t| && CloseAhead(t, k + 1)))
  }

  /** A pending close is reached from the start of `y` before any line
      terminator. */
  predicate CloseFrom(y: string)
  {
    PendingCloseAt(y, 0) || (|y| > 0 && CloseAhead(y, 1))
  }

  /** A text opening with the marker, one line long, whose only ')' is the
      last character: what a one-line whole envelope is to the lazy search. */
  predicate Shut(w: string)
  {
    && |w| > |MARKER_OPEN| && StartsWith(w, MARKER_OPEN) && w[|w| - 1] == ')'
    && (forall j :: |MARKER_OPEN| <= j < |w| - 1 ==> w[j] != ')')
    && OneLine(w)
  }

  /** The search state of `LazyClose` is `CloseAhead`. */
  lemma {:induction false} LazyCloseAhead(t: string, k: nat)
    requires |MARKER_OPEN| < k <= |t|
    ensures LazyClose(t, k).Some? == CloseAhead(t, k)
    decreases |t| - k
  {
    if !IsLineTerminator(t[k - 1]) && !PendingCloseAt(t, k) && k < |t| {
      LazyCloseAhead(t, k + 1);
    }
  }

  /** The close test behind a cut is the close test in the whole text. */
  lemma {:induction false} PendingCloseCut(x: string, e: nat, k: nat)
    requires e + k <= |x|
    ensures PendingCloseAt(x, e + k) == PendingCloseAt(x[e..], k)
  {
    assert x[e..][k..] == x[e + k..];
    if e + k + |PENDING_CLOSE| < |x| {
      assert x[e..][k + |PENDING_CLOSE|] == x[e + k + |PENDING_CLOSE|];
    }
  }

  /** The lazy search behind a cut is the lazy search in the whole text. */
  lemma {:induction false} CloseAheadCut(x: string, e: nat, k: nat)
    requires 1 <= k && e + k <= |x|
    ensures CloseAhead(x, e + k) == CloseAhead(x[e..], k)
    decreases |x| - e - k
  {
    assert x[e..][k - 1] == x[e + k - 1];
    PendingCloseCut(x, e, k);
    if e + k < |x| {
      CloseAheadCut(x, e, k + 1);
    }
  }

  /** A pending close starts with ')'. */
  lemma {:induction false} CloseStartsParen(t: string, k: nat)
    requires k <= |t| && PendingCloseAt(t, k)
    ensures k < |t| && t[k] == ')'
  {
    assert t[k..][0] == PENDING_CLOSE[0];
  }

  /** EncDecSync's pending pattern matches at the start of `x` exactly when
      `\b` holds, the marker is there, and the lazy search behind its '('
      reaches a close. */
  lemma {:induction false} SyncMatchAhead(x: string, b: bool)
    ensures MatchPrefix(Pending(Sync), x, b).Some? ==
              (b && StartsWith(x, MARKER_OPEN) && |MARKER_OPEN| < |x| && CloseAhead(x, |MARKER_OPEN| + 1))
  {
    if b && StartsWith(x, MARKER_OPEN) && |MARKER_OPEN| < |x| {
      LazyCloseAhead(x, |MARKER_OPEN| + 1);
    }
  }

  /** `SyncMatchAhead` at position `i` of `s`. */
  lemma {:induction false} SyncMatchAt(s: string, i: nat)
    requires i <= |s|
    ensures MatchAt(Pending(Sync), s, i).Some? ==
              (Boundary(s, i) && StartsWith(s[i..], MARKER_OPEN) && i + |MARKER_OPEN| < |s|
               && CloseAhead(s, i + |MARKER_OPEN| + 1))
  {
    SyncMatchAhead(s[i..], Boundary(s, i));
    if i + |MARKER_OPEN| < |s| {
      CloseAheadCut(s, i, |MARKER_OPEN| + 1);
    }
  }

  /** No character of the marker is a line terminator. */
  lemma {:induction false} MarkerOneLine()
    ensures OneLine(MARKER_OPEN)
  {
  }

  /** A whole envelope whose payload holds no white space is on one line. */
  lemma {:induction false} SpacelessWritten(w: string)
    requires IsWord(Sync, w) && NoSpace(Inner(w))
    ensures Written(Sync, w)
  {
    MarkerOneLine();
    forall j | 0 <= j < |w|
      ensures !IsLineTerminator(w[j])
    {
      if j < |MARKER_OPEN| {
        assert w[j] == w[..|MARKER_OPEN|][j];
      } else if j < |w| - 1 {
        assert w[j] == Inner(w)[j - |MARKER_OPEN|];
      }
    }
  }

  /** A whole envelope as EncDecSync writes it is shut. */
  lemma {:induction false} WrittenShut(w: string)
    requires Written(Sync, w)
    ensures Shut(w)
  {
    MarkerChars();
    forall j | |MARKER_OPEN| <= j < |w| - 1
      ensures w[j] != ')'
    {
      assert IsEnvelopeChar(w[j]);
    }
  }

  /** Inside a shut text followed by a rest that does not start with the
      marker, the lazy search finds what it finds from the start of the
      rest. */
  lemma {:induction false} Crossing(z: string, w: string, r: string, k: nat)
    requires Shut(w) && !StartsWith(r, MARKER)
    requires |z| + 1 <= k <= |z| + |w|
    ensures CloseAhead(z + w + r, k) == CloseFrom(r)
    decreases |z| + |w| - k
  {
    if k == |z| + |w| {
      CrossingEnd(z, w, r);
    } else {
      CrossingStep(z, w, r, k);
      Crossing(z, w, r, k + 1);
    }
  }

  /** `Crossing` at the last character of the shut text. */
  lemma {:induction false} CrossingEnd(z: string, w: string, r: string)
    requires Shut(w)
    ensures CloseAhead(z + w + r, |z| + |w|) == CloseFrom(r)
  {
    var y := z + w + r;
    var k := |z| + |w|;
    assert y[k - 1] == w[|w| - 1];
    assert y[k..] == r;
    PendingCloseCut(y, k, 0);
    if k < |y| {
      CloseAheadCut(y, k, 1);
    }
  }

  /** Inside the shut text, the lazy search goes on to the next character. */
  lemma {:induction false} CrossingStep(z: string, w: string, r: string, k: nat)
    requires Shut(w) && !StartsWith(r, MARKER)
    requires |z| + 1 <= k < |z| + |w|
    ensures CloseAhead(z + w + r, k) == CloseAhead(z + w + r, k + 1)
  {
    var y := z + w + r;
    assert y[k - 1] == w[k - 1 - |z|];
    assert !IsLineTerminator(y[k - 1]);
    assert y[k] == w[k - |z|];
    if k - |z| == |w| - 1 {
      assert y[k + 1..] == r;
      NoCloseBeforeRest(y, k, r);
    } else {
      if k - |z| < |MARKER_OPEN| {
        MarkerChars();
        assert w[k - |z|] == w[..|MARKER_OPEN|][k - |z|];
      }
      if PendingCloseAt(y, k) {
        CloseStartsParen(y, k);
      }
    }
  }

  /** A text opening with `z` and a marker shares `z` and the marker with
      every other such text. */
  lemma {:induction false} MarkerShared(z: string, w: string, r: string)
    requires StartsWith(w, MARKER_OPEN)
    ensures |z| + |MARKER_OPEN| <= |z + w + r| && (z + w + r)[..|z| + |MARKER_OPEN|] == z + MARKER_OPEN
  {
    var y := z + w + r;
    forall j | 0 <= j < |z| + |MARKER_OPEN|
      ensures y[j] == (z + MARKER_OPEN)[j]
    {
      if j >= |z| {
        assert y[j] == w[j - |z|] == w[..|MARKER_OPEN|][j - |z|];
      }
    }
  }

  /** Two texts that share `z` and differ in the shut text behind it and in
      the rest, with rests the lazy search treats alike: up to the marker
      behind `z`, the lazy search finds a close in both or in neither. */
  lemma {:induction false} EarlierAhead(z: string, w: string, w': string, r: string, r': string, k: nat)
    requires Shut(w) && Shut(w') && !StartsWith(r, MARKER) && !StartsWith(r', MARKER)
    requires CloseFrom(r) == CloseFrom(r')
    requires 1 <= k <= |z| + 1
    ensures CloseAhead(z + w + r, k) == CloseAhead(z + w' + r', k)
    decreases |z| + 1 - k
  {
    var s := z + w + r;
    var t := z + w' + r';
    if k == |z| + 1 {
      Crossing(z, w, r, k);
      Crossing(z, w', r', k);
    } else {
      assert s[k - 1] == z[k - 1] == t[k - 1];
      if k < |z| {
        MarkerShared(z, w, r);
        MarkerShared(z, w', r');
        CloseAgree(s, t, |z| + |MARKER_OPEN|, k);
      } else {
        assert s[k] == w[0] == MARKER_OPEN[0] by { assert w[0] == w[..|MARKER_OPEN|][0]; }
        assert t[k] == w'[0] == MARKER_OPEN[0] by { assert w'[0] == w'[..|MARKER_OPEN|][0]; }
        if PendingCloseAt(s, k) {
          CloseStartsParen(s, k);
        }
        if PendingCloseAt(t, k) {
          CloseStartsParen(t, k);
        }
      }
      EarlierAhead(z, w, w', r, r', k + 1);
    }
  }

  /** The lazy search from the start of two such texts agrees. */
  lemma {:induction false} CloseFromStep(z: string, w: string, w': string, r: string, r': string)
    requires Shut(w) && Shut(w') && !StartsWith(r, MARKER) && !StartsWith(r', MARKER)
    requires CloseFrom(r) == CloseFrom(r')
    ensures CloseFrom(z + w + r) == CloseFrom(z + w' + r')
  {
    var s := z + w + r;
    var t := z + w' + r';
    EarlierAhead(z, w, w', r, r', 1);
    if |z| > 0 {
      MarkerShared(z, w, r);
      MarkerShared(z, w', r');
      CloseAgree(s, t, |z| + |MARKER_OPEN|, 0);
    } else {
      assert s[0] == w[0] == MARKER_OPEN[0] by { assert w[0] == w[..|MARKER_OPEN|][0]; }
      assert t[0] == w'[0] == MARKER_OPEN[0] by { assert w'[0] == w'[..|MARKER_OPEN|][0]; }
      if PendingCloseAt(s, 0) {
        CloseStartsParen(s, 0);
      }
      if PendingCloseAt(t, 0) {
        CloseStartsParen(t, 0);
      }
    }
  }

  // ------------------------------------------------------------ one envelope replaced

  /** The first envelope match of EncDecSync, as a match at the start of the
      text cut at its start. */
  lemma {:induction false} OldMatch(s: string, m: Span) returns (m0: Span)
    requires FindFrom(Envelope(Sync), s, 0) == Some(m)
    ensures ValidMatch(Envelope(Sync), s[m.start..], m0) && m == Shift(m0, m.start)
  {
    var x := s[m.start..];
    var b := Boundary(s, m.start);
    FindFromFound(Envelope(Sync), s, 0);
    MatchPrefixValid(Envelope(Sync), x, b);
    m0 := MatchPrefix(Envelope(Sync), x, b).value;
  }

  /** The first envelope match of EncDecSync, when its payload holds no line
      terminator, is shut. */
  lemma {:induction false} OldShut(s: string, m: Span)
    requires FindFrom(Envelope(Sync), s, 0) == Some(m) && OneLine(Payload(s, m))
    ensures Shut(s[m.start..m.end])
    ensures s == s[..m.start] + s[m.start..m.end] + s[m.end..]
  {
    var m0 := OldMatch(s, m);
    var w := s[m.start..m.end];
    forall j | 0 <= j < |w|
      ensures !IsLineTerminator(w[j]) && (|MARKER_OPEN| <= j < |w| - 1 ==> w[j] != ')')
    {
      OldShutAt(s, m, m0, j);
    }
    OldShutEnds(s, m, m0);
    assert s == s[..m.start] + s[m.start..m.end] + s[m.end..];
  }

  /** `OldShut` at one character of the match. */
  lemma {:induction false} OldShutAt(s: string, m: Span, m0: Span, j: nat)
    requires FindFrom(Envelope(Sync), s, 0) == Some(m) && OneLine(Payload(s, m))
    requires ValidMatch(Envelope(Sync), s[m.start..], m0) && m == Shift(m0, m.start)
    requires j < m.end - m.start
    ensures !IsLineTerminator(s[m.start..m.end][j])
    ensures |MARKER_OPEN| <= j < m.end - m.start - 1 ==> s[m.start..m.end][j] != ')'
  {
    var x := s[m.start..];
    assert s[m.start..m.end][j] == x[j];
    if j < |MARKER_OPEN| {
      MarkerOneLine();
      assert x[j] == x[..|MARKER_OPEN|][j] == MARKER_OPEN[j];
    } else if j < m.end - m.start - 1 {
      MarkerChars();
      assert x[j] == Payload(s, m)[j - |MARKER_OPEN|];
      assert IsEnvelopeChar(x[j]);
    } else {
      assert x[j] == x[m0.pend];
    }
  }

  /** The match of `OldShut` opens with the marker and ends with ')'. */
  lemma {:induction false} OldShutEnds(s: string, m: Span, m0: Span)
    requires FindFrom(Envelope(Sync), s, 0) == Some(m)
    requires ValidMatch(Envelope(Sync), s[m.start..], m0) && m == Shift(m0, m.start)
    ensures var w := s[m.start..m.end];
            |w| > |MARKER_OPEN| && StartsWith(w, MARKER_OPEN) && w[|w| - 1] == ')'
  {
    var x := s[m.start..];
    var w := s[m.start..m.end];
    assert w == x[..m0.end];
    assert w[..|MARKER_OPEN|] == x[..|MARKER_OPEN|];
    assert w[|w| - 1] == x[m0.pend];
  }

  /** Before the marker at `q = |z|`, the rewritten text has a pending span
      only where the old one had: the lazy search up to that marker agrees. */
  lemma {:induction false} SyncEarlier(s: string, z: string, w: string, s1: string, w': string, t1: string, t: string, i: nat)
    requires s == z + w + s1 && t == z + w' + t1
    requires Shut(w) && Written(Sync, w') && !StartsWith(s1, MARKER) && !StartsWith(t1, MARKER)
    requires CloseFrom(s1) == CloseFrom(t1)
    requires i < |z| && MatchAt(Pending(Sync), s, i).None?
    ensures MatchAt(Pending(Sync), t, i).None?
  {
    var q := |z|;
    var a := |MARKER_OPEN|;
    WrittenShut(w');
    assert s[q..] == w + s1 && s[..q] == z;
    assert StartsWith(s[q..], MARKER_OPEN) by { assert s[q..][..a] == w[..a]; }
    assert Rewritten(Sync, s, q, w', t1, t);
    SuffixesAgree(Sync, s, q, w', t1, t, i);
    var x := s[i..];
    var d := q - i;
    AgreeStartsWith(x, t[i..], d + a, MARKER_OPEN);
    SyncMatchAt(s, i);
    SyncMatchAt(t, i);
    if StartsWith(x, MARKER_OPEN) {
      assert x[d..] == s[q..];
      if d < a {
        MarkerNoOverlap(x, d);
      }
      EarlierAhead(z, w, w', s1, t1, i + a + 1);
    }
  }

  /** At the marker `q = |z|` itself, a pending span would run across the
      envelope into the rest, in either text alike. */
  lemma {:induction false} SyncAtWord(s: string, z: string, w: string, s1: string, w': string, t1: string, t: string)
    requires s == z + w + s1 && t == z + w' + t1
    requires Shut(w) && Shut(w') && !StartsWith(s1, MARKER) && !StartsWith(t1, MARKER)
    requires CloseFrom(s1) == CloseFrom(t1)
    requires MatchAt(Pending(Sync), s, |z|).None?
    ensures MatchAt(Pending(Sync), t, |z|).None?
  {
    var q := |z|;
    var a := |MARKER_OPEN|;
    assert s[q..] == w + s1 && t[q..] == w' + t1;
    assert StartsWith(s[q..], MARKER_OPEN) by { assert s[q..][..a] == w[..a]; }
    assert StartsWith(t[q..], MARKER_OPEN) by { assert t[q..][..a] == w'[..a]; }
    if q > 0 {
      assert s[q - 1] == z[q - 1] == t[q - 1];
    }
    SyncMatchAt(s, q);
    SyncMatchAt(t, q);
    Crossing(z, w, s1, q + a + 1);
    Crossing(z, w', t1, q + a + 1);
  }

  /** Rewriting the first envelope match, shut, of a text free of pending
      spans with a whole envelope and a rest free of them, the lazy search
      treating both rests alike, adds none. */
  lemma {:induction false} SyncNoPending(s: string, z: string, w: string, s1: string, w': string, t1: string, t: string)
    requires s == z + w + s1 && t == z + w' + t1
    requires Shut(w) && Written(Sync, w') && !StartsWith(s1, MARKER) && !StartsWith(t1, MARKER)
    requires CloseFrom(s1) == CloseFrom(t1)
    requires !Contains(Pending(Sync), s) && !Contains(Pending(Sync), t1)
    ensures !Contains(Pending(Sync), t)
  {
    var q := |z|;
    WrittenShut(w');
    assert t[q + |w'| - 1] == w'[|w'| - 1] && t[q + |w'|..] == t1;
    forall i | 0 <= i <= |t|
      ensures MatchAt(Pending(Sync), t, i).None?
    {
      FindFromLeftmost(Pending(Sync), s, 0, if i <= q then i else 0);
      if i < q {
        SyncEarlier(s, z, w, s1, w', t1, t, i);
      } else if i == q {
        SyncAtWord(s, z, w, s1, w', t1, t);
      } else if i < q + |w'| {
        NoMarkerInsideWord(Sync, w', t1, i - q);
        assert t[i..] == (w' + t1)[i - q..];
      } else {
        PendingBehindParen(Sync, t, q + |w'|, i);
      }
    }
    NoMatchAnywhere(Pending(Sync), t, 0);
  }

  // ------------------------------------------------------------ every envelope replaced

  /** The rewrite adds no pending span, and the lazy search from the start
      treats the old and the rewritten text alike. */
  predicate Relined(s: string, ws: seq<string>)
    requires |ws| == |SliceSpans(Envelope(Sync), s)|
  {
    NoPendingAdded(Sync, s, ws) && CloseFrom(s) == CloseFrom(Rewrite(Sync, s, ws))
  }

  /** Every envelope payload of `s` stays on one line. */
  predicate PayloadsOneLine(s: string)
  {
    forall i :: 0 <= i < |EnvelopePayloads(Sync, s)| ==> OneLine(EnvelopePayloads(Sync, s)[i])
  }

  /** Rewriting every envelope span of a string whose payloads stay on one
      line with whole envelopes written on one line adds no pending span of
      EncDecSync, by induction over the spans. */
  lemma {:induction false} SyncWords(s: string, ws: seq<string>)
    requires |ws| == |SliceSpans(Envelope(Sync), s)|
    requires forall i :: 0 <= i < |ws| ==> Written(Sync, ws[i])
    requires PayloadsOneLine(s)
    ensures Relined(s, ws)
    decreases |s|
  {
    assert forall i :: 0 <= i < |ws| ==> IsWord(Sync, ws[i]) by {
      forall i | 0 <= i < |ws| ensures IsWord(Sync, ws[i]) { assert Written(Sync, ws[i]); }
    }
    match FindFrom(Envelope(Sync), s, 0)
    case None =>
      assert SliceSpans(Envelope(Sync), s) == [];
      assert Splice(s, [], ws, 0) == s[0..] == s;
    case Some(m) =>
      var s1 := s[m.end..];
      OneLineCons(s, m);
      SliceSpansHit(Envelope(Sync), s, m);
      SyncWords(s1, ws[1..]);
      SpliceWords(Sync, s1, ws[1..], ws[1..]);
      StepRelined(s, ws, m);
  }

  /** The envelope payloads of EncDecSync: the first, then those behind it. */
  lemma {:induction false} PayloadsHit(s: string, m: Span)
    requires FindFrom(Envelope(Sync), s, 0) == Some(m)
    ensures m.end <= |s| && EnvelopePayloads(Sync, s) == [Payload(s, m)] + EnvelopePayloads(Sync, s[m.end..])
  {
    SliceSpansHit(Envelope(Sync), s, m);
    PayloadsCons(s, m, SliceSpans(Envelope(Sync), s[m.end..]));
  }

  /** `PayloadsOneLine` for the first envelope and the rest behind it. */
  lemma {:induction false} OneLineCons(s: string, m: Span)
    requires FindFrom(Envelope(Sync), s, 0) == Some(m) && PayloadsOneLine(s)
    ensures m.end <= |s| && OneLine(Payload(s, m)) && PayloadsOneLine(s[m.end..])
  {
    var s1 := s[m.end..];
    PayloadsHit(s, m);
    assert Payload(s, m) == EnvelopePayloads(Sync, s)[0];
    forall i | 0 <= i < |EnvelopePayloads(Sync, s1)|
      ensures OneLine(EnvelopePayloads(Sync, s1)[i])
    {
      assert EnvelopePayloads(Sync, s1)[i] == EnvelopePayloads(Sync, s)[i + 1];
    }
  }

  /** The step of `SyncWords`. */
  lemma {:induction false} StepRelined(s: string, ws: seq<string>, m: Span)
    requires FindFrom(Envelope(Sync), s, 0) == Some(m) && OneLine(Payload(s, m))
    requires |ws| == |SliceSpans(Envelope(Sync), s)|
    requires forall i :: 0 <= i < |ws| ==> Written(Sync, ws[i]) && IsWord(Sync, ws[i])
    requires MarkerKept(Sync, s[m.end..], ws[1..]) && Relined(s[m.end..], ws[1..])
    ensures Relined(s, ws)
  {
    StepCloseFrom(s, ws, m);
    StepSyncPending(s, ws, m);
  }

  /** The step of `SyncWords` for the lazy search from the start. */
  lemma {:induction false} StepCloseFrom(s: string, ws: seq<string>, m: Span)
    requires FindFrom(Envelope(Sync), s, 0) == Some(m) && OneLine(Payload(s, m))
    requires |ws| == |SliceSpans(Envelope(Sync), s)|
    requires forall i :: 0 <= i < |ws| ==> Written(Sync, ws[i]) && IsWord(Sync, ws[i])
    requires MarkerKept(Sync, s[m.end..], ws[1..]) && Relined(s[m.end..], ws[1..])
    ensures CloseFrom(s) == CloseFrom(Rewrite(Sync, s, ws))
  {
    var m0, t1, t, m' := StepSetup(Sync, s, ws);
    OldShut(s, m);
    WrittenShut(ws[0]);
    CloseFromStep(s[..m.start], s[m.start..m.end], ws[0], s[m.end..], t1);
  }

  /** The step of `SyncWords` for pending spans. */
  lemma {:induction false} StepSyncPending(s: string, ws: seq<string>, m: Span)
    requires FindFrom(Envelope(Sync), s, 0) == Some(m) && OneLine(Payload(s, m))
    requires |ws| == |SliceSpans(Envelope(Sync), s)|
    requires forall i :: 0 <= i < |ws| ==> Written(Sync, ws[i]) && IsWord(Sync, ws[i])
    requires MarkerKept(Sync, s[m.end..], ws[1..]) && Relined(s[m.end..], ws[1..])
    ensures NoPendingAdded(Sync, s, ws)
  {
    var m0, t1, t, m' := StepSetup(Sync, s, ws);
    OldShut(s, m);
    SyncStep(s, s[..m.start], s[m.start..m.end], s[m.end..], ws[0], t1, t);
  }

  /** `SyncNoPending` once the rest adds no pending span either. */
  lemma {:induction false} SyncStep(s: string, z: string, w: string, s1: string, w': string, t1: string, t: string)
    requires s == z + w + s1 && t == z + w' + t1
    requires Shut(w) && Written(Sync, w') && !StartsWith(s1, MARKER) && !StartsWith(t1, MARKER)
    requires CloseFrom(s1) == CloseFrom(t1)
    requires !Contains(Pending(Sync), s1) ==> !Contains(Pending(Sync), t1)
    ensures !Contains(Pending(Sync), s) ==> !Contains(Pending(Sync), t)
  {
    if !Contains(Pending(Sync), s) {
      var e := |z| + |w|;
      assert s[e..] == s1 && s[e - 1] == w[|w| - 1];
      NoPendingAfterCut(Sync, s, e);
      SyncNoPending(s, z, w, s1, w', t1, t);
    }
  }

  // ------------------------------------------------------------ a line break inside an envelope

  /** A line terminator before any ')' stops the lazy search. */
  lemma {:induction false} LineStops(t: string, k: nat, j: nat)
    requires 1 <= k && k - 1 <= j < |t| && IsLineTerminator(t[j])
    requires forall i :: k <= i < j ==> t[i] != ')'
    ensures !CloseAhead(t, k)
    decreases j + 1 - k
  {
    if k - 1 < j {
      if PendingCloseAt(t, k) {
        CloseStartsParen(t, k);
      }
      LineStops(t, k + 1, j);
    }
  }

  /** A text without the marker has no match of either pattern. */
  lemma {:induction false} NoMarkerNoMatch(pat: Pattern, s: string)
    requires forall i :: 0 <= i <= |s| ==> !StartsWith(s[i..], MARKER_OPEN)
    ensures FindFrom(pat, s, 0).None?
  {
    forall i | 0 <= i <= |s|
      ensures MatchAt(pat, s, i).None?
    {
      assert !StartsWith(s[i..], MARKER_OPEN);
    }
    NoMatchAnywhere(pat, s, 0);
  }

  /** The pending close holds no marker. */
  lemma {:induction false} CloseHasNoMarker()
    ensures forall i :: 0 <= i <= |PENDING_CLOSE| ==> !StartsWith(PENDING_CLOSE[i..], MARKER_OPEN)
  {
    forall i | 0 <= i <= |PENDING_CLOSE|
      ensures !StartsWith(PENDING_CLOSE[i..], MARKER_OPEN)
    {
      if i == 0 {
        assert PENDING_CLOSE[0] != MARKER_OPEN[0];
        assert PENDING_CLOSE[0..][..|MARKER_OPEN|][0] == PENDING_CLOSE[0];
      }
    }
  }

  /** The only envelope of `VAULT_NACL(` + w + `)VAULT_NACL` is the whole
      envelope `w`: the scan from the outer marker stops at the '_' of the
      inner one. */
  lemma {:induction false} NestedEnvelope(w: string)
    requires IsWord(Sync, w)
    ensures var s := MARKER_OPEN + w + PENDING_CLOSE;
            var a := |MARKER_OPEN|;
            && SliceSpans(Envelope(Sync), s) == [Span(a, a + a, a + |w| - 1, a + |w|)]
            && Payload(s, Span(a, a + a, a + |w| - 1, a + |w|)) == Inner(w)
  {
    var s := MARKER_OPEN + w + PENDING_CLOSE;
    var a := |MARKER_OPEN|;
    NestedSpans(w);
    NestedPayload(w);
  }

  /** The payload of the inner envelope's span in the nested text. */
  lemma {:induction false} NestedPayload(w: string)
    requires |w| > |MARKER_OPEN|
    ensures var s := MARKER_OPEN + w + PENDING_CLOSE;
            var a := |MARKER_OPEN|;
            Payload(s, Span(a, a + a, a + |w| - 1, a + |w|)) == Inner(w)
  {
    var s := MARKER_OPEN + w + PENDING_CLOSE;
    var a := |MARKER_OPEN|;
    assert s[a..a + |w|] == w;
    assert Payload(s, Span(a, a + a, a + |w| - 1, a + |w|)) == s[a..a + |w|][a..|w| - 1];
  }

  /** The envelope spans of the nested text: the inner envelope alone. */
  lemma {:induction false} NestedSpans(w: string)
    requires IsWord(Sync, w)
    ensures var s := MARKER_OPEN + w + PENDING_CLOSE;
            var a := |MARKER_OPEN|;
            SliceSpans(Envelope(Sync), s) == [Span(a, a + a, a + |w| - 1, a + |w|)]
  {
    var s := MARKER_OPEN + w + PENDING_CLOSE;
    var a := |MARKER_OPEN|;
    var m := Span(a, a + a, a + |w| - 1, a + |w|);
    NestedFirst(w);
    SliceSpansHit(Envelope(Sync), s, m);
    assert s[m.end..] == PENDING_CLOSE;
    CloseHasNoMarker();
    NoMarkerNoMatch(Envelope(Sync), PENDING_CLOSE);
  }

  /** The first envelope of the nested text is the inner one. */
  lemma {:induction false} NestedFirst(w: string)
    requires IsWord(Sync, w)
    ensures var s := MARKER_OPEN + w + PENDING_CLOSE;
            var a := |MARKER_OPEN|;
            FindFrom(Envelope(Sync), s, 0) == Some(Span(a, a + a, a + |w| - 1, a + |w|))
  {
    var s := MARKER_OPEN + w + PENDING_CLOSE;
    var a := |MARKER_OPEN|;
    var m := Span(a, a + a, a + |w| - 1, a + |w|);
    NestedOuterNone(w);
    assert s[a..] == w + PENDING_CLOSE;
    assert !StartsWith(PENDING_CLOSE, MARKER) by {
      assert PENDING_CLOSE[..|MARKER|][0] == ')';
    }
    WordMatches(Sync, w, PENDING_CLOSE);
    assert MatchAt(Envelope(Sync), s, a) == Some(m);
    FindFromFirst(Envelope(Sync), s, 0, a, m);
  }

  /** No envelope starts inside the outer marker of the nested text: the scan
      from it stops at the '_' of the inner marker. */
  lemma {:induction false} NestedOuterNone(w: string)
    requires IsWord(Sync, w)
    ensures var s := MARKER_OPEN + w + PENDING_CLOSE;
            forall i :: 0 <= i < |MARKER_OPEN| ==> MatchAt(Envelope(Sync), s, i).None?
  {
    var s := MARKER_OPEN + w + PENDING_CLOSE;
    var a := |MARKER_OPEN|;
    MarkerChars();
    assert w[..a] == MARKER_OPEN;
    forall j | a <= j < a + 5
      ensures IsEnvelopeChar(s[j])
    {
      assert s[j] == w[j - a] == w[..a][j - a];
    }
    assert s[a + 5] == w[..a][5] == '_';
    SkipEnvelopeFinds(s, a, a + 5);
    EnvelopeFromAtRunEnd(Sync, s, a);
    assert s[0..] == s && s[..a] == MARKER_OPEN;
    forall i | 0 < i < a
      ensures MatchAt(Envelope(Sync), s, i).None?
    {
      MarkerNoOverlap(s, i);
    }
  }

  /** `VAULT_NACL(` + w + `)VAULT_NACL` has no pending span of EncDecSync when
      the payload of `w` holds a line terminator: from either marker the lazy
      search meets it before any ')'. */
  lemma {:induction false} NestedNoPending(w: string)
    requires IsWord(Sync, w) && !OneLine(Inner(w))
    ensures !Contains(Pending(Sync), MARKER_OPEN + w + PENDING_CLOSE)
  {
    var s := MARKER_OPEN + w + PENDING_CLOSE;
    var a := |MARKER_OPEN|;
    NestedStops(w);
    CloseHasNoMarker();
    forall i | 0 <= i <= |s|
      ensures MatchAt(Pending(Sync), s, i).None?
    {
      if i == 0 || i == a {
        SyncMatchAt(s, i);
      } else if i < a {
        MarkerNoOverlap(s, i);
      } else if i < a + |w| {
        NoMarkerInsideWord(Sync, w, PENDING_CLOSE, i - a);
        assert s[i..] == (w + PENDING_CLOSE)[i - a..];
      } else {
        assert s[i..] == PENDING_CLOSE[i - a - |w|..];
      }
    }
    NoMatchAnywhere(Pending(Sync), s, 0);
  }

  /** In the nested text, the lazy search from behind either marker meets
      the line terminator of the inner payload before any ')'. */
  lemma {:induction false} NestedStops(w: string)
    requires IsWord(Sync, w) && !OneLine(Inner(w))
    ensures var s := MARKER_OPEN + w + PENDING_CLOSE;
            var a := |MARKER_OPEN|;
            !CloseAhead(s, a + 1) && !CloseAhead(s, a + a + 1)
  {
    var s := MARKER_OPEN + w + PENDING_CLOSE;
    var a := |MARKER_OPEN|;
    var j :| 0 <= j < |Inner(w)| && IsLineTerminator(Inner(w)[j]);
    var lt := a + a + j;
    assert s[lt] == w[a + j] == Inner(w)[j];
    MarkerChars();
    forall i | a + 1 <= i < lt
      ensures s[i] != ')'
    {
      assert s[i] == w[i - a];
      if i - a < a {
        assert w[i - a] == w[..a][i - a];
      } else {
        assert IsEnvelopeChar(w[i - a]);
      }
    }
    LineStops(s, a + 1, lt);
    LineStops(s, a + a + 1, lt);
  }

  /** Splicing `y` into the one envelope span of the nested text. */
  lemma {:induction false} NestedSplice(w: string, y: string)
    requires |w| > |MARKER_OPEN|
    ensures var s := MARKER_OPEN + w + PENDING_CLOSE;
            var a := |MARKER_OPEN|;
            var spans := [Span(a, a + a, a + |w| - 1, a + |w|)];
            && Ordered(spans, 0, |s|)
            && Splice(s, spans, [y], 0) == MARKER_OPEN + y + PENDING_CLOSE
  {
    var s := MARKER_OPEN + w + PENDING_CLOSE;
    var a := |MARKER_OPEN|;
    var spans := [Span(a, a + a, a + |w| - 1, a + |w|)];
    assert spans[1..] == [];
    assert s[0..a] == MARKER_OPEN && s[a + |w|..] == PENDING_CLOSE;
  }

  /** Behind a marker, a whole envelope on one line and the pending close
      make a pending span of EncDecSync over the whole text: the lazy search
      runs through the envelope, whose ')' is followed by another ')'. */
  lemma {:induction false} WrappedPending(w: string)
    requires Written(Sync, w)
    ensures var t := MARKER_OPEN + w + PENDING_CLOSE;
            FindFrom(Pending(Sync), t, 0) == Some(Span(0, |MARKER_OPEN|, |MARKER_OPEN| + |w|, |t|))
  {
    var t := MARKER_OPEN + w + PENDING_CLOSE;
    var a := |MARKER_OPEN|;
    var k := a + |w|;
    assert t[..a] == MARKER_OPEN && t[k..] == PENDING_CLOSE;
    assert PendingCloseAt(t, k);
    WrappedNoEarlyClose(w);
    PendingSyncMatches(t, k);
    MatchAtStart(Pending(Sync), t, Span(0, a, k, k + |PENDING_CLOSE|));
  }

  /** Inside the wrapped envelope, no character is a line terminator and
      no pending close starts. */
  lemma {:induction false} WrappedNoEarlyClose(w: string)
    requires Written(Sync, w)
    ensures var t := MARKER_OPEN + w + PENDING_CLOSE;
            var a := |MARKER_OPEN|;
            && (forall j :: a <= j < a + |w| ==> !IsLineTerminator(t[j]))
            && (forall j :: a < j < a + |w| ==> !PendingCloseAt(t, j))
  {
    var t := MARKER_OPEN + w + PENDING_CLOSE;
    var a := |MARKER_OPEN|;
    var k := a + |w|;
    WrittenShut(w);
    MarkerChars();
    assert t[a..k] == w;
    forall j | a <= j < k
      ensures t[j] == w[j - a]
    {
      assert t[j] == t[a..k][j - a];
    }
    forall j | a < j < k
      ensures !PendingCloseAt(t, j)
    {
      if j < k - 1 {
        assert t[j] == w[j - a] != ')';
        if PendingCloseAt(t, j) {
          CloseStartsParen(t, j);
        }
      } else {
        assert t[k] == PENDING_CLOSE[0];
        CloseNeedsMarker(t, j);
      }
    }
  }

  /** A pending close has the marker's first letter behind its ')'. */
  lemma {:induction false} CloseNeedsMarker(t: string, k: nat)
    requires k + 1 < |t| && t[k + 1] != PENDING_CLOSE[1]
    ensures !PendingCloseAt(t, k)
  {
    if |t[k..]| >= |PENDING_CLOSE| {
      assert t[k..][1] == t[k + 1];
    }
  }
}
