/** Rewriting every envelope span of a string with another whole envelope, as
    phase two of rekey does, for either engine's envelope pattern. The
    envelope pattern then finds exactly the new envelopes, in the places of
    the old ones, and the text between them is the same: the marker cannot
    overlap itself, a whole envelope ends in ')', and the old match's
    lookahead still holds behind the new envelope. For EncDec's pending
    pattern, which cannot cross a ')', no pending span appears either
    (`PendingWords`); EncDecSync's lazy pattern is the subject of `Relines`.
    This is what lets a rekeyed string be opened under the new vault
    (`EncDec.RekeyTextRoundTrip`). */
module Resplice {
  import opened Base
  import opened Utils
  import opened Markers
  import opened Replace
  import opened Envelopes

  /** A whole envelope of flavour `f`: the marker, a payload of envelope
      characters that the payload test accepts, and ')'. */
  predicate IsWord(f: Flavor, w: string)
  {
    && |w| > |MARKER_OPEN| && StartsWith(w, MARKER_OPEN) && w[|w| - 1] == ')'
    && (forall j :: |MARKER_OPEN| <= j < |w| - 1 ==> IsEnvelopeChar(w[j]))
    && EnvelopeScan(f, w, |MARKER_OPEN|, |w| - 1, 0)
  }

  /** The payload of a whole envelope. */
  function Inner(w: string): string
    requires |w| > |MARKER_OPEN|
  {
    w[|MARKER_OPEN|..|w| - 1]
  }

  function Inners(ws: seq<string>): (r: seq<string>)
    requires forall i :: 0 <= i < |ws| ==> |ws[i]| > |MARKER_OPEN|
    ensures |r| == |ws|
    ensures forall i :: 0 <= i < |ws| ==> r[i] == Inner(ws[i])
  {
    if ws == [] then [] else [Inner(ws[0])] + Inners(ws[1..])
  }

  /** A text on one line: `.` matches each of its characters. */
  predicate OneLine(x: string)
  {
    forall j :: 0 <= j < |x| ==> !IsLineTerminator(x[j])
  }

  /** A whole envelope as phase two of flavour `f` writes it: EncDecSync's
      also stays on one line. */
  predicate Written(f: Flavor, w: string)
  {
    IsWord(f, w) && (f == Sync ==> OneLine(w))
  }

  /** A text the envelope pattern matches from end to end is a whole envelope. */
  lemma {:induction false} WordOfMatch(f: Flavor, w: string)
    requires |w| > |MARKER_OPEN|
    requires FindFrom(Envelope(f), w, 0) == Some(Span(0, |MARKER_OPEN|, |w| - 1, |w|))
    ensures IsWord(f, w)
  {
    FindFromFound(Envelope(f), w, 0);
    assert w[0..] == w;
    MatchPrefixValid(Envelope(f), w, true);
  }

  // ------------------------------------------------------------ characters

  lemma {:induction false} MarkerChars()
    ensures forall j :: 0 <= j < |MARKER_OPEN| ==> MARKER_OPEN[j] != ')'
    ensures forall j :: 0 <= j < |MARKER_OPEN| - 1 ==> MARKER_OPEN[j] != '('
    ensures MARKER_OPEN[5] == '_' && MARKER_OPEN[10] == '('
    ensures !IsEnvelopeChar('_') && !IsEnvelopeChar('(') && !IsEnvelopeChar(')')
  {
  }

  /** Two markers never overlap: the '(' ending the first would fall on a
      letter or '_' of the second. */
  lemma {:induction false} MarkerNoOverlap(x: string, d: nat)
    requires StartsWith(x, MARKER_OPEN) && 0 < d < |MARKER_OPEN|
    ensures !StartsWith(x[d..], MARKER_OPEN)
  {
    MarkerChars();
    assert x[10] == MARKER_OPEN[10];
    if |x| >= d + |MARKER_OPEN| {
      assert x[d..][10 - d] == x[10];
    }
  }

  /** No marker starts inside a whole envelope, whatever follows it. */
  lemma {:induction false} NoMarkerInsideWord(f: Flavor, w: string, r: string, d: nat)
    requires IsWord(f, w) && 0 < d < |w|
    ensures !StartsWith((w + r)[d..], MARKER_OPEN)
  {
    var x := w + r;
    MarkerChars();
    if d < |MARKER_OPEN| {
      assert x[..|MARKER_OPEN|] == w[..|MARKER_OPEN|];
      MarkerNoOverlap(x, d);
    } else if d + 10 <= |w| - 2 {
      assert x[d..][10] == w[d + 10];
    } else if |x| >= d + |MARKER_OPEN| {
      assert x[d..][|w| - 1 - d] == w[|w| - 1];
    }
  }

  // ------------------------------------------------------------ agreement

  lemma {:induction false} AgreeSlice(x: string, y: string, n: nat, i: nat, j: nat)
    requires n <= |x| && n <= |y| && x[..n] == y[..n] && i <= j <= n
    ensures x[i..j] == y[i..j]
  {
    forall k | i <= k < j
      ensures x[k] == y[k]
    {
      assert x[k] == x[..n][k] && y[k] == y[..n][k];
    }
    assert |x[i..j]| == |y[i..j]|;
    assert forall k :: 0 <= k < j - i ==> x[i..j][k] == x[i + k] && y[i..j][k] == y[i + k];
  }

  lemma {:induction false} AgreeStartsWith(x: string, y: string, n: nat, prefix: string)
    requires |prefix| <= n <= |x| && n <= |y| && x[..n] == y[..n]
    ensures StartsWith(x, prefix) == StartsWith(y, prefix)
  {
    AgreeSlice(x, y, n, 0, |prefix|);
  }

  lemma {:induction false} PadRunAgree(f: Flavor, t: string, u: string, i: nat, k: nat)
    requires i <= k <= |t| && k <= |u| && t[..k] == u[..k]
    ensures PadRun(f, t, i, k) == PadRun(f, u, i, k)
  {
    PadRunAll(f, t, i, k);
    PadRunAll(f, u, i, k);
    forall j | i <= j < k
      ensures t[j] == u[j]
    {
      assert t[j] == t[..k][j];
    }
  }

  /** The payload test reads only the payload. */
  lemma {:induction false} ScanAgree(f: Flavor, t: string, u: string, i: nat, k: nat, n: nat)
    requires i <= k <= |t| && k <= |u| && t[..k] == u[..k]
    ensures EnvelopeScan(f, t, i, k, n) == EnvelopeScan(f, u, i, k, n)
    decreases k - i
  {
    if i < k {
      assert t[i] == t[..k][i];
      PadRunAgree(f, t, u, i, k);
      ScanAgree(f, t, u, i + 1, k, n + 1);
    }
  }

  /** An envelope match reads the text only up to the end of the lookahead
      behind its ')': two texts that agree that far match alike. */
  lemma {:induction false} EnvelopePrefixAgree(f: Flavor, x: string, y: string, n: nat, b: bool)
    requires |MARKER_OPEN| <= n <= |x| && n <= |y| && x[..n] == y[..n]
    requires StartsWith(x, MARKER_OPEN) ==>
               var k := SkipEnvelope(x, |MARKER_OPEN|);
               k < n && (x[k] == ')' ==> k + 1 + |MARKER| <= n)
    ensures MatchPrefix(Envelope(f), x, b) == MatchPrefix(Envelope(f), y, b)
  {
    var a := |MARKER_OPEN|;
    AgreeStartsWith(x, y, n, MARKER_OPEN);
    if b && StartsWith(x, MARKER_OPEN) {
      var k := SkipEnvelope(x, a);
      SkipEnvelopeRun(x, a);
      AgreeSlice(x, y, n, 0, k + 1);
      forall j | a <= j <= k
        ensures x[j] == y[j]
      {
        assert x[j] == x[..k + 1][j];
        assert y[j] == y[..k + 1][j];
      }
      SkipEnvelopeFinds(y, a, k);
      EnvelopeFromAtRunEnd(f, x, a);
      EnvelopeFromAtRunEnd(f, y, a);
      AgreeSlice(x, y, n, 0, k);
      ScanAgree(f, x, y, a, k, 0);
      if x[k] == ')' {
        AgreeSlice(x, y, n, k + 1, k + 1 + |MARKER|);
        assert x[k + 1..][..|MARKER|] == x[k + 1..k + 1 + |MARKER|];
        assert y[k + 1..][..|MARKER|] == y[k + 1..k + 1 + |MARKER|];
      }
    }
  }

  /** A whole envelope followed by text that does not start with the marker
      is matched from end to end. */
  lemma {:induction false} WordMatches(f: Flavor, w: string, r: string)
    requires IsWord(f, w) && !StartsWith(r, MARKER)
    ensures MatchPrefix(Envelope(f), w + r, true) == Some(Span(0, |MARKER_OPEN|, |w| - 1, |w|))
  {
    var t := w + r;
    var k := |w| - 1;
    assert t[..|MARKER_OPEN|] == w[..|MARKER_OPEN|];
    assert t[..k] == w[..k];
    ScanAgree(f, w, t, |MARKER_OPEN|, k, 0);
    assert t[k + 1..] == r;
    EnvelopeMatches(f, t, k);
  }

  // ------------------------------------------------------------ matches

  /** What the search finds sits behind `\b` and starts with the marker. */
  lemma {:induction false} FoundAtMarker(pat: Pattern, s: string)
    requires FindFrom(pat, s, 0).Some?
    ensures var m := FindFrom(pat, s, 0).value;
            StartsWith(s[m.start..], MARKER_OPEN) && Boundary(s, m.start)
  {
    var m := FindFrom(pat, s, 0).value;
    FindFromFound(pat, s, 0);
    MatchPrefixValid(pat, s[m.start..], Boundary(s, m.start));
  }

  /** Behind an envelope match: a ')' and no marker. */
  lemma {:induction false} EnvelopeBehind(f: Flavor, s: string)
    requires FindFrom(Envelope(f), s, 0).Some?
    ensures var m := FindFrom(Envelope(f), s, 0).value;
            s[m.end - 1] == ')' && !StartsWith(s[m.end..], MARKER)
  {
    var m := FindFrom(Envelope(f), s, 0).value;
    FindFromFound(Envelope(f), s, 0);
    EnvelopeEndsWithParen(f, s, m.start, m);
    var t := s[m.start..];
    MatchPrefixValid(Envelope(f), t, Boundary(s, m.start));
    assert t[m.end - m.start..] == s[m.end..];
  }

  /** The first position that matches is what the search returns. */
  lemma {:induction false} FindFromFirst(pat: Pattern, s: string, from: nat, q: nat, m: Span)
    requires from <= q <= |s|
    requires forall i :: from <= i < q ==> MatchAt(pat, s, i).None?
    requires MatchAt(pat, s, q) == Some(m)
    ensures FindFrom(pat, s, from) == Some(m)
    decreases q - from
  {
    if from < q {
      FindFromFirst(pat, s, from + 1, q, m);
    }
  }

  /** Matching behind a ')' is matching on the text cut there. */
  lemma {:induction false} MatchAtCut(pat: Pattern, s: string, e: nat, j: nat)
    requires e <= |s| && j <= |s| - e
    requires e == 0 || s[e - 1] == ')'
    ensures MatchAt(pat, s, e + j) == ShiftOpt(MatchAt(pat, s[e..], j), e)
  {
    var b := Boundary(s, e + j);
    assert s[e..][j..] == s[e + j..];
    assert Boundary(s[e..], j) == b by {
      if j > 0 {
        assert s[e..][j - 1] == s[e + j - 1];
      }
    }
    var o := MatchPrefix(pat, s[e + j..], b);
    assert MatchAt(pat, s, e + j) == ShiftOpt(o, e + j);
    assert MatchAt(pat, s[e..], j) == ShiftOpt(o, j);
    if o.Some? {
      assert Shift(Shift(o.value, j), e) == Shift(o.value, e + j);
    }
  }

  /** No pending span in a text means none behind any ')' of it either. */
  lemma {:induction false} NoPendingAfterCut(f: Flavor, s: string, e: nat)
    requires e <= |s| && (e == 0 || s[e - 1] == ')')
    requires !Contains(Pending(f), s)
    ensures !Contains(Pending(f), s[e..])
  {
    forall j | 0 <= j <= |s[e..]|
      ensures MatchAt(Pending(f), s[e..], j).None?
    {
      MatchAtCut(Pending(f), s, e, j);
      FindFromLeftmost(Pending(f), s, 0, e + j);
    }
    NoMatchAnywhere(Pending(f), s[e..], 0);
  }

  // ------------------------------------------------------------ one envelope replaced

  /** `t` is `s` with the envelope match at `q` replaced by `w` and the text
      behind it by `r`: both keep the marker at `q`. */
  predicate Rewritten(f: Flavor, s: string, q: nat, w: string, r: string, t: string)
  {
    && q + |MARKER_OPEN| <= |s| && StartsWith(s[q..], MARKER_OPEN)
    && IsWord(f, w) && t == s[..q] + w + r
  }

  /** Up to the end of the marker at `q`, the rewritten text is the old one. */
  lemma {:induction false} RewrittenAgrees(f: Flavor, s: string, q: nat, w: string, r: string, t: string)
    requires Rewritten(f, s, q, w, r, t)
    ensures q + |MARKER_OPEN| <= |t| && t[..q + |MARKER_OPEN|] == s[..q + |MARKER_OPEN|]
  {
    var n := q + |MARKER_OPEN|;
    forall j | 0 <= j < n
      ensures t[j] == s[j]
    {
      if j >= q {
        assert t[j] == w[j - q] == w[..|MARKER_OPEN|][j - q];
        assert s[j] == s[q..][..|MARKER_OPEN|][j - q];
      }
    }
  }

  /** Before the marker at `q` the envelope pattern matches in the rewritten
      text where it matched in the old one: a marker there ends at least
      eleven characters before `q`, and its payload stops at the latest at the
      '_' of the marker at `q`, so everything the match reads lies in the part
      both texts share. */
  lemma {:induction false} EarlierEnvelope(f: Flavor, s: string, q: nat, w: string, r: string, t: string, i: nat)
    requires Rewritten(f, s, q, w, r, t) && i < q
    ensures MatchAt(Envelope(f), t, i) == MatchAt(Envelope(f), s, i)
  {
    var a := |MARKER_OPEN|;
    var n := q + a;
    RewrittenAgrees(f, s, q, w, r, t);
    var x := s[i..];
    var y := t[i..];
    var d := q - i;
    AgreeSlice(s, t, n, i, n);
    assert x[..n - i] == s[i..n] && y[..n - i] == t[i..n];
    if i > 0 {
      assert s[i - 1] == s[..n][i - 1] == t[..n][i - 1] == t[i - 1];
    }
    if StartsWith(x, MARKER_OPEN) {
      assert x[d..] == s[q..];
      if d < a {
        MarkerNoOverlap(x, d);
      }
      MarkerChars();
      assert x[d + 5] == s[q..][5] == '_';
      SkipEnvelopeRun(x, a);
      var k := SkipEnvelope(x, a);
      assert k <= d + 5;
      if d <= k {
        assert x[k] == s[q..][k - d];
      }
    }
    EnvelopePrefixAgree(f, x, y, n - i, Boundary(s, i));
  }

  /** At `q` the new envelope is matched whole. */
  lemma {:induction false} WordAt(f: Flavor, s: string, q: nat, w: string, r: string, t: string)
    requires Rewritten(f, s, q, w, r, t) && Boundary(s, q) && !StartsWith(r, MARKER)
    ensures MatchAt(Envelope(f), t, q) == Some(Span(q, q + |MARKER_OPEN|, q + |w| - 1, q + |w|))
  {
    assert t[q..] == w + r;
    if q > 0 {
      assert t[q - 1] == s[..q][q - 1] == s[q - 1];
    }
    WordMatches(f, w, r);
  }

  /** Nothing before the marker at `q` matches in the rewritten text when
      nothing did in the old one. */
  lemma {:induction false} EarlierNone(f: Flavor, s: string, q: nat, w: string, r: string, t: string)
    requires Rewritten(f, s, q, w, r, t)
    requires forall i :: 0 <= i < q ==> MatchAt(Envelope(f), s, i).None?
    ensures forall i :: 0 <= i < q ==> MatchAt(Envelope(f), t, i).None?
  {
    forall i | 0 <= i < q
      ensures MatchAt(Envelope(f), t, i).None?
    {
      EarlierEnvelope(f, s, q, w, r, t, i);
    }
  }

  /** Nothing matches before the first match. */
  lemma {:induction false} BeforeFirst(pat: Pattern, s: string)
    requires FindFrom(pat, s, 0).Some?
    ensures forall i :: 0 <= i < FindFrom(pat, s, 0).value.start ==> MatchAt(pat, s, i).None?
  {
    forall i | 0 <= i < FindFrom(pat, s, 0).value.start
      ensures MatchAt(pat, s, i).None?
    {
      FindFromLeftmost(pat, s, 0, i);
    }
  }

  /** The search finds the new envelope in place of the old first match. */
  lemma {:induction false} StepFind(f: Flavor, s: string, w: string, r: string, t: string)
    requires FindFrom(Envelope(f), s, 0).Some?
    requires IsWord(f, w) && !StartsWith(r, MARKER)
    requires t == s[..FindFrom(Envelope(f), s, 0).value.start] + w + r
    ensures var q := FindFrom(Envelope(f), s, 0).value.start;
            FindFrom(Envelope(f), t, 0) == Some(Span(q, q + |MARKER_OPEN|, q + |w| - 1, q + |w|))
  {
    var q := FindFrom(Envelope(f), s, 0).value.start;
    FoundAtMarker(Envelope(f), s);
    BeforeFirst(Envelope(f), s);
    FirstWordAt(f, s, q, w, r, t);
  }

  /** The word put at the first match of `s` is the first match of the
      rewritten text. */
  lemma {:induction false} FirstWordAt(f: Flavor, s: string, q: nat, w: string, r: string, t: string)
    requires Rewritten(f, s, q, w, r, t) && Boundary(s, q) && !StartsWith(r, MARKER)
    requires forall i :: 0 <= i < q ==> MatchAt(Envelope(f), s, i).None?
    ensures FindFrom(Envelope(f), t, 0) == Some(Span(q, q + |MARKER_OPEN|, q + |w| - 1, q + |w|))
  {
    EarlierNone(f, s, q, w, r, t);
    WordAt(f, s, q, w, r, t);
    FindFromFirst(Envelope(f), t, 0, q, Span(q, q + |MARKER_OPEN|, q + |w| - 1, q + |w|));
  }

  // ------------------------------------------------------------ no pending span

  /** A pending span cannot end at the ')' of a whole envelope, since no
      marker follows that; and it cannot end before it when no ')' comes
      first. */
  lemma {:induction false} PendingBlockedByWord(z: string, w: string, r: string, b: bool)
    requires IsWord(Async, w) && !StartsWith(r, MARKER)
    requires |z| == 0 || |z| >= |MARKER_OPEN|
    requires forall j :: |MARKER_OPEN| <= j < |z| ==> z[j] != ')'
    ensures MatchPrefix(Pending(Async), z + w + r, b).None?
  {
    var y := z + w + r;
    var a := |MARKER_OPEN|;
    if b && StartsWith(y, MARKER_OPEN) {
      var k := |z| + |w| - 1;
      MarkerChars();
      forall j | a <= j < k
        ensures y[j] != ')'
      {
        if j >= |z| {
          assert y[j] == w[j - |z|];
          if j - |z| < a {
            assert w[j - |z|] == w[..a][j - |z|];
          }
        }
      }
      assert y[k] == w[|w| - 1];
      SkipToParenFinds(y, a, k);
      assert y[k + 1..] == r;
      NoCloseBeforeRest(y, k, r);
      assert MatchPrefix(Pending(Async), y, b) == None;
    }
  }

  /** No pending close sits right before a text that does not start with the
      marker. */
  lemma {:induction false} NoCloseBeforeRest(y: string, k: nat, r: string)
    requires k < |y| && y[k + 1..] == r && !StartsWith(r, MARKER)
    ensures !PendingCloseAt(y, k)
  {
    if |y[k..]| >= |PENDING_CLOSE| {
      assert y[k..][1..|PENDING_CLOSE|] == r[..|MARKER|];
    }
  }

  /** The close test reads twelve characters. */
  lemma {:induction false} CloseAgree(x: string, y: string, n: nat, k: nat)
    requires n <= |x| && n <= |y| && x[..n] == y[..n] && k + |PENDING_CLOSE| < n
    ensures PendingCloseAt(x, k) == PendingCloseAt(y, k)
  {
    AgreeSlice(x, y, n, k, k + |PENDING_CLOSE| + 1);
    assert x[k..][..|PENDING_CLOSE|] == x[k..k + |PENDING_CLOSE|];
    assert y[k..][..|PENDING_CLOSE|] == y[k..k + |PENDING_CLOSE|];
    assert x[k + |PENDING_CLOSE|] == x[k..k + |PENDING_CLOSE| + 1][|PENDING_CLOSE|];
    assert y[k + |PENDING_CLOSE|] == y[k..k + |PENDING_CLOSE| + 1][|PENDING_CLOSE|];
  }

  /** A pending span reads the text only up to the character behind its
      close: two texts that agree that far match alike. */
  lemma {:induction false} PendingPrefixAgree(x: string, y: string, n: nat, b: bool)
    requires |MARKER_OPEN| <= n <= |x| && n <= |y| && x[..n] == y[..n]
    requires StartsWith(x, MARKER_OPEN) ==> SkipToParen(x, |MARKER_OPEN|) + |PENDING_CLOSE| < n
    ensures MatchPrefix(Pending(Async), x, b) == MatchPrefix(Pending(Async), y, b)
  {
    var a := |MARKER_OPEN|;
    AgreeStartsWith(x, y, n, MARKER_OPEN);
    if b && StartsWith(x, MARKER_OPEN) {
      var k := SkipToParen(x, a);
      SkipToParenRun(x, a);
      forall j | a <= j <= k
        ensures x[j] == y[j]
      {
        assert x[j] == x[..n][j];
        assert y[j] == y[..n][j];
      }
      SkipToParenFinds(y, a, k);
      CloseAgree(x, y, n, k);
    }
  }

  /** The suffixes at `i` of the old and the rewritten text agree up to the
      end of the marker at `q`, and so does `\b` in front of them. */
  lemma {:induction false} SuffixesAgree(f: Flavor, s: string, q: nat, w: string, r: string, t: string, i: nat)
    requires Rewritten(f, s, q, w, r, t) && i < q
    ensures var n := q + |MARKER_OPEN| - i;
            && n <= |s[i..]| && n <= |t[i..]| && s[i..][..n] == t[i..][..n]
            && Boundary(s, i) == Boundary(t, i)
  {
    var n := q + |MARKER_OPEN|;
    RewrittenAgrees(f, s, q, w, r, t);
    AgreeSlice(s, t, n, i, n);
    assert s[i..][..n - i] == s[i..n] && t[i..][..n - i] == t[i..n];
    if i > 0 {
      assert s[i - 1] == s[..n][i - 1] == t[..n][i - 1] == t[i - 1];
    }
  }

  /** Before the marker at `q` the rewritten text has a pending span only
      where the old one had: up to the first ')' both texts agree, and if that
      ')' lies past `q` it is the one closing the new envelope. */
  lemma {:induction false} EarlierPending(s: string, q: nat, w: string, r: string, t: string, i: nat)
    requires Rewritten(Async, s, q, w, r, t) && !StartsWith(r, MARKER) && i < q
    requires MatchAt(Pending(Async), s, i).None?
    ensures MatchAt(Pending(Async), t, i).None?
  {
    var a := |MARKER_OPEN|;
    var x := s[i..];
    var y := t[i..];
    var d := q - i;
    var b := Boundary(s, i);
    SuffixesAgree(Async, s, q, w, r, t, i);
    AgreeStartsWith(x, y, d + a, MARKER_OPEN);
    if b && StartsWith(x, MARKER_OPEN) {
      assert x[d..] == s[q..];
      if d < a {
        MarkerNoOverlap(x, d);
      }
      SkipToParenRun(x, a);
      if SkipToParen(x, a) < d {
        PendingPrefixAgree(x, y, d + a, b);
      } else {
        PendingBeforeWord(s, q, w, r, t, i);
      }
    }
  }

  /** A marker at `i` with no ')' up to `q`: the pending span could only end
      at the ')' of the new envelope. */
  lemma {:induction false} PendingBeforeWord(s: string, q: nat, w: string, r: string, t: string, i: nat)
    requires Rewritten(Async, s, q, w, r, t) && !StartsWith(r, MARKER)
    requires i + |MARKER_OPEN| <= q
    requires forall j :: i + |MARKER_OPEN| <= j < q ==> s[j] != ')'
    ensures MatchPrefix(Pending(Async), t[i..], Boundary(t, i)).None?
  {
    var z := s[i..q];
    assert t[i..] == z + w + r;
    forall j | |MARKER_OPEN| <= j < |z|
      ensures z[j] != ')'
    {
      assert z[j] == s[i + j];
    }
    PendingBlockedByWord(z, w, r, Boundary(t, i));
  }

  /** From the marker at `q` to the end of the new envelope, no pending span
      starts: at `q` it would have to end at the envelope's ')', and inside
      the envelope no marker starts. */
  lemma {:induction false} PendingInWord(s: string, q: nat, w: string, r: string, t: string, i: nat)
    requires Rewritten(Async, s, q, w, r, t) && !StartsWith(r, MARKER)
    requires q <= i < q + |w|
    ensures MatchAt(Pending(Async), t, i).None?
  {
    if i == q {
      assert t[q..] == [] + w + r;
      PendingBlockedByWord([], w, r, Boundary(t, q));
    } else {
      NoMarkerInsideWord(Async, w, r, i - q);
      assert t[i..] == (w + r)[i - q..];
    }
  }

  /** Behind a ')', pending spans are those of the text cut there. */
  lemma {:induction false} PendingBehindParen(f: Flavor, t: string, e: nat, i: nat)
    requires 0 < e <= i <= |t| && t[e - 1] == ')'
    requires !Contains(Pending(f), t[e..])
    ensures MatchAt(Pending(f), t, i).None?
  {
    FindFromLeftmost(Pending(f), t[e..], 0, i - e);
    NoneAcrossCut(Pending(f), t, e, i);
  }

  /** No match at `i` behind a cut at a ')' when there is none at the
      same place in the text after the cut. */
  lemma {:induction false} NoneAcrossCut(pat: Pattern, t: string, e: nat, i: nat)
    requires 0 < e <= i <= |t| && t[e - 1] == ')'
    requires MatchAt(pat, t[e..], i - e).None?
    ensures MatchAt(pat, t, i).None?
  {
    MatchAtCut(pat, t, e, i - e);
  }

  /** Rewriting the first envelope match of a text free of pending spans, with
      a whole envelope and a rest free of them, adds none. */
  lemma {:induction false} StepNoPending(s: string, w: string, r: string, t: string)
    requires FindFrom(Envelope(Async), s, 0).Some? && !Contains(Pending(Async), s)
    requires IsWord(Async, w) && !StartsWith(r, MARKER) && !Contains(Pending(Async), r)
    requires t == s[..FindFrom(Envelope(Async), s, 0).value.start] + w + r
    ensures !Contains(Pending(Async), t)
  {
    var q := FindFrom(Envelope(Async), s, 0).value.start;
    FoundAtMarker(Envelope(Async), s);
    assert Rewritten(Async, s, q, w, r, t);
    assert t[q + |w| - 1] == w[|w| - 1] && t[q + |w|..] == r;
    forall i | 0 <= i <= |t|
      ensures MatchAt(Pending(Async), t, i).None?
    {
      if i < q {
        FindFromLeftmost(Pending(Async), s, 0, i);
        EarlierPending(s, q, w, r, t, i);
      } else if i < q + |w| {
        PendingInWord(s, q, w, r, t, i);
      } else {
        PendingBehindParen(Async, t, q + |w|, i);
      }
    }
    NoMatchAnywhere(Pending(Async), t, 0);
  }

  // ------------------------------------------------------------ every envelope replaced

  /** Splicing over a first match and the shifted matches of the rest. */
  lemma {:induction false} SpliceCons(s: string, m: Span, rest: seq<Span>, reps: seq<string>)
    requires WellFormed(m, |s|) && Ordered(rest, 0, |s| - m.end) && |reps| == 1 + |rest|
    ensures Ordered([m] + ShiftAll(rest, m.end), 0, |s|)
    ensures Splice(s, [m] + ShiftAll(rest, m.end), reps, 0) == s[..m.start] + reps[0] + Splice(s[m.end..], rest, reps[1..], 0)
  {
    OrderedAfter(m, rest, |s|);
    var spans := [m] + ShiftAll(rest, m.end);
    assert spans[0] == m;
    assert spans[1..] == ShiftAll(rest, m.end);
    OrderedShift(rest, 0, |s| - m.end, m.end);
    var tail := Splice(s, ShiftAll(rest, m.end), reps[1..], m.end);
    assert tail == Splice(s[m.end..], rest, reps[1..], 0) by {
      SpliceShift(s, rest, reps[1..], m.end, 0);
    }
    assert Splice(s, spans, reps, 0) == s[0..m.start] + reps[0] + tail;
    assert s[0..m.start] == s[..m.start];
  }

  /** The payloads over a first match and the shifted matches of the rest. */
  lemma {:induction false} PayloadsCons(s: string, m: Span, rest: seq<Span>)
    requires WellFormed(m, |s|) && Ordered(rest, 0, |s| - m.end)
    ensures Ordered([m] + ShiftAll(rest, m.end), 0, |s|)
    ensures Payloads(s, [m] + ShiftAll(rest, m.end), 0) == [Payload(s, m)] + Payloads(s[m.end..], rest, 0)
  {
    OrderedAfter(m, rest, |s|);
    var spans := [m] + ShiftAll(rest, m.end);
    assert spans[0] == m;
    assert spans[1..] == ShiftAll(rest, m.end);
    PayloadsShift(s, rest, m.end, 0);
  }

  /** Every envelope span of `s` rewritten with the whole envelopes `ws`. */
  function Rewrite(f: Flavor, s: string, ws: seq<string>): (t: string)
    requires |ws| == |SliceSpans(Envelope(f), s)|
  {
    Splice(s, SliceSpans(Envelope(f), s), ws, 0)
  }

  /** After the rewrite the envelope pattern finds as many spans as before,
      with the new envelopes' payloads. */
  predicate SpansKept(f: Flavor, s: string, ws: seq<string>)
    requires |ws| == |SliceSpans(Envelope(f), s)|
    requires forall i :: 0 <= i < |ws| ==> IsWord(f, ws[i])
  {
    var t := Rewrite(f, s, ws);
    assert forall i :: 0 <= i < |ws| ==> |ws[i]| > |MARKER_OPEN| by {
      forall i | 0 <= i < |ws| ensures |ws[i]| > |MARKER_OPEN| { assert IsWord(f, ws[i]); }
    }
    && |SliceSpans(Envelope(f), t)| == |ws|
    && Payloads(t, SliceSpans(Envelope(f), t), 0) == Inners(ws)
  }

  /** Splicing texts `ys` into the rewritten spans gives what splicing them
      into the old spans gives. */
  predicate SpliceKept(f: Flavor, s: string, ws: seq<string>, ys: seq<string>)
    requires |ws| == |SliceSpans(Envelope(f), s)| == |ys|
  {
    var t := Rewrite(f, s, ws);
    && |SliceSpans(Envelope(f), t)| == |ys|
    && Splice(t, SliceSpans(Envelope(f), t), ys, 0) == Splice(s, SliceSpans(Envelope(f), s), ys, 0)
  }

  /** The rewritten text starts with the marker exactly when the old one did. */
  predicate MarkerKept(f: Flavor, s: string, ws: seq<string>)
    requires |ws| == |SliceSpans(Envelope(f), s)|
  {
    StartsWith(Rewrite(f, s, ws), MARKER) <==> StartsWith(s, MARKER)
  }

  /** What rewriting every envelope span of `s` with the whole envelopes `ws`
      gives, all three of the above. */
  predicate SplicesWell(f: Flavor, s: string, ws: seq<string>, ys: seq<string>)
    requires |ws| == |SliceSpans(Envelope(f), s)| == |ys|
    requires forall i :: 0 <= i < |ws| ==> IsWord(f, ws[i])
  {
    SpansKept(f, s, ws) && SpliceKept(f, s, ws, ys) && MarkerKept(f, s, ws)
  }

  /** Rewriting every envelope span with a whole envelope, by induction over
      the spans. */
  lemma {:induction false} SpliceWords(f: Flavor, s: string, ws: seq<string>, ys: seq<string>)
    requires |ws| == |SliceSpans(Envelope(f), s)| == |ys|
    requires forall i :: 0 <= i < |ws| ==> IsWord(f, ws[i])
    ensures SplicesWell(f, s, ws, ys)
    decreases |s|
  {
    match FindFrom(Envelope(f), s, 0)
    case None =>
      assert SliceSpans(Envelope(f), s) == [];
      assert Splice(s, [], ws, 0) == s[0..] == s;
      assert Splice(s, [], ys, 0) == s[0..] == s;
    case Some(m) =>
      SliceSpansHit(Envelope(f), s, m);
      SpliceWords(f, s[m.end..], ws[1..], ys[1..]);
      StepMarker(f, s, ws);
      StepSpans(f, s, ws);
      StepSpliceKept(f, s, ws, ys);
  }

  /** The first match of `s`, the rewrite `t` of `s` and the rewrite `t'` of
      what follows that match, and the first match `m'` of `t`. */
  lemma {:induction false} StepSetup(f: Flavor, s: string, ws: seq<string>) returns (m: Span, t': string, t: string, m': Span)
    requires FindFrom(Envelope(f), s, 0).Some?
    requires |ws| == |SliceSpans(Envelope(f), s)|
    requires forall i :: 0 <= i < |ws| ==> IsWord(f, ws[i])
    requires var m := FindFrom(Envelope(f), s, 0).value;
             MarkerKept(f, s[m.end..], ws[1..])
    ensures FindFrom(Envelope(f), s, 0) == Some(m)
    ensures m.end <= |s| && s[m.end - 1] == ')' && !StartsWith(s[m.end..], MARKER)
    ensures SliceSpans(Envelope(f), s) == [m] + ShiftAll(SliceSpans(Envelope(f), s[m.end..]), m.end)
    ensures |ws| >= 1 && |ws[0]| > |MARKER_OPEN|
    ensures t' == Rewrite(f, s[m.end..], ws[1..]) && !StartsWith(t', MARKER)
    ensures t == Rewrite(f, s, ws) && t == s[..m.start] + ws[0] + t'
    ensures m' == Span(m.start, m.start + |MARKER_OPEN|, m.start + |ws[0]| - 1, m.start + |ws[0]|)
    ensures WellFormed(m', |t|) && t[m'.end..] == t' && |t'| == |t| - m'.end && t[..m.start] == s[..m.start]
    ensures Payload(t, m') == Inner(ws[0])
    ensures SliceSpans(Envelope(f), t) == [m'] + ShiftAll(SliceSpans(Envelope(f), t'), m'.end)
  {
    m := FindFrom(Envelope(f), s, 0).value;
    RewriteCons(f, s, ws, m);
    t' := Rewrite(f, s[m.end..], ws[1..]);
    t := Rewrite(f, s, ws);
    EnvelopeBehind(f, s);
    assert !StartsWith(t', MARKER) by {
      assert MarkerKept(f, s[m.end..], ws[1..]);
    }
    m' := StepShape(f, s, ws[0], t', t, m);
  }

  /** The rewrite over the first match and the rewrite of what follows it. */
  lemma {:induction false} RewriteCons(f: Flavor, s: string, ws: seq<string>, m: Span)
    requires FindFrom(Envelope(f), s, 0) == Some(m)
    requires |ws| == |SliceSpans(Envelope(f), s)|
    ensures SliceSpans(Envelope(f), s) == [m] + ShiftAll(SliceSpans(Envelope(f), s[m.end..]), m.end)
    ensures |ws| >= 1 && |ws[1..]| == |SliceSpans(Envelope(f), s[m.end..])|
    ensures Rewrite(f, s, ws) == s[..m.start] + ws[0] + Rewrite(f, s[m.end..], ws[1..])
  {
    SliceSpansHit(Envelope(f), s, m);
    SpliceCons(s, m, SliceSpans(Envelope(f), s[m.end..]), ws);
  }

  /** The step of `SpliceWords` for the leading marker. */
  lemma {:induction false} StepMarker(f: Flavor, s: string, ws: seq<string>)
    requires FindFrom(Envelope(f), s, 0).Some?
    requires |ws| == |SliceSpans(Envelope(f), s)|
    requires forall i :: 0 <= i < |ws| ==> IsWord(f, ws[i])
    requires var m := FindFrom(Envelope(f), s, 0).value;
             MarkerKept(f, s[m.end..], ws[1..])
    ensures MarkerKept(f, s, ws)
  {
    var m, t', t, m' := StepSetup(f, s, ws);
    FoundAtMarker(Envelope(f), s);
    RewrittenAgrees(f, s, m.start, ws[0], t', t);
    AgreeStartsWith(t, s, m.start + |MARKER_OPEN|, MARKER);
  }

  /** The step of `SpliceWords` for the spans and their payloads. */
  lemma {:induction false} StepSpans(f: Flavor, s: string, ws: seq<string>)
    requires FindFrom(Envelope(f), s, 0).Some?
    requires |ws| == |SliceSpans(Envelope(f), s)|
    requires forall i :: 0 <= i < |ws| ==> IsWord(f, ws[i])
    requires var m := FindFrom(Envelope(f), s, 0).value;
             MarkerKept(f, s[m.end..], ws[1..]) && SpansKept(f, s[m.end..], ws[1..])
    ensures SpansKept(f, s, ws)
  {
    var m, t', t, m' := StepSetup(f, s, ws);
    PayloadsCons(t, m', SliceSpans(Envelope(f), t'));
    assert Inners(ws) == [Inner(ws[0])] + Inners(ws[1..]);
  }

  /** The step of `SpliceWords` for splicing other texts into the spans. */
  lemma {:induction false} StepSpliceKept(f: Flavor, s: string, ws: seq<string>, ys: seq<string>)
    requires FindFrom(Envelope(f), s, 0).Some?
    requires |ws| == |SliceSpans(Envelope(f), s)| == |ys|
    requires forall i :: 0 <= i < |ws| ==> IsWord(f, ws[i])
    requires var m := FindFrom(Envelope(f), s, 0).value;
             MarkerKept(f, s[m.end..], ws[1..]) && SpliceKept(f, s[m.end..], ws[1..], ys[1..])
    ensures SpliceKept(f, s, ws, ys)
  {
    var m, t', t, m' := StepSetup(f, s, ws);
    StepSplice(s, t, t', m, m', SliceSpans(Envelope(f), s[m.end..]), SliceSpans(Envelope(f), t'), ys);
  }

  /** Rewriting the first match with a whole envelope: the text is the old
      one up to the match, the envelope, and the rewritten rest; its spans
      are the envelope's and those of the rewritten rest. */
  lemma {:induction false} StepShape(f: Flavor, s: string, w: string, t': string, t: string, m: Span) returns (m': Span)
    requires FindFrom(Envelope(f), s, 0) == Some(m)
    requires IsWord(f, w) && !StartsWith(t', MARKER)
    requires t == s[..m.start] + w + t'
    ensures m' == Span(m.start, m.start + |MARKER_OPEN|, m.start + |w| - 1, m.start + |w|)
    ensures WellFormed(m', |t|) && t[m'.end..] == t' && |t'| == |t| - m'.end && t[..m.start] == s[..m.start]
    ensures Payload(t, m') == Inner(w)
    ensures SliceSpans(Envelope(f), t) == [m'] + ShiftAll(SliceSpans(Envelope(f), t'), m'.end)
  {
    StepFind(f, s, w, t', t);
    m' := Span(m.start, m.start + |MARKER_OPEN|, m.start + |w| - 1, m.start + |w|);
    assert t[m'.end..] == t';
    assert t[m'.pstart..m'.pend] == w[|MARKER_OPEN|..|w| - 1];
    SliceSpansHit(Envelope(f), t, m');
  }

  /** Splicing `ys` into the new spans is splicing them into the old ones,
      when the two texts agree before the first span and the rests agree. */
  lemma {:induction false} StepSplice(s: string, t: string, t': string, m: Span, m': Span,
                                      rest: seq<Span>, trest: seq<Span>, ys: seq<string>)
    requires WellFormed(m, |s|) && Ordered(rest, 0, |s| - m.end)
    requires WellFormed(m', |t|) && Ordered(trest, 0, |t| - m'.end)
    requires m'.start == m.start && t[..m.start] == s[..m.start] && t[m'.end..] == t'
    requires |ys| == 1 + |rest| == 1 + |trest|
    requires Splice(t', trest, ys[1..], 0) == Splice(s[m.end..], rest, ys[1..], 0)
    ensures Ordered([m] + ShiftAll(rest, m.end), 0, |s|)
    ensures Ordered([m'] + ShiftAll(trest, m'.end), 0, |t|)
    ensures Splice(t, [m'] + ShiftAll(trest, m'.end), ys, 0) == Splice(s, [m] + ShiftAll(rest, m.end), ys, 0)
  {
    SpliceCons(s, m, rest, ys);
    SpliceCons(t, m', trest, ys);
  }

  // ------------------------------------------------------------ EncDec's pending spans

  /** The rewrite lets no pending span of flavour `f` appear. */
  predicate NoPendingAdded(f: Flavor, s: string, ws: seq<string>)
    requires |ws| == |SliceSpans(Envelope(f), s)|
  {
    !Contains(Pending(f), s) ==> !Contains(Pending(f), Rewrite(f, s, ws))
  }

  /** For EncDec's pattern, whose payload cannot cross a ')', rewriting every
      envelope span with a whole envelope adds no pending span, by induction
      over the spans. */
  lemma {:induction false} PendingWords(s: string, ws: seq<string>)
    requires |ws| == |SliceSpans(Envelope(Async), s)|
    requires forall i :: 0 <= i < |ws| ==> IsWord(Async, ws[i])
    ensures NoPendingAdded(Async, s, ws)
    decreases |s|
  {
    match FindFrom(Envelope(Async), s, 0)
    case None =>
      assert SliceSpans(Envelope(Async), s) == [];
      assert Splice(s, [], ws, 0) == s[0..] == s;
    case Some(m) =>
      SliceSpansHit(Envelope(Async), s, m);
      PendingWords(s[m.end..], ws[1..]);
      SpliceWords(Async, s[m.end..], ws[1..], ws[1..]);
      StepPending(s, ws);
  }

  /** The step of `PendingWords`. */
  lemma {:induction false} StepPending(s: string, ws: seq<string>)
    requires FindFrom(Envelope(Async), s, 0).Some?
    requires |ws| == |SliceSpans(Envelope(Async), s)|
    requires forall i :: 0 <= i < |ws| ==> IsWord(Async, ws[i])
    requires var m := FindFrom(Envelope(Async), s, 0).value;
             MarkerKept(Async, s[m.end..], ws[1..]) && NoPendingAdded(Async, s[m.end..], ws[1..])
    ensures NoPendingAdded(Async, s, ws)
  {
    var m, t', t, m' := StepSetup(Async, s, ws);
    if !Contains(Pending(Async), s) {
      NoPendingAfterCut(Async, s, m.end);
      StepNoPending(s, ws[0], t', t);
    }
  }
}
