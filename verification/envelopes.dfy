/** What the marker patterns find in the two kinds of text the engines write:
    a sealed envelope (`wrapEncrypted` around base64 text, split into lines or
    not) is one whole envelope match and holds no pending span, and a string
    made into a pending span by `encryptString` holds exactly that pending
    span and no envelope. */
module Envelopes {
  import opened Base
  import opened Utils
  import opened Primitives
  import opened Markers
  import opened Replace

  // ------------------------------------------------------------ base64 text

  /** `c` is alphabet characters up to `kb`, then at most two '='. */
  predicate PaddedAt(c: string, kb: nat)
  {
    && kb <= |c| && |c| - kb <= 2
    && (forall j :: 0 <= j < kb ==> IsBase64Char(c[j]))
    && (forall j :: kb <= j < |c| ==> c[j] == '=')
  }

  /** Canonical base64 text splits into its alphabet part and its padding. */
  lemma Base64Padded(c: string, n: nat) returns (kb: nat)
    requires Base64Shape(c, n)
    ensures n <= kb && PaddedAt(c, kb)
  {
    if |c| >= 1 && c[|c| - 1] == '=' {
      if |c| >= 2 && c[|c| - 2] == '=' {
        kb := |c| - 2;
      } else {
        kb := |c| - 1;
      }
    } else {
      kb := |c|;
    }
  }

  /** The text `L` reads as body characters up to `x`, then at most three
      characters each '=' or a line break. */
  predicate Layout(L: string, x: nat)
  {
    && x <= |L| && |L| - x <= 3
    && (forall j :: 0 <= j < x ==> IsBodyChar(L[j]))
    && (forall j :: x <= j < |L| ==> L[j] == '=' || L[j] == '\n')
  }

  lemma PaddedSuffix(s: string, kb: nat)
    requires |s| > LINE_WIDTH && kb >= LINE_WIDTH && PaddedAt(s, kb)
    ensures PaddedAt(s[LINE_WIDTH..], kb - LINE_WIDTH)
  {
    var t := s[LINE_WIDTH..];
    forall j | 0 <= j < kb - LINE_WIDTH
      ensures IsBase64Char(t[j])
    {
      assert t[j] == s[j + LINE_WIDTH];
    }
    forall j | kb - LINE_WIDTH <= j < |t|
      ensures t[j] == '='
    {
      assert t[j] == s[j + LINE_WIDTH];
    }
  }

  /** Cutting padded base64 text into lines of 80 leaves the padding at the
      end: the body runs at least as far as the alphabet part, and what follows
      it is the padding with at most one line break inside. */
  lemma {:induction false} JoinChunksLayout(s: string, kb: nat) returns (x: nat)
    requires |s| > 0 && PaddedAt(s, kb)
    ensures kb <= x && Layout(Join(Chunks(s), "\n"), x)
    decreases |s|
  {
    var L := Join(Chunks(s), "\n");
    if |s| <= LINE_WIDTH {
      assert L == s;
      x := kb;
    } else {
      var rest := Chunks(s[LINE_WIDTH..]);
      assert ([s[..LINE_WIDTH]] + rest)[1..] == rest;
      var L' := Join(rest, "\n");
      assert L == s[..LINE_WIDTH] + "\n" + L';
      if kb >= LINE_WIDTH {
        PaddedSuffix(s, kb);
        var x' := JoinChunksLayout(s[LINE_WIDTH..], kb - LINE_WIDTH);
        x := LINE_WIDTH + 1 + x';
        forall j | 0 <= j < x
          ensures IsBodyChar(L[j])
        {
          if j > LINE_WIDTH {
            assert L[j] == L'[j - LINE_WIDTH - 1];
          }
        }
        forall j | x <= j < |L|
          ensures L[j] == '=' || L[j] == '\n'
        {
          assert L[j] == L'[j - LINE_WIDTH - 1];
        }
      } else {
        // 81 characters, the last two '=': the second '=' opens a line of its own
        assert s[LINE_WIDTH..] == [s[LINE_WIDTH]];
        assert L' == "=";
        x := kb;
      }
    }
  }

  // ------------------------------------------------------------ search helpers

  /** Where no '(' can complete a marker, nothing is found. */
  lemma {:induction false} NoMatchWithoutOpen(pat: Pattern, s: string, from: nat)
    requires from <= |s|
    requires forall j :: from + 10 <= j < |s| ==> s[j] != '('
    ensures FindFrom(pat, s, from).None?
    decreases |s| - from
  {
    if |MARKER_OPEN| <= |s| - from {
      assert s[from..][..|MARKER_OPEN|][10] == s[from + 10] != MARKER_OPEN[10];
    }
    if from < |s| {
      NoMatchWithoutOpen(pat, s, from + 1);
    }
  }

  /** A search that finds nothing at any position finds nothing. */
  lemma {:induction false} NoMatchAnywhere(pat: Pattern, s: string, from: nat)
    requires from <= |s|
    requires forall i :: from <= i <= |s| ==> MatchAt(pat, s, i).None?
    ensures FindFrom(pat, s, from).None?
    decreases |s| - from
  {
    if from < |s| {
      NoMatchAnywhere(pat, s, from + 1);
    }
  }

  /** A match at position 0 is what the search returns. */
  lemma MatchAtStart(pat: Pattern, s: string, m: Span)
    requires MatchPrefix(pat, s, true) == Some(m)
    ensures FindFrom(pat, s, 0) == Some(m)
  {
    assert s[0..] == s;
    assert Shift(m, 0) == m;
  }

  // ------------------------------------------------------------ sealed text

  /** A line break is a body character and, for EncDec, padding too. */
  lemma SealedPayloadScan(f: Flavor, w: string, a: nat, k: nat, x: nat)
    requires a <= x <= k <= |w|
    requires x - a >= MIN_BODY && k - x <= MaxPad(f)
    requires forall j :: a <= j < x ==> IsBodyChar(w[j])
    requires forall j :: x <= j < k ==> IsPad(f, w[j])
    ensures forall j :: a <= j < k ==> IsEnvelopeChar(w[j])
    ensures EnvelopeScan(f, w, a, k, 0)
  {
    assert EnvelopeSplit(f, w, a, k, x);
    EnvelopeScanIffSplit(f, w, a, k);
  }

  /** `VAULT_NACL(` + payload + `)` whose payload is a body of at least 37
      characters and a short padding is one envelope match over the whole
      text, and no pending span. */
  lemma WrappedEnvelope(f: Flavor, w: string, x: nat)
    requires StartsWith(w, MARKER_OPEN) && w[|w| - 1] == ')'
    requires |MARKER_OPEN| + MIN_BODY <= x <= |w| - 1 && |w| - 1 - x <= MaxPad(f)
    requires forall j :: |MARKER_OPEN| <= j < x ==> IsBodyChar(w[j])
    requires forall j :: x <= j < |w| - 1 ==> IsPad(f, w[j])
    ensures FindFrom(Envelope(f), w, 0) == Some(Span(0, |MARKER_OPEN|, |w| - 1, |w|))
    ensures FindFrom(Pending(f), w, 0).None?
  {
    var a := |MARKER_OPEN|;
    var k := |w| - 1;
    SealedPayloadScan(f, w, a, k, x);
    assert w[k + 1..] == [];
    EnvelopeMatches(f, w, k);
    MatchAtStart(Envelope(f), w, Span(0, a, k, k + 1));
    SealedHasNoPending(f, w);
  }

  /** The single-line envelope of base64 text. */
  lemma FlatIsEnvelope(f: Flavor, c: string)
    requires Base64Shape(c, MIN_BODY)
    ensures var w := WrapEncrypted(c, false);
            && FindFrom(Envelope(f), w, 0) == Some(Span(0, |MARKER_OPEN|, |w| - 1, |w|))
            && FindFrom(Pending(f), w, 0).None?
  {
    var kb := Base64Padded(c, MIN_BODY);
    var w := WrapEncrypted(c, false);
    var a := |MARKER_OPEN|;
    assert w == MARKER_OPEN + c + ")";
    forall j | a <= j < a + kb
      ensures IsBodyChar(w[j])
    {
      assert w[j] == c[j - a];
    }
    forall j | a + kb <= j < |w| - 1
      ensures IsPad(f, w[j])
    {
      assert w[j] == c[j - a];
    }
    WrappedEnvelope(f, w, a + kb);
  }

  /** The envelope of base64 text cut into lines of 80. */
  lemma SplitIsEnvelope(c: string)
    requires Base64Shape(c, MIN_BODY)
    ensures SplitLines(c, true).Ok?
    ensures var w := WrapEncrypted(SplitLines(c, true).value, true);
            && FindFrom(Envelope(Async), w, 0) == Some(Span(0, |MARKER_OPEN|, |w| - 1, |w|))
            && FindFrom(Pending(Async), w, 0).None?
  {
    var kb := Base64Padded(c, MIN_BODY);
    var x := JoinChunksLayout(c, kb);
    var lines := SplitLines(c, true).value;
    var w := WrapEncrypted(lines, true);
    var a := |MARKER_OPEN|;
    assert w == MARKER_OPEN + "\n" + lines + "\n)";
    forall j | a <= j < a + 1 + x
      ensures IsBodyChar(w[j])
    {
      if j > a {
        assert w[j] == lines[j - a - 1];
      }
    }
    forall j | a + 1 + x <= j < |w| - 1
      ensures IsPad(Async, w[j])
    {
      if j < |w| - 2 {
        assert w[j] == lines[j - a - 1];
      }
    }
    WrappedEnvelope(Async, w, a + 1 + x);
  }

  /** A sealed envelope is one envelope match over the whole text, and no
      pending span. EncDecSync only writes single-line envelopes. */
  lemma SealedIsEnvelope(f: Flavor, c: string, doSplit: bool)
    requires Base64Shape(c, MIN_BODY)
    requires f == Sync ==> !doSplit
    ensures SplitLines(c, doSplit).Ok?
    ensures var w := WrapEncrypted(SplitLines(c, doSplit).value, doSplit);
            && FindFrom(Envelope(f), w, 0) == Some(Span(0, |MARKER_OPEN|, |w| - 1, |w|))
            && FindFrom(Pending(f), w, 0).None?
  {
    if doSplit {
      SealedSplit(f, c, doSplit);
    } else {
      SealedFlat(f, c);
    }
  }

  /** `SealedIsEnvelope` when the payload is split. */
  lemma SealedSplit(f: Flavor, c: string, doSplit: bool)
    requires Base64Shape(c, MIN_BODY) && doSplit && f == Async
    ensures SplitLines(c, doSplit).Ok?
    ensures var w := WrapEncrypted(SplitLines(c, doSplit).value, doSplit);
            && FindFrom(Envelope(f), w, 0) == Some(Span(0, |MARKER_OPEN|, |w| - 1, |w|))
            && FindFrom(Pending(f), w, 0).None?
  {
    SplitIsEnvelope(c);
  }

  /** `SealedIsEnvelope` when the payload stays on one line. */
  lemma SealedFlat(f: Flavor, c: string)
    requires Base64Shape(c, MIN_BODY)
    ensures SplitLines(c, false).Ok?
    ensures var w := WrapEncrypted(SplitLines(c, false).value, false);
            && FindFrom(Envelope(f), w, 0) == Some(Span(0, |MARKER_OPEN|, |w| - 1, |w|))
            && FindFrom(Pending(f), w, 0).None?
  {
    FlatIsEnvelope(f, c);
  }

  /** Text `VAULT_NACL(` + payload + `)` whose payload holds no '(' or ')' is
      not a pending span, nor does one start inside it. */
  lemma SealedHasNoPending(f: Flavor, w: string)
    requires StartsWith(w, MARKER_OPEN) && |w| > |MARKER_OPEN| && w[|w| - 1] == ')'
    requires forall j :: |MARKER_OPEN| <= j < |w| - 1 ==> IsEnvelopeChar(w[j])
    ensures FindFrom(Pending(f), w, 0).None?
  {
    var a := |MARKER_OPEN|;
    forall j | a <= j < |w|
      ensures !PendingCloseAt(w, j)
    {
      if j < |w| - 1 {
        assert w[j..][0] == w[j];
      }
    }
    match f {
      case Async =>
        SkipToParenRun(w, a);
        var k := SkipToParen(w, a);
        assert k == |w| - 1;
      case Sync =>
        LazyCloseNone(w, a + 1);
    }
    assert MatchPrefix(Pending(f), w, true).None?;
    assert w[0..] == w;
    NoMatchWithoutOpen(Pending(f), w, 1);
  }

  /** The lazy search finds nothing when no close sits anywhere ahead. */
  lemma {:induction false} LazyCloseNone(t: string, k: nat)
    requires |MARKER_OPEN| < k <= |t|
    requires forall j :: k <= j <= |t| ==> !PendingCloseAt(t, j)
    ensures LazyClose(t, k).None?
    decreases |t| - k
  {
    if k < |t| && !IsLineTerminator(t[k - 1]) {
      LazyCloseNone(t, k + 1);
    }
  }

  // ------------------------------------------------------------ pending text

  /** `VAULT_NACL(` + str + `)VAULT_NACL`, for a non-empty `str` without ')'
      (and, for EncDecSync, without line terminators), is one pending match
      over the whole text and holds no envelope. */
  lemma PendingOnly(f: Flavor, str: string)
    requires |str| > 0
    requires forall j :: 0 <= j < |str| ==> str[j] != ')'
    requires f == Sync ==> forall j :: 0 <= j < |str| ==> !IsLineTerminator(str[j])
    ensures var t := MARKER_OPEN + str + PENDING_CLOSE;
            && FindFrom(Pending(f), t, 0) == Some(Span(0, |MARKER_OPEN|, |MARKER_OPEN| + |str|, |t|))
            && FindFrom(Envelope(f), t, 0).None?
  {
    var t := MARKER_OPEN + str + PENDING_CLOSE;
    var a := |MARKER_OPEN|;
    var k := a + |str|;
    assert StartsWith(t, MARKER_OPEN);
    assert t[k..] == PENDING_CLOSE;
    assert PendingCloseAt(t, k);
    forall j | a <= j < k
      ensures t[j] == str[j - a]
    {
    }
    match f {
      case Async =>
        PendingAsyncMatches(t, k);
      case Sync =>
        forall j | a < j < k
          ensures !PendingCloseAt(t, j)
        {
          assert t[j..][0] == t[j];
        }
        PendingSyncMatches(t, k);
    }
    MatchAtStart(Pending(f), t, Span(0, a, k, k + |PENDING_CLOSE|));
    forall i | 0 <= i <= |t|
      ensures MatchAt(Envelope(f), t, i).None?
    {
      PendingHasNoEnvelopeAt(f, str, i);
    }
    NoMatchAnywhere(Envelope(f), t, 0);
  }

  lemma PendingHasNoEnvelopeAt(f: Flavor, str: string, i: nat)
    requires forall j :: 0 <= j < |str| ==> str[j] != ')'
    requires i <= |MARKER_OPEN + str + PENDING_CLOSE|
    ensures MatchAt(Envelope(f), MARKER_OPEN + str + PENDING_CLOSE, i).None?
  {
    var t := MARKER_OPEN + str + PENDING_CLOSE;
    var a := |MARKER_OPEN|;
    if StartsWith(t[i..], MARKER_OPEN) {
      // the '(' of the marker lies before the trailing close
      assert t[i + 10] == '(';
      assert i + 10 < a + |str|;
      var q := str[i..];
      assert t[i..] == MARKER_OPEN + q + PENDING_CLOSE + "";
      forall j | 0 <= j < |q|
        ensures q[j] != ')'
      {
        assert q[j] == str[i + j];
      }
      PendingIsNotEnvelope(f, q, "", Boundary(t, i));
    }
  }

  /** Both iterations rewrite a lone pending span by the callback on its
      payload. */
  lemma PendingReplace<S>(f: Flavor, str: string, fn: (string, S) -> Result<Step<S>>, st: S)
    requires |str| > 0
    requires forall j :: 0 <= j < |str| ==> str[j] != ')'
    requires f == Sync ==> forall j :: 0 <= j < |str| ==> !IsLineTerminator(str[j])
    ensures ReplaceLoop(Pending(f), MARKER_OPEN + str + PENDING_CLOSE, fn, st) == fn(str, st)
    ensures GlobalReplace(Pending(f), MARKER_OPEN + str + PENDING_CLOSE, fn, st) == fn(str, st)
    ensures !Contains(Envelope(f), MARKER_OPEN + str + PENDING_CLOSE)
  {
    var t := MARKER_OPEN + str + PENDING_CLOSE;
    PendingOnly(f, str);
    var m := Span(0, |MARKER_OPEN|, |MARKER_OPEN| + |str|, |t|);
    assert Payload(t, m) == str;
    ReplaceWhole(Pending(f), t, m, fn, st);
  }

  /** Both iterations rewrite a lone envelope by the callback on its
      payload. */
  lemma EnvelopeReplace<S>(f: Flavor, w: string, fn: (string, S) -> Result<Step<S>>, st: S)
    requires |w| > |MARKER_OPEN|
    requires FindFrom(Envelope(f), w, 0) == Some(Span(0, |MARKER_OPEN|, |w| - 1, |w|))
    ensures ReplaceLoop(Envelope(f), w, fn, st) == fn(w[|MARKER_OPEN|..|w| - 1], st)
    ensures GlobalReplace(Envelope(f), w, fn, st) == fn(w[|MARKER_OPEN|..|w| - 1], st)
  {
    var m := Span(0, |MARKER_OPEN|, |w| - 1, |w|);
    ReplaceWhole(Envelope(f), w, m, fn, st);
  }
}
