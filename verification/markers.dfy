/** The two marker patterns, written as hand-made matchers with the semantics
    of the JavaScript regular expressions they stand for.

    Envelope (already encrypted) span:
      EncDec      \bVAULT_NACL\(([A-Za-z0-9/+\s]{37,}[=\s]{0,5})\)(?!VAULT_NACL)
      EncDecSync  \bVAULT_NACL\(([A-Za-z0-9/+\s]{37,}={0,3})\)(?!VAULT_NACL)
    Pending (to be encrypted) span:
      EncDec      \bVAULT_NACL\(([^)]+?)\)VAULT_NACL(?!\))
      EncDecSync  \bVAULT_NACL\((.+?)\)VAULT_NACL(?!\))

    Backtracking is resolved once and for all:
    - envelope: no payload character is ')', so the closing parenthesis can only
      be the first character after the marker that is not in [A-Za-z0-9/+\s=];
      the payload is fixed, and only its split into body and padding varies
      (`EnvelopeScanIffSplit`);
    - pending, EncDec: the payload excludes ')', so it ends at the first ')';
    - pending, EncDecSync: the lazy `.+?` stops at the first `)VAULT_NACL` that
      is not followed by ')', and cannot cross a line terminator.

    Matchers look at a suffix `t` of the searched string together with whether
    `\b` holds in front of it; the marker begins with a word character, so `\b`
    holds exactly when the previous character is not a word character. */
module Markers {
  import opened Base
  import opened Utils
  import opened Primitives

  const PENDING_CLOSE: string := ")VAULT_NACL"

  /** Minimum number of body characters of an envelope payload. */
  const MIN_BODY: nat := 37

  predicate IsWordChar(c: char)
  {
    ('A' <= c <= 'Z') || ('a' <= c <= 'z') || ('0' <= c <= '9') || c == '_'
  }

  /** What `.` does not match. */
  predicate IsLineTerminator(c: char)
  {
    c == '\n' || c == '\r' || c == '\U{2028}' || c == '\U{2029}'
  }

  /** The characters an envelope payload may contain: [A-Za-z0-9/+\s] and '='. */
  predicate IsEnvelopeChar(c: char)
  {
    IsBase64Char(c) || IsSpace(c) || c == '='
  }

  predicate StartsWith(t: string, prefix: string)
  {
    |prefix| <= |t| && t[..|prefix|] == prefix
  }

  /** Which of the two engines' spelling of a pattern. */
  datatype Flavor = Async | Sync

  datatype Pattern = Envelope(flavor: Flavor) | Pending(flavor: Flavor)

  /** A match: the matched text is [start, end), the capture group [pstart, pend). */
  datatype Span = Span(start: nat, pstart: nat, pend: nat, end: nat)

  predicate WellFormed(m: Span, n: nat)
  {
    m.start + |MARKER_OPEN| == m.pstart <= m.pend < m.end <= n
  }

  function Shift(m: Span, d: nat): Span
  {
    Span(m.start + d, m.pstart + d, m.pend + d, m.end + d)
  }

  /** End of the run of envelope characters starting at `i`. */
  function SkipEnvelope(t: string, i: nat): (k: nat)
    requires i <= |t|
    ensures i <= k <= |t|
    decreases |t| - i
  {
    if i == |t| || !IsEnvelopeChar(t[i]) then i else SkipEnvelope(t, i + 1)
  }

  lemma {:induction false} SkipEnvelopeRun(t: string, i: nat)
    requires i <= |t|
    ensures forall j :: i <= j < SkipEnvelope(t, i) ==> IsEnvelopeChar(t[j])
    ensures SkipEnvelope(t, i) < |t| ==> !IsEnvelopeChar(t[SkipEnvelope(t, i)])
    decreases |t| - i
  {
    if i < |t| && IsEnvelopeChar(t[i]) {
      SkipEnvelopeRun(t, i + 1);
    }
  }

  /** Position of the first ')' at or after `i`, or the length. */
  function SkipToParen(t: string, i: nat): (k: nat)
    requires i <= |t|
    ensures i <= k <= |t|
    decreases |t| - i
  {
    if i == |t| || t[i] == ')' then i else SkipToParen(t, i + 1)
  }

  lemma {:induction false} SkipToParenRun(t: string, i: nat)
    requires i <= |t|
    ensures forall j :: i <= j < SkipToParen(t, i) ==> t[j] != ')'
    ensures SkipToParen(t, i) < |t| ==> t[SkipToParen(t, i)] == ')'
    decreases |t| - i
  {
    if i < |t| && t[i] != ')' {
      SkipToParenRun(t, i + 1);
    }
  }

  /** A character of the body `[A-Za-z0-9/+\s]`. */
  predicate IsBodyChar(c: char)
  {
    IsBase64Char(c) || IsSpace(c)
  }

  /** A padding character: `[=\s]` for EncDec, `=` for EncDecSync. */
  predicate IsPad(f: Flavor, c: char)
  {
    c == '=' || (f == Async && IsSpace(c))
  }

  /** Longest padding the pattern allows: `{0,5}` resp. `{0,3}`. */
  function MaxPad(f: Flavor): nat
  {
    match f
    case Async => 5
    case Sync => 3
  }

  /** The regular expression's own reading of the payload t[a..k]: it splits
      at `x` into a body of at least 37 body characters and a padding. */
  predicate EnvelopeSplit(f: Flavor, t: string, a: nat, k: nat, x: nat)
  {
    && a <= x <= k <= |t|
    && x - a >= MIN_BODY
    && k - x <= MaxPad(f)
    && (forall j :: a <= j < x ==> IsBodyChar(t[j]))
    && (forall j :: x <= j < k ==> IsPad(f, t[j]))
  }

  /** Every character of t[i..k] is padding. */
  predicate PadRun(f: Flavor, t: string, i: nat, k: nat)
    requires i <= k <= |t|
    decreases k - i
  {
    i == k || (IsPad(f, t[i]) && PadRun(f, t, i + 1, k))
  }

  /** The payload test, scanning t[i..k] after `n` body characters: the body
      runs up to the first '=', and what follows is short padding. */
  predicate EnvelopeScan(f: Flavor, t: string, i: nat, k: nat, n: nat)
    requires i <= k <= |t|
    decreases k - i
  {
    if i == k then n >= MIN_BODY
    else if t[i] == '=' then n >= MIN_BODY && k - i <= MaxPad(f) && PadRun(f, t, i, k)
    else EnvelopeScan(f, t, i + 1, k, n + 1)
  }

  lemma {:induction false} PadRunAll(f: Flavor, t: string, i: nat, k: nat)
    requires i <= k <= |t|
    ensures PadRun(f, t, i, k) <==> forall j :: i <= j < k ==> IsPad(f, t[j])
    decreases k - i
  {
    if i < k {
      PadRunAll(f, t, i + 1, k);
    }
  }

  lemma {:induction false} EnvelopeScanIffSplitFrom(f: Flavor, t: string, a: nat, i: nat, k: nat)
    requires a <= i <= k <= |t|
    requires forall j :: a <= j < i ==> IsBodyChar(t[j])
    requires forall j :: i <= j < k ==> IsEnvelopeChar(t[j])
    ensures EnvelopeScan(f, t, i, k, i - a) <==> exists x :: EnvelopeSplit(f, t, a, k, x)
    decreases k - i
  {
    if i == k {
      if EnvelopeScan(f, t, i, k, i - a) {
        assert EnvelopeSplit(f, t, a, k, k);
      }
    } else if t[i] == '=' {
      PadRunAll(f, t, i, k);
      if EnvelopeScan(f, t, i, k, i - a) {
        assert EnvelopeSplit(f, t, a, k, i);
      }
      if x: nat :| EnvelopeSplit(f, t, a, k, x) {
        // the body holds no '=', so it ends at or before position i
        assert x <= i;
      }
    } else {
      EnvelopeScanIffSplitFrom(f, t, a, i + 1, k);
    }
  }

  /** The scanning test accepts exactly the payloads the pattern can split into
      body and padding. */
  lemma EnvelopeScanIffSplit(f: Flavor, t: string, a: nat, k: nat)
    requires a <= k <= |t|
    requires forall j :: a <= j < k ==> IsEnvelopeChar(t[j])
    ensures EnvelopeScan(f, t, a, k, 0) <==> exists x :: EnvelopeSplit(f, t, a, k, x)
  {
    EnvelopeScanIffSplitFrom(f, t, a, a, k);
  }

  /** The pending close `)VAULT_NACL(?!\))` sits at `k`. */
  predicate PendingCloseAt(t: string, k: nat)
    requires k <= |t|
  {
    StartsWith(t[k..], PENDING_CLOSE) && !(k + |PENDING_CLOSE| < |t| && t[k + |PENDING_CLOSE|] == ')')
  }

  /** The lazy `(.+?)\)VAULT_NACL(?!\))` of EncDecSync: the first k >= `k0` at
      which a pending close sits, with no line terminator before it. */
  function LazyClose(t: string, k: nat): (r: Option<nat>)
    requires |MARKER_OPEN| < k <= |t|
    ensures r.Some? ==> k <= r.value && r.value + |PENDING_CLOSE| <= |t|
    decreases |t| - k
  {
    if IsLineTerminator(t[k - 1]) then None
    else if PendingCloseAt(t, k) then Some(k)
    else if k == |t| then None
    else LazyClose(t, k + 1)
  }

  /** What the lazy search returns is the first close, with no line
      terminator in front of it. */
  lemma {:induction false} LazyCloseFirst(t: string, k: nat)
    requires |MARKER_OPEN| < k <= |t|
    ensures var r := LazyClose(t, k);
            r.Some? ==>
              && PendingCloseAt(t, r.value)
              && (forall j :: k - 1 <= j < r.value ==> !IsLineTerminator(t[j]))
              && (forall j :: k <= j < r.value ==> !PendingCloseAt(t, j))
    decreases |t| - k
  {
    if !IsLineTerminator(t[k - 1]) && !PendingCloseAt(t, k) && k < |t| {
      LazyCloseFirst(t, k + 1);
    }
  }

  /** The lazy search finds the first close when no line terminator comes first. */
  lemma {:induction false} LazyCloseFinds(t: string, k: nat, target: nat)
    requires |MARKER_OPEN| < k <= target <= |t|
    requires forall j :: k - 1 <= j < target ==> !IsLineTerminator(t[j])
    requires forall j :: k <= j < target ==> !PendingCloseAt(t, j)
    requires PendingCloseAt(t, target)
    ensures LazyClose(t, k) == Some(target)
    decreases target - k
  {
    if k < target {
      LazyCloseFinds(t, k + 1, target);
    }
  }

  /** What a match of `pat` at the start of `t` looks like. */
  predicate ValidMatch(pat: Pattern, t: string, m: Span)
  {
    && StartsWith(t, MARKER_OPEN)
    && m.start == 0 && WellFormed(m, |t|)
    && match pat
       case Envelope(f) =>
         && m.end == m.pend + 1 && t[m.pend] == ')'
         && (forall j :: m.pstart <= j < m.pend ==> IsEnvelopeChar(t[j]))
         && EnvelopeScan(f, t, m.pstart, m.pend, 0)
         && !StartsWith(t[m.end..], MARKER)
       case Pending(f) =>
         && m.pstart < m.pend
         && m.end == m.pend + |PENDING_CLOSE|
         && PendingCloseAt(t, m.pend)
         && match f
            case Async => forall j :: m.pstart <= j < m.pend ==> t[j] != ')'
            case Sync =>
              && (forall j :: m.pstart <= j < m.pend ==> !IsLineTerminator(t[j]))
              && (forall j :: m.pstart < j < m.pend ==> !PendingCloseAt(t, j))
  }

  /** A match of `pat` at the very start of `t`; `boundary` tells whether `\b`
      holds there. `MatchPrefixValid` states what a match looks like, the
      `...Matches` lemmas that every such text is matched. */
  function MatchPrefix(pat: Pattern, t: string, boundary: bool): (r: Option<Span>)
    ensures r.Some? ==> r.value.start == 0 && WellFormed(r.value, |t|)
  {
    if !boundary || !StartsWith(t, MARKER_OPEN) then None
    else
      var a := |MARKER_OPEN|;
      match pat
      case Envelope(f) =>
        EnvelopeFrom(f, t, a)
      case Pending(Async) =>
        var k := SkipToParen(t, a);
        if a < k && k < |t| && PendingCloseAt(t, k) then Some(Span(0, a, k, k + |PENDING_CLOSE|))
        else None
      case Pending(Sync) =>
        if a == |t| then None
        else
          match LazyClose(t, a + 1)
          case None => None
          case Some(k) => Some(Span(0, a, k, k + |PENDING_CLOSE|))
  }

  /** The envelope pattern behind the marker, the payload scan having reached
      `i`: envelope characters are consumed, then ')' must follow, the payload
      must pass the test and no marker may come next. */
  function EnvelopeFrom(f: Flavor, t: string, i: nat): (r: Option<Span>)
    requires |MARKER_OPEN| <= i <= |t|
    ensures r.Some? ==> r.value.start == 0 && WellFormed(r.value, |t|)
    decreases |t| - i
  {
    if i < |t| && IsEnvelopeChar(t[i]) then EnvelopeFrom(f, t, i + 1)
    else if i < |t| && t[i] == ')' && EnvelopeScan(f, t, |MARKER_OPEN|, i, 0) && !StartsWith(t[i + 1..], MARKER)
    then Some(Span(0, |MARKER_OPEN|, i, i + 1))
    else None
  }

  /** The envelope scan decides at the end of the run of envelope characters. */
  lemma {:induction false} EnvelopeFromAtRunEnd(f: Flavor, t: string, i: nat)
    requires |MARKER_OPEN| <= i <= |t|
    ensures var k := SkipEnvelope(t, i);
            EnvelopeFrom(f, t, i) ==
              if k < |t| && t[k] == ')' && EnvelopeScan(f, t, |MARKER_OPEN|, k, 0) && !StartsWith(t[k + 1..], MARKER)
              then Some(Span(0, |MARKER_OPEN|, k, k + 1))
              else None
    decreases |t| - i
  {
    if i < |t| && IsEnvelopeChar(t[i]) {
      EnvelopeFromAtRunEnd(f, t, i + 1);
    }
  }

  /** Soundness of the matchers: a match has the shape the pattern describes. */
  lemma MatchPrefixValid(pat: Pattern, t: string, boundary: bool)
    ensures var r := MatchPrefix(pat, t, boundary);
            r.Some? ==> boundary && ValidMatch(pat, t, r.value)
  {
    var a := |MARKER_OPEN|;
    if boundary && StartsWith(t, MARKER_OPEN) {
      match pat
      case Envelope(f) =>
        EnvelopeFromAtRunEnd(f, t, a);
        SkipEnvelopeRun(t, a);
      case Pending(Async) =>
        SkipToParenRun(t, a);
      case Pending(Sync) =>
        if a < |t| {
          LazyCloseFirst(t, a + 1);
        }
    }
  }

  /** Completeness for envelopes: a marker, envelope characters the payload
      test accepts, ')' and no marker behind it are matched. */
  lemma EnvelopeMatches(f: Flavor, t: string, k: nat)
    requires StartsWith(t, MARKER_OPEN) && |MARKER_OPEN| <= k < |t| && t[k] == ')'
    requires forall j :: |MARKER_OPEN| <= j < k ==> IsEnvelopeChar(t[j])
    requires EnvelopeScan(f, t, |MARKER_OPEN|, k, 0)
    requires !StartsWith(t[k + 1..], MARKER)
    ensures MatchPrefix(Envelope(f), t, true) == Some(Span(0, |MARKER_OPEN|, k, k + 1))
  {
    EnvelopeFromAtRunEnd(f, t, |MARKER_OPEN|);
    SkipEnvelopeFinds(t, |MARKER_OPEN|, k);
  }

  lemma {:induction false} SkipEnvelopeFinds(t: string, i: nat, k: nat)
    requires i <= k < |t| && !IsEnvelopeChar(t[k])
    requires forall j :: i <= j < k ==> IsEnvelopeChar(t[j])
    ensures SkipEnvelope(t, i) == k
    decreases k - i
  {
    if i < k {
      SkipEnvelopeFinds(t, i + 1, k);
    }
  }

  lemma {:induction false} SkipToParenFinds(t: string, i: nat, k: nat)
    requires i <= k < |t| && t[k] == ')'
    requires forall j :: i <= j < k ==> t[j] != ')'
    ensures SkipToParen(t, i) == k
    decreases k - i
  {
    if i < k {
      SkipToParenFinds(t, i + 1, k);
    }
  }

  /** Completeness for pending spans of EncDec: a marker, a non-empty payload
      without ')' and a close not followed by ')' are matched. */
  lemma PendingAsyncMatches(t: string, k: nat)
    requires StartsWith(t, MARKER_OPEN) && |MARKER_OPEN| < k <= |t|
    requires forall j :: |MARKER_OPEN| <= j < k ==> t[j] != ')'
    requires PendingCloseAt(t, k)
    ensures MatchPrefix(Pending(Async), t, true) == Some(Span(0, |MARKER_OPEN|, k, k + |PENDING_CLOSE|))
  {
    assert t[k] == ')';
    SkipToParenFinds(t, |MARKER_OPEN|, k);
  }

  /** Completeness for pending spans of EncDecSync: the first close behind a
      non-empty payload without line terminators is matched. */
  lemma PendingSyncMatches(t: string, k: nat)
    requires StartsWith(t, MARKER_OPEN) && |MARKER_OPEN| < k <= |t|
    requires forall j :: |MARKER_OPEN| <= j < k ==> !IsLineTerminator(t[j])
    requires forall j :: |MARKER_OPEN| < j < k ==> !PendingCloseAt(t, j)
    requires PendingCloseAt(t, k)
    ensures MatchPrefix(Pending(Sync), t, true) == Some(Span(0, |MARKER_OPEN|, k, k + |PENDING_CLOSE|))
  {
    LazyCloseFinds(t, |MARKER_OPEN| + 1, k);
  }

  /** `\b` in front of position `i` (the next character being a word character). */
  predicate Boundary(s: string, i: nat)
    requires i <= |s|
  {
    i == 0 || !IsWordChar(s[i - 1])
  }

  /** A match of `pat` starting exactly at `i`. */
  function MatchAt(pat: Pattern, s: string, i: nat): (r: Option<Span>)
    requires i <= |s|
    ensures r.Some? ==> r.value.start == i && WellFormed(r.value, |s|)
  {
    match MatchPrefix(pat, s[i..], Boundary(s, i))
    case None => None
    case Some(m) => Some(Shift(m, i))
  }

  /** `regex.exec` from position `from`: the leftmost match. */
  function FindFrom(pat: Pattern, s: string, from: nat): (r: Option<Span>)
    requires from <= |s|
    ensures r.Some? ==> from <= r.value.start && WellFormed(r.value, |s|)
    decreases |s| - from
  {
    match MatchAt(pat, s, from)
    case Some(m) => Some(m)
    case None => if from == |s| then None else FindFrom(pat, s, from + 1)
  }

  /** The search returns a match at the position it reports. */
  lemma {:induction false} FindFromFound(pat: Pattern, s: string, from: nat)
    requires from <= |s| && FindFrom(pat, s, from).Some?
    ensures MatchAt(pat, s, FindFrom(pat, s, from).value.start) == FindFrom(pat, s, from)
    decreases |s| - from
  {
    if MatchAt(pat, s, from).None? {
      FindFromFound(pat, s, from + 1);
    }
  }

  /** The match found is the leftmost one: there is none before it. */
  lemma {:induction false} FindFromLeftmost(pat: Pattern, s: string, from: nat, j: nat)
    requires from <= j <= |s|
    requires FindFrom(pat, s, from).None? || j < FindFrom(pat, s, from).value.start
    ensures MatchAt(pat, s, j).None?
    decreases |s| - from
  {
    if from < j {
      FindFromLeftmost(pat, s, from + 1, j);
    }
  }

  /** `regex.test(s)` with the search starting at index 0. */
  predicate Contains(pat: Pattern, s: string)
  {
    FindFrom(pat, s, 0).Some?
  }

  /** A pending span `VAULT_NACL(p)VAULT_NACL` with no ')' in `p` is never
      taken for an envelope, whatever `p` is: either a character outside the
      envelope alphabet ends the payload before the ')', or the negative
      lookahead sees the trailing marker. */
  lemma PendingIsNotEnvelope(f: Flavor, p: string, rest: string, boundary: bool)
    requires forall j :: 0 <= j < |p| ==> p[j] != ')'
    ensures MatchPrefix(Envelope(f), MARKER_OPEN + p + PENDING_CLOSE + rest, boundary).None?
  {
    var t := MARKER_OPEN + p + PENDING_CLOSE + rest;
    var a := |MARKER_OPEN|;
    if boundary {
      assert StartsWith(t, MARKER_OPEN);
      EnvelopeFromAtRunEnd(f, t, a);
      PendingRunEnd(p, rest);
      PendingCloseFollowed(p, rest);
    }
  }

  /** In a pending span, the run of envelope characters behind the marker
      can only stop at a ')' where the pending close begins. */
  lemma PendingRunEnd(p: string, rest: string)
    requires forall j :: 0 <= j < |p| ==> p[j] != ')'
    ensures var t := MARKER_OPEN + p + PENDING_CLOSE + rest;
            var k := SkipEnvelope(t, |MARKER_OPEN|);
            k < |t| && t[k] == ')' ==> k == |MARKER_OPEN| + |p|
  {
    var t := MARKER_OPEN + p + PENDING_CLOSE + rest;
    var a := |MARKER_OPEN|;
    var k := SkipEnvelope(t, a);
    SkipEnvelopeRun(t, a);
    assert t[a + |p|] == ')';
    assert !IsEnvelopeChar(')');
    assert k <= a + |p|;
    if k < a + |p| {
      assert t[k] == p[k - a];
    }
  }

  /** The ')' that begins the pending close is followed by the marker. */
  lemma PendingCloseFollowed(p: string, rest: string)
    ensures var t := MARKER_OPEN + p + PENDING_CLOSE + rest;
            StartsWith(t[|MARKER_OPEN| + |p| + 1..], MARKER)
  {
    var t := MARKER_OPEN + p + PENDING_CLOSE + rest;
    var k := |MARKER_OPEN| + |p|;
    assert t[k + 1..] == MARKER + rest by {
      assert t == (MARKER_OPEN + p) + (PENDING_CLOSE + rest);
      PendingCloseTail(rest);
    }
    assert (MARKER + rest)[..|MARKER|] == MARKER;
  }

  /** Behind the ')' of the pending close comes the bare marker. */
  lemma PendingCloseTail(rest: string)
    ensures (PENDING_CLOSE + rest)[1..] == MARKER + rest
  {
    assert PENDING_CLOSE[1..] == MARKER;
  }

  // ------------------------------------------------------ all the matches

  /** Spans in order, each at or after `from`, inside [0, n), not overlapping. */
  predicate Ordered(spans: seq<Span>, from: nat, n: nat)
    decreases |spans|
  {
    |spans| == 0 || (from <= spans[0].start && WellFormed(spans[0], n) && Ordered(spans[1..], spans[0].end, n))
  }

  /** A match followed by the matches of the rest cut after it. */
  lemma OrderedAfter(m: Span, rest: seq<Span>, n: nat)
    requires WellFormed(m, n) && Ordered(rest, 0, n - m.end)
    ensures Ordered([m] + ShiftAll(rest, m.end), 0, n)
  {
    OrderedShift(rest, 0, n - m.end, m.end);
    OrderedCons(m, ShiftAll(rest, m.end), 0, n);
  }

  lemma OrderedCons(m: Span, rest: seq<Span>, from: nat, n: nat)
    requires from <= m.start && WellFormed(m, n) && Ordered(rest, m.end, n)
    ensures Ordered([m] + rest, from, n)
  {
    assert ([m] + rest)[1..] == rest;
  }

  function ShiftOpt(o: Option<Span>, d: nat): Option<Span>
  {
    match o
    case None => None
    case Some(m) => Some(Shift(m, d))
  }

  function ShiftAll(spans: seq<Span>, d: nat): (r: seq<Span>)
    ensures |r| == |spans|
  {
    if spans == [] then [] else [Shift(spans[0], d)] + ShiftAll(spans[1..], d)
  }

  lemma {:induction false} OrderedShift(spans: seq<Span>, from: nat, n: nat, d: nat)
    requires Ordered(spans, from, n)
    ensures Ordered(ShiftAll(spans, d), from + d, n + d)
    decreases |spans|
  {
    if |spans| > 0 {
      OrderedShift(spans[1..], spans[0].end, n, d);
      assert ShiftAll(spans, d)[1..] == ShiftAll(spans[1..], d);
    }
  }

  lemma {:induction false} ShiftAllTwice(spans: seq<Span>, d: nat, e: nat)
    ensures ShiftAll(ShiftAll(spans, d), e) == ShiftAll(spans, d + e)
  {
    if spans != [] {
      ShiftAllTwice(spans[1..], d, e);
      assert ShiftAll(spans, d)[1..] == ShiftAll(spans[1..], d);
    }
  }

  lemma {:induction false} ShiftAllZero(spans: seq<Span>)
    ensures ShiftAll(spans, 0) == spans
  {
    if spans != [] {
      ShiftAllZero(spans[1..]);
    }
  }

  lemma ShiftAllCons(m: Span, rest: seq<Span>, d: nat, e: nat)
    ensures ShiftAll([m] + ShiftAll(rest, d), e) == [Shift(m, e)] + ShiftAll(rest, d + e)
    ensures Shift(m, e).end == d + e ==> ShiftAll([m] + ShiftAll(rest, d), e) == [Shift(m, e)] + ShiftAll(rest, Shift(m, e).end)
  {
    assert ([m] + ShiftAll(rest, d))[1..] == ShiftAll(rest, d);
    ShiftAllTwice(rest, d, e);
  }

  /** The matches the asynchronous `replace` loop visits: it matches from the
      start of the remaining text, then continues after the match on the cut
      remainder. Spans are given in the coordinates of `s`. */
  function SliceSpans(pat: Pattern, s: string): (r: seq<Span>)
    ensures Ordered(r, 0, |s|)
    decreases |s|
  {
    match FindFrom(pat, s, 0)
    case None => []
    case Some(m) =>
      var rest := SliceSpans(pat, s[m.end..]);
      OrderedAfter(m, rest, |s|);
      [m] + ShiftAll(rest, m.end)
  }

  /** The matches a global regular expression visits in `String.prototype.replace`:
      each search resumes at the end of the previous match in the whole string. */
  function GlobalSpans(pat: Pattern, s: string, from: nat): (r: seq<Span>)
    requires from <= |s|
    ensures Ordered(r, from, |s|)
    decreases |s| - from
  {
    match FindFrom(pat, s, from)
    case None => []
    case Some(m) => [m] + GlobalSpans(pat, s, m.end)
  }

  /** Cutting the string after a ')' does not change what the envelope pattern
      finds further on: positions past the cut see the same characters, and
      `\b` holds at the cut on both sides. */
  lemma MatchAtAfterCut(f: Flavor, s: string, e: nat, j: nat)
    requires e <= |s| && j <= |s| - e
    requires e == 0 || s[e - 1] == ')'
    ensures MatchAt(Envelope(f), s, e + j) == ShiftOpt(MatchAt(Envelope(f), s[e..], j), e)
  {
    assert s[e..][j..] == s[e + j..];
    assert Boundary(s[e..], j) == Boundary(s, e + j) by {
      if j > 0 {
        assert s[e..][j - 1] == s[e + j - 1];
      }
    }
  }

  lemma {:induction false} FindFromAfterCut(f: Flavor, s: string, e: nat, j: nat)
    requires e <= |s| && j <= |s| - e
    requires e == 0 || s[e - 1] == ')'
    ensures FindFrom(Envelope(f), s, e + j) == ShiftOpt(FindFrom(Envelope(f), s[e..], j), e)
    decreases |s| - e - j
  {
    var pat := Envelope(f);
    var t := s[e..];
    var i := e + j;
    MatchAtAfterCut(f, s, e, j);
    FindFromStep(pat, t, j);
    FindFromStep(pat, s, i);
    if MatchAt(pat, t, j).None? && j < |t| {
      FindFromAfterCut(f, s, e, j + 1);
      assert e + (j + 1) == i + 1;
    }
  }

  /** One step of the search: a match here, the end, or the next position. */
  lemma FindFromStep(pat: Pattern, s: string, from: nat)
    requires from <= |s|
    ensures FindFrom(pat, s, from) ==
              if MatchAt(pat, s, from).Some? then MatchAt(pat, s, from)
              else if from == |s| then None
              else FindFrom(pat, s, from + 1)
  {
  }

  /** An envelope match ends with ')'. */
  lemma EnvelopeEndsWithParen(f: Flavor, s: string, i: nat, am: Span)
    requires i <= |s| && MatchAt(Envelope(f), s, i) == Some(am)
    ensures 0 < am.end <= |s| && s[am.end - 1] == ')'
  {
    MatchPrefixValid(Envelope(f), s[i..], Boundary(s, i));
    var m := MatchPrefix(Envelope(f), s[i..], Boundary(s, i)).value;
    assert s[i..][m.pend] == s[i + m.pend];
  }

  lemma {:induction false} GlobalSpansAfterCut(f: Flavor, s: string, e: nat)
    requires e <= |s|
    requires e == 0 || s[e - 1] == ')'
    ensures GlobalSpans(Envelope(f), s, e) == ShiftAll(SliceSpans(Envelope(f), s[e..]), e)
    decreases |s| - e, 1
  {
    FindFromAfterCut(f, s, e, 0);
    if FindFrom(Envelope(f), s[e..], 0).Some? {
      GlobalSpansAfterHit(f, s, e);
    } else {
      SpansAfterMiss(Envelope(f), s, e);
    }
  }

  lemma {:induction false} GlobalSpansAfterHit(f: Flavor, s: string, e: nat)
    requires e <= |s|
    requires FindFrom(Envelope(f), s[e..], 0).Some?
    requires FindFrom(Envelope(f), s, e) == Some(Shift(FindFrom(Envelope(f), s[e..], 0).value, e))
    ensures GlobalSpans(Envelope(f), s, e) == ShiftAll(SliceSpans(Envelope(f), s[e..]), e)
    decreases |s| - e, 0
  {
    var m := FindFrom(Envelope(f), s[e..], 0).value;
    var am := Shift(m, e);
    FindFromFound(Envelope(f), s, e);
    EnvelopeEndsWithParen(f, s, am.start, am);
    GlobalSpansAfterCut(f, s, am.end);
    SpansAfterHit(Envelope(f), s, e, m);
  }

  lemma SpansAfterMiss(pat: Pattern, s: string, e: nat)
    requires e <= |s| && FindFrom(pat, s[e..], 0).None? && FindFrom(pat, s, e).None?
    ensures GlobalSpans(pat, s, e) == ShiftAll(SliceSpans(pat, s[e..]), e)
  {
  }

  /** One step of the comparison: both iterations take the same first match
      and agree on the rest. */
  lemma SpansAfterHit(pat: Pattern, s: string, e: nat, m: Span)
    requires e <= |s| && FindFrom(pat, s[e..], 0) == Some(m)
    requires FindFrom(pat, s, e) == Some(Shift(m, e))
    requires GlobalSpans(pat, s, Shift(m, e).end) == ShiftAll(SliceSpans(pat, s[Shift(m, e).end..]), Shift(m, e).end)
    ensures GlobalSpans(pat, s, e) == ShiftAll(SliceSpans(pat, s[e..]), e)
  {
    var t := s[e..];
    var am := Shift(m, e);
    assert t[m.end..] == s[am.end..];
    SliceSpansHit(pat, t, m);
    GlobalSpansHit(pat, s, e, am);
    ShiftAllCons(m, SliceSpans(pat, s[am.end..]), m.end, e);
  }

  lemma SliceSpansHit(pat: Pattern, t: string, m: Span)
    requires FindFrom(pat, t, 0) == Some(m)
    ensures SliceSpans(pat, t) == [m] + ShiftAll(SliceSpans(pat, t[m.end..]), m.end)
  {
  }

  lemma GlobalSpansHit(pat: Pattern, s: string, e: nat, m: Span)
    requires e <= |s| && FindFrom(pat, s, e) == Some(m)
    ensures GlobalSpans(pat, s, e) == [m] + GlobalSpans(pat, s, m.end)
  {
  }

  /** For the envelope pattern the two ways of iterating agree: every match ends
      with ')', so cutting after it changes neither `\b` nor the lookahead.
      (For the pending pattern they can differ: a match ends in the word
      character 'L', so a marker right behind it has `\b` only after the cut.) */
  lemma EnvelopeSpansAgree(f: Flavor, s: string)
    ensures SliceSpans(Envelope(f), s) == GlobalSpans(Envelope(f), s, 0)
  {
    GlobalSpansAfterCut(f, s, 0);
    assert s[0..] == s;
    ShiftAllZero(SliceSpans(Envelope(f), s));
  }
}
