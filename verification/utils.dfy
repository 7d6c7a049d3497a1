/** The string helpers shared by both engines: whitespace removal, 80-column
    line splitting and the envelope marker wrapper (src/utils.js, repeated
    verbatim at the top of src/EncDec.js). */
module Utils {
  import opened Base

  /** The characters JavaScript's `\s` class (and `String.prototype.trim`)
      treats as white space: WhiteSpace and LineTerminator of ECMAScript. */
  predicate IsSpace(c: char)
  {
    || c == '\t' || c == '\n' || c == '\U{0B}' || c == '\U{0C}' || c == '\r' || c == ' '
    || c == '\U{A0}' || c == '\U{1680}' || ('\U{2000}' <= c <= '\U{200A}')
    || c == '\U{2028}' || c == '\U{2029}' || c == '\U{202F}' || c == '\U{205F}'
    || c == '\U{3000}' || c == '\U{FEFF}'
  }

  predicate NoSpace(s: string)
  {
    forall i :: 0 <= i < |s| ==> !IsSpace(s[i])
  }

  predicate HasSpace(s: string)
  {
    exists i :: 0 <= i < |s| && IsSpace(s[i])
  }

  /** `deleteWhiteSpace`: `str.replace(/\s/g, '')`. */
  function DeleteWhiteSpace(s: string): (r: string)
    ensures NoSpace(r)
    ensures |r| <= |s|
    ensures NoSpace(s) ==> r == s
  {
    if s == [] then "" else KeepNonSpace(s[0]) + DeleteWhiteSpace(s[1..])
  }

  function KeepNonSpace(c: char): (r: string)
    ensures NoSpace(r)
  {
    if IsSpace(c) then "" else [c]
  }

  /** Removing white space distributes over concatenation. */
  lemma {:induction false} DeleteWhiteSpaceAppend(a: string, b: string)
    ensures DeleteWhiteSpace(a + b) == DeleteWhiteSpace(a) + DeleteWhiteSpace(b)
  {
    if a == [] {
      assert a + b == b;
    } else {
      calc {
        DeleteWhiteSpace(a + b);
        { assert (a + b)[0] == a[0]; assert (a + b)[1..] == a[1..] + b; }
        KeepNonSpace(a[0]) + DeleteWhiteSpace(a[1..] + b);
        { DeleteWhiteSpaceAppend(a[1..], b); }
        KeepNonSpace(a[0]) + (DeleteWhiteSpace(a[1..]) + DeleteWhiteSpace(b));
        DeleteWhiteSpace(a) + DeleteWhiteSpace(b);
      }
    }
  }

  /** Removing white space twice is removing it once; the non-space characters
      keep their order. */
  lemma DeleteWhiteSpaceIdempotent(s: string)
    ensures DeleteWhiteSpace(DeleteWhiteSpace(s)) == DeleteWhiteSpace(s)
    ensures HasSpace(s) ==> |DeleteWhiteSpace(s)| < |s|
  {
    if HasSpace(s) {
      var i :| 0 <= i < |s| && IsSpace(s[i]);
      assert s == s[..i] + [s[i]] + s[i + 1..];
      DeleteWhiteSpaceAppend(s[..i] + [s[i]], s[i + 1..]);
      DeleteWhiteSpaceAppend(s[..i], [s[i]]);
    }
  }

  /** `Array.prototype.join`. */
  function Join(parts: seq<string>, sep: string): string
  {
    if |parts| == 0 then ""
    else if |parts| == 1 then parts[0]
    else parts[0] + sep + Join(parts[1..], sep)
  }

  function Concat(parts: seq<string>): string
  {
    if |parts| == 0 then "" else parts[0] + Concat(parts[1..])
  }

  /** Column width of a wrapped envelope. */
  const LINE_WIDTH: nat := 80

  /** `str.match(/[^]{1,80}/g)` on a non-empty string: greedy chunks of 80
      characters, the last one holding the rest. */
  function Chunks(s: string): (cs: seq<string>)
    requires |s| > 0
    ensures |cs| > 0
    ensures forall i :: 0 <= i < |cs| ==> 0 < |cs[i]| <= LINE_WIDTH
    ensures forall i :: 0 <= i < |cs| - 1 ==> |cs[i]| == LINE_WIDTH
    ensures Concat(cs) == s
    decreases |s|
  {
    if |s| <= LINE_WIDTH then [s]
    else
      var rest := Chunks(s[LINE_WIDTH..]);
      assert s == s[..LINE_WIDTH] + s[LINE_WIDTH..];
      [s[..LINE_WIDTH]] + rest
  }

  /** `splitLines`: with `doSplit` the text is cut into lines of 80; the empty
      string makes `match` return null, so the following `join` throws. */
  function SplitLines(s: string, doSplit: bool): (r: Result<string>)
    ensures !doSplit ==> r == Ok(s)
    ensures doSplit ==> (r.Ok? <==> |s| > 0)
    ensures r.Err? ==> r.error == NullMatch
  {
    if !doSplit then Ok(s)
    else if |s| == 0 then Err(NullMatch)
    else Ok(Join(Chunks(s), "\n"))
  }

  const MARKER: string := "VAULT_NACL"
  const MARKER_OPEN: string := "VAULT_NACL("

  /** `wrapEncrypted`: the envelope marker, with the payload on lines of its own
      when splitting. */
  function WrapEncrypted(s: string, doSplit: bool): (r: string)
    ensures |r| == |s| + |MARKER_OPEN| + 1 + (if doSplit then 2 else 0)
    ensures r[..|MARKER_OPEN|] == MARKER_OPEN && r[|r| - 1] == ')'
  {
    if doSplit then MARKER_OPEN + "\n" + s + "\n)" else MARKER_OPEN + s + ")"
  }

  /** Removing white space from chunks joined by line breaks concatenates them. */
  lemma {:induction false} DeleteWhiteSpaceJoin(cs: seq<string>)
    requires forall i :: 0 <= i < |cs| ==> NoSpace(cs[i])
    ensures DeleteWhiteSpace(Join(cs, "\n")) == Concat(cs)
  {
    if |cs| == 1 {
      assert Concat(cs) == cs[0] + Concat([]);
    } else if |cs| > 1 {
      DeleteWhiteSpaceAppend(cs[0] + "\n", Join(cs[1..], "\n"));
      DeleteWhiteSpaceAppend(cs[0], "\n");
      assert DeleteWhiteSpace("\n") == "";
      DeleteWhiteSpaceJoin(cs[1..]);
    }
  }

  lemma {:induction false} ChunksHaveNoSpace(s: string)
    requires |s| > 0 && NoSpace(s)
    ensures forall i :: 0 <= i < |Chunks(s)| ==> NoSpace(Chunks(s)[i])
    decreases |s|
  {
    if |s| > LINE_WIDTH {
      ChunksHaveNoSpace(s[LINE_WIDTH..]);
    }
  }

  /** Line-wrap round trip: wrapping a white-space free payload (split or not),
      taking the text between the marker and the closing parenthesis and
      deleting white space gives the payload back. */
  lemma WrapRoundTrip(b: string, doSplit: bool)
    requires |b| > 0 && NoSpace(b)
    ensures SplitLines(b, doSplit).Ok?
    ensures var w := WrapEncrypted(SplitLines(b, doSplit).value, doSplit);
            DeleteWhiteSpace(w[|MARKER_OPEN|..|w| - 1]) == b
  {
    var lines := SplitLines(b, doSplit).value;
    var w := WrapEncrypted(lines, doSplit);
    if doSplit {
      assert w[|MARKER_OPEN|..|w| - 1] == "\n" + lines + "\n";
      DeleteWhiteSpaceAppend("\n" + lines, "\n");
      DeleteWhiteSpaceAppend("\n", lines);
      assert DeleteWhiteSpace("\n") == "";
      ChunksHaveNoSpace(b);
      DeleteWhiteSpaceJoin(Chunks(b));
    } else {
      assert w[|MARKER_OPEN|..|w| - 1] == b;
    }
  }
}
