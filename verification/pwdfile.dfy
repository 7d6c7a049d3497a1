/** The string pipeline of `readPwdFileSync` (src/readPwdFileSync.js): from the
    text of a password file to the password, which is its first non-blank
    line with surrounding white space removed. Reading the file is left to the
    caller; the text is a parameter. Positions are indices into the text. */
module PwdFile {
  import opened Base
  import opened Utils

  /** What `/[\n\r]/` matches. (`\s` also holds U+2028 and U+2029; this class
      does not.) */
  predicate IsBreak(c: char)
  {
    c == '\n' || c == '\r'
  }

  /** Every character in `[a, b)` is white space. */
  predicate SpaceBetween(s: string, a: nat, b: nat)
    requires a <= b <= |s|
  {
    forall k :: a <= k < b ==> IsSpace(s[k])
  }

  /** Every character is white space (the empty string included). */
  predicate Blank(s: string)
  {
    SpaceBetween(s, 0, |s|)
  }

  /** The end of the run of white space that starts at `i`. */
  function SpaceEnd(s: string, i: nat): (n: nat)
    requires i <= |s|
    ensures i <= n <= |s| && SpaceBetween(s, i, n)
    ensures n < |s| ==> !IsSpace(s[n])
    decreases |s| - i
  {
    if i < |s| && IsSpace(s[i]) then SpaceEnd(s, i + 1) else i
  }

  /** The greedy `\s*` of `/^\s*[\n\r]/` takes the whole leading run and then
      gives back one character at a time until a break follows: the last break
      before index `i`, searching down from `i`. */
  function LastBreak(s: string, i: nat): (r: Option<nat>)
    requires i <= |s|
    ensures r.Some? ==> r.value < i && IsBreak(s[r.value])
  {
    if i == 0 then None
    else if IsBreak(s[i - 1]) then Some(i - 1)
    else LastBreak(s, i - 1)
  }

  /** `.replace(/^\s*[\n\r]/g, '')`: the pattern is anchored at the start of
      the text (no `m` flag), so it matches at most once, and the match ends
      just after the last break inside the leading white space. */
  function StripBlankLines(s: string): string
  {
    match LastBreak(s, SpaceEnd(s, 0))
    case None => s
    case Some(j) => s[j + 1..]
  }

  /** The first break at or after `i`, or the length when there is none. */
  function BreakFrom(s: string, i: nat): (n: nat)
    requires i <= |s|
    ensures i <= n <= |s|
    ensures n < |s| ==> IsBreak(s[n])
    ensures forall k :: i <= k < n ==> !IsBreak(s[k])
    decreases |s| - i
  {
    if i == |s| || IsBreak(s[i]) then i else BreakFrom(s, i + 1)
  }

  /** `.split(/[\n\r]/g)[0]`: the text up to the first break. */
  function FirstLine(s: string): string
  {
    s[..BreakFrom(s, 0)]
  }

  /** The start of the run of white space that ends at `e`, going no further
      down than `a`. */
  function SpaceStart(s: string, a: nat, e: nat): (n: nat)
    requires a <= e <= |s|
    ensures a <= n <= e && SpaceBetween(s, n, e)
    ensures n > a ==> !IsSpace(s[n - 1])
    decreases e
  {
    if e > a && IsSpace(s[e - 1]) then SpaceStart(s, a, e - 1) else e
  }

  /** `String.prototype.trim`: white space and line terminators (the same set
      as `\s`) removed from both ends. */
  function Trim(s: string): string
  {
    var a := SpaceEnd(s, 0);
    s[a..SpaceStart(s, a, |s|)]
  }

  /** What trimming leaves: a piece of the text with no white space at either
      end, empty exactly for blank text. */
  lemma TrimSpec(s: string) returns (a: nat)
    ensures var r := Trim(s);
            && a + |r| <= |s| && r == s[a..a + |r|]
            && (|r| > 0 ==> !IsSpace(r[0]) && !IsSpace(r[|r| - 1]))
            && (r == [] <==> Blank(s))
  {
    a := SpaceEnd(s, 0);
    var b := SpaceStart(s, a, |s|);
    assert Trim(s) == s[a..b];
    if a < |s| {
      assert !IsSpace(s[a]);
      assert b > a;
    }
  }

  /** `readPwdFileSync` after the file is read. */
  function ReadPassword(content: string, filename: string): (r: Result<string>)
    ensures r.Err? ==> r.error == NoPasswordFound(filename)
  {
    var pwd := Trim(FirstLine(StripBlankLines(content)));
    if pwd == "" then Err(NoPasswordFound(filename)) else Ok(pwd)
  }

  // ---------------------------------------------------------------- reference

  /** The first line, in the sense of `split(/[\n\r]/)`, that starts at or
      after the line start `i` and holds a character other than white space;
      empty when there is none. */
  function NonBlankLineFrom(s: string, i: nat): string
    requires i <= |s|
    decreases |s| - i
  {
    var n := BreakFrom(s, i);
    if !SpaceBetween(s, i, n) then s[i..n]
    else if n == |s| then ""
    else NonBlankLineFrom(s, n + 1)
  }

  /** The first line of the text that is not blank. */
  function FirstNonBlankLine(s: string): string
  {
    NonBlankLineFrom(s, 0)
  }

  /** Without a break in `[i, e)` the downward search from `e` goes on from
      `i`. */
  lemma {:induction false} LastBreakSkips(s: string, i: nat, e: nat)
    requires i <= e <= |s|
    requires forall k :: i <= k < e ==> !IsBreak(s[k])
    ensures LastBreak(s, e) == LastBreak(s, i)
    decreases e
  {
    if e > i {
      LastBreakSkips(s, i, e - 1);
    }
  }

  /** The first break of a suffix is the first break from where it starts. */
  lemma {:induction false} BreakFromSuffix(s: string, c: nat, i: nat)
    requires c + i <= |s|
    ensures BreakFrom(s[c..], i) == BreakFrom(s, c + i) - c
    decreases |s| - c - i
  {
    if c + i < |s| {
      assert s[c..][i] == s[c + i];
      if !IsBreak(s[c + i]) {
        BreakFromSuffix(s, c, i + 1);
      }
    }
  }

  /** The strip cuts at the start of line `i` when all before it is white
      space and the leading run ends inside that line. */
  lemma StripCutsAt(s: string, i: nat)
    requires i <= |s| && SpaceBetween(s, 0, i)
    requires i == 0 || IsBreak(s[i - 1])
    requires i <= SpaceEnd(s, 0) <= BreakFrom(s, i)
    ensures StripBlankLines(s) == s[i..]
  {
    var w := SpaceEnd(s, 0);
    LastBreakSkips(s, i, w);
    if i > 0 {
      assert LastBreak(s, i) == Some(i - 1);
    }
  }

  /** Two adjacent runs of white space make one. */
  lemma SpaceJoin(s: string, a: nat, b: nat, c: nat)
    requires a <= b <= c <= |s|
    requires SpaceBetween(s, a, b) && SpaceBetween(s, b, c)
    ensures SpaceBetween(s, a, c)
  {
  }

  /** When line `i` holds a non-space character and all before it is white
      space, the leading run of white space ends inside that line. */
  lemma RunEndsInLine(s: string, i: nat)
    requires i <= |s| && SpaceBetween(s, 0, i)
    requires !SpaceBetween(s, i, BreakFrom(s, i))
    ensures i <= SpaceEnd(s, 0) <= BreakFrom(s, i)
  {
    var k :| i <= k < BreakFrom(s, i) && !IsSpace(s[k]);
    assert SpaceEnd(s, 0) <= k;
  }

  /** The first line of the suffix from line start `i` is line `i`. */
  lemma FirstLineOfSuffix(s: string, i: nat)
    requires i <= |s|
    ensures FirstLine(s[i..]) == s[i..BreakFrom(s, i)]
  {
    BreakFromSuffix(s, i, 0);
    assert s[i..][..BreakFrom(s, i) - i] == s[i..BreakFrom(s, i)];
  }

  /** A line with a non-space character, after only white space: the strip
      cuts at its start and the first line is that line. */
  lemma StripToNonBlankLine(s: string, i: nat)
    requires i <= |s| && SpaceBetween(s, 0, i)
    requires i == 0 || IsBreak(s[i - 1])
    requires !SpaceBetween(s, i, BreakFrom(s, i))
    ensures FirstLine(StripBlankLines(s)) == s[i..BreakFrom(s, i)]
  {
    RunEndsInLine(s, i);
    StripCutsAt(s, i);
    FirstLineOfSuffix(s, i);
  }

  /** A last line of white space only, after only white space: the strip
      leaves that line, which trims to nothing. */
  lemma StripToBlankEnd(s: string, i: nat)
    requires i <= |s| && SpaceBetween(s, 0, i)
    requires i == 0 || IsBreak(s[i - 1])
    requires BreakFrom(s, i) == |s| && SpaceBetween(s, i, |s|)
    ensures Trim(FirstLine(StripBlankLines(s))) == ""
  {
    StripCutsAt(s, i);
    FirstLineOfSuffix(s, i);
    var line := s[i..];
    assert FirstLine(s[i..]) == line;
    assert Blank(line) by {
      forall k | 0 <= k < |line|
        ensures IsSpace(line[k])
      {
        assert line[k] == s[i + k];
      }
    }
    var _ := TrimSpec(line);
  }

  /** From a line start with only white space before it, the first line after
      the strip is the first non-blank line from there on, up to trimming. */
  lemma {:induction false} FirstLineAfterStripFrom(s: string, i: nat)
    requires i <= |s| && SpaceBetween(s, 0, i)
    requires i == 0 || IsBreak(s[i - 1])
    ensures Trim(FirstLine(StripBlankLines(s))) == Trim(NonBlankLineFrom(s, i))
    decreases |s| - i
  {
    var n := BreakFrom(s, i);
    if !SpaceBetween(s, i, n) {
      assert NonBlankLineFrom(s, i) == s[i..n];
      StripToNonBlankLine(s, i);
    } else if n == |s| {
      assert NonBlankLineFrom(s, i) == "";
      StripToBlankEnd(s, i);
      var _ := TrimSpec("");
    } else {
      assert NonBlankLineFrom(s, i) == NonBlankLineFrom(s, n + 1);
      assert SpaceBetween(s, n, n + 1) by { assert IsSpace(s[n]); }
      SpaceJoin(s, i, n, n + 1);
      SpaceJoin(s, 0, i, n + 1);
      FirstLineAfterStripFrom(s, n + 1);
    }
  }

  /** The first non-blank line from a line start, with only white space before
      it, is blank only when the whole text is. */
  lemma {:induction false} NonBlankLineFromBlank(s: string, i: nat)
    requires i <= |s| && SpaceBetween(s, 0, i)
    ensures Blank(NonBlankLineFrom(s, i)) <==> Blank(s)
    decreases |s| - i
  {
    var n := BreakFrom(s, i);
    if !SpaceBetween(s, i, n) {
      var k :| i <= k < n && !IsSpace(s[k]);
      assert s[i..n][k - i] == s[k];
    } else if n < |s| {
      NonBlankLineFromBlank(s, n + 1);
    }
  }

  /** The password is the first non-blank line of the file, trimmed; the file
      is refused exactly when it holds nothing but white space. */
  lemma ReadPasswordIsFirstNonBlankLine(content: string, filename: string)
    ensures ReadPassword(content, filename) ==
              if Blank(content) then Err(NoPasswordFound(filename))
              else Ok(Trim(FirstNonBlankLine(content)))
  {
    FirstLineAfterStripFrom(content, 0);
    NonBlankLineFromBlank(content, 0);
    var _ := TrimSpec(FirstNonBlankLine(content));
  }

  /** A password is one non-empty line with no white space at either end. */
  lemma PasswordShape(content: string, filename: string)
    requires ReadPassword(content, filename).Ok?
    ensures var pwd := ReadPassword(content, filename).value;
            && |pwd| > 0
            && (forall i :: 0 <= i < |pwd| ==> !IsBreak(pwd[i]))
            && !IsSpace(pwd[0]) && !IsSpace(pwd[|pwd| - 1])
  {
    var t := StripBlankLines(content);
    var line := FirstLine(t);
    var pwd := Trim(line);
    var a := TrimSpec(line);
    forall i | 0 <= i < |pwd|
      ensures !IsBreak(pwd[i])
    {
      assert pwd[i] == line[a + i] == t[a + i];
    }
  }

  /** A password read back from a file holding just that password is the
      same password. */
  lemma ReadPasswordIdempotent(content: string, filename: string)
    requires ReadPassword(content, filename).Ok?
    ensures var pwd := ReadPassword(content, filename).value;
            ReadPassword(pwd, filename) == Ok(pwd)
  {
    var pwd := ReadPassword(content, filename).value;
    PasswordShape(content, filename);
    assert SpaceEnd(pwd, 0) == 0;
    assert StripBlankLines(pwd) == pwd;
    assert FirstLine(pwd) == pwd;
    assert SpaceStart(pwd, 0, |pwd|) == |pwd|;
    assert Trim(pwd) == pwd;
  }
}
