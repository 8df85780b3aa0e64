/** Masking account numbers and credentials out of text. */
module Scrub {
  import opened Numerals

  predicate Letter(c: char) {
    'a' <= c <= 'z' || 'A' <= c <= 'Z'
  }

  predicate AlphaNumeric(c: char) {
    Digit(c) || Letter(c)
  }

  predicate TokenChar(c: char) {
    AlphaNumeric(c) || c == '-'
  }

  predicate IsToken(s: string) {
    forall i :: 0 <= i < |s| ==> TokenChar(s[i])
  }

  /** Digits at positions `end - n` up to `end`. */
  predicate DigitsBefore(s: string, end: int, n: int) {
    0 <= n <= end <= |s| && forall k :: end - n <= k < end ==> Digit(s[k])
  }

  ghost predicate SixDigits(s: string) {
    exists end :: DigitsBefore(s, end, 6)
  }

  function CountAlphaNumeric(s: string): nat {
    if s == "" then 0 else CountAlphaNumeric(s[..|s| - 1]) + if AlphaNumeric(s[|s| - 1]) then 1 else 0
  }

  ghost predicate Sensitive(run: string) {
    SixDigits(run) || CountAlphaNumeric(run) >= 20
  }

  method RunIsSensitive(run: string) returns (sensitive: bool)
    ensures sensitive <==> Sensitive(run)
  {
    var digits := 0;
    var count := 0;
    for i := 0 to |run|
      invariant 0 <= digits < 6 && DigitsBefore(run, i, digits) && (digits < i ==> !Digit(run[i - digits - 1]))
      invariant digits <= i && forall end :: end <= i ==> !DigitsBefore(run, end, 6)
    {
      if Digit(run[i]) {
        digits := digits + 1;
        if digits >= 6 {
          assert DigitsBefore(run, i + 1, 6);
          return true;
        }
      } else {
        digits := 0;
      }
      if digits <= i {
        assert !Digit(run[i - digits]);
      }
    }
    for i := 0 to |run|
      invariant count == CountAlphaNumeric(run[..i])
    {
      assert run[..i + 1][..i] == run[..i];
      if AlphaNumeric(run[i]) {
        count := count + 1;
      }
    }
    assert run[..|run|] == run;
    return count >= 20;
  }

  /** The longest token at the front. */
  function FrontToken(s: string): (token: string)
    ensures token <= s && IsToken(token)
    ensures |token| < |s| ==> !TokenChar(s[|token|])
  {
    if s == "" || !TokenChar(s[0]) then "" else [s[0]] + FrontToken(s[1..])
  }

  ghost function Mask(token: string): string {
    if Sensitive(token) then "***" else token
  }

  /** The text with every maximal sensitive token masked. */
  ghost function Scrubbed(s: string): string
    decreases |s|
  {
    if s == "" then ""
    else
      var token := FrontToken(s);
      if token == "" then [s[0]] + Scrubbed(s[1..])
      else Mask(token) + Scrubbed(s[|token|..])
  }

  lemma {:induction false} FrontTokenOf(token: string, rest: string)
    requires IsToken(token) && (rest == "" || !TokenChar(rest[0]))
    ensures FrontToken(token + rest) == token
  {
    if token == "" {
      assert token + rest == rest;
    } else {
      assert (token + rest)[1..] == token[1..] + rest;
      FrontTokenOf(token[1..], rest);
    }
  }

  lemma NothingSensitive()
    ensures !Sensitive("")
  {
    assert forall end :: !DigitsBefore("", end, 6);
  }

  /** A maximal token is masked as one. */
  lemma ScrubToken(token: string, rest: string)
    requires IsToken(token) && (rest == "" || !TokenChar(rest[0]))
    ensures Scrubbed(token + rest) == Mask(token) + Scrubbed(rest)
  {
    FrontTokenOf(token, rest);
    NothingSensitive();
    if token == "" {
      assert token + rest == rest;
    } else {
      assert (token + rest)[|token|..] == rest;
    }
  }

  lemma ScrubSeparator(c: char, rest: string)
    requires !TokenChar(c)
    ensures Scrubbed([c] + rest) == [c] + Scrubbed(rest)
  {
    assert ([c] + rest)[1..] == rest;
  }

  /** The final text, seen from the middle of the loop. */
  ghost function Pending(out: string, run: string, rest: string): string {
    out + Scrubbed(run + rest)
  }

  lemma PendingFlush(out: string, run: string, c: char, rest: string)
    requires IsToken(run) && !TokenChar(c)
    ensures Pending(out, run, [c] + rest) == Pending(out + Mask(run) + [c], "", rest)
  {
    ScrubToken(run, [c] + rest);
    ScrubSeparator(c, rest);
    Reassociate(out, Mask(run), c, Scrubbed(rest));
    assert "" + rest == rest;
  }

  lemma PendingPush(out: string, run: string, c: char, rest: string)
    ensures Pending(out, run, [c] + rest) == Pending(out, run + [c], rest)
  {
    assert run + ([c] + rest) == (run + [c]) + rest;
  }

  lemma PendingEnd(out: string, run: string)
    requires IsToken(run)
    ensures Pending(out, run, "") == out + Mask(run)
  {
    ScrubToken(run, "");
    assert Mask(run) + Scrubbed("") == Mask(run);
  }

  lemma Reassociate(p: string, q: string, c: char, r: string)
    ensures p + (q + ([c] + r)) == p + q + [c] + r
  {
  }

  method Flush(out: string, run: string) returns (now: string)
    ensures now == out + Mask(run)
  {
    var sensitive := RunIsSensitive(run);
    now := out + if sensitive then "***" else run;
  }

  lemma SplitHead(s: string, i: nat)
    requires i < |s|
    ensures s[i..] == [s[i]] + s[i + 1..]
  {
  }

  method ScrubSecrets(s: string) returns (out: string)
    ensures out == Scrubbed(s)
  {
    out := "";
    var run := "";
    assert "" + s[0..] == s && "" + Scrubbed(s) == Scrubbed(s);
    for i := 0 to |s|
      invariant IsToken(run) && Pending(out, run, s[i..]) == Scrubbed(s)
    {
      SplitHead(s, i);
      if TokenChar(s[i]) {
        PendingPush(out, run, s[i], s[i + 1..]);
        run := run + [s[i]];
      } else {
        PendingFlush(out, run, s[i], s[i + 1..]);
        out := Flush(out, run);
        out := out + [s[i]];
        run := "";
      }
    }
    PendingEnd(out, run);
    out := Flush(out, run);
  }

  // ----- What scrubbing promises -----

  /** A scrubbed text begins with a separator where the text does. */
  lemma ScrubbedHead(s: string)
    requires s == "" || !TokenChar(s[0])
    ensures Scrubbed(s) == "" || !TokenChar(Scrubbed(s)[0])
  {
  }

  /** No maximal token is sensitive. */
  ghost predicate Clean(s: string)
    decreases |s|
  {
    s == "" ||
    var token := FrontToken(s);
    if token == "" then Clean(s[1..]) else !Sensitive(token) && Clean(s[|token|..])
  }

  lemma CleanSeparator(c: char, rest: string)
    requires !TokenChar(c) && Clean(rest)
    ensures Clean([c] + rest)
  {
    assert ([c] + rest)[1..] == rest;
  }

  lemma CleanToken(token: string, rest: string)
    requires IsToken(token) && (rest == "" || !TokenChar(rest[0])) && !Sensitive(token) && Clean(rest)
    ensures Clean(token + rest)
  {
    FrontTokenOf(token, rest);
    if token == "" {
      assert token + rest == rest;
    } else {
      assert (token + rest)[|token|..] == rest;
    }
  }

  /** No sensitive token survives. */
  lemma {:induction false} ScrubbedClean(s: string)
    ensures Clean(Scrubbed(s))
    decreases |s|
  {
    if s != "" {
      var token := FrontToken(s);
      if token == "" {
        ScrubbedClean(s[1..]);
        CleanSeparator(s[0], Scrubbed(s[1..]));
      } else {
        var rest := s[|token|..];
        ScrubbedClean(rest);
        ScrubbedHead(rest);
        if Sensitive(token) {
          var stars := Scrubbed(rest);
          CleanSeparator('*', stars);
          CleanSeparator('*', ['*'] + stars);
          CleanSeparator('*', ['*'] + (['*'] + stars));
          assert ['*'] + (['*'] + (['*'] + stars)) == "***" + stars;
        } else {
          CleanToken(token, Scrubbed(rest));
        }
      }
    }
  }

  /** Nothing else is masked: a text without sensitive tokens is kept as it is. */
  lemma {:induction false} CleanKept(s: string)
    requires Clean(s)
    ensures Scrubbed(s) == s
    decreases |s|
  {
    if s != "" {
      var token := FrontToken(s);
      if token == "" {
        CleanKept(s[1..]);
        assert s == [s[0]] + s[1..];
      } else {
        CleanKept(s[|token|..]);
        assert s == token + s[|token|..];
      }
    }
  }

  /** Scrubbing twice scrubs once. */
  lemma Idempotent(s: string)
    ensures Scrubbed(Scrubbed(s)) == Scrubbed(s)
  {
    ScrubbedClean(s);
    CleanKept(Scrubbed(s));
  }

  /** A maximal token of a text, from position `i` up to `j`. */
  ghost predicate TokenAt(s: string, i: int, j: int) {
    && 0 <= i < j <= |s| && IsToken(s[i..j])
    && (i > 0 ==> !TokenChar(s[i - 1])) && (j < |s| ==> !TokenChar(s[j]))
  }

  lemma FrontTokenChars(s: string)
    ensures forall k :: 0 <= k < |FrontToken(s)| ==> TokenChar(s[k])
  {
    assert forall k :: 0 <= k < |FrontToken(s)| ==> s[k] == FrontToken(s)[k];
  }

  /** A maximal token starts at the front or after what the front holds. */
  lemma TokenStarts(s: string, i: int, j: int)
    requires TokenAt(s, i, j)
    ensures i == 0 || (i >= 1 && i >= |FrontToken(s)|)
  {
    FrontTokenChars(s);
  }

  lemma FirstToken(s: string, j: int)
    requires TokenAt(s, 0, j)
    ensures FrontToken(s) == s[0..j]
  {
    assert s == s[..j] + s[j..] && s[..j] == s[0..j];
    FrontTokenOf(s[0..j], s[j..]);
  }

  lemma LaterToken(s: string, i: int, j: int, skip: nat)
    requires TokenAt(s, i, j) && skip <= i
    ensures TokenAt(s[skip..], i - skip, j - skip) && s[skip..][i - skip..j - skip] == s[i..j]
  {
    assert s[skip..][i - skip..j - skip] == s[i..j];
  }

  lemma {:induction false} CleanTokens(s: string, i: int, j: int)
    requires Clean(s) && TokenAt(s, i, j)
    ensures !Sensitive(s[i..j])
    decreases |s|
  {
    TokenStarts(s, i, j);
    if i == 0 {
      FirstToken(s, j);
    } else {
      var skip := if FrontToken(s) == "" then 1 else |FrontToken(s)|;
      LaterToken(s, i, j, skip);
      CleanTokens(s[skip..], i - skip, j - skip);
    }
  }

  /** No maximal token of a scrubbed text is sensitive. */
  lemma NoSensitiveToken(s: string, i: int, j: int)
    requires TokenAt(Scrubbed(s), i, j)
    ensures !Sensitive(Scrubbed(s)[i..j])
  {
    ScrubbedClean(s);
    CleanTokens(Scrubbed(s), i, j);
  }

  lemma SixDigitsJoin(a: string, b: string)
    requires !SixDigits(a) && !SixDigits(b) && (a == "" || b == "" || !Digit(a[|a| - 1]) || !Digit(b[0]))
    ensures !SixDigits(a + b)
  {
    var s := a + b;
    forall end ensures !DigitsBefore(s, end, 6) {
      assert !DigitsBefore(a, end, 6) && !DigitsBefore(b, end - |a|, 6);
      if 6 <= end <= |a| {
        var k :| end - 6 <= k < end && !Digit(a[k]);
        assert s[k] == a[k];
      } else if |a| + 6 <= end <= |s| {
        var k :| end - |a| - 6 <= k < end - |a| && !Digit(b[k]);
        assert s[k + |a|] == b[k];
      } else if 6 <= end <= |s| {
        assert s[|a| - 1] == a[|a| - 1] && s[|a|] == b[0];
      }
    }
  }

  /** No run of six digits survives. */
  lemma {:induction false} NoSixDigits(s: string)
    ensures !SixDigits(Scrubbed(s))
    decreases |s|
  {
    if s == "" {
      NothingSensitive();
    } else {
      var token := FrontToken(s);
      if token == "" {
        NoSixDigits(s[1..]);
        assert !SixDigits([s[0]]);
        SixDigitsJoin([s[0]], Scrubbed(s[1..]));
      } else {
        var rest := s[|token|..];
        NoSixDigits(rest);
        ScrubbedHead(rest);
        assert !SixDigits("***");
        SixDigitsJoin(Mask(token), Scrubbed(rest));
      }
    }
  }

  lemma RegroupAround(p: string, q: string, c: char, r: string)
    ensures p + (q + [c] + r) == (p + q) + [c] + r
  {
  }

  lemma SplitAfterToken(token: string, rest: string, c: char, b: string)
    requires !TokenChar(c) && IsToken(token) && (rest == "" || !TokenChar(rest[0]))
    requires Scrubbed(rest + [c] + b) == Scrubbed(rest) + [c] + Scrubbed(b)
    ensures Scrubbed(token + rest + [c] + b) == Scrubbed(token + rest) + [c] + Scrubbed(b)
  {
    RegroupAround(token, rest, c, b);
    ScrubToken(token, rest);
    ScrubToken(token, rest + [c] + b);
    RegroupAround(Mask(token), Scrubbed(rest), c, Scrubbed(b));
  }

  lemma SplitAfterSeparator(d: char, rest: string, c: char, b: string)
    requires !TokenChar(c) && !TokenChar(d)
    requires Scrubbed(rest + [c] + b) == Scrubbed(rest) + [c] + Scrubbed(b)
    ensures Scrubbed([d] + rest + [c] + b) == Scrubbed([d] + rest) + [c] + Scrubbed(b)
  {
    RegroupAround([d], rest, c, b);
    ScrubSeparator(d, rest);
    ScrubSeparator(d, rest + [c] + b);
    RegroupAround([d], Scrubbed(rest), c, Scrubbed(b));
  }

  lemma SplitAtStart(c: char, b: string)
    requires !TokenChar(c)
    ensures Scrubbed("" + [c] + b) == Scrubbed("") + [c] + Scrubbed(b)
  {
    assert "" + [c] + b == [c] + b;
    ScrubSeparator(c, b);
    assert Scrubbed("") + [c] + Scrubbed(b) == [c] + Scrubbed(b);
  }

  /** What a separator splits is scrubbed apart, and the separator is kept. */
  lemma {:induction false} SeparatorsSplit(a: string, c: char, b: string)
    requires !TokenChar(c)
    ensures Scrubbed(a + [c] + b) == Scrubbed(a) + [c] + Scrubbed(b)
    decreases |a|
  {
    if a == "" {
      SplitAtStart(c, b);
    } else {
      var token := FrontToken(a);
      if token == "" {
        var rest := a[1..];
        assert [a[0]] + rest == a;
        SeparatorsSplit(rest, c, b);
        SplitAfterSeparator(a[0], rest, c, b);
      } else {
        var rest := a[|token|..];
        assert token + rest == a;
        SeparatorsSplit(rest, c, b);
        SplitAfterToken(token, rest, c, b);
      }
    }
  }

  /** A single token is kept whole or masked whole. */
  lemma TokensWhole(token: string)
    requires IsToken(token)
    ensures Scrubbed(token) == if Sensitive(token) then "***" else token
  {
    ScrubToken(token, "");
    assert token + "" == token && Mask(token) + "" == Mask(token);
  }

  // ----- In characters -----

  /** Positions of ASCII letters and digits. */
  function AlphaNumericAt(s: string): set<int> {
    set k | 0 <= k < |s| && ('0' <= s[k] <= '9' || 'a' <= s[k] <= 'z' || 'A' <= s[k] <= 'Z')
  }

  lemma {:induction false} CountIsSize(s: string)
    ensures CountAlphaNumeric(s) == |AlphaNumericAt(s)|
  {
    if s != "" {
      var n := |s| - 1;
      CountIsSize(s[..n]);
      assert AlphaNumericAt(s) == AlphaNumericAt(s[..n]) + if AlphaNumeric(s[n]) then {n} else {};
    }
  }

  /** A token is sensitive exactly when six digits follow each other in it, or it holds twenty
      letters and digits. */
  lemma SensitiveIff(token: string)
    ensures Sensitive(token) <==>
              || (exists start: nat :: SixFrom(token, start))
              || |AlphaNumericAt(token)| >= 20
  {
    CountIsSize(token);
    if end :| DigitsBefore(token, end, 6) {
      assert SixFrom(token, end - 6);
    }
    if start: nat :| SixFrom(token, start) {
      assert DigitsBefore(token, start + 6, 6);
    }
  }

  predicate SixFrom(s: string, start: nat) {
    start + 6 <= |s| && forall k :: start <= k < start + 6 ==> '0' <= s[k] <= '9'
  }

  /** From `i` up to `j` a text holds letters, digits and dashes only, and no more around them. */
  predicate WholeToken(s: string, i: nat, j: nat) {
    && i < j <= |s|
    && (forall k :: i <= k < j ==> InToken(s[k]))
    && (i > 0 ==> !InToken(s[i - 1])) && (j < |s| ==> !InToken(s[j]))
  }

  predicate InToken(c: char) {
    '0' <= c <= '9' || 'a' <= c <= 'z' || 'A' <= c <= 'Z' || c == '-'
  }

  /** No account number and no credential survives: of a scrubbed text, every whole token has
      fewer than twenty letters and digits, and nowhere six digits in a row. */
  lemma NothingSurvives(s: string, i: nat, j: nat)
    requires WholeToken(Scrubbed(s), i, j)
    ensures |AlphaNumericAt(Scrubbed(s)[i..j])| < 20
    ensures forall start: nat :: !SixFrom(Scrubbed(s)[i..j], start)
  {
    var out := Scrubbed(s);
    forall k | 0 <= k < j - i ensures TokenChar(out[i..j][k]) {
      assert InToken(out[i + k]);
    }
    assert TokenAt(out, i, j);
    NoSensitiveToken(s, i, j);
    SensitiveIff(out[i..j]);
  }
}
