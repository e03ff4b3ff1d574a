/**
 * The Rust standard-library string operations the wrapper relies on, over
 * `string` (a sequence of Unicode scalar values): `str::starts_with`,
 * `[&str]::join`, `str::lines`, `str::trim` and the `Display` of an integer.
 */
module Text {

  /** `s.starts_with(prefix)` for a string pattern. */
  predicate StartsWith(s: string, prefix: string)
  {
    |prefix| <= |s| && s[..|prefix|] == prefix
  }

  /** `parts.join(sep)`: the parts with `sep` between neighbours. */
  function Join(parts: seq<string>, sep: string): string
  {
    if |parts| == 0 then ""
    else if |parts| == 1 then parts[0]
    else parts[0] + sep + Join(parts[1..], sep)
  }

  /** The index of the first `c` in `s`, or `|s|` when there is none. */
  function IndexOf(s: string, c: char): (i: nat)
    ensures i <= |s|
    ensures forall k :: 0 <= k < i ==> s[k] != c
    ensures i < |s| ==> s[i] == c
  {
    if s == [] then 0
    else if s[0] == c then 0
    else 1 + IndexOf(s[1..], c)
  }

  lemma IndexOfSplit(a: string, c: char, b: string)
    requires c !in a
    ensures IndexOf(a + [c] + b, c) == |a|
  {
    var s := a + [c] + b;
    assert s[|a|] == c;
    assert forall k :: 0 <= k < |a| ==> s[k] == a[k];
  }

  /** The pieces of `s` between occurrences of `c`, as `str::split(c)` yields them. */
  function SplitOn(s: string, c: char): (r: seq<string>)
    ensures |r| >= 1
    ensures forall k :: 0 <= k < |r| ==> c !in r[k]
    decreases |s|
  {
    var i := IndexOf(s, c);
    if i == |s| then [s] else [s[..i]] + SplitOn(s[i + 1..], c)
  }

  /** Splitting a join on a separator that no part contains gives the parts back. */
  lemma {:induction false} SplitOnJoin(parts: seq<string>, c: char)
    requires |parts| >= 1
    requires forall k :: 0 <= k < |parts| ==> c !in parts[k]
    ensures SplitOn(Join(parts, [c]), c) == parts
  {
    if |parts| == 1 {
      assert Join(parts, [c]) == parts[0];
    } else {
      var rest := Join(parts[1..], [c]);
      assert Join(parts, [c]) == parts[0] + [c] + rest;
      SplitOnCons(parts[0], c, rest);
      SplitOnJoin(parts[1..], c);
      assert parts == [parts[0]] + parts[1..];
    }
  }

  /** A piece free of the separator, then the separator, splits off as the first piece. */
  lemma SplitOnCons(a: string, c: char, b: string)
    requires c !in a
    ensures SplitOn(a + [c] + b, c) == [a] + SplitOn(b, c)
  {
    var s := a + [c] + b;
    IndexOfSplit(a, c, b);
    assert s[..|a|] == a;
    assert s[|a| + 1..] == b;
  }

  // ---------------------------------------------------------------------------
  // str::lines

  predicate EndsWithCr(line: string)
  {
    |line| > 0 && line[|line| - 1] == '\r'
  }

  /** The line with one carriage return removed from its end, if it has one. */
  function StripCr(line: string): string
  {
    if EndsWithCr(line) then line[..|line| - 1] else line
  }

  /**
   * `s.lines()`: every `\n` ends a line, one `\r` just before a `\n` is dropped
   * with it, and a final `\n` does not open an empty last line. A final line
   * without `\n` is kept as it is, a trailing `\r` included.
   */
  function Lines(s: string): (r: seq<string>)
    ensures forall k :: 0 <= k < |r| ==> '\n' !in r[k]
    ensures r == [] <==> s == []
    decreases |s|
  {
    if s == [] then []
    else
      var i := IndexOf(s, '\n');
      if i == |s| then [s]
      else [StripCr(s[..i])] + Lines(s[i + 1..])
  }

  /** One line followed by `\n` contributes exactly that line. */
  lemma LinesCons(line: string, rest: string)
    requires '\n' !in line
    ensures Lines(line + "\n" + rest) == [StripCr(line)] + Lines(rest)
  {
    var s := line + "\n" + rest;
    IndexOfSplit(line, '\n', rest);
    assert s[..|line|] == line;
    assert s[|line| + 1..] == rest;
  }

  predicate EndsWithNewline(s: string)
  {
    |s| > 0 && s[|s| - 1] == '\n'
  }

  /**
   * Concatenation regrouped. Stated once as a lemma: the solver proves it
   * cheaply on its own, but far more expensively inline in a larger proof.
   */
  lemma Associative<T>(x: seq<T>, y: seq<T>, z: seq<T>)
    ensures (x + y) + z == x + (y + z)
  {
  }

  /** Text holding a `\n` splits into its first line, that `\n`, and the rest. */
  lemma FirstLine(s: string) returns (line: string, tail: string)
    requires IndexOf(s, '\n') < |s|
    ensures s == line + "\n" + tail && '\n' !in line
    ensures |tail| < |s| && (tail == [] || tail[|tail| - 1] == s[|s| - 1])
  {
    var i := IndexOf(s, '\n');
    line, tail := s[..i], s[i + 1..];
    assert forall k :: 0 <= k < |line| ==> line[k] == s[k];
    assert s == line + "\n" + tail;
  }

  /** Text that ends a line can be split off: `lines` works line by line. */
  lemma {:induction false} LinesAppend(a: string, b: string)
    requires a == [] || EndsWithNewline(a)
    ensures Lines(a + b) == Lines(a) + Lines(b)
    decreases |a|
  {
    if a == [] {
      assert a + b == b;
    } else {
      assert a[|a| - 1] == '\n';
      var line, tail := FirstLine(a);
      LinesAppend(tail, b);
      LinesAppendStep(line, tail, b);
    }
  }

  lemma LinesAppendStep(line: string, tail: string, b: string)
    requires '\n' !in line
    requires Lines(tail + b) == Lines(tail) + Lines(b)
    ensures Lines(line + "\n" + tail + b) == Lines(line + "\n" + tail) + Lines(b)
  {
    Associative(line + "\n", tail, b);
    LinesCons(line, tail + b);
    LinesCons(line, tail);
    Associative([StripCr(line)], Lines(tail), Lines(b));
  }

  /** Lines that hold no `\n` and do not end in `\r` survive a join with `\n`, provided the last one is not empty. */
  lemma {:induction false} LinesOfJoin(ls: seq<string>)
    requires forall k :: 0 <= k < |ls| ==> '\n' !in ls[k] && !EndsWithCr(ls[k])
    requires ls == [] || ls[|ls| - 1] != []
    ensures Lines(Join(ls, "\n")) == ls
  {
    if |ls| == 1 {
      assert IndexOf(ls[0], '\n') == |ls[0]|;
    } else if |ls| > 1 {
      var rest := Join(ls[1..], "\n");
      assert Join(ls, "\n") == ls[0] + "\n" + rest;
      LinesCons(ls[0], rest);
      LinesOfJoin(ls[1..]);
      assert ls == [ls[0]] + ls[1..];
    }
  }

  /** No `\r` stands just before a `\n`. */
  predicate NoCrLf(s: string)
  {
    forall k :: 0 <= k < |s| - 1 && s[k + 1] == '\n' ==> s[k] != '\r'
  }

  /** `s` without its final `\n`, if it ends in one. */
  function DropFinalNewline(s: string): string
  {
    if EndsWithNewline(s) then s[..|s| - 1] else s
  }

  /** Rejoining the lines of text without CRLF endings gives the text back, less a final `\n`. */
  lemma {:induction false} JoinOfLines(s: string)
    requires NoCrLf(s)
    ensures Join(Lines(s), "\n") == DropFinalNewline(s)
    decreases |s|
  {
    if s != [] && IndexOf(s, '\n') < |s| {
      var line, tail := FirstLine(s);
      NoCrLfParts(line, tail);
      JoinOfLines(tail);
      JoinOfLinesStep(line, tail);
    }
  }

  /** The first line of text without CRLF endings ends in no `\r`, and the rest has no CRLF endings either. */
  lemma NoCrLfParts(line: string, tail: string)
    requires NoCrLf(line + "\n" + tail)
    ensures StripCr(line) == line && NoCrLf(tail)
  {
    var s := line + "\n" + tail;
    if line != [] {
      assert s[|line|] == '\n' && s[|line| - 1] == line[|line| - 1];
    }
    forall k | 0 <= k < |tail| - 1 && tail[k + 1] == '\n'
      ensures tail[k] != '\r'
    {
      assert tail[k] == s[|line| + 1 + k] && tail[k + 1] == s[|line| + 2 + k];
    }
  }

  lemma JoinOfLinesStep(line: string, tail: string)
    requires '\n' !in line && StripCr(line) == line
    requires Join(Lines(tail), "\n") == DropFinalNewline(tail)
    ensures Join(Lines(line + "\n" + tail), "\n") == DropFinalNewline(line + "\n" + tail)
  {
    LinesCons(line, tail);
    if tail == [] {
      assert line + "\n" + tail == line + "\n";
    } else {
      JoinCons(line, Lines(tail), "\n");
      DropFinalNewlineAfter(line + "\n", tail);
    }
  }

  lemma JoinCons(first: string, rest: seq<string>, sep: string)
    requires rest != []
    ensures Join([first] + rest, sep) == first + sep + Join(rest, sep)
  {
    assert ([first] + rest)[1..] == rest;
  }

  lemma DropFinalNewlineAfter(prefix: string, tail: string)
    requires tail != []
    ensures DropFinalNewline(prefix + tail) == prefix + DropFinalNewline(tail)
  {
    var s := prefix + tail;
    assert s[|s| - 1] == tail[|tail| - 1];
    if EndsWithNewline(tail) {
      assert prefix + tail[..|tail| - 1] == s[..|s| - 1];
    }
  }

  /** A final line ending is optional: adding one to text that lacks it changes no line. */
  lemma {:induction false} FinalNewlineOptional(s: string)
    requires s != [] && s[|s| - 1] != '\n' && s[|s| - 1] != '\r'
    ensures Lines(s + "\n") == Lines(s)
    decreases |s|
  {
    if IndexOf(s, '\n') == |s| {
      LastLine(s);
    } else {
      var line, tail := FirstLine(s);
      assert tail != [] && tail[|tail| - 1] == s[|s| - 1];
      FinalNewlineOptional(tail);
      FinalNewlineStep(line, tail);
    }
  }

  /** A last line without `\n` and without a trailing `\r` gives the same single line when a `\n` is added. */
  lemma LastLine(s: string)
    requires s != [] && IndexOf(s, '\n') == |s| && s[|s| - 1] != '\r'
    ensures Lines(s + "\n") == Lines(s)
  {
    LinesCons(s, "");
    assert s + "\n" == s + "\n" + "";
  }

  lemma FinalNewlineStep(line: string, tail: string)
    requires '\n' !in line && Lines(tail + "\n") == Lines(tail)
    ensures Lines(line + "\n" + tail + "\n") == Lines(line + "\n" + tail)
  {
    Associative(line + "\n", tail, "\n");
    LinesCons(line, tail);
    LinesCons(line, tail + "\n");
  }

  // ---------------------------------------------------------------------------
  // str::trim

  /** The Unicode `White_Space` property, which Rust's `char::is_whitespace` tests. */
  predicate IsWhitespace(c: char)
  {
    ('\t' <= c <= '\r') || c == ' ' || c == '\U{85}' || c == '\U{A0}' || c == '\U{1680}'
    || ('\U{2000}' <= c <= '\U{200A}') || c == '\U{2028}' || c == '\U{2029}'
    || c == '\U{202F}' || c == '\U{205F}' || c == '\U{3000}'
  }

  predicate IsBlank(s: string)
  {
    forall k :: 0 <= k < |s| ==> IsWhitespace(s[k])
  }

  /** `s.trim_start()`: the longest suffix of `s` that does not begin with whitespace. */
  function TrimStart(s: string): (r: string)
    ensures |r| <= |s| && r == s[|s| - |r|..]
    ensures IsBlank(s[..|s| - |r|])
    ensures r != [] ==> !IsWhitespace(r[0])
  {
    if s != [] && IsWhitespace(s[0]) then
      var tail := s[1..];
      var r := TrimStart(tail);
      assert tail[|tail| - |r|..] == s[|s| - |r|..];
      assert s[..|s| - |r|] == [s[0]] + tail[..|tail| - |r|];
      r
    else s
  }

  /** `s.trim_end()`: the longest prefix of `s` that does not end with whitespace. */
  function TrimEnd(s: string): (r: string)
    ensures |r| <= |s| && r == s[..|r|]
    ensures IsBlank(s[|r|..])
    ensures r != [] ==> !IsWhitespace(r[|r| - 1])
  {
    if s != [] && IsWhitespace(s[|s| - 1]) then
      var init := s[..|s| - 1];
      var r := TrimEnd(init);
      assert init[..|r|] == s[..|r|];
      assert s[|r|..] == init[|r|..] + [s[|s| - 1]];
      r
    else s
  }

  /** `s.trim()`: `s` without leading and trailing whitespace. */
  function Trim(s: string): (r: string)
    ensures r == [] <==> IsBlank(s)
    ensures r != [] ==> !IsWhitespace(r[0]) && !IsWhitespace(r[|r| - 1])
  {
    var e := TrimEnd(s);
    assert IsBlank(e) ==> IsBlank(s) by {
      if IsBlank(e) {
        forall k | 0 <= k < |s| ensures IsWhitespace(s[k]) {
          if k >= |e| {
            assert s[k] == s[|e|..][k - |e|];
          }
        }
      }
    }
    var r := TrimStart(e);
    assert r == [] ==> IsBlank(e) by {
      if r == [] {
        assert e[..|e| - |r|] == e;
      }
    }
    assert r != [] ==> r[|r| - 1] == e[|e| - 1];
    r
  }

  /** Trimming keeps a contiguous part of the text and removes only whitespace around it. */
  lemma TrimIsInfix(s: string)
    ensures exists i, j :: 0 <= i <= j <= |s| && Trim(s) == s[i..j] && IsBlank(s[..i]) && IsBlank(s[j..])
  {
    var e := TrimEnd(s);
    var r := TrimStart(e);
    var i, j := |e| - |r|, |e|;
    assert Trim(s) == r == s[i..j];
    assert s[..i] == e[..i];
  }

  /** Whitespace at the end of text never changes what it trims to. */
  lemma TrimDropsFinalWhitespace(s: string, c: char)
    requires IsWhitespace(c)
    ensures Trim(s + [c]) == Trim(s)
  {
    var t := s + [c];
    assert t[..|t| - 1] == s;
    assert TrimEnd(t) == TrimEnd(s);
  }

  /** A final `\n` never changes what text trims to. */
  lemma TrimDropFinalNewline(s: string)
    ensures Trim(DropFinalNewline(s)) == Trim(s)
  {
    if EndsWithNewline(s) {
      var t := s[..|s| - 1];
      assert s == t + ['\n'];
      TrimDropsFinalWhitespace(t, '\n');
    }
  }

  // ---------------------------------------------------------------------------
  // Display of an integer

  predicate IsDigit(c: char)
  {
    '0' <= c <= '9'
  }

  function DigitChar(d: nat): (c: char)
    requires d < 10
    ensures IsDigit(c) && c as int - '0' as int == d
  {
    ('0' as int + d) as char
  }

  /** The decimal digits of `n`, most significant first, with no leading zero. */
  function NatToDecimal(n: nat): (s: string)
    ensures |s| >= 1 && forall k :: 0 <= k < |s| ==> IsDigit(s[k])
    ensures s[0] == '0' ==> n == 0
    decreases n
  {
    if n < 10 then [DigitChar(n)] else NatToDecimal(n / 10) + [DigitChar(n % 10)]
  }

  /** `format!("{}", i)`: a minus sign for negative values, then the digits of the magnitude. */
  function IntToDecimal(i: int): string
  {
    if i < 0 then "-" + NatToDecimal(-i) else NatToDecimal(i)
  }

  predicate IsDigits(s: string)
  {
    forall k :: 0 <= k < |s| ==> IsDigit(s[k])
  }

  /** The value of a string of decimal digits. */
  function DigitsValue(s: string): nat
    requires IsDigits(s)
  {
    if s == [] then 0
    else 10 * DigitsValue(s[..|s| - 1]) + (s[|s| - 1] as int - '0' as int)
  }

  /** The form `Display` prints an integer in: an optional minus sign, then digits. */
  predicate IsNumeral(s: string)
  {
    if |s| > 0 && s[0] == '-' then |s| > 1 && IsDigits(s[1..]) else |s| > 0 && IsDigits(s)
  }

  function NumeralValue(s: string): int
    requires IsNumeral(s)
  {
    if s[0] == '-' then -(DigitsValue(s[1..]) as int) else DigitsValue(s)
  }

  lemma {:induction false} NatToDecimalValue(n: nat)
    ensures DigitsValue(NatToDecimal(n)) == n
    decreases n
  {
    if n >= 10 {
      var s := NatToDecimal(n);
      assert s[..|s| - 1] == NatToDecimal(n / 10);
      NatToDecimalValue(n / 10);
    }
  }

  /** The printed form of an integer reads back as that integer: different values print differently. */
  lemma IntToDecimalRoundTrip(i: int)
    ensures IsNumeral(IntToDecimal(i)) && NumeralValue(IntToDecimal(i)) == i
  {
    if i < 0 {
      assert IntToDecimal(i)[1..] == NatToDecimal(-i);
      NatToDecimalValue(-i);
    } else {
      NatToDecimalValue(i);
    }
  }
}
