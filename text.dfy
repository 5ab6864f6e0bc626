/**
 * The Python string operations the dialogs and the store rely on: `str.strip()` with no
 * argument and `str.split('\n')`.
 */
module Text {

  /** The code points for which Python's `str.isspace()` is true. */
  predicate IsSpace(c: char) {
    var n := c as int;
    (9 <= n <= 13) || (28 <= n <= 32) || n == 0x85 || n == 0xA0 || n == 0x1680
    || (0x2000 <= n <= 0x200A) || n == 0x2028 || n == 0x2029 || n == 0x202F
    || n == 0x205F || n == 0x3000
  }

  /** Every character is whitespace (so `s.strip()` is falsy). */
  predicate IsBlank(s: string) {
    forall i :: 0 <= i < |s| ==> IsSpace(s[i])
  }

  /** Neither starts nor ends with whitespace. */
  predicate IsStripped(s: string) {
    s == [] || (!IsSpace(s[0]) && !IsSpace(s[|s| - 1]))
  }

  /** Where `s.strip()` starts: the first index at or after `i` that is not whitespace. */
  function StripStart(s: string, i: nat): (n: nat)
    requires i <= |s|
    ensures i <= n <= |s|
    ensures forall k :: i <= k < n ==> IsSpace(s[k])
    ensures n < |s| ==> !IsSpace(s[n])
    decreases |s| - i
  {
    if i < |s| && IsSpace(s[i]) then StripStart(s, i + 1) else i
  }

  /** Where `s.strip()` ends, searching down from `hi` to `lo`: just past the last non-whitespace character. */
  function StripEnd(s: string, lo: nat, hi: nat): (n: nat)
    requires lo <= hi <= |s|
    ensures lo <= n <= hi
    ensures forall k :: n <= k < hi ==> IsSpace(s[k])
    ensures n > lo ==> !IsSpace(s[n - 1])
    decreases hi
  {
    if hi > lo && IsSpace(s[hi - 1]) then StripEnd(s, lo, hi - 1) else hi
  }

  /** Where `Strip(s)` starts inside `s`. */
  function StripOffset(s: string): (o: nat)
    ensures o <= |s|
  {
    StripStart(s, 0)
  }

  /**
   * `s.strip()`: `s` with its leading and trailing whitespace removed; it is empty exactly
   * when `s` is blank.
   */
  function Strip(s: string): (r: string)
    ensures IsStripped(r)
    ensures r == [] <==> IsBlank(s)
  {
    var a := StripOffset(s);
    var b := StripEnd(s, a, |s|);
    StripBlank(s, a, b);
    s[a..b]
  }

  lemma StripBlank(s: string, a: nat, b: nat)
    requires a == StripOffset(s) && b == StripEnd(s, a, |s|)
    ensures IsStripped(s[a..b]) && (s[a..b] == [] <==> IsBlank(s))
  {
    if a == b {
      assert a == |s|;
    } else {
      assert s[a..b][0] == s[a];
      assert s[a..b][b - a - 1] == s[b - 1];
    }
  }

  /**
   * Stripping removes only whitespace: the strip of `s` is the part of `s` that starts at
   * `StripOffset(s)`, and every character before or after that part is whitespace.
   */
  lemma StripSlice(s: string)
    ensures var o, r := StripOffset(s), Strip(s);
      && o + |r| <= |s| && r == s[o..o + |r|]
      && (forall i :: 0 <= i < o ==> IsSpace(s[i]))
      && (forall i :: o + |r| <= i < |s| ==> IsSpace(s[i]))
  {
  }

  /** A string without surrounding whitespace is its own strip. */
  lemma StripStripped(s: string)
    requires IsStripped(s)
    ensures Strip(s) == s
  {
    if s != [] {
      assert StripOffset(s) == 0;
      assert StripEnd(s, 0, |s|) == |s|;
    }
    assert s[0..|s|] == s;
  }

  /** Stripping twice is stripping once. */
  lemma StripIdempotent(s: string)
    ensures Strip(Strip(s)) == Strip(s)
  {
    StripStripped(Strip(s));
  }

  /**
   * `s.split(sep)`: the pieces of `s` between occurrences of `sep`. There is always at least
   * one piece (`"".split('\n') == ['']`) and no piece contains `sep`.
   */
  function Split(s: string, sep: char): (r: seq<string>)
    ensures |r| >= 1
    ensures forall i :: 0 <= i < |r| ==> sep !in r[i]
  {
    if s == [] then [[]]
    else
      var rest := Split(s[1..], sep);
      if s[0] == sep then [[]] + rest
      else [[s[0]] + rest[0]] + rest[1..]
  }

  /** `sep.join(parts)`. */
  function Join(parts: seq<string>, sep: char): string {
    if |parts| <= 1 then (if parts == [] then [] else parts[0])
    else parts[0] + [sep] + Join(parts[1..], sep)
  }

  /** Splitting loses nothing: joining the pieces gives back the string. */
  lemma {:induction false} JoinSplit(s: string, sep: char)
    ensures Join(Split(s, sep), sep) == s
  {
    if s != [] {
      var rest := Split(s[1..], sep);
      JoinSplit(s[1..], sep);
      if s[0] == sep {
        assert Split(s, sep) == [[]] + rest;
        assert ([[]] + rest)[1..] == rest;
      } else {
        var r := [[s[0]] + rest[0]] + rest[1..];
        assert Split(s, sep) == r;
        if |rest| == 1 {
          assert r == [[s[0]] + rest[0]];
        } else {
          assert r[1..] == rest[1..];
          assert Join(rest, sep) == rest[0] + [sep] + Join(rest[1..], sep);
        }
      }
    }
  }

  /**
   * `[t.strip() for t in lines if t.strip()]`: the stripped form of every line that is not
   * blank, in order.
   */
  function StrippedLines(lines: seq<string>): (r: seq<string>)
    ensures |r| <= |lines|
    ensures AllStripped(r)
  {
    if lines == [] then []
    else
      var t := Strip(lines[|lines| - 1]);
      StrippedLines(lines[..|lines| - 1]) + (if t != [] then [t] else [])
  }

  /** Every line is non-empty and has no surrounding whitespace. */
  predicate AllStripped(lines: seq<string>) {
    forall i :: 0 <= i < |lines| ==> lines[i] != [] && IsStripped(lines[i])
  }

  lemma InitStripped(lines: seq<string>)
    requires lines != [] && AllStripped(lines)
    ensures AllStripped(lines[..|lines| - 1])
  {
  }

  /** The filter distributes over concatenation. */
  lemma {:induction false} StrippedLinesAppend(a: seq<string>, b: seq<string>)
    ensures StrippedLines(a + b) == StrippedLines(a) + StrippedLines(b)
    decreases |b|
  {
    if b != [] {
      var b0 := b[..|b| - 1];
      assert (a + b)[..|a + b| - 1] == a + b0;
      assert (a + b)[|a + b| - 1] == b[|b| - 1];
      StrippedLinesAppend(a, b0);
    } else {
      assert a + b == a;
    }
  }

  /** Lines that are already stripped and non-empty pass through the filter unchanged. */
  lemma {:induction false} StrippedLinesStable(lines: seq<string>)
    requires AllStripped(lines)
    ensures StrippedLines(lines) == lines
  {
    if lines != [] {
      var init := lines[..|lines| - 1];
      InitStripped(lines);
      StrippedLinesStable(init);
      StripStripped(lines[|lines| - 1]);
      LastSplit(lines);
    }
  }

  lemma LastSplit(lines: seq<string>)
    requires lines != []
    ensures lines == lines[..|lines| - 1] + [lines[|lines| - 1]]
  {
  }

  /** Filtering twice is filtering once. */
  lemma StrippedLinesIdempotent(lines: seq<string>)
    ensures StrippedLines(StrippedLines(lines)) == StrippedLines(lines)
  {
    StrippedLinesStable(StrippedLines(lines));
  }

  /** A line that is not blank survives the filter. */
  lemma {:induction false} NonBlankLineKept(lines: seq<string>, i: int)
    requires 0 <= i < |lines| && !IsBlank(lines[i])
    ensures StrippedLines(lines) != []
    decreases |lines|
  {
    var init, t := lines[..|lines| - 1], Strip(lines[|lines| - 1]);
    assert StrippedLines(lines) == StrippedLines(init) + (if t != [] then [t] else []);
    if i < |init| {
      assert init[i] == lines[i];
      NonBlankLineKept(init, i);
    } else {
      assert t != [];
    }
  }

  /** A string that does not start with the separator starts its first piece. */
  lemma {:induction false} SplitHead(s: string, sep: char)
    requires s != [] && s[0] != sep
    ensures Split(s, sep)[0] != [] && Split(s, sep)[0][0] == s[0]
  {
  }

  /**
   * The lines the creator takes from its task text (`text.strip().split('\n')`, each
   * stripped, blank ones dropped) are none exactly when the text is blank.
   */
  lemma NoLinesIffBlank(text: string)
    ensures StrippedLines(Split(Strip(text), '\n')) == [] <==> IsBlank(text)
  {
    var s := Strip(text);
    var pieces := Split(s, '\n');
    if !IsBlank(text) {
      SplitHead(s, '\n');
      assert !IsBlank(pieces[0]);
      NonBlankLineKept(pieces, 0);
    } else {
      assert pieces == [[]];
    }
  }

  /** `t in s` for strings: `t` occurs somewhere in `s`. */
  predicate HasInfix(s: string, t: string) {
    exists i :: 0 <= i <= |s| - |t| && InfixAt(s, t, i)
  }

  predicate InfixAt(s: string, t: string, i: int) {
    0 <= i <= |s| - |t| && s[i..i + |t|] == t
  }
}
