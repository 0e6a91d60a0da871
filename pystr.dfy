/** The few Python `str` operations the scripts rely on, on `seq<char>`:
    `strip()`, `lower()`, the substring test `sub in s`, `split(sep)` on a
    one-character separator, and `splitlines()`. */
module PyStr {

  /** Python's `str.isspace()` for one character: the characters that
      `strip()` with no argument removes. */
  predicate IsSpace(c: char)
  {
    ('\t' <= c <= '\r') || ('\U{1C}' <= c <= '\U{1F}') || c == ' '
    || c == '\U{85}' || c == '\U{A0}' || c == '\U{1680}'
    || ('\U{2000}' <= c <= '\U{200A}') || c == '\U{2028}' || c == '\U{2029}'
    || c == '\U{202F}' || c == '\U{205F}' || c == '\U{3000}'
  }

  predicate AllSpace(s: string)
  {
    forall k :: 0 <= k < |s| ==> IsSpace(s[k])
  }

  /** The characters at which `str.splitlines()` ends a line. */
  predicate IsLineBreak(c: char)
  {
    c == '\n' || c == '\r' || c == '\U{0B}' || c == '\U{0C}'
    || ('\U{1C}' <= c <= '\U{1E}') || c == '\U{85}' || c == '\U{2028}' || c == '\U{2029}'
  }

  // ---------------------------------------------------------------- strip

  /** `s.lstrip()`. */
  function TrimLeft(s: string): string
  {
    if s != [] && IsSpace(s[0]) then TrimLeft(s[1..]) else s
  }

  /** `s.rstrip()`. */
  function TrimRight(s: string): string
  {
    if s != [] && IsSpace(s[|s| - 1]) then TrimRight(s[..|s| - 1]) else s
  }

  /** `lstrip()` drops exactly the leading whitespace: what it returns is a
      suffix of `s` that does not start with whitespace. */
  lemma {:induction false} TrimLeftIsSuffix(s: string)
    ensures |TrimLeft(s)| <= |s| && TrimLeft(s) == s[|s| - |TrimLeft(s)|..]
    ensures forall k :: 0 <= k < |s| - |TrimLeft(s)| ==> IsSpace(s[k])
    ensures TrimLeft(s) != [] ==> !IsSpace(TrimLeft(s)[0])
  {
    if s != [] && IsSpace(s[0]) {
      TrimLeftIsSuffix(s[1..]);
      assert TrimLeft(s) == TrimLeft(s[1..]);
    }
  }

  /** `rstrip()` drops exactly the trailing whitespace: what it returns is a
      prefix of `s` that does not end with whitespace. */
  lemma {:induction false} TrimRightIsPrefix(s: string)
    ensures |TrimRight(s)| <= |s| && TrimRight(s) == s[..|TrimRight(s)|]
    ensures forall k :: |TrimRight(s)| <= k < |s| ==> IsSpace(s[k])
    ensures TrimRight(s) != [] ==> !IsSpace(TrimRight(s)[|TrimRight(s)| - 1])
  {
    if s != [] && IsSpace(s[|s| - 1]) {
      TrimRightIsPrefix(s[..|s| - 1]);
    }
  }

  /** `s.strip()`. */
  function Strip(s: string): string
  {
    TrimRight(TrimLeft(s))
  }

  /** What `strip()` returns is the slice of `s` left after removing the
      whitespace at both ends; it neither starts nor ends with whitespace. */
  lemma StripIsTrimmedSlice(s: string)
    ensures |Strip(s)| <= |s|
    ensures exists i :: StrippedAt(s, Strip(s), i)
    ensures Strip(s) != [] ==> !IsSpace(Strip(s)[0]) && !IsSpace(Strip(s)[|Strip(s)| - 1])
  {
    var t := TrimLeft(s);
    var r := TrimRight(t);
    TrimLeftIsSuffix(s);
    TrimRightIsPrefix(t);
    var i := |s| - |t|;
    var tail := t[|r|..];
    assert s[i + |r|..] == tail;
    assert AllSpace(tail) by {
      forall j | 0 <= j < |tail| ensures IsSpace(tail[j]) {
        assert tail[j] == t[|r| + j];
      }
    }
    assert StrippedAt(s, r, i);
  }

  /** `r` is what remains of `s` once the whitespace before position `i`
      and after position `i + |r|` is removed. */
  ghost predicate StrippedAt(s: string, r: string, i: int)
  {
    0 <= i <= |s| - |r| && r == s[i..i + |r|] && AllSpace(s[..i]) && AllSpace(s[i + |r|..])
  }

  lemma {:induction false} TrimLeftOfSpaces(w: string, t: string)
    requires AllSpace(w)
    requires t == [] || !IsSpace(t[0])
    ensures TrimLeft(w + t) == t
  {
    if w != [] {
      assert (w + t)[1..] == w[1..] + t;
      TrimLeftOfSpaces(w[1..], t);
    } else {
      assert w + t == t;
    }
  }

  lemma {:induction false} TrimRightOfSpaces(t: string, w: string)
    requires AllSpace(w)
    requires t == [] || !IsSpace(t[|t| - 1])
    ensures TrimRight(t + w) == t
  {
    if w != [] {
      assert (t + w)[..|t + w| - 1] == t + w[..|w| - 1];
      TrimRightOfSpaces(t, w[..|w| - 1]);
    } else {
      assert t + w == t;
    }
  }

  /** Surrounding whitespace never matters to `strip()`: a text that neither
      starts nor ends with whitespace comes back exactly, however it is padded. */
  lemma StripPadded(w: string, m: string, w': string)
    requires AllSpace(w) && AllSpace(w')
    requires m != [] ==> !IsSpace(m[0]) && !IsSpace(m[|m| - 1])
    ensures Strip(w + m + w') == m
  {
    if m == [] {
      TrimLeftOfSpaces(w + w', []);
      assert w + m + w' == (w + w') + [];
    } else {
      TrimLeftOfSpaces(w, m + w');
      assert w + m + w' == w + (m + w');
      TrimRightOfSpaces(m, w');
    }
  }

  // ---------------------------------------------------------------- lower

  predicate IsUpper(c: char)
  {
    'A' <= c <= 'Z'
  }

  /** `a` and `b` are the same letter, or the same character, up to ASCII case. */
  ghost predicate SameIgnoringCase(a: char, b: char)
  {
    a == b || (IsUpper(a) && b as int == a as int + 32) || (IsUpper(b) && a as int == b as int + 32)
  }

  /** `lower()` on one character, for the ASCII letters: the result is no
      capital, and it is the character itself or its lowercase form. */
  function LowerChar(c: char): (r: char)
    ensures !IsUpper(r)
    ensures SameIgnoringCase(c, r)
  {
    if IsUpper(c) then (c as int + 32) as char else c
  }

  /** `s.lower()`, character by character: same length, no capitals left. */
  function Lower(s: string): (r: string)
    ensures |r| == |s|
    ensures forall k :: 0 <= k < |r| ==> !IsUpper(r[k])
  {
    seq(|s|, k requires 0 <= k < |s| => LowerChar(s[k]))
  }

  lemma LowerCharEqual(a: char, b: char)
    ensures LowerChar(a) == LowerChar(b) <==> SameIgnoringCase(a, b)
  {
  }

  /** Two strings lower to the same string exactly when they have the same
      length and agree character by character up to ASCII case. */
  lemma {:induction false} LowerEqualIff(s: string, t: string)
    ensures Lower(s) == Lower(t) <==>
            |s| == |t| && forall k :: 0 <= k < |s| ==> SameIgnoringCase(s[k], t[k])
  {
    if Lower(s) == Lower(t) {
      forall k | 0 <= k < |s| ensures SameIgnoringCase(s[k], t[k]) {
        assert Lower(s)[k] == Lower(t)[k];
        LowerCharEqual(s[k], t[k]);
      }
    }
    if |s| == |t| && forall k :: 0 <= k < |s| ==> SameIgnoringCase(s[k], t[k]) {
      forall k | 0 <= k < |s| ensures Lower(s)[k] == Lower(t)[k] {
        LowerCharEqual(s[k], t[k]);
      }
    }
  }

  // ------------------------------------------------------- substring test

  predicate StartsWith(s: string, prefix: string)
  {
    |prefix| <= |s| && s[..|prefix|] == prefix
  }

  /** Python's `sub in s`. */
  predicate Contains(s: string, sub: string)
    decreases |s|
  {
    StartsWith(s, sub) || (s != [] && Contains(s[1..], sub))
  }

  /** `sub` occurs in `s` starting at position `i`. */
  ghost predicate OccursAt(s: string, sub: string, i: int)
  {
    0 <= i <= |s| - |sub| && s[i..i + |sub|] == sub
  }

  /** `sub in s` holds exactly when `sub` occurs at some position of `s`. */
  lemma {:induction false} ContainsAt(s: string, sub: string)
    ensures Contains(s, sub) <==> exists i :: OccursAt(s, sub, i)
    decreases |s|
  {
    if StartsWith(s, sub) {
      assert OccursAt(s, sub, 0);
    } else if s == [] {
    } else {
      ContainsAt(s[1..], sub);
      if exists i :: OccursAt(s, sub, i) {
        var i :| OccursAt(s, sub, i);
        assert i != 0;
        assert s[1..][i - 1..i - 1 + |sub|] == s[i..i + |sub|];
        assert OccursAt(s[1..], sub, i - 1);
      }
      if exists i :: OccursAt(s[1..], sub, i) {
        var i :| OccursAt(s[1..], sub, i);
        assert s[1..][i..i + |sub|] == s[i + 1..i + 1 + |sub|];
        assert OccursAt(s, sub, i + 1);
      }
    }
  }

  /** For a one-character needle, `sub in s` is character membership. */
  lemma {:induction false} ContainsChar(s: string, c: char)
    ensures Contains(s, [c]) <==> c in s
    decreases |s|
  {
    if s != [] {
      ContainsChar(s[1..], c);
      assert c in s <==> s[0] == c || c in s[1..];
    }
  }

  // ---------------------------------------------------------------- split

  /** Number of occurrences of `c` in `s` (`s.count(c)`). */
  function Count(s: string, c: char): nat
  {
    if s == [] then 0 else (if s[0] == c then 1 else 0) + Count(s[1..], c)
  }

  /** `s.split(sep)` for a one-character separator: one more piece than there
      are separators, and no piece holds the separator. */
  function Split(s: string, sep: char): (r: seq<string>)
    ensures |r| == Count(s, sep) + 1
    ensures forall k :: 0 <= k < |r| ==> sep !in r[k]
  {
    if s == [] then [[]]
    else
      var rest := Split(s[1..], sep);
      if s[0] == sep then [[]] + rest
      else [[s[0]] + rest[0]] + rest[1..]
  }

  /** `sep.join(pieces)`. */
  function Join(pieces: seq<string>, sep: char): string
    requires |pieces| >= 1
  {
    if |pieces| == 1 then pieces[0] else pieces[0] + [sep] + Join(pieces[1..], sep)
  }

  /** Joining the pieces of a split gives back the text. */
  lemma {:induction false} JoinSplit(s: string, sep: char)
    ensures Join(Split(s, sep), sep) == s
  {
    if s != [] {
      var rest := Split(s[1..], sep);
      JoinSplit(s[1..], sep);
      if s[0] == sep {
        assert ([[]] + rest)[1..] == rest;
      } else {
        var r := Split(s, sep);
        assert r[0] == [s[0]] + rest[0] && r[1..] == rest[1..];
        if |rest| == 1 {
        } else {
          assert Join(rest, sep) == rest[0] + [sep] + Join(rest[1..], sep);
        }
      }
    }
  }

  lemma {:induction false} SplitWithoutSep(p: string, t: string, sep: char)
    requires sep !in p
    ensures Split(p + t, sep) == [p + Split(t, sep)[0]] + Split(t, sep)[1..]
  {
    if p != [] {
      assert (p + t)[1..] == p[1..] + t;
      var r := Split(t, sep);
      assert (p + t)[0] == p[0] && p[0] != sep;
      SplitWithoutSep(p[1..], t, sep);
      var rest := Split(p[1..] + t, sep);
      assert rest == [p[1..] + r[0]] + r[1..];
      assert Split(p + t, sep) == [[p[0]] + rest[0]] + rest[1..];
      assert [p[0]] + (p[1..] + r[0]) == p + r[0];
    } else {
      var r := Split(t, sep);
      assert p + t == t;
      assert [] + r[0] == r[0];
      assert r == [r[0]] + r[1..];
    }
  }

  /** Splitting a join of separator-free pieces gives back the pieces, so
      `Split` is the only decomposition with these properties. */
  lemma {:induction false} SplitJoin(pieces: seq<string>, sep: char)
    requires |pieces| >= 1
    requires forall k :: 0 <= k < |pieces| ==> sep !in pieces[k]
    ensures Split(Join(pieces, sep), sep) == pieces
  {
    if |pieces| == 1 {
      SplitWithoutSep(pieces[0], [], sep);
      assert Split([], sep) == [[]];
      assert pieces[0] + [] == pieces[0];
      assert pieces == [pieces[0]];
    } else {
      var tail := Join(pieces[1..], sep);
      SplitJoin(pieces[1..], sep);
      SplitWithoutSep(pieces[0], [sep] + tail, sep);
      assert pieces[0] + [sep] + tail == pieces[0] + ([sep] + tail);
      assert ([sep] + tail)[1..] == tail;
      assert Split([sep] + tail, sep) == [[]] + Split(tail, sep);
      assert pieces[0] + [] == pieces[0];
      assert pieces == [pieces[0]] + pieces[1..];
    }
  }

  // ----------------------------------------------------------- splitlines

  predicate NoLineBreak(line: string)
  {
    forall k :: 0 <= k < |line| ==> !IsLineBreak(line[k])
  }

  /** Index of the first line break of `s`, or `|s|` if there is none. */
  function FirstBreak(s: string): (i: nat)
    ensures i <= |s|
    ensures i < |s| ==> IsLineBreak(s[i])
    ensures NoLineBreak(s[..i])
  {
    if s == [] || IsLineBreak(s[0]) then 0 else 1 + FirstBreak(s[1..])
  }

  /** Where the line break at `i` ends: "\r\n" is one break of two
      characters, any other break is one character. */
  function LineEnd(s: string, i: nat): (next: nat)
    requires i < |s|
    ensures next == i + 1 || (next == i + 2 && next <= |s| && s[i] == '\r' && s[i + 1] == '\n')
  {
    if s[i] == '\r' && i + 1 < |s| && s[i + 1] == '\n' then i + 2 else i + 1
  }

  /** `s.splitlines()`: "\r\n" ends one line; a final line break does not
      open an empty last line; no line holds a line break. */
  function SplitLines(s: string): (r: seq<string>)
    ensures forall line :: line in r ==> NoLineBreak(line)
    decreases |s|
  {
    if s == [] then []
    else
      var i := FirstBreak(s);
      if i == |s| then [s]
      else
        var next := LineEnd(s, i);
        [s[..i]] + SplitLines(s[next..])
  }

  /** `line` occurs in `s` at position `p`, starting the text or just after
      a break, and ending the text or just before a break. */
  ghost predicate LineAt(s: string, line: string, p: int)
  {
    && 0 <= p <= |s| - |line|
    && (forall m :: 0 <= m < |line| ==> s[p + m] == line[m])
    && (p == 0 || IsLineBreak(s[p - 1]))
    && (p + |line| == |s| || IsLineBreak(s[p + |line|]))
  }

  /** `line` is one of the whole lines of `s`. */
  ghost predicate IsWholeLine(s: string, line: string)
  {
    exists p :: LineAt(s, line, p)
  }

  /** Every line `splitlines()` produces is a whole line of the text: it sits
      between two breaks, or a break and an end of the text. */
  lemma SplitLinesAreWholeLines(s: string)
    ensures forall k :: 0 <= k < |SplitLines(s)| ==> IsWholeLine(s, SplitLines(s)[k])
  {
    assert s[0..] == s;
    LinesFromIsSplitLines(s, 0);
    forall k | 0 <= k < |SplitLines(s)| ensures IsWholeLine(s, SplitLines(s)[k]) {
      var p := LinePosition(s, 0, k);
    }
  }

  /** Index of the first line break of `s` at or after `from`, or `|s|`. */
  function BreakFrom(s: string, from: nat): (i: nat)
    requires from <= |s|
    ensures from <= i <= |s|
    ensures i < |s| ==> IsLineBreak(s[i])
    decreases |s| - from
  {
    if from == |s| || IsLineBreak(s[from]) then from else BreakFrom(s, from + 1)
  }

  /** The lines of `s[from..]`, cut out of `s` itself. */
  ghost function LinesFrom(s: string, from: nat): seq<string>
    requires from <= |s|
    decreases |s| - from
  {
    if from == |s| then []
    else
      var i := BreakFrom(s, from);
      if i == |s| then [s[from..i]]
      else
        var next := LineEnd(s, i);
        [s[from..i]] + LinesFrom(s, next)
  }

  /** Searching from `from` finds the first break of the rest of the text. */
  lemma {:induction false} BreakFromIsFirstBreak(s: string, from: nat)
    requires from <= |s|
    ensures BreakFrom(s, from) == from + FirstBreak(s[from..])
    decreases |s| - from
  {
    if from < |s| && !IsLineBreak(s[from]) {
      BreakFromIsFirstBreak(s, from + 1);
      assert s[from..][1..] == s[from + 1..];
    }
  }

  /** Cutting the lines out of `s` by index gives what `splitlines()` gives
      on the rest of the text. */
  lemma {:induction false} LinesFromIsSplitLines(s: string, from: nat)
    requires from <= |s|
    ensures LinesFrom(s, from) == SplitLines(s[from..])
    decreases |s| - from
  {
    if from < |s| {
      var i := BreakFrom(s, from);
      BreakFromIsFirstBreak(s, from);
      if i == |s| {
        assert s[from..i] == s[from..];
      } else {
        var next := LineEnd(s, i);
        LinesFromIsSplitLines(s, next);
        SplitLinesAfter(s, from, i, next);
      }
    }
  }

  /** `splitlines()` on the text from `from` on, unfolded once at the break
      `i`, with every slice taken from `s` itself. */
  lemma SplitLinesAfter(s: string, from: nat, i: nat, next: nat)
    requires from <= i < |s| && i == from + FirstBreak(s[from..])
    requires next == LineEnd(s, i)
    ensures SplitLines(s[from..]) == [s[from..i]] + SplitLines(s[next..])
  {
    var after := SplitLinesUnfold(s[from..], i - from);
    SlicesOfSuffix(s, from, i, next, after);
  }

  /** `splitlines()` unfolded once at the first break `j`. */
  lemma SplitLinesUnfold(t: string, j: nat) returns (after: nat)
    requires j < |t| && j == FirstBreak(t)
    ensures after == LineEnd(t, j)
    ensures SplitLines(t) == [t[..j]] + SplitLines(t[after..])
  {
    assert t != [] && FirstBreak(t) != |t|;
    after := LineEnd(t, j);
  }

  /** Slices of `s[from..]` as slices of `s`. */
  lemma SlicesOfSuffix(s: string, from: nat, i: nat, next: nat, after: nat)
    requires from <= i < |s|
    requires next == LineEnd(s, i)
    requires after == LineEnd(s[from..], i - from)
    ensures after == next - from
    ensures s[from..][..i - from] == s[from..i] && s[from..][after..] == s[next..]
  {
  }

  /** Where, in `s`, the `k`-th line from `from` on starts. */
  lemma {:induction false} LinePosition(s: string, from: nat, k: nat) returns (p: int)
    requires from <= |s| && (from == 0 || IsLineBreak(s[from - 1]))
    requires k < |LinesFrom(s, from)|
    ensures LineAt(s, LinesFrom(s, from)[k], p)
    decreases |s| - from
  {
    var i := BreakFrom(s, from);
    if k == 0 {
      assert LinesFrom(s, from)[0] == s[from..i];
      FirstLineAt(s, from, i);
      p := from;
    } else {
      var next := LineEnd(s, i);
      assert LinesFrom(s, from) == [s[from..i]] + LinesFrom(s, next);
      p := LinePosition(s, next, k - 1);
    }
  }

  /** The text from the start of a line to the next break, or to the end,
      is a whole line. */
  lemma FirstLineAt(s: string, from: nat, i: nat)
    requires from <= i <= |s| && (from == 0 || IsLineBreak(s[from - 1]))
    requires i < |s| ==> IsLineBreak(s[i])
    ensures LineAt(s, s[from..i], from)
  {
  }

  /** `s` with its line-break characters removed. */
  function DropBreaks(s: string): string
  {
    if s == [] then [] else (if IsLineBreak(s[0]) then [] else [s[0]]) + DropBreaks(s[1..])
  }

  function Concat(lines: seq<string>): string
  {
    if lines == [] then [] else lines[0] + Concat(lines[1..])
  }

  lemma {:induction false} DropBreaksAppend(a: string, b: string)
    ensures DropBreaks(a + b) == DropBreaks(a) + DropBreaks(b)
  {
    if a != [] {
      assert (a + b)[1..] == a[1..] + b;
      DropBreaksAppend(a[1..], b);
    } else {
      assert a + b == b;
    }
  }

  lemma {:induction false} DropBreaksNone(s: string)
    requires NoLineBreak(s)
    ensures DropBreaks(s) == s
  {
    if s != [] {
      DropBreaksNone(s[1..]);
    }
  }

  lemma {:induction false} DropBreaksAll(s: string)
    requires forall k :: 0 <= k < |s| ==> IsLineBreak(s[k])
    ensures DropBreaks(s) == []
  {
    if s != [] {
      DropBreaksAll(s[1..]);
    }
  }

  /** The lines of `s`, put back together, are `s` without its line breaks:
      `splitlines()` loses nothing but the breaks. */
  lemma {:induction false} SplitLinesKeepsText(s: string)
    ensures Concat(SplitLines(s)) == DropBreaks(s)
    decreases |s|
  {
    if s != [] {
      var i := FirstBreak(s);
      if i == |s| {
        assert s[..i] == s;
        DropBreaksNone(s);
        assert Concat([s]) == s + Concat([]);
      } else {
        var next := SplitLinesUnfold(s, i);
        SplitLinesKeepsText(s[next..]);
        ConcatCons(s[..i], SplitLines(s[next..]));
        DropBreaksAroundBreak(s, i, next);
      }
    }
  }

  lemma ConcatCons(a: string, rest: seq<string>)
    ensures Concat([a] + rest) == a + Concat(rest)
  {
    assert ([a] + rest)[1..] == rest;
  }

  lemma DropBreaksAroundBreak(s: string, i: nat, next: nat)
    requires i < |s| && IsLineBreak(s[i]) && NoLineBreak(s[..i])
    requires next == i + 1 || (next == i + 2 && next <= |s| && s[i + 1] == '\n')
    ensures DropBreaks(s) == s[..i] + DropBreaks(s[next..])
  {
    DropBreaksKeepsLine(s, i);
    var t := s[i..];
    DropBreaksSkipsBreak(t);
    assert t[1..] == s[i + 1..];
    if next == i + 2 {
      var u := s[i + 1..];
      assert u[0] == s[i + 1];
      DropBreaksSkipsBreak(u);
      assert u[1..] == s[next..];
    }
  }

  lemma DropBreaksSkipsBreak(t: string)
    requires t != [] && IsLineBreak(t[0])
    ensures DropBreaks(t) == DropBreaks(t[1..])
  {
  }

  /** A stretch without breaks at the front of `s` survives `DropBreaks`. */
  lemma {:induction false} DropBreaksKeepsLine(s: string, i: nat)
    requires i <= |s| && NoLineBreak(s[..i])
    ensures DropBreaks(s) == s[..i] + DropBreaks(s[i..])
    decreases i
  {
    if i == 0 {
      assert s[..0] == [] && s[0..] == s;
    } else {
      assert s[1..][..i - 1] == s[1..i];
      DropBreaksKeepsLine(s[1..], i - 1);
      assert s[1..][i - 1..] == s[i..];
      assert s[..i] == [s[0]] + s[1..i];
    }
  }

  /** The number of line breaks of `s`, a "\r\n" pair counting once. */
  function BreakCount(s: string): nat
  {
    if s == [] then 0
    else if s[0] == '\r' && |s| >= 2 && s[1] == '\n' then 1 + BreakCount(s[2..])
    else if IsLineBreak(s[0]) then 1 + BreakCount(s[1..])
    else BreakCount(s[1..])
  }

  /** `splitlines()` ends a line at every break and nowhere else: there is
      one line per break, plus a last one unless the text ends with a break. */
  lemma {:induction false} SplitLinesCount(s: string)
    ensures |SplitLines(s)| == BreakCount(s) + (if s != [] && !IsLineBreak(s[|s| - 1]) then 1 else 0)
    decreases |s|
  {
    if s != [] {
      var i := FirstBreak(s);
      if i < |s| {
        var next := SplitLinesUnfold(s, i);
        SplitLinesCount(s[next..]);
        BreakCountAtFirstBreak(s, i, next);
      } else {
        assert s[..i] == s && s[i..] == [];
        BreakCountSkip(s, i);
      }
    }
  }

  /** Counting from the first break on: it is one break, and what follows
      it keeps the same last character. */
  lemma BreakCountAtFirstBreak(s: string, i: nat, next: nat)
    requires i < |s| && IsLineBreak(s[i]) && NoLineBreak(s[..i])
    requires next == LineEnd(s, i)
    ensures BreakCount(s) + (if !IsLineBreak(s[|s| - 1]) then 1 else 0) ==
            1 + BreakCount(s[next..]) + (if s[next..] != [] && !IsLineBreak(s[next..][|s[next..]| - 1]) then 1 else 0)
  {
    BreakCountSkip(s, i);
    BreakCountAtBreak(s, i, next);
    if next < |s| {
      LastOfSuffix(s, next);
    } else {
      assert IsLineBreak(s[|s| - 1]);
    }
  }

  lemma LastOfSuffix(s: string, from: nat)
    requires from < |s|
    ensures s[from..][|s| - from - 1] == s[|s| - 1]
  {
  }

  lemma {:induction false} BreakCountSkip(s: string, i: nat)
    requires i <= |s| && NoLineBreak(s[..i])
    ensures BreakCount(s) == BreakCount(s[i..])
    decreases i
  {
    if i > 0 {
      assert s[1..][..i - 1] == s[1..i];
      assert s[1..][i - 1..] == s[i..];
      BreakCountSkip(s[1..], i - 1);
    }
  }

  /** One break, of one or two characters, counts once. */
  lemma BreakCountAtBreak(s: string, i: nat, next: nat)
    requires i < |s| && IsLineBreak(s[i])
    requires next == LineEnd(s, i)
    ensures BreakCount(s[i..]) == 1 + BreakCount(s[next..])
  {
    var t := s[i..];
    assert t[0] == s[i];
    if next == i + 2 {
      assert t[1] == s[i + 1] && t[2..] == s[next..];
    } else {
      assert t[1..] == s[next..];
    }
  }

  /** The lines of a script's text output: `output.strip().splitlines()`. */
  function Lines(output: string): seq<string>
  {
    SplitLines(Strip(output))
  }
}
