/** The handful of Python `str` operations the portal's logic relies on:
    lower-casing, stripping, literal substring tests, `\w+` tokenising,
    splitting on one separator character and digit strings. */
module Text {

  /** Python's `str.isspace()`: the ASCII control whitespace, the information
      separators 0x1C-0x1F and the Unicode space separators. */
  predicate IsSpace(c: char) {
    || c == ' '
    || '\t' <= c <= '\r'
    || '\U{1C}' <= c <= '\U{1F}'
    || c == '\U{85}' || c == '\U{A0}' || c == '\U{1680}'
    || '\U{2000}' <= c <= '\U{200A}'
    || c == '\U{2028}' || c == '\U{2029}' || c == '\U{202F}'
    || c == '\U{205F}' || c == '\U{3000}'
  }

  predicate AllSpace(s: string) {
    forall k :: 0 <= k < |s| ==> IsSpace(s[k])
  }

  /** Lower-casing of the ASCII letters (the only upper-case letters the
      portal's fixed vocabularies are compared against). */
  function LowerChar(c: char): char {
    if 'A' <= c <= 'Z' then (c as int + 32) as char else c
  }

  /** Python's `str.lower()` on ASCII. */
  function Lower(s: string): string {
    seq(|s|, i requires 0 <= i < |s| => LowerChar(s[i]))
  }

  /** Lower-casing leaves no upper-case letter, turns each one into the
      same letter in lower case, and keeps every other character, whitespace
      included, where it was. */
  lemma LowerCases(s: string)
    ensures |Lower(s)| == |s|
    ensures forall i :: 0 <= i < |s| ==> !('A' <= Lower(s)[i] <= 'Z')
    ensures forall i :: 0 <= i < |s| && 'A' <= s[i] <= 'Z' ==> 'a' <= Lower(s)[i] <= 'z'
    ensures forall i :: 0 <= i < |s| && 'A' <= s[i] <= 'Z' ==>
              Lower(s)[i] as int - 'a' as int == s[i] as int - 'A' as int
    ensures forall i :: 0 <= i < |s| && !('A' <= s[i] <= 'Z') ==> Lower(s)[i] == s[i]
  {
  }

  /** Lower-casing turns no character into whitespace and no whitespace
      into anything else. */
  lemma LowerKeepsSpace(s: string)
    ensures AllSpace(Lower(s)) <==> AllSpace(s)
  {
    forall i | 0 <= i < |s| ensures IsSpace(Lower(s)[i]) <==> IsSpace(s[i]) {
    }
  }

  /** Number of leading whitespace characters of `s`. */
  function Lead(s: string): (n: nat)
    ensures n <= |s| && AllSpace(s[..n])
    ensures n < |s| ==> !IsSpace(s[n])
    decreases |s|
  {
    if s != [] && IsSpace(s[0]) then
      var n := Lead(s[1..]) + 1;
      assert forall k :: 1 <= k < n ==> s[..n][k] == s[1..][..n - 1][k - 1];
      n
    else 0
  }

  /** Number of trailing whitespace characters of `s`. */
  function Trail(s: string): (n: nat)
    ensures n <= |s| && AllSpace(s[|s| - n..])
    ensures n < |s| ==> !IsSpace(s[|s| - n - 1])
    decreases |s|
  {
    if s != [] && IsSpace(s[|s| - 1]) then
      var m := Trail(s[..|s| - 1]);
      TrailExtend(s, m);
      m + 1
    else 0
  }

  /** A whitespace run ending just before a final whitespace character
      extends through it. */
  lemma TrailExtend(s: string, m: nat)
    requires s != [] && IsSpace(s[|s| - 1]) && m < |s|
    requires AllSpace(s[..|s| - 1][|s| - 1 - m..])
    ensures AllSpace(s[|s| - (m + 1)..])
  {
    var run := s[|s| - (m + 1)..];
    forall k | 0 <= k < |run| ensures IsSpace(run[k]) {
      if k < m {
        assert run[k] == s[..|s| - 1][|s| - 1 - m..][k];
      }
    }
  }

  /** Two runs of whitespace make one. */
  lemma AllSpaceAppend(a: string, b: string)
    requires AllSpace(a) && AllSpace(b)
    ensures AllSpace(a + b)
  {
    forall k | 0 <= k < |a + b| ensures IsSpace((a + b)[k]) {
      if k >= |a| {
        assert (a + b)[k] == b[k - |a|];
      }
    }
  }

  /** Python's `str.strip()` with no argument: the longest infix of `s`
      that neither starts nor ends with whitespace, all of what was cut off
      being whitespace. */
  function Strip(s: string): (r: string)
    ensures Lead(s) + |r| <= |s| && r == s[Lead(s)..Lead(s) + |r|]
    ensures AllSpace(s[..Lead(s)]) && AllSpace(s[Lead(s) + |r|..])
    ensures r == [] || (!IsSpace(r[0]) && !IsSpace(r[|r| - 1]))
  {
    var t := s[Lead(s)..];
    StripCut(s, Lead(s), Trail(t));
    t[..|t| - Trail(t)]
  }

  /** Cutting `l` whitespace characters from the front of `s` and then `m`
      from the back leaves an infix whose ends are the first characters
      not cut. */
  lemma StripCut(s: string, l: nat, m: nat)
    requires l <= |s| && m <= |s| - l
    requires AllSpace(s[..l]) && (l < |s| ==> !IsSpace(s[l]))
    requires AllSpace(s[l..][|s| - l - m..])
    requires m < |s| - l ==> !IsSpace(s[l..][|s| - l - m - 1])
    ensures var r := s[l..][..|s| - l - m];
            && r == s[l..l + |r|]
            && AllSpace(s[l + |r|..])
            && (r == [] || (!IsSpace(r[0]) && !IsSpace(r[|r| - 1])))
  {
    SliceOfSlice(s, l, |s| - l - m);
  }

  /** Stripping a text with no upper-case letter leaves none. */
  lemma StripKeepsNoUpper(s: string)
    requires forall i :: 0 <= i < |s| ==> !('A' <= s[i] <= 'Z')
    ensures forall i :: 0 <= i < |Strip(s)| ==> !('A' <= Strip(s)[i] <= 'Z')
  {
    var r := Strip(s);
    forall i | 0 <= i < |r| ensures !('A' <= r[i] <= 'Z') {
      assert r[i] == s[Lead(s) + i];
    }
  }

  /** Slicing a suffix is slicing the whole. */
  lemma SliceOfSlice(s: string, i: nat, n: nat)
    requires i + n <= |s|
    ensures s[i..][..n] == s[i..i + n] && s[i..][n..] == s[i + n..]
  {
  }

  /** Stripping yields the empty string exactly for all-whitespace input. */
  lemma StripEmptyIff(s: string)
    ensures Strip(s) == [] <==> AllSpace(s)
  {
    var r := Strip(s);
    if r == [] {
      assert s[..Lead(s)] == s;
    } else {
      assert r[0] == s[Lead(s)];
    }
  }

  /** A string with no whitespace at either end is its own strip. */
  lemma StripOfStripped(s: string)
    requires s == [] || (!IsSpace(s[0]) && !IsSpace(s[|s| - 1]))
    ensures Strip(s) == s
  {
  }

  predicate StartsWith(s: string, prefix: string) {
    |prefix| <= |s| && s[..|prefix|] == prefix
  }

  /** Python's `sub in s`: literal substring containment, with no regard for
      word boundaries. */
  predicate Contains(s: string, sub: string): (b: bool)
    ensures b ==> |sub| <= |s|
    ensures sub == [] || StartsWith(s, sub) ==> b
    decreases |s|
  {
    StartsWith(s, sub) || (s != [] && Contains(s[1..], sub))
  }

  /** `sub` occurs in `s` starting at position `i`. */
  predicate OccursAt(s: string, sub: string, i: int) {
    0 <= i <= |s| - |sub| && s[i..i + |sub|] == sub
  }

  /** `Contains` agrees with the positional definition of an occurrence. */
  lemma {:induction false} ContainsIff(s: string, sub: string)
    ensures Contains(s, sub) <==> exists i :: OccursAt(s, sub, i)
    decreases |s|
  {
    if StartsWith(s, sub) {
      assert OccursAt(s, sub, 0);
    }
    if s != [] {
      ContainsIff(s[1..], sub);
      if !StartsWith(s, sub) && Contains(s[1..], sub) {
        var i :| OccursAt(s[1..], sub, i);
        ShiftSlice(s, i, |sub|);
        assert OccursAt(s, sub, i + 1);
      }
    }
    if exists i :: OccursAt(s, sub, i) {
      var i :| OccursAt(s, sub, i);
      if i == 0 {
        assert StartsWith(s, sub);
      } else {
        ShiftSlice(s, i - 1, |sub|);
        assert OccursAt(s[1..], sub, i - 1);
      }
    }
  }

  /** A slice of the tail is the slice of the whole one place later. */
  lemma ShiftSlice(s: string, i: nat, n: nat)
    requires i + n < |s|
    ensures s[1..][i..i + n] == s[i + 1..i + 1 + n]
  {
  }

  /** Being a substring is transitive. */
  lemma ContainsTransitive(s: string, mid: string, sub: string)
    requires Contains(s, mid) && Contains(mid, sub)
    ensures Contains(s, sub)
  {
    ContainsIff(s, mid);
    ContainsIff(mid, sub);
    var i :| OccursAt(s, mid, i);
    var j :| OccursAt(mid, sub, j);
    forall k | 0 <= k < |sub| ensures s[i + j + k] == sub[k] {
      assert sub[k] == mid[j + k] == s[i + j + k];
    }
    assert s[i + j..i + j + |sub|] == sub;
    assert OccursAt(s, sub, i + j);
    ContainsIff(s, sub);
  }

  /** Python's `any(w in s for w in subs)`. */
  predicate ContainsAny(s: string, subs: seq<string>) {
    exists k :: 0 <= k < |subs| && Contains(s, subs[k])
  }

  /** A character matched by the regular expression `\w` (ASCII letters,
      digits and underscore). */
  predicate IsWordChar(c: char) {
    'a' <= c <= 'z' || 'A' <= c <= 'Z' || '0' <= c <= '9' || c == '_'
  }

  predicate AllWordChars(s: string) {
    forall k :: 0 <= k < |s| ==> IsWordChar(s[k])
  }

  /** Length of the maximal run of word characters that starts `s`. */
  function RunLength(s: string): (n: nat)
    ensures n <= |s| && AllWordChars(s[..n])
    ensures n < |s| ==> !IsWordChar(s[n])
    decreases |s|
  {
    if s != [] && IsWordChar(s[0]) then 1 + RunLength(s[1..]) else 0
  }

  /** `re.findall(r'\w+', s)`: the maximal runs of word characters, left to
      right. */
  function Words(s: string): (ws: seq<string>)
    ensures forall k :: 0 <= k < |ws| ==> ws[k] != [] && AllWordChars(ws[k])
    decreases |s|
  {
    if s == [] then []
    else if !IsWordChar(s[0]) then Words(s[1..])
    else
      var n := RunLength(s);
      [s[..n]] + Words(s[n..])
  }

  /** A run of word characters is one token, never several: `Words` takes
      maximal runs. */
  lemma WordsOfRun(w: string)
    requires w != [] && AllWordChars(w)
    ensures Words(w) == [w]
  {
    RunLengthOfWord(w, []);
    assert w + [] == w;
    assert w[..|w|] == w;
  }

  /** The set of tokens, as `set(re.findall(r'\w+', s))`. */
  function WordSet(s: string): set<string> {
    set w | w in Words(s)
  }

  function Concat(ws: seq<string>): string {
    if ws == [] then [] else ws[0] + Concat(ws[1..])
  }

  function KeepWordChars(s: string): string
    decreases |s|
  {
    if s == [] then []
    else if IsWordChar(s[0]) then [s[0]] + KeepWordChars(s[1..])
    else KeepWordChars(s[1..])
  }

  lemma {:induction false} KeepWordCharsOfRun(s: string, n: nat)
    requires n <= |s| && AllWordChars(s[..n])
    ensures KeepWordChars(s) == s[..n] + KeepWordChars(s[n..])
    decreases n
  {
    if n > 0 {
      assert IsWordChar(s[..n][0]);
      KeepWordCharsOfRun(s[1..], n - 1);
      assert s[1..][..n - 1] == s[1..n];
      assert s[1..][n - 1..] == s[n..];
      assert s[..n] == [s[0]] + s[1..n];
    }
  }

  /** The tokens together hold exactly the word characters of the input, in
      order: nothing is lost, nothing is invented. */
  lemma {:induction false} WordsCoverWordChars(s: string)
    ensures Concat(Words(s)) == KeepWordChars(s)
    decreases |s|
  {
    if s == [] {
    } else if !IsWordChar(s[0]) {
      WordsCoverWordChars(s[1..]);
    } else {
      var n := RunLength(s);
      WordsCoverWordChars(s[n..]);
      KeepWordCharsOfRun(s, n);
      assert Words(s)[1..] == Words(s[n..]);
    }
  }

  lemma {:induction false} RunLengthExtends(a: string, b: string)
    requires RunLength(a) < |a|
    ensures RunLength(a + b) == RunLength(a)
    decreases |a|
  {
    if IsWordChar(a[0]) {
      assert (a + b)[1..] == a[1..] + b;
      RunLengthExtends(a[1..], b);
    }
  }

  lemma {:induction false} RunLengthOfWord(a: string, b: string)
    requires AllWordChars(a)
    requires b == [] || !IsWordChar(b[0])
    ensures RunLength(a + b) == |a|
    decreases |a|
  {
    if a != [] {
      assert IsWordChar(a[0]);
      assert (a + b)[1..] == a[1..] + b;
      RunLengthOfWord(a[1..], b);
    }
  }

  /** A non-word character separates tokens: the tokens of `a`, a separator
      and `b` are the tokens of `a` followed by those of `b`. */
  lemma {:induction false} WordsSplitAtSeparator(a: string, c: char, b: string)
    requires !IsWordChar(c)
    ensures Words(a + [c] + b) == Words(a) + Words(b)
    decreases |a|
  {
    var s := a + [c] + b;
    if a == [] {
      assert s[1..] == b;
    } else if !IsWordChar(a[0]) {
      assert s[1..] == a[1..] + [c] + b;
      WordsSplitAtSeparator(a[1..], c, b);
    } else {
      var n := RunLength(a);
      if n < |a| {
        RunLengthExtends(a, [c] + b);
        assert s == a + ([c] + b);
        assert RunLength(s) == n;
        assert s[..n] == a[..n];
        assert s[n..] == a[n..] + [c] + b;
        WordsSplitAtSeparator(a[n..], c, b);
      } else {
        assert a[..n] == a;
        RunLengthOfWord(a, [c] + b);
        assert s == a + ([c] + b);
        assert s[..n] == a;
        assert s[n..] == [c] + b;
        assert ([c] + b)[1..] == b;
        assert a[n..] == [];
      }
    }
  }

  /** Leading non-word characters produce no token. */
  lemma {:induction false} WordsSkipNonWord(a: string, b: string)
    requires forall k :: 0 <= k < |a| ==> !IsWordChar(a[k])
    ensures Words(a + b) == Words(b)
    decreases |a|
  {
    if a == [] {
      assert a + b == b;
    } else {
      assert (a + b)[1..] == a[1..] + b;
      WordsSkipNonWord(a[1..], b);
    }
  }

  /** Trailing non-word characters produce no token. */
  lemma WordsDropNonWordTail(b: string, c: string)
    requires forall k :: 0 <= k < |c| ==> !IsWordChar(c[k])
    ensures Words(b + c) == Words(b)
  {
    if c == [] {
      assert b + c == b;
    } else {
      assert b + c == b + [c[0]] + c[1..];
      WordsSplitAtSeparator(b, c[0], c[1..]);
      WordsSkipNonWord(c[1..], []);
      assert c[1..] + [] == c[1..];
    }
  }

  /** Whitespace holds no word character. */
  lemma SpaceIsNotWord(s: string)
    requires AllSpace(s)
    ensures forall k :: 0 <= k < |s| ==> !IsWordChar(s[k])
  {
    forall k | 0 <= k < |s| ensures !IsWordChar(s[k]) {
      assert IsSpace(s[k]);
    }
  }

  /** Stripping never changes the tokens. */
  lemma WordsOfStrip(s: string)
    ensures Words(Strip(s)) == Words(s)
  {
    var r := Strip(s);
    var lead := s[..Lead(s)];
    var trail := s[Lead(s) + |r|..];
    assert s == lead + (r + trail);
    SpaceIsNotWord(lead);
    SpaceIsNotWord(trail);
    WordsSkipNonWord(lead, r + trail);
    WordsDropNonWordTail(r, trail);
  }

  /** Python's `s.split(sep)` for a one-character separator: always at least
      one piece, no piece holds the separator. */
  function Split(s: string, sep: char): (parts: seq<string>)
    ensures |parts| >= 1
    ensures forall k :: 0 <= k < |parts| ==> sep !in parts[k]
    decreases |s|
  {
    if s == [] then [""]
    else
      var rest := Split(s[1..], sep);
      if s[0] == sep then [""] + rest else [[s[0]] + rest[0]] + rest[1..]
  }

  /** Python's `sep.join(parts)`. */
  function Join(parts: seq<string>, sep: char): string
    decreases |parts|
  {
    if parts == [] then ""
    else if |parts| == 1 then parts[0]
    else parts[0] + [sep] + Join(parts[1..], sep)
  }

  /** Joining the pieces back gives the original string. */
  lemma {:induction false} JoinSplit(s: string, sep: char)
    ensures Join(Split(s, sep), sep) == s
    decreases |s|
  {
    if s != [] {
      var rest := Split(s[1..], sep);
      JoinSplit(s[1..], sep);
      if s[0] == sep {
        assert ([""] + rest)[1..] == rest;
      } else {
        var parts := [[s[0]] + rest[0]] + rest[1..];
        if |rest| > 1 {
          assert parts[1..] == rest[1..];
          assert Join(rest, sep) == rest[0] + [sep] + Join(rest[1..], sep);
        }
      }
    }
  }

  /** Splitting a join of separator-free pieces gives the pieces back. */
  lemma {:induction false} SplitJoin(parts: seq<string>, sep: char)
    requires |parts| >= 1
    requires forall k :: 0 <= k < |parts| ==> sep !in parts[k]
    ensures Split(Join(parts, sep), sep) == parts
    decreases |parts|, |parts[0]|
  {
    var p := parts[0];
    if |parts| == 1 {
      SplitPiece(p, [], sep);
      assert p + [] == p;
      assert Split([], sep) == [""];
    } else {
      var tail := Join(parts[1..], sep);
      SplitJoin(parts[1..], sep);
      SplitPiece(p, [sep] + tail, sep);
      assert Split([sep] + tail, sep) == [""] + parts[1..];
      assert p + "" == p;
      assert p + [sep] + tail == p + ([sep] + tail);
      assert ([sep] + tail)[1..] == tail;
    }
  }

  /** Splitting a separator-free piece followed by `rest` glues the piece to
      the first piece of `rest`. */
  lemma {:induction false} SplitPiece(p: string, rest: string, sep: char)
    requires sep !in p
    ensures Split(p + rest, sep) ==
            [p + Split(rest, sep)[0]] + Split(rest, sep)[1..]
    decreases |p|
  {
    if p != [] {
      assert (p + rest)[0] == p[0];
      assert (p + rest)[1..] == p[1..] + rest;
      SplitPiece(p[1..], rest, sep);
      assert [p[0]] + (p[1..] + Split(rest, sep)[0]) == p + Split(rest, sep)[0];
    } else {
      assert p + rest == rest;
      var parts := Split(rest, sep);
      assert parts == [parts[0]] + parts[1..];
      assert p + parts[0] == parts[0];
    }
  }

  /** `a` is `b` with some elements left out, the rest kept in order. */
  predicate IsSubsequence<T(==)>(a: seq<T>, b: seq<T>)
    decreases |b|
  {
    a == [] ||
    (b != [] && ((a[0] == b[0] && IsSubsequence(a[1..], b[1..])) || IsSubsequence(a, b[1..])))
  }

  /** Python's `s.replace(old, new)` for one character. */
  function ReplaceChar(s: string, from: char, to: char): (r: string)
    ensures |r| == |s|
    ensures forall i :: 0 <= i < |s| && s[i] == from ==> r[i] == to
    ensures forall i :: 0 <= i < |s| && s[i] != from ==> r[i] == s[i]
    ensures from != to ==> from !in r
  {
    seq(|s|, i requires 0 <= i < |s| => if s[i] == from then to else s[i])
  }

  lemma ReplaceAbsent(s: string, from: char, to: char)
    requires from !in s
    ensures ReplaceChar(s, from, to) == s
  {
  }

  predicate IsDigitChar(c: char) {
    '0' <= c <= '9'
  }

  /** Python's `str.isdigit()` on ASCII: non-empty and all digits. */
  predicate IsDigits(s: string) {
    s != [] && forall k :: 0 <= k < |s| ==> IsDigitChar(s[k])
  }

  /** Python's `int(s)` for a digit string. */
  function DigitsValue(s: string): nat
    requires forall k :: 0 <= k < |s| ==> IsDigitChar(s[k])
    decreases |s|
  {
    if s == [] then 0
    else
      assert IsDigitChar(s[|s| - 1]);
      10 * DigitsValue(s[..|s| - 1]) + (s[|s| - 1] as int - '0' as int)
  }

  /** A leading zero does not change the value: `int("0" + s) == int(s)`. */
  lemma {:induction false} DigitsLeadingZero(s: string)
    requires forall k :: 0 <= k < |s| ==> IsDigitChar(s[k])
    ensures DigitsValue("0" + s) == DigitsValue(s)
    decreases |s|
  {
    var z := "0" + s;
    if s != [] {
      DigitsLeadingZero(s[..|s| - 1]);
      assert z[..|z| - 1] == "0" + s[..|s| - 1];
      assert z[|z| - 1] == s[|s| - 1];
    } else {
      assert z[..|z| - 1] == [];
    }
  }

  /** Python's `str(n)` for a natural number. */
  function DecimalString(n: nat): (r: string)
    ensures IsDigits(r)
    ensures r[0] == '0' <==> n == 0
    ensures n == 0 ==> r == "0"
    ensures |r| == 1 || r[0] != '0'
    decreases n
  {
    var d := [(n % 10 + '0' as int) as char];
    if n < 10 then d else DecimalString(n / 10) + d
  }

  /** Distinct numbers are rendered differently. */
  lemma DecimalInjective(m: nat, n: nat)
    requires m != n
    ensures DecimalString(m) != DecimalString(n)
  {
    DecimalRoundTrip(m);
    DecimalRoundTrip(n);
  }

  /** Reading back a rendered number gives the number. */
  lemma {:induction false} DecimalRoundTrip(n: nat)
    ensures DigitsValue(DecimalString(n)) == n
    decreases n
  {
    if n >= 10 {
      DecimalRoundTrip(n / 10);
      var s := DecimalString(n);
      assert s[..|s| - 1] == DecimalString(n / 10);
    }
  }

  /** A digit string in canonical form (no leading zero unless it is "0"). */
  predicate IsCanonicalDigits(s: string) {
    IsDigits(s) && (|s| == 1 || s[0] != '0')
  }

  /** Rendering the value of a canonical digit string gives the string back:
      `str(int(s)) == s`. */
  lemma {:induction false} DigitsRoundTrip(s: string)
    requires IsCanonicalDigits(s)
    ensures DecimalString(DigitsValue(s)) == s
    decreases |s|
  {
    var init := s[..|s| - 1];
    var d := s[|s| - 1] as int - '0' as int;
    assert IsDigitChar(s[|s| - 1]);
    if |s| == 1 {
      assert init == [];
      assert [(d % 10 + '0' as int) as char] == s;
    } else {
      assert init[0] == s[0];
      DigitsRoundTrip(init);
      var v := DigitsValue(init);
      assert v != 0;
      var n := DigitsValue(s);
      assert n == 10 * v + d;
      assert n / 10 == v && n % 10 == d;
      assert DecimalString(n) == DecimalString(v) + [(d + '0' as int) as char];
      assert s == init + [s[|s| - 1]];
    }
  }
}
