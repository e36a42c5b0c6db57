/** The .NET string operations the library leans on, stated over `seq<char>`:
    `string.Join`, `string.Replace`, `Split(':').Last()`, `Trim`, `IsNullOrWhiteSpace`,
    decimal rendering and parsing of integers, and the whole-word rewrite `\bW\b`
    of `Regex.Replace` over an abstract word-character class. */
module Text {
  import opened Wrappers

  /** `string.Join(sep, parts)`. */
  function Join(parts: seq<string>, sep: string): string
    decreases |parts|
  {
    if |parts| == 0 then ""
    else if |parts| == 1 then parts[0]
    else parts[0] + sep + Join(parts[1..], sep)
  }

  /** Appending one part to a join adds exactly one separator and the part. */
  lemma {:induction false} JoinSnoc(parts: seq<string>, p: string, sep: string)
    ensures Join(parts + [p], sep) == if |parts| == 0 then p else Join(parts, sep) + sep + p
    decreases |parts|
  {
    if |parts| > 1 {
      assert (parts + [p])[1..] == parts[1..] + [p];
      JoinSnoc(parts[1..], p, sep);
    } else if |parts| == 1 {
      assert (parts + [p])[1..] == [p];
    }
  }

  /** `s.StartsWith(p)` with ordinal comparison. */
  predicate StartsWith(s: string, p: string) {
    |p| <= |s| && s[..|p|] == p
  }

  predicate OccursAt(s: string, pat: string, i: int) {
    0 <= i && i + |pat| <= |s| && s[i..i + |pat|] == pat
  }

  /** `s.Contains(pat)`. */
  predicate Occurs(s: string, pat: string) {
    exists i :: 0 <= i <= |s| - |pat| && OccursAt(s, pat, i)
  }

  /** `s.Replace(pat, rep)` for a non-empty `pat` (.NET rejects an empty one): every
      non-overlapping occurrence, found scanning left to right, is replaced. */
  function Replace(s: string, pat: string, rep: string): string
    requires |pat| > 0
    decreases |s|
  {
    if |s| < |pat| then s
    else if s[..|pat|] == pat then rep + Replace(s[|pat|..], pat, rep)
    else [s[0]] + Replace(s[1..], pat, rep)
  }

  /** A string in which the pattern does not occur is left unchanged. */
  lemma {:induction false} ReplaceAbsent(s: string, pat: string, rep: string)
    requires |pat| > 0 && !Occurs(s, pat)
    ensures Replace(s, pat, rep) == s
    decreases |s|
  {
    if |s| >= |pat| {
      assert !OccursAt(s, pat, 0);
      forall i | OccursAt(s[1..], pat, i)
        ensures false
      {
        assert s[1..][i..i + |pat|] == s[i + 1..i + 1 + |pat|];
        assert OccursAt(s, pat, i + 1);
      }
      ReplaceAbsent(s[1..], pat, rep);
      assert [s[0]] + s[1..] == s;
    }
  }

  /** Every occurrence of the character `c` is replaced by `rep`. */
  function ReplaceChar(s: string, c: char, rep: string): string
    decreases |s|
  {
    if |s| == 0 then ""
    else (if s[0] == c then rep else [s[0]]) + ReplaceChar(s[1..], c, rep)
  }

  lemma {:induction false} ReplaceCharConcat(a: string, b: string, c: char, rep: string)
    ensures ReplaceChar(a + b, c, rep) == ReplaceChar(a, c, rep) + ReplaceChar(b, c, rep)
    decreases |a|
  {
    if |a| > 0 {
      assert (a + b)[1..] == a[1..] + b;
      ReplaceCharConcat(a[1..], b, c, rep);
    } else {
      assert a + b == b;
    }
  }

  /** After replacing `c` by a text free of `c`, no `c` is left. */
  lemma {:induction false} ReplaceCharEliminates(s: string, c: char, rep: string)
    requires c !in rep
    ensures c !in ReplaceChar(s, c, rep)
    decreases |s|
  {
    if |s| > 0 {
      ReplaceCharEliminates(s[1..], c, rep);
    }
  }

  /** Replacing `c` by `rep` keeps every other character and brings in those of `rep`. */
  lemma {:induction false} ReplaceCharMembers(s: string, c: char, rep: string, d: char)
    ensures d in ReplaceChar(s, c, rep) <==> (d in s && d != c) || (c in s && d in rep)
    decreases |s|
  {
    if |s| > 0 {
      ReplaceCharMembers(s[1..], c, rep, d);
      assert s == [s[0]] + s[1..];
    }
  }

  /** Replacing `c` by nothing deletes it: what is left is the other characters, in order. */
  lemma {:induction false} ReplaceCharDrops(s: string, c: char)
    ensures ReplaceChar(s, c, "") == Filter(s, d => d != c)
    decreases |s|
  {
    if |s| > 0 {
      ReplaceCharDrops(s[1..], c);
    }
  }

  /** A text without `c` is left unchanged. */
  lemma {:induction false} ReplaceCharAbsent(s: string, c: char, rep: string)
    requires c !in s
    ensures ReplaceChar(s, c, rep) == s
    decreases |s|
  {
    if |s| > 0 {
      ReplaceCharAbsent(s[1..], c, rep);
      assert [s[0]] + s[1..] == s;
    }
  }

  /** Replacing a one-character pattern is a per-character map. */
  lemma {:induction false} ReplaceSingle(s: string, c: char, rep: string)
    ensures Replace(s, [c], rep) == ReplaceChar(s, c, rep)
    decreases |s|
  {
    if |s| > 0 {
      ReplaceSingle(s[1..], c, rep);
    }
  }

  lemma LastNotInPattern(s: string, pat: string, c: char)
    requires |s| == |pat| > 0 && s[|s| - 1] == c && c !in pat
    ensures s[..|pat|] != pat
  {
    assert s[..|pat|] == s;
    assert pat[|pat| - 1] in pat;
  }

  /** A final character that is not part of the pattern survives a replacement. */
  lemma {:induction false} ReplaceKeepsLast(a: string, c: char, pat: string, rep: string)
    requires |pat| > 0 && c !in pat
    ensures Replace(a + [c], pat, rep) == Replace(a, pat, rep) + [c]
    decreases |a|
  {
    var s := a + [c];
    if |a| < |pat| {
      if |s| >= |pat| {
        LastNotInPattern(s, pat, c);
        assert [s[0]] + s[1..] == s;
      }
    } else {
      assert s[..|pat|] == a[..|pat|];
      if a[..|pat|] == pat {
        assert s[|pat|..] == a[|pat|..] + [c];
        ReplaceKeepsLast(a[|pat|..], c, pat, rep);
      } else {
        assert s[1..] == a[1..] + [c];
        ReplaceKeepsLast(a[1..], c, pat, rep);
      }
    }
  }

  /** A first character that does not start the pattern survives a replacement. */
  lemma ReplaceKeepsFirst(c: char, a: string, pat: string, rep: string)
    requires |pat| > 0 && pat[0] != c
    ensures Replace([c] + a, pat, rep) == [c] + Replace(a, pat, rep)
  {
    assert ([c] + a)[1..] == a;
  }

  /** Number of occurrences of `c` in `s` (`s.Count(x => x == c)`). */
  function Count(s: string, c: char): nat
    decreases |s|
  {
    if |s| == 0 then 0 else (if s[0] == c then 1 else 0) + Count(s[1..], c)
  }

  lemma {:induction false} CountConcat(a: string, b: string, c: char)
    ensures Count(a + b, c) == Count(a, c) + Count(b, c)
    decreases |a|
  {
    if |a| > 0 {
      assert (a + b)[1..] == a[1..] + b;
      CountConcat(a[1..], b, c);
    } else {
      assert a + b == b;
    }
  }

  lemma {:induction false} CountZero(s: string, c: char)
    ensures Count(s, c) == 0 <==> c !in s
    decreases |s|
  {
    if |s| > 0 {
      CountZero(s[1..], c);
      assert s == [s[0]] + s[1..];
    }
  }

  /** `new string(c, n)`. */
  function Repeat(c: char, n: nat): (r: string)
    ensures |r| == n && forall i :: 0 <= i < n ==> r[i] == c
  {
    seq(n, _ => c)
  }

  /** `r` is `s` with some characters deleted: its characters occur in `s` in the same
      order. */
  predicate Subsequence(r: string, s: string)
    decreases |s|
  {
    |r| == 0 || (|s| > 0 && ((r[0] == s[0] && Subsequence(r[1..], s[1..])) || Subsequence(r, s[1..])))
  }

  /** The characters of `s` that satisfy `keep`, in order: a subsequence of `s` that
      holds every kept character as often as `s` does, and nothing else. */
  function Filter(s: string, keep: char -> bool): (r: string)
    ensures forall i :: 0 <= i < |r| ==> keep(r[i])
    ensures forall c :: c in r <==> c in s && keep(c)
    ensures Subsequence(r, s)
    ensures forall c :: keep(c) ==> Count(r, c) == Count(s, c)
    ensures |r| <= |s|
    decreases |s|
  {
    if |s| == 0 then ""
    else
      var rest := Filter(s[1..], keep);
      if keep(s[0]) then
        assert ([s[0]] + rest)[1..] == rest;
        [s[0]] + rest
      else
        rest
  }

  /** A string all of whose characters are kept is its own filter. */
  lemma {:induction false} FilterAllKept(s: string, keep: char -> bool)
    requires forall i :: 0 <= i < |s| ==> keep(s[i])
    ensures Filter(s, keep) == s
    decreases |s|
  {
    if |s| > 0 {
      FilterAllKept(s[1..], keep);
      assert [s[0]] + s[1..] == s;
    }
  }

  /** `s.Split(sep).Last()`: the text after the last `sep`, or all of `s` when there is none. */
  function LastSegment(s: string, sep: char): (r: string)
    ensures sep !in r
    ensures |r| <= |s| && r == s[|s| - |r|..]
    ensures sep in s ==> |r| < |s| && s[|s| - |r| - 1] == sep
    ensures sep !in s ==> r == s
    decreases |s|
  {
    if |s| == 0 then ""
    else if s[|s| - 1] == sep then ""
    else
      var init := s[..|s| - 1];
      assert s == init + [s[|s| - 1]];
      LastSegment(init, sep) + [s[|s| - 1]]
  }

  /** The segment after a separator followed by separator-free text is that text. */
  lemma {:induction false} LastSegmentAfter(x: string, sep: char, tail: string)
    requires sep !in tail
    ensures LastSegment(x + [sep] + tail, sep) == tail
    decreases |tail|
  {
    var s := x + [sep] + tail;
    if |tail| > 0 {
      var init := tail[..|tail| - 1];
      assert s[..|s| - 1] == x + [sep] + init;
      LastSegmentAfter(x, sep, init);
      assert init + [tail[|tail| - 1]] == tail;
    }
  }

  lemma NotInSlice(s: string, c: char, lo: int, hi: int)
    requires 0 <= lo <= hi <= |s| && c !in s
    ensures c !in s[lo..hi]
  {
    forall i | 0 <= i < hi - lo
      ensures s[lo..hi][i] != c
    {
      assert s[lo..hi][i] == s[lo + i];
    }
  }

  /** `s.TrimStart` over the characters satisfying `drop`. */
  function TrimStart(s: string, drop: char -> bool): (r: string)
    ensures |r| <= |s| && r == s[|s| - |r|..]
    ensures |r| > 0 ==> !drop(r[0])
    ensures forall i :: 0 <= i < |s| - |r| ==> drop(s[i])
    decreases |s|
  {
    if |s| > 0 && drop(s[0]) then TrimStart(s[1..], drop) else s
  }

  /** `s.TrimEnd` over the characters satisfying `drop`. */
  function TrimEnd(s: string, drop: char -> bool): (r: string)
    ensures |r| <= |s| && r == s[..|r|]
    ensures |r| > 0 ==> !drop(r[|r| - 1])
    ensures forall i :: |r| <= i < |s| ==> drop(s[i])
    decreases |s|
  {
    if |s| > 0 && drop(s[|s| - 1]) then TrimEnd(s[..|s| - 1], drop) else s
  }

  /** Trimming both ends removes characters and never adds one. */
  lemma TrimKeepsAbsent(s: string, drop: char -> bool, c: char)
    requires c !in s
    ensures c !in TrimEnd(TrimStart(s, drop), drop)
  {
    var mid := TrimStart(s, drop);
    NotInSlice(s, c, |s| - |mid|, |s|);
    NotInSlice(mid, c, 0, |TrimEnd(mid, drop)|);
  }

  /** `string.IsNullOrWhiteSpace`, over an abstract white-space class. */
  predicate IsNullOrWhiteSpace(s: Option<string>, isSpace: char -> bool) {
    s.None? || forall i :: 0 <= i < |s.value| ==> isSpace(s.value[i])
  }

  /** The text a nullable string contributes to an interpolated string (`null` gives ""). */
  function Interp(s: Option<string>): string {
    s.GetOr("")
  }

  // ---------------------------------------------------------------------------
  // Decimal text of integers (`int.ToString()` / `int.Parse` with ASCII digits and an
  // ASCII minus sign; culture-specific signs and digits are not part of this model)

  predicate IsDigit(c: char) {
    '0' <= c <= '9'
  }

  predicate AllDigits(s: string) {
    forall i :: 0 <= i < |s| ==> IsDigit(s[i])
  }

  function DigitChar(d: int): (c: char)
    requires 0 <= d < 10
    ensures IsDigit(c)
  {
    ('0' as int + d) as char
  }

  function DigitValue(c: char): (d: nat)
    requires IsDigit(c)
    ensures d < 10
  {
    c as int - '0' as int
  }

  function NatToString(n: nat): (r: string)
    ensures |r| > 0 && AllDigits(r)
    decreases n
  {
    if n < 10 then [DigitChar(n)] else NatToString(n / 10) + [DigitChar(n % 10)]
  }

  /** The value of a string of decimal digits. */
  function DigitsValue(s: string): nat
    requires AllDigits(s)
    decreases |s|
  {
    if |s| == 0 then 0 else DigitsValue(s[..|s| - 1]) * 10 + DigitValue(s[|s| - 1])
  }

  lemma {:induction false} DigitsOfNat(n: nat)
    ensures DigitsValue(NatToString(n)) == n
    decreases n
  {
    var s := NatToString(n);
    if n >= 10 {
      assert s[..|s| - 1] == NatToString(n / 10);
      DigitsOfNat(n / 10);
    }
  }

  function IntToString(i: int): (r: string)
    ensures |r| > 0
  {
    if i < 0 then "-" + NatToString(-i) else NatToString(i)
  }

  /** An optional sign followed by one or more decimal digits (leading or trailing white
      space and culture-specific forms are not part of this model). */
  function ParseInteger(s: string): Option<int> {
    if |s| > 0 && (s[0] == '-' || s[0] == '+') then
      if |s| > 1 && AllDigits(s[1..]) then
        var v: int := DigitsValue(s[1..]);
        Some(if s[0] == '-' then -v else v)
      else None
    else if |s| > 0 && AllDigits(s) then Some(DigitsValue(s))
    else None
  }

  /** Decimal rendering of an integer parses back to the same integer. */
  lemma IntToStringRoundTrip(i: int)
    ensures ParseInteger(IntToString(i)) == Some(i)
  {
    var s := IntToString(i);
    if i < 0 {
      assert s[0] == '-' && s[1..] == NatToString(-i);
      DigitsOfNat(-i);
      var v: int := DigitsValue(s[1..]);
      assert ParseInteger(s) == Some(-v);
    } else {
      assert IsDigit(s[0]);
      DigitsOfNat(i);
      assert ParseInteger(s) == Some(DigitsValue(s));
    }
  }

  // ---------------------------------------------------------------------------
  // `Regex.Replace(s, @"\bW\b", rep)` over an abstract `\w` class

  predicate WordAt(s: string, j: int, isWord: char -> bool) {
    0 <= j < |s| && isWord(s[j])
  }

  /** `\b` at position `i`: exactly one of the characters around it is a word character. */
  predicate BoundaryAt(s: string, i: int, isWord: char -> bool) {
    WordAt(s, i - 1, isWord) != WordAt(s, i, isWord)
  }

  predicate WholeWordAt(s: string, w: string, i: int, isWord: char -> bool) {
    OccursAt(s, w, i) && BoundaryAt(s, i, isWord) && BoundaryAt(s, i + |w|, isWord)
  }

  function ReplaceWordFrom(s: string, w: string, rep: string, isWord: char -> bool, i: int): string
    requires 0 <= i <= |s| && |w| > 0
    decreases |s| - i
  {
    if i == |s| then ""
    else if WholeWordAt(s, w, i, isWord) then
      rep + ReplaceWordFrom(s, w, rep, isWord, i + |w|)
    else [s[i]] + ReplaceWordFrom(s, w, rep, isWord, i + 1)
  }

  /** Each whole-word occurrence of `w`, found left to right, is replaced by `rep`. */
  function ReplaceWord(s: string, w: string, rep: string, isWord: char -> bool): string
    requires |w| > 0
  {
    ReplaceWordFrom(s, w, rep, isWord, 0)
  }

  lemma {:induction false} ReplaceWordFromAbsent(s: string, w: string, rep: string, isWord: char -> bool, i: int)
    requires 0 <= i <= |s| && |w| > 0
    requires forall j :: i <= j < |s| ==> !WholeWordAt(s, w, j, isWord)
    ensures ReplaceWordFrom(s, w, rep, isWord, i) == s[i..]
    decreases |s| - i
  {
    if i < |s| {
      ReplaceWordFromAbsent(s, w, rep, isWord, i + 1);
      assert [s[i]] + s[i + 1..] == s[i..];
    }
  }

  /** Text without a whole-word occurrence of `w` is left unchanged. */
  lemma ReplaceWordAbsent(s: string, w: string, rep: string, isWord: char -> bool)
    requires |w| > 0
    requires forall j :: 0 <= j < |s| ==> !WholeWordAt(s, w, j, isWord)
    ensures ReplaceWord(s, w, rep, isWord) == s
  {
    ReplaceWordFromAbsent(s, w, rep, isWord, 0);
  }
}
