/** Backslash escaping of reserved characters.

    The library escapes query values with a chain of `string.Replace` calls, one per
    reserved character, each putting a backslash in front of its character. This module
    states that chain literally (`Chain`), states the intended per-character map
    (`EscapeWith`), proves the two equal whenever the characters are distinct and a
    backslash, if escaped at all, is escaped first, and proves the map reversible. */
module Escaping {
  import opened Text

  /** The escape of a single character. */
  function EscapeChar(x: char, chars: seq<char>): string {
    if x in chars then ['\\', x] else [x]
  }

  /** Every character of `chars` gains one preceding backslash; all others are kept. */
  function EscapeWith(s: string, chars: seq<char>): (r: string)
    ensures |r| >= |s|
    ensures |r| > 0 ==> r[0] == '\\' || r[0] !in chars
    decreases |s|
  {
    if |s| == 0 then "" else EscapeChar(s[0], chars) + EscapeWith(s[1..], chars)
  }

  /** The source's sequence of `.Replace(c, "\\" + c)` calls, applied in the order of `chars`. */
  function Chain(s: string, chars: seq<char>): string
    decreases |chars|
  {
    if |chars| == 0 then s
    else
      var c := chars[|chars| - 1];
      Replace(Chain(s, chars[..|chars| - 1]), [c], ['\\', c])
  }

  predicate Distinct(chars: seq<char>) {
    forall i, j :: 0 <= i < j < |chars| ==> chars[i] != chars[j]
  }

  /** Two duplicate-free sequences with no character in common join without duplicates. */
  lemma DistinctConcat(a: seq<char>, b: seq<char>)
    requires Distinct(a) && Distinct(b)
    requires forall i :: 0 <= i < |a| ==> a[i] !in b
    ensures Distinct(a + b)
  {
    forall i, j | 0 <= i < j < |a + b| ensures (a + b)[i] != (a + b)[j] {
      if j < |a| {
        assert (a + b)[i] == a[i] && (a + b)[j] == a[j];
      } else if i >= |a| {
        assert (a + b)[i] == b[i - |a|] && (a + b)[j] == b[j - |a|];
      } else {
        assert (a + b)[j] == b[j - |a|];
      }
    }
  }

  /** A backslash may only be the first character replaced. */
  predicate BackslashFirst(chars: seq<char>) {
    forall i :: 0 < i < |chars| ==> chars[i] != '\\'
  }

  lemma {:induction false} EscapeWithNothing(s: string)
    ensures EscapeWith(s, []) == s
    decreases |s|
  {
    if |s| > 0 {
      EscapeWithNothing(s[1..]);
      assert [s[0]] + s[1..] == s;
    }
  }

  lemma EscapeCharStep(x: char, init: seq<char>, c: char)
    requires c !in init && (c == '\\' ==> |init| == 0)
    ensures ReplaceChar(EscapeChar(x, init), c, ['\\', c]) == EscapeChar(x, init + [c])
  {
    if x in init {
      var e := ['\\', x];
      assert e[1..] == [x];
      assert [x][1..] == [];
      assert ReplaceChar([x], c, ['\\', c]) == [x];
      assert ReplaceChar(e, c, ['\\', c]) == ['\\'] + [x];
    } else {
      assert [x][1..] == [];
    }
  }

  /** Replacing one more character after an escape by map is the escape by the larger map. */
  lemma {:induction false} EscapeStep(s: string, init: seq<char>, c: char)
    requires c !in init && (c == '\\' ==> |init| == 0)
    ensures ReplaceChar(EscapeWith(s, init), c, ['\\', c]) == EscapeWith(s, init + [c])
    decreases |s|
  {
    if |s| > 0 {
      ReplaceCharConcat(EscapeChar(s[0], init), EscapeWith(s[1..], init), c, ['\\', c]);
      EscapeCharStep(s[0], init, c);
      EscapeStep(s[1..], init, c);
    }
  }

  /** The sequential `Replace` chain equals the per-character map. */
  lemma {:induction false} ChainIsMap(s: string, chars: seq<char>)
    requires Distinct(chars) && BackslashFirst(chars)
    ensures Chain(s, chars) == EscapeWith(s, chars)
    decreases |chars|
  {
    if |chars| == 0 {
      EscapeWithNothing(s);
    } else {
      var n := |chars| - 1;
      var init, c := chars[..n], chars[n];
      ChainIsMap(s, init);
      ReplaceSingle(EscapeWith(s, init), c, ['\\', c]);
      assert c !in init by {
        forall i | 0 <= i < n ensures init[i] != c {
          assert chars[i] != chars[n];
        }
      }
      EscapeStep(s, init, c);
      assert init + [c] == chars;
    }
  }

  /** A text with no reserved character is its own escape. */
  lemma {:induction false} EscapeWithPlain(s: string, chars: seq<char>)
    requires forall i :: 0 <= i < |s| ==> s[i] !in chars
    ensures EscapeWith(s, chars) == s
    decreases |s|
  {
    if |s| > 0 {
      EscapeWithPlain(s[1..], chars);
      assert [s[0]] + s[1..] == s;
    }
  }

  lemma {:induction false} EscapeWithConcat(a: string, b: string, chars: seq<char>)
    ensures EscapeWith(a + b, chars) == EscapeWith(a, chars) + EscapeWith(b, chars)
    decreases |a|
  {
    if |a| > 0 {
      assert (a + b)[1..] == a[1..] + b;
      EscapeWithConcat(a[1..], b, chars);
    } else {
      assert a + b == b;
    }
  }

  /** Drops the backslash in front of every escaped character. */
  function Unescape(s: string, chars: seq<char>): string
    decreases |s|
  {
    if |s| == 0 then ""
    else if |s| >= 2 && s[0] == '\\' && s[1] in chars then [s[1]] + Unescape(s[2..], chars)
    else [s[0]] + Unescape(s[1..], chars)
  }

  /** The escape is reversible, whatever the reserved set. */
  lemma {:induction false} UnescapeEscape(s: string, chars: seq<char>)
    ensures Unescape(EscapeWith(s, chars), chars) == s
    decreases |s|
  {
    if |s| > 0 {
      var rest := EscapeWith(s[1..], chars);
      var e := EscapeWith(s, chars);
      UnescapeEscape(s[1..], chars);
      if s[0] in chars {
        assert e == ['\\', s[0]] + rest;
        assert e[2..] == rest;
      } else {
        assert e == [s[0]] + rest;
        assert e[1..] == rest;
        if |rest| > 0 {
          assert e[1] == rest[0];
        }
      }
      assert [s[0]] + s[1..] == s;
    }
  }
}
