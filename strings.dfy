/** The string built-ins of the JavaScript runtime that the page script relies
    on: `String.prototype.trim`, `split` on a one-character separator, and the
    case-insensitive search done by a regular expression literal with the `i`
    flag. Strings are sequences of characters; the model does not need code
    units or surrogate pairs, because every character the script compares
    against is in the Basic Multilingual Plane. */
module Strings {

  /** ECMAScript's WhiteSpace and LineTerminator characters, the set that
      `trim` removes: TAB, VT, FF, ZWNBSP, every Space_Separator (Zs) code
      point, LF, CR, LINE SEPARATOR and PARAGRAPH SEPARATOR. */
  predicate IsSpace(c: char)
  {
    var n := c as int;
    n == 0x09 || n == 0x0B || n == 0x0C || n == 0xFEFF ||
    n == 0x20 || n == 0xA0 || n == 0x1680 || (0x2000 <= n <= 0x200A) ||
    n == 0x202F || n == 0x205F || n == 0x3000 ||
    n == 0x0A || n == 0x0D || n == 0x2028 || n == 0x2029
  }

  predicate AllSpace(s: string)
  {
    forall k :: 0 <= k < |s| ==> IsSpace(s[k])
  }

  /** The first index at or after `k` that does not hold white space, or
      `|s|` when there is none. */
  function SkipSpace(s: string, k: nat): (i: nat)
    requires k <= |s|
    ensures k <= i <= |s| && (i < |s| ==> !IsSpace(s[i]))
    ensures forall j :: k <= j < i ==> IsSpace(s[j])
    decreases |s| - k
  {
    if k == |s| || !IsSpace(s[k]) then k else SkipSpace(s, k + 1)
  }

  /** The least index `e <= k` such that `s[e..k]` is all white space. */
  function BackSpace(s: string, k: nat): (e: nat)
    requires k <= |s|
    ensures e <= k && (e > 0 ==> !IsSpace(s[e - 1]))
    ensures forall j :: e <= j < k ==> IsSpace(s[j])
  {
    if k == 0 || !IsSpace(s[k - 1]) then k else BackSpace(s, k - 1)
  }

  /** `s.trim()`: `s` without its leading and trailing white space: a slice
      of `s` with only white space before and after it, empty exactly when
      `s` is all white space, and otherwise starting and ending with a
      non-space character. */
  function Trim(s: string): (r: string)
    ensures exists i, j :: 0 <= i <= j <= |s| && r == s[i..j] && AllSpace(s[..i]) && AllSpace(s[j..])
    ensures r == [] <==> AllSpace(s)
    ensures r != [] ==> !IsSpace(r[0]) && !IsSpace(r[|r| - 1])
  {
    var front := SkipSpace(s, 0);
    var back := BackSpace(s, |s|);
    if front == |s| then
      assert AllSpace(s[..0]) && AllSpace(s[0..]);
      assert s[0..0] == [];
      []
    else
      assert front < back;
      assert AllSpace(s[..front]) && AllSpace(s[back..]);
      s[front..back]
  }

  /** A string that already starts and ends with a non-space character is its
      own trim. */
  lemma TrimUnpadded(s: string)
    requires s != [] && !IsSpace(s[0]) && !IsSpace(s[|s| - 1])
    ensures Trim(s) == s
  {
  }

  /** Trimming twice is trimming once. */
  lemma TrimIdempotent(s: string)
    ensures Trim(Trim(s)) == Trim(s)
  {
    var r := Trim(s);
    if r != [] {
      TrimUnpadded(r);
    }
  }

  // ---------------------------------------------------------------------
  // split on a one-character separator, and the two pieces the script uses

  /** `s.split(sep)`: the pieces of `s` between occurrences of `sep`, left to
      right. There is always at least one piece, and no piece contains `sep`. */
  function Split(s: string, sep: char): (parts: seq<string>)
    ensures |parts| >= 1
    ensures forall k :: 0 <= k < |parts| ==> sep !in parts[k]
  {
    if s == [] then [[]]
    else
      var rest := Split(s[1..], sep);
      if s[0] == sep then [[]] + rest
      else [[s[0]] + rest[0]] + rest[1..]
  }

  /** `parts.join(sep)`, the inverse of `Split`. */
  function Join(parts: seq<string>, sep: char): string
  {
    if |parts| == 0 then []
    else if |parts| == 1 then parts[0]
    else parts[0] + [sep] + Join(parts[1..], sep)
  }

  /** Splitting and joining back on the same separator gives the string back. */
  lemma {:induction false} JoinSplit(s: string, sep: char)
    ensures Join(Split(s, sep), sep) == s
  {
    if s != [] {
      var rest := Split(s[1..], sep);
      JoinSplit(s[1..], sep);
      if s[0] == sep {
        assert Split(s, sep)[1..] == rest;
        assert s == [sep] + s[1..];
      } else if |rest| == 1 {
        assert Split(s, sep) == [[s[0]] + rest[0]];
        assert s == [s[0]] + s[1..];
      } else {
        var parts := Split(s, sep);
        assert parts[1..] == rest[1..];
        calc {
          Join(parts, sep);
          ([s[0]] + rest[0]) + [sep] + Join(rest[1..], sep);
          [s[0]] + (rest[0] + [sep] + Join(rest[1..], sep));
          [s[0]] + Join(rest, sep);
          [s[0]] + s[1..];
          s;
        }
      }
    }
  }

  /** The first index at or after `k` that holds `sep`, or `|s|`. */
  function FindFrom(s: string, sep: char, k: nat): (i: nat)
    requires k <= |s|
    ensures k <= i <= |s| && (i < |s| ==> s[i] == sep)
    ensures forall j :: k <= j < i ==> s[j] != sep
    decreases |s| - k
  {
    if k == |s| || s[k] == sep then k else FindFrom(s, sep, k + 1)
  }

  /** The last index before `k` that holds `sep`, or -1. */
  function FindLastBefore(s: string, sep: char, k: nat): (i: int)
    requires k <= |s|
    ensures -1 <= i < k && (i >= 0 ==> s[i] == sep)
    ensures forall j :: i < j < k ==> s[j] != sep
  {
    if k == 0 then -1 else if s[k - 1] == sep then k - 1 else FindLastBefore(s, sep, k - 1)
  }

  /** The part of `s` before the first `sep`, or all of `s` when there is none:
      a prefix of `s` without `sep` that stops only at a `sep`. */
  function BeforeFirst(s: string, sep: char): (r: string)
    ensures sep !in r
    ensures |r| <= |s| && r == s[..|r|]
    ensures |r| < |s| ==> s[|r|] == sep
  {
    s[..FindFrom(s, sep, 0)]
  }

  /** The part of `s` after the last `sep`, or all of `s` when there is none:
      a suffix of `s` without `sep` (and `AfterLastFollowsSep`: one that is
      all of `s` or follows a `sep`). */
  function AfterLast(s: string, sep: char): (r: string)
    ensures sep !in r
    ensures |r| <= |s| && r == s[|s| - |r|..]
  {
    s[FindLastBefore(s, sep, |s|) + 1..]
  }

  lemma AfterLastFollowsSep(s: string, sep: char)
    ensures var r := AfterLast(s, sep); |r| < |s| ==> s[|s| - |r| - 1] == sep
  {
  }

  /** A string without the separator is its own first piece. */
  lemma BeforeFirstWithoutSep(s: string, sep: char)
    requires sep !in s
    ensures BeforeFirst(s, sep) == s
  {
  }

  /** A suffix of `s` without `sep` that is all of `s` or follows a `sep`
      can only be `AfterLast(s, sep)`. */
  lemma AfterLastUnique(s: string, sep: char, r: string)
    requires sep !in r
    requires |r| <= |s| && r == s[|s| - |r|..]
    requires |r| < |s| ==> s[|s| - |r| - 1] == sep
    ensures r == AfterLast(s, sep)
  {
    AfterLastFollowsSep(s, sep);
  }

  /** The first piece of `split` is the text before the first separator. */
  lemma {:induction false} SplitFirst(s: string, sep: char)
    ensures Split(s, sep)[0] == BeforeFirst(s, sep)
  {
    if s != [] && s[0] != sep {
      SplitFirst(s[1..], sep);
    }
  }

  /** `split` yields one piece exactly when the separator does not occur. */
  lemma {:induction false} SplitSingle(s: string, sep: char)
    ensures |Split(s, sep)| == 1 <==> sep !in s
  {
    if s != [] {
      SplitSingle(s[1..], sep);
      assert s == [s[0]] + s[1..];
    }
  }

  /** The last piece of `split` (what `pop` returns) is the text after the last
      separator. */
  lemma {:induction false} SplitLast(s: string, sep: char)
    ensures Split(s, sep)[|Split(s, sep)| - 1] == AfterLast(s, sep)
  {
    if s != [] {
      if s[0] == sep || sep in s[1..] {
        SplitLast(s[1..], sep);
        SplitLastOfTail(s, sep);
        AfterLastOfTail(s, sep);
      } else {
        assert s == [s[0]] + s[1..];
        SplitLastWithoutSep(s, sep);
      }
    }
  }

  /** With a separator somewhere in `s`, the last piece of `split` is the last
      piece of the tail's split ... */
  lemma SplitLastOfTail(s: string, sep: char)
    requires s != [] && (s[0] == sep || sep in s[1..])
    ensures var parts, rest := Split(s, sep), Split(s[1..], sep);
      parts[|parts| - 1] == rest[|rest| - 1]
  {
    SplitSingle(s[1..], sep);
  }

  /** ... and the text after the last separator is that of the tail. */
  lemma AfterLastOfTail(s: string, sep: char)
    requires s != [] && (s[0] == sep || sep in s[1..])
    ensures AfterLast(s, sep) == AfterLast(s[1..], sep)
  {
    var t := s[1..];
    var a := AfterLast(t, sep);
    AfterLastFollowsSep(t, sep);
    var n := |t| - |a|;
    assert s[n + 1..] == t[n..];
    if n == 0 {
      // the tail has no separator, so `s` starts with one
      assert a == t;
      assert s[0] == sep;
    } else {
      assert s[n] == t[n - 1];
    }
    AfterLastUnique(s, sep, a);
  }

  /** Without a separator the only piece is `s` itself. */
  lemma SplitLastWithoutSep(s: string, sep: char)
    requires sep !in s
    ensures Split(s, sep)[|Split(s, sep)| - 1] == AfterLast(s, sep)
  {
    SplitSingle(s, sep);
    SplitFirst(s, sep);
    BeforeFirstWithoutSep(s, sep);
    AfterLastUnique(s, sep, s);
  }

  // ---------------------------------------------------------------------
  // a regular expression literal `/pat/i` with no special characters

  /** Case folding as the `i` flag applies it outside Unicode mode, for
      comparisons against an ASCII pattern character. There the flag never
      folds a character outside ASCII to one inside it, and inside ASCII
      only the letters A-Z and a-z fold to each other; so folding A-Z to
      a-z and leaving every other character alone decides the same
      comparisons. (Between two characters outside ASCII the flag does fold
      more, `é` to `É` for example; this model is only used with ASCII
      patterns.) */
  function FoldAscii(c: char): char
  {
    if 'A' <= c <= 'Z' then (c as int + 32) as char else c
  }

  /** `pat` occurs in `s` at position `i`, ignoring ASCII case. */
  predicate MatchesAt(s: string, i: nat, pat: string)
  {
    i + |pat| <= |s| && forall k :: 0 <= k < |pat| ==> FoldAscii(s[i + k]) == FoldAscii(pat[k])
  }

  lemma MatchesAtTail(s: string, i: nat, pat: string)
    requires s != []
    ensures MatchesAt(s[1..], i, pat) <==> MatchesAt(s, i + 1, pat)
  {
  }

  /** A pattern made of ASCII characters only. */
  predicate IsAscii(pat: string)
  {
    forall k :: 0 <= k < |pat| ==> pat[k] as int < 128
  }

  /** `/pat/i.test(s)` for a pattern made of literal ASCII characters: true
      exactly when the pattern occurs somewhere in `s`, ignoring the case of
      A-Z. */
  function ContainsIgnoringCase(s: string, pat: string): (b: bool)
    requires IsAscii(pat)
    ensures b <==> exists i: nat :: MatchesAt(s, i, pat)
    decreases |s|
  {
    if |s| < |pat| then
      assert forall i: nat :: !MatchesAt(s, i, pat);
      false
    else if MatchesAt(s, 0, pat) then
      true
    else
      var b := ContainsIgnoringCase(s[1..], pat);
      assert b ==> exists i: nat :: MatchesAt(s, i, pat) by {
        if b {
          var i: nat :| MatchesAt(s[1..], i, pat);
          MatchesAtTail(s, i, pat);
        }
      }
      assert (exists i: nat :: MatchesAt(s, i, pat)) ==> b by {
        if exists i: nat :: MatchesAt(s, i, pat) {
          var i: nat :| MatchesAt(s, i, pat);
          assert i > 0;
          MatchesAtTail(s, i - 1, pat);
        }
      }
      b
  }
}
