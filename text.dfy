/** The JavaScript string primitives the server code relies on, over
    `string` (= `seq<char>`): `toLowerCase`, `trim`, `includes`, `split`
    with a non-empty separator, and `join`.

    Approximations, stated once here:
    - `Lower` maps only ASCII 'A'..'Z' to 'a'..'z' and leaves every other
      character as it is; JavaScript's `toLowerCase` also folds non-ASCII
      letters (and may change the length of the string doing so).
    - `IsSpace` is the set of characters ECMAScript's `trim` removes
      (WhiteSpace and LineTerminator): tab, line feed, vertical tab, form
      feed, carriage return, space, no-break space, byte-order mark, the
      Unicode space separators (category Zs) and the line and paragraph
      separators. Strings are sequences of Unicode scalar values here, not
      of UTF-16 code units, so lengths of non-BMP text differ. */
module Text {

  /* ---------------- lower-casing ---------------- */

  function LowerChar(c: char): char {
    if 'A' <= c <= 'Z' then (c as int + 32) as char else c
  }

  /** `s.toLowerCase()`, ASCII only (see the module comment). */
  function Lower(s: string): (r: string)
    ensures |r| == |s|
    ensures forall i :: 0 <= i < |s| ==> r[i] == LowerChar(s[i])
  {
    if s == [] then [] else [LowerChar(s[0])] + Lower(s[1..])
  }

  /** Lower-casing twice is lower-casing once: the chat route lower-cases
      the question and the responder lower-cases it again. */
  lemma LowerIdempotent(s: string)
    ensures Lower(Lower(s)) == Lower(s)
  {
    assert forall i :: 0 <= i < |s| ==> LowerChar(LowerChar(s[i])) == LowerChar(s[i]);
  }

  /* ---------------- trimming ---------------- */

  predicate IsSpace(c: char) {
    c == '\t' || c == '\n' || c == '\U{000B}' || c == '\U{000C}' || c == '\r' || c == ' '
    || c == '\U{00A0}' || c == '\U{1680}' || ('\U{2000}' <= c <= '\U{200A}')
    || c == '\U{2028}' || c == '\U{2029}' || c == '\U{202F}' || c == '\U{205F}'
    || c == '\U{3000}' || c == '\U{FEFF}'
  }

  predicate AllSpace(s: string) {
    forall i :: 0 <= i < |s| ==> IsSpace(s[i])
  }

  /** Neither starts nor ends with a character `trim` would remove. */
  predicate IsTrimmed(s: string) {
    s == [] || (!IsSpace(s[0]) && !IsSpace(s[|s| - 1]))
  }

  /** Leading white space removed: the result is the suffix of `s` that
      follows its longest all-space prefix. */
  function TrimStart(s: string): (r: string)
    ensures |r| <= |s| && r == s[|s| - |r|..]
    ensures AllSpace(s[..|s| - |r|])
    ensures r == [] || !IsSpace(r[0])
  {
    if |s| > 0 && IsSpace(s[0]) then
      var r := TrimStart(s[1..]);
      assert s[..|s| - |r|] == [s[0]] + s[1..][..|s| - 1 - |r|];
      assert s[1..][|s| - 1 - |r|..] == s[|s| - |r|..];
      r
    else s
  }

  /** Trailing white space removed: the result is the prefix of `s` that
      precedes its longest all-space suffix. */
  function TrimEnd(s: string): (r: string)
    ensures |r| <= |s| && r == s[..|r|]
    ensures AllSpace(s[|r|..])
    ensures r == [] || !IsSpace(r[|r| - 1])
  {
    if |s| > 0 && IsSpace(s[|s| - 1]) then
      var r := TrimEnd(s[..|s| - 1]);
      assert s[|r|..] == s[..|s| - 1][|r|..] + [s[|s| - 1]];
      r
    else s
  }

  /** `s.trim()`: the infix of `s` left after dropping white space on both
      ends; it is trimmed, and it is empty exactly when `s` is all space. */
  function Trim(s: string): (r: string)
    ensures IsTrimmed(r)
    ensures r == [] <==> AllSpace(s)
    ensures exists i :: OccursAt(s, r, i)
  {
    var t := TrimStart(s);
    var r := TrimEnd(t);
    assert r == [] ==> s == s[..|s| - |t|] + t[|r|..];
    assert r != [] ==> s[|s| - |t|] == r[0] && !IsSpace(r[0]);
    assert s[|s| - |t|..][..|r|] == s[|s| - |t|..|s| - |t| + |r|];
    assert OccursAt(s, r, |s| - |t|);
    r
  }

  lemma {:induction false} TrimStartOfPadded(pre: string, rest: string)
    requires AllSpace(pre)
    requires rest == [] || !IsSpace(rest[0])
    ensures TrimStart(pre + rest) == rest
    decreases |pre|
  {
    if pre != [] {
      assert (pre + rest)[1..] == pre[1..] + rest;
      TrimStartOfPadded(pre[1..], rest);
    }
  }

  lemma {:induction false} TrimEndOfPadded(rest: string, post: string)
    requires AllSpace(post)
    requires rest == [] || !IsSpace(rest[|rest| - 1])
    ensures TrimEnd(rest + post) == rest
    decreases |post|
  {
    if post != [] {
      var n := |rest + post|;
      assert (rest + post)[..n - 1] == rest + post[..|post| - 1];
      TrimEndOfPadded(rest, post[..|post| - 1]);
    }
  }

  /** The characterisation of `trim`: white space around a trimmed text is
      removed and nothing else is. */
  lemma TrimOfPadded(pre: string, mid: string, post: string)
    requires AllSpace(pre) && AllSpace(post) && IsTrimmed(mid)
    ensures Trim(pre + mid + post) == mid
  {
    if mid == [] {
      assert pre + mid + post == pre + post;
      assert AllSpace(pre + post);
      TrimStartOfPadded(pre + post, []);
      assert pre + post + [] == pre + post;
    } else {
      assert pre + mid + post == pre + (mid + post);
      TrimStartOfPadded(pre, mid + post);
      TrimEndOfPadded(mid, post);
    }
  }

  /** `trim` is idempotent: a trimmed text trims to itself. */
  lemma TrimIdempotent(s: string)
    ensures Trim(Trim(s)) == Trim(s)
  {
    var t := Trim(s);
    assert [] + t + [] == t;
    TrimOfPadded([], t, []);
  }

  lemma TrimmedIsFixed(s: string)
    requires IsTrimmed(s)
    ensures Trim(s) == s
  {
    assert [] + s + [] == s;
    TrimOfPadded([], s, []);
  }

  /* ---------------- substring search ---------------- */

  predicate StartsWith(s: string, prefix: string) {
    |prefix| <= |s| && s[..|prefix|] == prefix
  }

  /** `s.includes(sub)`: `sub` starts at some position of `s`. Every text
      includes the empty text, and only texts no longer than itself. */
  predicate Contains(s: string, sub: string)
    ensures sub == [] ==> Contains(s, sub)
    ensures Contains(s, sub) ==> |sub| <= |s|
    decreases |s|
  {
    StartsWith(s, sub) || (|s| > 0 && Contains(s[1..], sub))
  }

  /** `sub` occupies positions `i .. i + |sub|` of `s`. */
  predicate OccursAt(s: string, sub: string, i: int) {
    0 <= i && i + |sub| <= |s| && s[i..i + |sub|] == sub
  }

  /** `Contains` agrees with the index-based reading of `includes`. */
  lemma {:induction false} ContainsIffOccurs(s: string, sub: string)
    ensures Contains(s, sub) <==> exists i :: OccursAt(s, sub, i)
    decreases |s|
  {
    if Contains(s, sub) {
      if StartsWith(s, sub) {
        assert OccursAt(s, sub, 0);
      } else {
        ContainsIffOccurs(s[1..], sub);
        var i :| OccursAt(s[1..], sub, i);
        assert s[1..][i..i + |sub|] == s[i + 1..i + 1 + |sub|];
        assert OccursAt(s, sub, i + 1);
      }
    }
    if exists i :: OccursAt(s, sub, i) {
      var i :| OccursAt(s, sub, i);
      if i > 0 {
        assert s[1..][i - 1..i - 1 + |sub|] == s[i..i + |sub|];
        assert OccursAt(s[1..], sub, i - 1);
        ContainsIffOccurs(s[1..], sub);
      } else {
        assert StartsWith(s, sub);
      }
    }
  }

  /** `s.includes(a) || s.includes(b) || ...` over a list of needles. */
  predicate ContainsAny(s: string, needles: seq<string>)
    decreases |needles|
  {
    |needles| > 0 && (Contains(s, needles[0]) || ContainsAny(s, needles[1..]))
  }

  lemma {:induction false} ContainsAnyIff(s: string, needles: seq<string>)
    ensures ContainsAny(s, needles) <==> exists i :: 0 <= i < |needles| && Contains(s, needles[i])
    decreases |needles|
  {
    if needles != [] {
      ContainsAnyIff(s, needles[1..]);
      if exists i :: 0 <= i < |needles| && Contains(s, needles[i]) {
        var i :| 0 <= i < |needles| && Contains(s, needles[i]);
        if i > 0 {
          assert needles[1..][i - 1] == needles[i];
        }
      }
      if ContainsAny(s, needles[1..]) {
        var i :| 0 <= i < |needles[1..]| && Contains(s, needles[1..][i]);
        assert Contains(s, needles[i + 1]);
      }
    }
  }

  /* ---------------- split and join ---------------- */

  /** Scans `s` left to right; `piece` is the text gathered since the last
      separator. */
  function SplitFrom(s: string, sep: string, piece: string): (r: seq<string>)
    requires |sep| > 0
    ensures |r| > 0
    decreases |s|
  {
    if |s| < |sep| then [piece + s]
    else if s[..|sep|] == sep then [piece] + SplitFrom(s[|sep|..], sep, "")
    else SplitFrom(s[1..], sep, piece + [s[0]])
  }

  /** `s.split(sep)` for a non-empty string separator: the texts between
      the leftmost non-overlapping occurrences of `sep`; `"".split(sep)` is
      `[""]`. */
  function Split(s: string, sep: string): (r: seq<string>)
    requires |sep| > 0
    ensures |r| > 0
  {
    SplitFrom(s, sep, "")
  }

  /** `"".split(sep)` is `[""]`. */
  lemma SplitEmpty(sep: string)
    requires |sep| > 0
    ensures Split("", sep) == [""]
  {
    assert |""| < |sep|;
    assert SplitFrom("", sep, "") == ["" + ""];
    assert "" + "" == "";
  }

  /** `parts.join(sep)`. */
  function Join(parts: seq<string>, sep: string): (r: string)
    ensures parts != [] ==> |r| >= |parts[0]|
    decreases |parts|
  {
    if parts == [] then ""
    else if |parts| == 1 then parts[0]
    else parts[0] + sep + Join(parts[1..], sep)
  }

  /** A join starts with its first part and ends with its last one. */
  lemma {:induction false} JoinEnds(parts: seq<string>, sep: string)
    requires parts != []
    ensures var r, first, last := Join(parts, sep), parts[0], parts[|parts| - 1];
      |first| <= |r| && r[..|first|] == first &&
      |last| <= |r| && r[|r| - |last|..] == last
    decreases |parts|
  {
    if |parts| > 1 {
      JoinEnds(parts[1..], sep);
      assert parts[1..][|parts[1..]| - 1] == parts[|parts| - 1];
    }
  }

  /** A join whose first part does not start, and whose last part does
      not end, with white space is non-empty and trimmed. */
  lemma JoinTrimmed(parts: seq<string>, sep: string)
    requires parts != [] && parts[0] != [] && parts[|parts| - 1] != []
    requires !IsSpace(parts[0][0]) && !IsSpace(parts[|parts| - 1][|parts[|parts| - 1]| - 1])
    ensures Join(parts, sep) != [] && IsTrimmed(Join(parts, sep))
  {
    JoinEnds(parts, sep);
    var r, first, last := Join(parts, sep), parts[0], parts[|parts| - 1];
    assert r[0] == r[..|first|][0];
    assert r[|r| - 1] == r[|r| - |last|..][|last| - 1];
  }

  lemma {:induction false} JoinSplitFrom(s: string, sep: string, piece: string)
    requires |sep| > 0
    ensures Join(SplitFrom(s, sep, piece), sep) == piece + s
    decreases |s|
  {
    if |s| < |sep| {
    } else if s[..|sep|] == sep {
      var rest := SplitFrom(s[|sep|..], sep, "");
      JoinSplitFrom(s[|sep|..], sep, "");
      assert ([piece] + rest)[1..] == rest;
      assert s == sep + s[|sep|..];
    } else {
      JoinSplitFrom(s[1..], sep, piece + [s[0]]);
      assert piece + [s[0]] + s[1..] == piece + s;
    }
  }

  /** Splitting and joining with the same separator gives the text back. */
  lemma JoinSplit(s: string, sep: string)
    requires |sep| > 0
    ensures Join(Split(s, sep), sep) == s
  {
    JoinSplitFrom(s, sep, "");
  }

  /** Up to a separator the scan has not reached, the gathered piece holds
      no complete occurrence of `sep`. */
  predicate NoSepBefore(text: string, sep: string, n: int) {
    forall i :: 0 <= i < n ==> !OccursAt(text, sep, i)
  }

  lemma {:induction false} SplitFromPiecesFree(s: string, sep: string, piece: string)
    requires |sep| > 0
    requires NoSepBefore(piece + s, sep, |piece|)
    ensures forall k :: 0 <= k < |SplitFrom(s, sep, piece)| ==> !Contains(SplitFrom(s, sep, piece)[k], sep)
    decreases |s|
  {
    var r := SplitFrom(s, sep, piece);
    if |s| < |sep| {
      PieceFree(piece + s, sep, |piece + s|);
    } else if s[..|sep|] == sep {
      var rest := s[|sep|..];
      assert NoSepBefore("" + rest, sep, 0);
      SplitFromPiecesFree(rest, sep, "");
      assert NoSepBefore(piece, sep, |piece|) by {
        forall i | 0 <= i < |piece|
          ensures !OccursAt(piece, sep, i)
        {
          if OccursAt(piece, sep, i) {
            assert (piece + s)[i..i + |sep|] == piece[i..i + |sep|];
            assert OccursAt(piece + s, sep, i);
          }
        }
      }
      PieceFree(piece, sep, |piece|);
      forall k | 0 <= k < |r| ensures !Contains(r[k], sep) {
        if k > 0 {
          assert r[k] == SplitFrom(rest, sep, "")[k - 1];
        }
      }
    } else {
      var p := piece + [s[0]];
      assert piece + s == p + s[1..];
      assert !OccursAt(piece + s, sep, |piece|) by {
        assert (piece + s)[|piece|..|piece| + |sep|] == s[..|sep|];
      }
      SplitFromPiecesFree(s[1..], sep, p);
    }
  }

  /** A text with no occurrence of `sep` starting before position `n`, and
      no room for one after it, does not include `sep`. */
  lemma PieceFree(text: string, sep: string, n: int)
    requires n == |text|
    requires NoSepBefore(text, sep, n)
    requires |sep| > 0
    ensures !Contains(text, sep)
  {
    ContainsIffOccurs(text, sep);
    assert forall i :: !OccursAt(text, sep, i);
  }

  /** No piece produced by `split` includes the separator. */
  lemma SplitPiecesFree(s: string, sep: string)
    requires |sep| > 0
    ensures forall k :: 0 <= k < |Split(s, sep)| ==> !Contains(Split(s, sep)[k], sep)
  {
    assert NoSepBefore("" + s, sep, 0);
    SplitFromPiecesFree(s, sep, "");
  }
}
