/**
 * Text primitives the application takes from Python's `str` type: prefix
 * tests, substring search, replacing the first occurrence of a pattern,
 * `strip()` and `lower()`.
 */
module Strings {

  /** `pat` occurs in `s` starting at index `i`. */
  ghost predicate OccursAt(pat: string, s: string, i: int)
  {
    0 <= i && i + |pat| <= |s| && s[i..i + |pat|] == pat
  }

  /** Python's `pat in s`: a left-to-right scan for an occurrence of `pat`. */
  predicate Contains(s: string, pat: string)
    decreases |s|
  {
    pat <= s || (s != [] && Contains(s[1..], pat))
  }

  /** An occurrence in the tail of `s` is an occurrence in `s`, one place further on. */
  lemma OccursShift(pat: string, s: string, j: int)
    requires s != [] && 0 <= j
    ensures OccursAt(pat, s[1..], j) <==> OccursAt(pat, s, j + 1)
  {
    if 0 <= j && j + |pat| <= |s| - 1 {
      assert s[1..][j..j + |pat|] == s[j + 1..j + 1 + |pat|];
    }
  }

  /** An occurrence at the start of `s` is the same as `pat` being a prefix of `s`. */
  lemma OccursAtStart(pat: string, s: string)
    ensures OccursAt(pat, s, 0) <==> pat <= s
  {
  }

  /** The scan finds an occurrence exactly when one exists. */
  lemma {:induction false} ContainsIff(s: string, pat: string)
    ensures Contains(s, pat) <==> exists i :: OccursAt(pat, s, i)
    decreases |s|
  {
    OccursAtStart(pat, s);
    if pat <= s {
    } else if s == [] {
    } else {
      ContainsIff(s[1..], pat);
      if exists i :: OccursAt(pat, s[1..], i) {
        var i :| OccursAt(pat, s[1..], i);
        OccursShift(pat, s, i);
      }
      if exists i :: OccursAt(pat, s, i) {
        var i :| OccursAt(pat, s, i);
        OccursShift(pat, s, i - 1);
      }
    }
  }

  /** Python's `s.replace(pat, rep, 1)`: the leftmost occurrence of `pat` is replaced. */
  function ReplaceFirst(s: string, pat: string, rep: string): string
    decreases |s|
  {
    if pat <= s then rep + s[|pat|..]
    else if s == [] then s
    else [s[0]] + ReplaceFirst(s[1..], pat, rep)
  }

  /**
   * The leftmost occurrence, at `i`, is replaced and everything around it is
   * kept.
   */
  lemma {:induction false} ReplaceFirstSpec(s: string, pat: string, rep: string, i: int)
    requires OccursAt(pat, s, i)
    requires forall j :: 0 <= j < i ==> !OccursAt(pat, s, j)
    ensures ReplaceFirst(s, pat, rep) == s[..i] + rep + s[i + |pat|..]
    decreases i
  {
    OccursAtStart(pat, s);
    if i == 0 {
      assert s[..0] + rep + s[|pat|..] == rep + s[|pat|..];
    } else {
      var tail := s[1..];
      OccursShift(pat, s, i - 1);
      forall j | 0 <= j < i - 1 ensures !OccursAt(pat, tail, j) {
        OccursShift(pat, s, j);
      }
      ReplaceFirstSpec(tail, pat, rep, i - 1);
      var before, after := s[1..i], s[i + |pat|..];
      assert tail[..i - 1] == before;
      assert tail[i - 1 + |pat|..] == after;
      calc {
        ReplaceFirst(s, pat, rep);
        [s[0]] + ReplaceFirst(tail, pat, rep);
        [s[0]] + (before + rep + after);
        ([s[0]] + before) + rep + after;
        { assert [s[0]] + before == s[..i]; }
        s[..i] + rep + after;
      }
    }
  }

  /** With no occurrence of `pat`, replacing it leaves the string as it was. */
  lemma {:induction false} ReplaceFirstAbsent(s: string, pat: string, rep: string)
    requires forall j :: !OccursAt(pat, s, j)
    ensures ReplaceFirst(s, pat, rep) == s
    decreases |s|
  {
    OccursAtStart(pat, s);
    assert !(pat <= s);
    if s != [] {
      var tail := s[1..];
      forall j ensures !OccursAt(pat, tail, j) {
        if 0 <= j { OccursShift(pat, s, j); }
      }
      ReplaceFirstAbsent(tail, pat, rep);
      assert ReplaceFirst(s, pat, rep) == [s[0]] + tail;
    }
  }

  /** Python's `str.isspace()` for one character: the Unicode white-space characters. */
  predicate IsSpace(c: char)
  {
    || c == ' ' || ('\t' <= c <= '\r') || ('\U{1c}' <= c <= '\U{1f}')
    || c == '\U{85}' || c == '\U{a0}' || c == '\U{1680}'
    || ('\U{2000}' <= c <= '\U{200a}') || c == '\U{2028}' || c == '\U{2029}'
    || c == '\U{202f}' || c == '\U{205f}' || c == '\U{3000}'
  }

  /** `s.lstrip()`: the text after its leading white space. */
  function StripLeft(s: string): (r: string)
    ensures |r| <= |s|
    ensures r != [] ==> !IsSpace(r[0])
    decreases |s|
  {
    if s != [] && IsSpace(s[0]) then StripLeft(s[1..]) else s
  }

  /** `s.rstrip()`: the text before its trailing white space. */
  function StripRight(s: string): (r: string)
    ensures r <= s
    ensures r != [] ==> !IsSpace(r[|r| - 1])
    decreases |s|
  {
    if s != [] && IsSpace(s[|s| - 1]) then StripRight(s[..|s| - 1]) else s
  }

  /**
   * Python's `s.strip()`: white space removed at both ends; blank text
   * becomes the empty string.
   */
  function Strip(s: string): (r: string)
    ensures |r| <= |s|
    ensures r != [] ==> !IsSpace(r[0]) && !IsSpace(r[|r| - 1])
    ensures (forall i :: 0 <= i < |s| ==> IsSpace(s[i])) ==> r == []
  {
    var l := StripLeft(s);
    var r := StripRight(l);
    StripLeftSlice(s);
    assert r != [] ==> r[0] == l[0];
    assert r != [] ==> r[0] == s[|s| - |l|];
    r
  }

  /** What `lstrip()` removes is white space, and what it keeps is the rest of the text. */
  lemma {:induction false} StripLeftSlice(s: string)
    ensures StripLeft(s) == s[|s| - |StripLeft(s)|..]
    ensures forall i :: 0 <= i < |s| - |StripLeft(s)| ==> IsSpace(s[i])
    decreases |s|
  {
    if s != [] && IsSpace(s[0]) {
      StripLeftSlice(s[1..]);
    }
  }

  /** What `rstrip()` removes is white space. */
  lemma {:induction false} StripRightSlice(s: string)
    ensures forall i :: |StripRight(s)| <= i < |s| ==> IsSpace(s[i])
    decreases |s|
  {
    if s != [] && IsSpace(s[|s| - 1]) {
      StripRightSlice(s[..|s| - 1]);
    }
  }

  /**
   * `strip()` returns a slice of the text, and everything it cuts off on
   * either side is white space.
   */
  lemma StripIsSlice(s: string)
    ensures exists a, b :: 0 <= a <= b <= |s| && Strip(s) == s[a..b]
              && (forall i :: 0 <= i < a ==> IsSpace(s[i]))
              && (forall i :: b <= i < |s| ==> IsSpace(s[i]))
  {
    var l := StripLeft(s);
    var r := StripRight(l);
    var a, b := |s| - |l|, |s| - |l| + |r|;
    assert Strip(s) == r;
    assert l == s[a..] && forall i :: 0 <= i < a ==> IsSpace(s[i]) by {
      StripLeftSlice(s);
    }
    assert r == s[a..b] by {
      assert r == l[..|r|];
    }
    assert forall i :: b <= i < |s| ==> IsSpace(s[i]) by {
      StripRightSlice(l);
      forall i | b <= i < |s| ensures IsSpace(s[i]) {
        assert s[i] == l[i - a];
      }
    }
  }

  /** A string with no white space at either end is its own strip. */
  lemma StripKeeps(s: string)
    requires s != [] ==> !IsSpace(s[0]) && !IsSpace(s[|s| - 1])
    ensures Strip(s) == s
  {
  }

  /** Leading white space is removed, up to the first other character. */
  lemma {:induction false} StripLeftPadding(pre: string, s: string)
    requires forall i :: 0 <= i < |pre| ==> IsSpace(pre[i])
    requires s != [] && !IsSpace(s[0])
    ensures StripLeft(pre + s) == s
    decreases |pre|
  {
    if pre != [] {
      assert (pre + s)[1..] == pre[1..] + s;
      StripLeftPadding(pre[1..], s);
    }
  }

  /** Trailing white space is removed, back to the last other character. */
  lemma {:induction false} StripRightPadding(s: string, post: string)
    requires forall i :: 0 <= i < |post| ==> IsSpace(post[i])
    requires s != [] && !IsSpace(s[|s| - 1])
    ensures StripRight(s + post) == s
    decreases |post|
  {
    if post != [] {
      var n := |post| - 1;
      assert (s + post)[..|s + post| - 1] == s + post[..n];
      StripRightPadding(s, post[..n]);
    }
  }

  /** White space around a text is dropped, whatever the white space is. */
  lemma StripPadding(pre: string, s: string, post: string)
    requires forall i :: 0 <= i < |pre| ==> IsSpace(pre[i])
    requires forall i :: 0 <= i < |post| ==> IsSpace(post[i])
    requires s != [] && !IsSpace(s[0]) && !IsSpace(s[|s| - 1])
    ensures Strip(pre + s + post) == s
  {
    assert pre + s + post == pre + (s + post);
    StripLeftPadding(pre, s + post);
    StripRightPadding(s, post);
  }

  /** Lower-casing of one character; only the ASCII letters change. */
  function LowerChar(c: char): char
  {
    if 'A' <= c <= 'Z' then (c as int + 32) as char else c
  }

  /** `s.lower()` on ASCII text: capitals become their small letters, everything else is kept. */
  function Lower(s: string): (r: string)
    ensures |r| == |s|
    ensures forall i :: 0 <= i < |r| ==> !('A' <= r[i] <= 'Z')
    ensures forall i :: 0 <= i < |s| && !('A' <= s[i] <= 'Z') ==> r[i] == s[i]
  {
    seq(|s|, i requires 0 <= i < |s| => LowerChar(s[i]))
  }

  /** Each character is lower-cased on its own. */
  lemma LowerAt(s: string, i: int)
    requires 0 <= i < |s|
    ensures Lower(s)[i] == LowerChar(s[i])
  {
  }

  /** A capital becomes the small letter at the same place in the alphabet. */
  lemma LowerCapital(s: string, i: int)
    requires 0 <= i < |s| && 'A' <= s[i] <= 'Z'
    ensures Lower(s)[i] == "abcdefghijklmnopqrstuvwxyz"[s[i] as int - 'A' as int]
  {
    LowerAt(s, i);
  }

  /** Lower-casing twice is the same as lower-casing once. */
  lemma LowerIdempotent(s: string)
    ensures Lower(Lower(s)) == Lower(s)
  {
    LowerKeeps(Lower(s));
  }

  /** Text already in lower case is left as it is. */
  lemma LowerKeeps(s: string)
    requires forall i :: 0 <= i < |s| ==> !('A' <= s[i] <= 'Z')
    ensures Lower(s) == s
  {
  }

  /** Lower-casing changes no white space into other text, nor other text into white space. */
  lemma LowerCharSpace(c: char)
    ensures IsSpace(LowerChar(c)) == IsSpace(c)
  {
  }

  /** Stripping on the left and lower-casing can be done in either order. */
  lemma {:induction false} StripLeftLower(s: string)
    ensures StripLeft(Lower(s)) == Lower(StripLeft(s))
    decreases |s|
  {
    if s != [] {
      LowerCharSpace(s[0]);
      assert Lower(s)[1..] == Lower(s[1..]);
      StripLeftLower(s[1..]);
    }
  }

  /** Lower-casing a prefix is taking the prefix of the lower-cased text. */
  lemma LowerPrefix(s: string, n: nat)
    requires n <= |s|
    ensures Lower(s)[..n] == Lower(s[..n])
  {
  }

  /** Stripping on the right and lower-casing can be done in either order. */
  lemma {:induction false} StripRightLower(s: string)
    ensures StripRight(Lower(s)) == Lower(StripRight(s))
    decreases |s|
  {
    if s != [] {
      var n, l := |s| - 1, Lower(s);
      LowerCharSpace(s[n]);
      LowerPrefix(s, n);
      if IsSpace(s[n]) {
        calc {
          StripRight(l);
          StripRight(l[..n]);
          StripRight(Lower(s[..n]));
          { StripRightLower(s[..n]); }
          Lower(StripRight(s[..n]));
          Lower(StripRight(s));
        }
      } else {
        assert StripRight(l) == l;
        assert StripRight(s) == s;
      }
    }
  }

  /** `s.strip().lower()` equals `s.lower().strip()`. */
  lemma StripLower(s: string)
    ensures Strip(Lower(s)) == Lower(Strip(s))
  {
    StripLeftLower(s);
    StripRightLower(StripLeft(s));
  }
}
