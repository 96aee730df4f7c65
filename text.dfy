/**
 * The few Python `str` methods the login code relies on, for strings as
 * sequences of characters: `split`, `rsplit`, `strip`, `rstrip`, `in`,
 * `index` and `replace`.
 */
module Text {
  import opened Outcomes

  /** Number of occurrences of `c` in `s`. */
  function Count(s: string, c: char): nat
  {
    if s == [] then 0 else (if s[0] == c then 1 else 0) + Count(s[1..], c)
  }

  lemma {:induction false} CountZero(s: string, c: char)
    ensures Count(s, c) == 0 <==> c !in s
  {
    if s != [] {
      CountZero(s[1..], c);
      assert s == [s[0]] + s[1..];
    }
  }

  // ---------------------------------------------------------------------
  // str.split(sep) with a one-character separator

  /** `s.split(sep)`: every separator cuts, so there is one more part than separators. */
  function Split(s: string, sep: char): (parts: seq<string>)
    ensures |parts| == Count(s, sep) + 1
    ensures forall i :: 0 <= i < |parts| ==> sep !in parts[i]
  {
    if s == [] then [[]]
    else
      var rest := Split(s[1..], sep);
      if s[0] == sep then [[]] + rest else [[s[0]] + rest[0]] + rest[1..]
  }

  /** `sep.join(parts)`, the inverse of Split. */
  function Join(parts: seq<string>, sep: char): string
  {
    if parts == [] then []
    else if |parts| == 1 then parts[0]
    else parts[0] + [sep] + Join(parts[1..], sep)
  }

  /** Splitting and joining again gives back the original string. */
  lemma {:induction false} JoinSplit(s: string, sep: char)
    ensures Join(Split(s, sep), sep) == s
  {
    if s != [] {
      var rest := Split(s[1..], sep);
      JoinSplit(s[1..], sep);
      if s[0] == sep {
        assert Split(s, sep) == [[]] + rest;
        assert Join([[]] + rest, sep) == [] + [sep] + Join(rest, sep);
      } else {
        var parts := Split(s, sep);
        assert parts == [[s[0]] + rest[0]] + rest[1..];
        if |rest| == 1 {
          assert parts == [[s[0]] + rest[0]];
        } else {
          assert parts[1..] == rest[1..];
          assert Join(rest, sep) == rest[0] + [sep] + Join(rest[1..], sep);
        }
      }
    }
  }

  /** A separator-free head becomes the first part of the split. */
  lemma {:induction false} SplitAfterField(a: string, sep: char, b: string)
    requires sep !in a
    ensures Split(a + [sep] + b, sep) == [a] + Split(b, sep)
  {
    if a == [] {
      assert a + [sep] + b == [sep] + b;
      assert ([sep] + b)[1..] == b;
    } else {
      assert (a + [sep] + b)[1..] == a[1..] + [sep] + b;
      SplitAfterField(a[1..], sep, b);
      assert [a[0]] + a[1..] == a;
    }
  }

  /** Splitting a string that holds no separator gives that string alone. */
  lemma {:induction false} SplitNoSeparator(s: string, sep: char)
    requires sep !in s
    ensures Split(s, sep) == [s]
  {
    CountZero(s, sep);
    JoinSplit(s, sep);
  }

  // ---------------------------------------------------------------------
  // str.replace(c, '')

  /** `s.replace(c, '')`: every `c` removed, the rest kept in order. */
  function RemoveChar(s: string, c: char): (r: string)
    ensures c !in r
    ensures |r| == |s| - Count(s, c)
  {
    if s == [] then [] else (if s[0] == c then [] else [s[0]]) + RemoveChar(s[1..], c)
  }

  lemma {:induction false} RemoveCharAppend(a: string, b: string, c: char)
    ensures RemoveChar(a + b, c) == RemoveChar(a, c) + RemoveChar(b, c)
  {
    if a == [] {
      assert a + b == b;
    } else {
      assert (a + b)[1..] == a[1..] + b;
      RemoveCharAppend(a[1..], b, c);
    }
  }

  lemma {:induction false} RemoveCharAbsent(s: string, c: char)
    requires c !in s
    ensures RemoveChar(s, c) == s
  {
    if s != [] {
      RemoveCharAbsent(s[1..], c);
    }
  }

  // ---------------------------------------------------------------------
  // Searching for a character

  function FirstIndex(s: string, c: char): (i: nat)
    requires c in s
    ensures i < |s| && s[i] == c
    ensures forall k :: 0 <= k < i ==> s[k] != c
  {
    if s[0] == c then 0 else 1 + FirstIndex(s[1..], c)
  }

  function LastIndex(s: string, c: char): (i: nat)
    requires c in s
    ensures i < |s| && s[i] == c
    ensures forall k :: i < k < |s| ==> s[k] != c
  {
    if s[|s| - 1] == c then |s| - 1 else LastIndex(s[..|s| - 1], c)
  }

  /** `s.split(c, 1)[-1]`: the text after the first `c`, or all of `s` when there is none. */
  function AfterFirst(s: string, c: char): (r: string)
    ensures c !in s ==> r == s
    ensures c in s ==> exists k :: 0 <= k < |s| && s[k] == c && c !in s[..k] && r == s[k + 1..]
  {
    if c in s then
      var k := FirstIndex(s, c);
      assert c !in s[..k];
      s[k + 1..]
    else s
  }

  /** `s.rsplit(c, 1)` when it yields two parts: the text before and after the last `c`. */
  function RSplitLast(s: string, c: char): (r: Option<(string, string)>)
    ensures r.None? <==> c !in s
    ensures r.Some? ==> s == r.value.0 + [c] + r.value.1 && c !in r.value.1
  {
    if c in s then
      var k := LastIndex(s, c);
      assert s == s[..k] + [c] + s[k + 1..];
      Some((s[..k], s[k + 1..]))
    else None
  }

  // ---------------------------------------------------------------------
  // str.strip() and str.rstrip(chars)

  /** The code points Python's `str.isspace` accepts. */
  predicate IsSpaceCode(n: int)
  {
    n == 0x20 || 0x09 <= n <= 0x0D || 0x1C <= n <= 0x1F || n == 0x85 || n == 0xA0 ||
    n == 0x1680 || 0x2000 <= n <= 0x200A || n == 0x2028 || n == 0x2029 ||
    n == 0x202F || n == 0x205F || n == 0x3000
  }

  const Spaces: set<char> := {
    '\U{9}', '\U{A}', '\U{B}', '\U{C}', '\U{D}', '\U{1C}', '\U{1D}', '\U{1E}', '\U{1F}', '\U{20}', '\U{85}', '\U{A0}', '\U{1680}', '\U{2000}', '\U{2001}', '\U{2002}', '\U{2003}', '\U{2004}', '\U{2005}', '\U{2006}', '\U{2007}', '\U{2008}', '\U{2009}', '\U{200A}', '\U{2028}', '\U{2029}', '\U{202F}', '\U{205F}', '\U{3000}'
  }

  /** Python's `str.isspace` on one character. */
  predicate IsSpace(c: char)
  {
    c in Spaces
  }

  lemma SpaceByCode(c: char)
    ensures IsSpace(c) <==> IsSpaceCode(c as int)
  {
    if IsSpaceCode(c as int) {
      assert (c as int) as char == c;
    }
  }

  predicate AllSpace(s: string)
  {
    forall i :: 0 <= i < |s| ==> IsSpace(s[i])
  }

  /** A string is trimmed when it neither starts nor ends with whitespace. */
  predicate Trimmed(s: string)
  {
    s == [] || (!IsSpace(s[0]) && !IsSpace(s[|s| - 1]))
  }

  function LStrip(s: string): (r: string)
    ensures |r| <= |s| && r == s[|s| - |r|..]
    ensures r == [] || !IsSpace(r[0])
  {
    if s == [] || !IsSpace(s[0]) then s else LStrip(s[1..])
  }

  function RStrip(s: string): (r: string)
    ensures |r| <= |s| && r == s[..|r|]
    ensures r == [] || !IsSpace(r[|r| - 1])
  {
    if s == [] || !IsSpace(s[|s| - 1]) then s else RStrip(s[..|s| - 1])
  }

  /** `s.strip()`: leading and trailing whitespace removed. */
  function Strip(s: string): (r: string)
    ensures Trimmed(r)
  {
    RStrip(LStrip(s))
  }

  /** `s.rstrip(c)`: drops every trailing `c`. */
  function RStripChar(s: string, c: char): (r: string)
    ensures |r| <= |s| && r == s[..|r|]
    ensures forall i :: |r| <= i < |s| ==> s[i] == c
    ensures r == [] || r[|r| - 1] != c
  {
    if s == [] || s[|s| - 1] != c then s else RStripChar(s[..|s| - 1], c)
  }

  lemma {:induction false} LStripKeeps(s: string, c: char)
    requires !IsSpace(c)
    ensures c in LStrip(s) <==> c in s
  {
    if s != [] && IsSpace(s[0]) {
      LStripKeeps(s[1..], c);
      assert s == [s[0]] + s[1..];
    }
  }

  lemma {:induction false} RStripKeeps(s: string, c: char)
    requires !IsSpace(c)
    ensures c in RStrip(s) <==> c in s
  {
    if s != [] && IsSpace(s[|s| - 1]) {
      RStripKeeps(s[..|s| - 1], c);
      assert s == s[..|s| - 1] + [s[|s| - 1]];
    }
  }

  /** Stripping removes only whitespace, so a non-space character survives it. */
  lemma StripKeeps(s: string, c: char)
    requires !IsSpace(c)
    ensures c in Strip(s) <==> c in s
  {
    LStripKeeps(s, c);
    RStripKeeps(LStrip(s), c);
  }

  /** Stripping a character removes only that character, so any other one survives it. */
  lemma RStripCharKeeps(s: string, c: char, d: char)
    requires c != d
    ensures d in RStripChar(s, c) <==> d in s
  {
    var r := RStripChar(s, c);
    if d in s {
      var k :| 0 <= k < |s| && s[k] == d;
      assert k < |r|;
      assert r[k] == d;
    }
  }

  /** Whitespace around a trimmed string is exactly what Strip removes. */
  lemma {:induction false} StripPadded(pre: string, s: string, post: string)
    requires AllSpace(pre) && AllSpace(post) && Trimmed(s) && s != []
    ensures Strip(pre + s + post) == s
  {
    assert pre + s + post == pre + (s + post);
    LStripSpaces(pre, s + post);
    assert LStrip(pre + s + post) == s + post;
    RStripSpaces(s, post);
    assert Strip(pre + s + post) == RStrip(s + post);
  }

  lemma {:induction false} LStripSpaces(pre: string, s: string)
    requires AllSpace(pre) && s != [] && !IsSpace(s[0])
    ensures LStrip(pre + s) == s
  {
    if pre != [] {
      assert (pre + s)[1..] == pre[1..] + s;
      LStripSpaces(pre[1..], s);
    }
  }

  lemma {:induction false} RStripSpaces(s: string, post: string)
    requires AllSpace(post) && s != [] && !IsSpace(s[|s| - 1])
    ensures RStrip(s + post) == s
  {
    if post != [] {
      var n := |post| - 1;
      assert (s + post)[..|s + post| - 1] == s + post[..n];
      RStripSpaces(s, post[..n]);
    } else {
      assert s + post == s;
    }
  }

  /** A trimmed string is left as it is by Strip. */
  lemma StripTrimmed(s: string)
    requires Trimmed(s)
    ensures Strip(s) == s
  {
    if s != [] {
      assert [] + s + [] == s;
      StripPadded([], s, []);
    }
  }

  /** Trailing whitespace after a trimmed string is exactly what Strip removes. */
  lemma StripTrailing(s: string, post: string)
    requires AllSpace(post) && Trimmed(s) && s != []
    ensures Strip(s + post) == s
  {
    assert [] + s + post == s + post;
    StripPadded([], s, post);
  }

  /** One trailing `c` after text that does not end in `c` is exactly what `rstrip(c)` drops. */
  lemma RStripCharDrops(x: string, c: char)
    requires x == [] || x[|x| - 1] != c
    ensures RStripChar(x + [c], c) == x
  {
    var s := x + [c];
    var r := RStripChar(s, c);
    assert |r| == |x|;
    assert r == s[..|x|] == x;
  }

  /** The split at the first `c` of `a + [c] + b`, when `a` has no `c`. */
  lemma AfterFirstOf(a: string, c: char, b: string)
    requires c !in a
    ensures AfterFirst(a + [c] + b, c) == b
  {
    var s := a + [c] + b;
    assert s[|a|] == c;
    var k :| 0 <= k < |s| && s[k] == c && c !in s[..k] && AfterFirst(s, c) == s[k + 1..];
    assert s[|a| + 1..] == b;
  }

  /** The split at the last `c` of `a + [c] + b`, when `b` has no `c`. */
  lemma RSplitLastOf(a: string, c: char, b: string)
    requires c !in b
    ensures RSplitLast(a + [c] + b, c) == Some((a, b))
  {
    var s := a + [c] + b;
    assert s[|a|] == c;
    var r := RSplitLast(s, c);
    var a', b' := r.value.0, r.value.1;
    assert a' == s[..|a|] == a;
    assert b' == s[|a| + 1..] == b;
  }

  // ---------------------------------------------------------------------
  // Substring search: `pat in s`, `s.index(pat)`, `s.replace(pat, rep, 1)`

  /** Whether `pat` occurs in `s` at position `i`. */
  predicate OccursAt(s: string, pat: string, i: nat)
  {
    i + |pat| <= |s| && s[i..i + |pat|] == pat
  }

  /** The first position at which `pat` occurs in `s`, if any. */
  function Find(s: string, pat: string): (r: Option<nat>)
    ensures r.Some? ==> OccursAt(s, pat, r.value) && forall j :: 0 <= j < r.value ==> !OccursAt(s, pat, j)
    ensures r.None? ==> forall j :: 0 <= j <= |s| ==> !OccursAt(s, pat, j)
    decreases |s|
  {
    if |s| < |pat| then None
    else if s[..|pat|] == pat then Some(0)
    else
      match Find(s[1..], pat)
      case None =>
        OccursAtTail(s, pat);
        None
      case Some(i) =>
        OccursAtTail(s, pat);
        Some(i + 1)
  }

  /** An occurrence after the first character is an occurrence in the tail. */
  lemma OccursAtTail(s: string, pat: string)
    requires s != []
    ensures forall j :: 1 <= j <= |s| ==> (OccursAt(s, pat, j) <==> OccursAt(s[1..], pat, j - 1))
  {
    forall j | 1 <= j <= |s|
      ensures OccursAt(s, pat, j) <==> OccursAt(s[1..], pat, j - 1)
    {
      if j + |pat| <= |s| {
        var t := s[1..];
        assert |s[j..j + |pat|]| == |t[j - 1..j - 1 + |pat|]|;
        assert t[j - 1..] == s[j..];
        assert t[j - 1..j - 1 + |pat|] == t[j - 1..][..|pat|];
        assert s[j..j + |pat|] == s[j..][..|pat|];
        assert s[j..j + |pat|] == t[j - 1..j - 1 + |pat|];
      }
    }
  }

  /** Python's `pat in s`. */
  predicate Contains(s: string, pat: string)
  {
    Find(s, pat).Some?
  }

  /** `s.replace(pat, rep, 1)`: only the first occurrence is replaced. */
  function ReplaceFirst(s: string, pat: string, rep: string): (r: string)
    ensures !Contains(s, pat) ==> r == s
    ensures Contains(s, pat) ==> var i := Find(s, pat).value; r == s[..i] + rep + s[i + |pat|..]
  {
    match Find(s, pat)
    case None => s
    case Some(i) => s[..i] + rep + s[i + |pat|..]
  }
}
