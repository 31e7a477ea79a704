/**
 The handful of Python string operations the build pipeline relies on,
 stated over `seq<char>`: substring membership (`in`), `startswith`,
 `sep.join`, `str.split(sep)`, `str.replace`, `str.strip(chars)` and
 ASCII upper-casing.
 */
module Text {

  type String = seq<char>

  /** Python `s.startswith(prefix)`. */
  predicate StartsWith(s: String, prefix: String) {
    |prefix| <= |s| && s[..|prefix|] == prefix
  }

  /** Python `pat in s` for strings: `pat` occurs somewhere in `s`
      (the empty string occurs in every string). */
  predicate Occurs(pat: String, s: String)
    decreases |s|
  {
    StartsWith(s, pat) || (|s| > 0 && Occurs(pat, s[1..]))
  }

  /** `a` is obtained from `b` by deleting elements: order is preserved. */
  predicate IsSubseq<T(==)>(a: seq<T>, b: seq<T>)
    decreases |b|
  {
    if |a| == 0 then true
    else if |b| == 0 then false
    else if a[0] == b[0] then IsSubseq(a[1..], b[1..])
    else IsSubseq(a, b[1..])
  }

  lemma {:induction false} SubseqCons<T>(x: T, a: seq<T>, b: seq<T>)
    requires IsSubseq(a, b)
    ensures IsSubseq([x] + a, [x] + b)
  {
    assert ([x] + a)[1..] == a;
    assert ([x] + b)[1..] == b;
  }

  lemma {:induction false} SubseqSkip<T>(x: T, a: seq<T>, b: seq<T>)
    requires IsSubseq(a, b)
    ensures IsSubseq(a, [x] + b)
    decreases |b|, 1
  {
    if |a| > 0 && a[0] == x {
      assert ([x] + b)[1..] == b;
      SubseqDropHead(a, b);
    } else {
      assert ([x] + b)[1..] == b;
    }
  }

  lemma {:induction false} SubseqDropHead<T>(a: seq<T>, b: seq<T>)
    requires |a| > 0 && IsSubseq(a, b)
    ensures IsSubseq(a[1..], b)
    decreases |b|, 0
  {
    if a[0] == b[0] {
      if |a[1..]| > 0 {
        SubseqSkip(b[0], a[1..], b[1..]);
        assert [b[0]] + b[1..] == b;
      }
    } else {
      SubseqDropHead(a, b[1..]);
      if |a[1..]| > 0 {
        SubseqSkip(b[0], a[1..], b[1..]);
        assert [b[0]] + b[1..] == b;
      }
    }
  }

  /** Python `sep.join(parts)`. */
  function Join(sep: char, parts: seq<String>): String
    decreases |parts|
  {
    if |parts| == 0 then []
    else if |parts| == 1 then parts[0]
    else parts[0] + [sep] + Join(sep, parts[1..])
  }

  /** Joining two parts puts one separator between them. */
  lemma JoinPair(sep: char, a: String, b: String)
    ensures Join(sep, [a, b]) == a + [sep] + b
  {
    assert [a, b][1..] == [b];
  }

  /** Python `s.split(sep)` for a one-character separator: always at least
      one piece, empty pieces kept (`"".split(";") == [""]`). */
  function Split(s: String, sep: char): (r: seq<String>)
    ensures |r| >= 1
    ensures forall i :: 0 <= i < |r| ==> sep !in r[i]
    decreases |s|
  {
    if |s| == 0 then [[]]
    else
      var rest := Split(s[1..], sep);
      if s[0] == sep then [[]] + rest
      else [[s[0]] + rest[0]] + rest[1..]
  }

  /** Splitting at a separator splits the two sides independently. */
  lemma {:induction false} SplitAround(a: String, b: String, sep: char)
    ensures Split(a + [sep] + b, sep) == Split(a, sep) + Split(b, sep)
    decreases |a|
  {
    if |a| == 0 {
      assert a + [sep] + b == [sep] + b;
      assert ([sep] + b)[1..] == b;
    } else {
      var s := a + [sep] + b;
      assert s[0] == a[0];
      assert s[1..] == a[1..] + [sep] + b;
      SplitAround(a[1..], b, sep);
    }
  }

  /** A string without the separator is a single piece. */
  lemma {:induction false} SplitNoSep(s: String, sep: char)
    requires sep !in s
    ensures Split(s, sep) == [s]
    decreases |s|
  {
    if |s| > 0 {
      assert sep !in s[1..];
      SplitNoSep(s[1..], sep);
      assert [s[0]] + s[1..] == s;
    }
  }

  /** `split` undoes `join` when no part contains the separator. */
  lemma {:induction false} SplitJoin(parts: seq<String>, sep: char)
    requires |parts| >= 1
    requires forall i :: 0 <= i < |parts| ==> sep !in parts[i]
    ensures Split(Join(sep, parts), sep) == parts
    decreases |parts|
  {
    if |parts| == 1 {
      SplitNoSep(parts[0], sep);
    } else {
      SplitJoin(parts[1..], sep);
      SplitAround(parts[0], Join(sep, parts[1..]), sep);
      SplitNoSep(parts[0], sep);
      assert [parts[0]] + parts[1..] == parts;
    }
  }

  /** `join` undoes `split`. */
  lemma {:induction false} JoinSplit(s: String, sep: char)
    ensures Join(sep, Split(s, sep)) == s
    decreases |s|
  {
    if |s| > 0 {
      var rest := Split(s[1..], sep);
      JoinSplit(s[1..], sep);
      if s[0] == sep {
        assert ([[]] + rest)[1..] == rest;
        assert [s[0]] + s[1..] == s;
      } else {
        var r := [[s[0]] + rest[0]] + rest[1..];
        assert r[1..] == rest[1..];
        assert [s[0]] + s[1..] == s;
      }
    }
  }

  /** `split` yields one piece more than there are separators. */
  lemma {:induction false} SplitCount(s: String, sep: char)
    ensures |Split(s, sep)| == multiset(s)[sep] + 1
    decreases |s|
  {
    if |s| > 0 {
      SplitCount(s[1..], sep);
      assert s == [s[0]] + s[1..];
      assert multiset(s) == multiset([s[0]]) + multiset(s[1..]);
    }
  }

  /** Python `s.replace(pat, rep)`: leftmost, non-overlapping occurrences of
      `pat` are replaced. An empty `pat` inserts `rep` before every character
      and at the end (`"ab".replace("", "X") == "XaXbX"`). */
  function ReplaceAll(s: String, pat: String, rep: String): (r: String)
    ensures |pat| > 0 && |rep| == |pat| ==> |r| == |s|
    decreases |s|
  {
    if |pat| == 0 then
      if |s| == 0 then rep else rep + [s[0]] + ReplaceAll(s[1..], pat, rep)
    else if |s| < |pat| then s
    else if s[..|pat|] == pat then rep + ReplaceAll(s[|pat|..], pat, rep)
    else [s[0]] + ReplaceAll(s[1..], pat, rep)
  }

  /** Where a non-empty `pat` does not occur, replacing changes nothing. */
  lemma {:induction false} ReplaceAbsent(s: String, pat: String, rep: String)
    requires |pat| > 0 && !Occurs(pat, s)
    ensures ReplaceAll(s, pat, rep) == s
    decreases |s|
  {
    if |s| >= |pat| {
      ReplaceAbsent(s[1..], pat, rep);
      assert [s[0]] + s[1..] == s;
    }
  }

  /** Replacing a character that does not occur changes nothing. */
  lemma {:induction false} ReplaceCharAbsent(s: String, c: char, rep: String)
    requires c !in s
    ensures ReplaceAll(s, [c], rep) == s
    decreases |s|
  {
    if |s| > 0 {
      assert s[..1] == [s[0]];
      assert c !in s[1..];
      ReplaceCharAbsent(s[1..], c, rep);
      assert [s[0]] + s[1..] == s;
    }
  }

  /** Nothing but the occurrences of `pat` changes: mapping each
      occurrence to a fresh marker character and the markers back restores
      the original text (that every occurrence is reached is
      `ReplaceLeavesNone`). */
  lemma {:induction false} ReplaceRoundTrip(s: String, pat: String, c: char)
    requires |pat| > 0 && c !in s
    ensures ReplaceAll(ReplaceAll(s, pat, [c]), [c], pat) == s
    decreases |s|
  {
    if |s| < |pat| {
      ReplaceCharAbsent(s, c, pat);
    } else if s[..|pat|] == pat {
      var rest := s[|pat|..];
      assert c !in rest by {
        forall k | 0 <= k < |rest| ensures rest[k] != c {
          assert rest[k] == s[|pat| + k];
        }
      }
      ReplaceRoundTrip(rest, pat, c);
      var t := [c] + ReplaceAll(rest, pat, [c]);
      assert t[..1] == [c];
      assert t[1..] == ReplaceAll(rest, pat, [c]);
      assert s == pat + rest;
    } else {
      assert c !in s[1..];
      ReplaceRoundTrip(s[1..], pat, c);
      var t := [s[0]] + ReplaceAll(s[1..], pat, [c]);
      assert t[..1] == [s[0]];
      assert t[1..] == ReplaceAll(s[1..], pat, [c]);
      assert [s[0]] + s[1..] == s;
    }
  }

  /** A pattern longer than the text does not occur in it. */
  lemma {:induction false} OccursShort(pat: String, s: String)
    requires |s| < |pat|
    ensures !Occurs(pat, s)
    decreases |s|
  {
    if |s| > 0 {
      OccursShort(pat, s[1..]);
    }
  }

  /** An occurrence in a part is an occurrence in the whole. */
  lemma {:induction false} OccursAppend(pat: String, a: String, b: String)
    requires Occurs(pat, a)
    ensures Occurs(pat, a + b)
    decreases |a|
  {
    if StartsWith(a, pat) {
      assert (a + b)[..|pat|] == a[..|pat|];
    } else {
      OccursAppend(pat, a[1..], b);
      assert (a + b)[1..] == a[1..] + b;
    }
  }

  lemma {:induction false} OccursPrepend(pat: String, a: String, b: String)
    requires Occurs(pat, b)
    ensures Occurs(pat, a + b)
    decreases |a|
  {
    if |a| == 0 {
      assert a + b == b;
    } else {
      OccursPrepend(pat, a[1..], b);
      assert (a + b)[1..] == a[1..] + b;
    }
  }

  /** Text that precedes an unscanned rest cannot complete a pattern with
      a marker the replace put in: a pattern found at the front of
      `u + ReplaceAll(t, pat, [m])` was already at the front of `u + t`. */
  lemma {:induction false} ReplacedFront(u: String, t: String, pat: String, m: char)
    requires |pat| > 0 && m !in pat
    ensures StartsWith(u + ReplaceAll(t, pat, [m]), pat) ==> StartsWith(u + t, pat)
    decreases |t|
  {
    var rt := ReplaceAll(t, pat, [m]);
    if |u| >= |pat| {
      assert (u + rt)[..|pat|] == u[..|pat|] == (u + t)[..|pat|];
    } else if |t| < |pat| {
    } else if t[..|pat|] == pat {
      assert (u + rt)[|u|] == m;
      assert !StartsWith(u + rt, pat);
    } else {
      assert u + rt == (u + [t[0]]) + ReplaceAll(t[1..], pat, [m]);
      ReplacedFront(u + [t[0]], t[1..], pat, m);
      assert (u + [t[0]]) + t[1..] == u + t;
    }
  }

  /** Every occurrence is replaced: once each occurrence of a non-empty
      pattern has become a character foreign to it, the pattern no longer
      occurs anywhere in the result. */
  lemma {:induction false} ReplaceLeavesNone(s: String, pat: String, m: char)
    requires |pat| > 0 && m !in pat
    ensures !Occurs(pat, ReplaceAll(s, pat, [m]))
    decreases |s|
  {
    var r := ReplaceAll(s, pat, [m]);
    if |s| < |pat| {
      OccursShort(pat, s);
    } else if s[..|pat|] == pat {
      ReplaceLeavesNone(s[|pat|..], pat, m);
      assert r == [m] + ReplaceAll(s[|pat|..], pat, [m]);
      assert r[0] == m != pat[0];
      assert r[1..] == ReplaceAll(s[|pat|..], pat, [m]);
    } else {
      ReplaceLeavesNone(s[1..], pat, m);
      assert r[1..] == ReplaceAll(s[1..], pat, [m]);
      assert [s[0]] + s[1..] == s;
      ReplacedFront([s[0]], s[1..], pat, m);
    }
  }

  /** Where the `j`-th copy of the replacement begins when an empty
      pattern is replaced by a replacement of length `m`. */
  function Spot(j: nat, m: nat): nat {
    j * (m + 1)
  }

  /** Replacing the empty pattern adds one copy of `rep` per character of
      the text and one more. */
  lemma {:induction false} ReplaceEmptyLength(s: String, rep: String)
    ensures |ReplaceAll(s, "", rep)| == |s| + (|s| + 1) * |rep|
    decreases |s|
  {
    if |s| > 0 {
      ReplaceEmptyLength(s[1..], rep);
      assert (|s| - 1 + 1) * |rep| + |rep| == (|s| + 1) * |rep|;
    }
  }

  /** The `k`-th character of the text sits right after the `k`-th copy
      of the replacement. */
  lemma {:induction false} ReplaceEmptyCharAt(s: String, rep: String, k: nat)
    requires k < |s|
    ensures Spot(k, |rep|) + |rep| < |ReplaceAll(s, "", rep)|
    ensures ReplaceAll(s, "", rep)[Spot(k, |rep|) + |rep|] == s[k]
    decreases k
  {
    var r' := ReplaceAll(s[1..], "", rep);
    assert ReplaceAll(s, "", rep) == rep + [s[0]] + r';
    if k > 0 {
      ReplaceEmptyCharAt(s[1..], rep, k - 1);
      assert Spot(k, |rep|) == Spot(k - 1, |rep|) + |rep| + 1;
    }
  }

  /** The `j`-th copy of the replacement, for every `j` up to the text's
      length. */
  lemma {:induction false} ReplaceEmptySlotAt(s: String, rep: String, j: nat)
    requires j <= |s|
    ensures Spot(j, |rep|) + |rep| <= |ReplaceAll(s, "", rep)|
    ensures ReplaceAll(s, "", rep)[Spot(j, |rep|)..Spot(j, |rep|) + |rep|] == rep
    decreases j
  {
    if |s| > 0 {
      var r' := ReplaceAll(s[1..], "", rep);
      var r := ReplaceAll(s, "", rep);
      assert r == rep + [s[0]] + r';
      if j > 0 {
        ReplaceEmptySlotAt(s[1..], rep, j - 1);
        var a := Spot(j - 1, |rep|);
        assert Spot(j, |rep|) == a + |rep| + 1;
        assert r[a + |rep| + 1..a + |rep| + 1 + |rep|] == r'[a..a + |rep|];
      }
    }
  }

  /** Replacing the empty pattern puts one copy of `rep` before every
      character and one at the end: the text's `k`-th character sits right
      after the `k`-th copy. */
  lemma ReplaceEmptySpread(s: String, rep: String)
    ensures |ReplaceAll(s, "", rep)| == |s| + (|s| + 1) * |rep|
    ensures forall k :: 0 <= k < |s| ==> Spot(k, |rep|) + |rep| < |ReplaceAll(s, "", rep)|
    ensures forall k :: 0 <= k < |s| ==> ReplaceAll(s, "", rep)[Spot(k, |rep|) + |rep|] == s[k]
    ensures forall j :: 0 <= j <= |s| ==> Spot(j, |rep|) + |rep| <= |ReplaceAll(s, "", rep)|
    ensures forall j :: 0 <= j <= |s| ==> ReplaceAll(s, "", rep)[Spot(j, |rep|)..Spot(j, |rep|) + |rep|] == rep
  {
    ReplaceEmptyLength(s, rep);
    forall k | 0 <= k < |s|
      ensures Spot(k, |rep|) + |rep| < |ReplaceAll(s, "", rep)|
      ensures ReplaceAll(s, "", rep)[Spot(k, |rep|) + |rep|] == s[k]
    {
      ReplaceEmptyCharAt(s, rep, k);
    }
    forall j | 0 <= j <= |s|
      ensures Spot(j, |rep|) + |rep| <= |ReplaceAll(s, "", rep)|
      ensures ReplaceAll(s, "", rep)[Spot(j, |rep|)..Spot(j, |rep|) + |rep|] == rep
    {
      ReplaceEmptySlotAt(s, rep, j);
    }
  }

  /** Every character of `t` is one of `chars`. */
  predicate AllIn(t: String, chars: set<char>) {
    forall k :: 0 <= k < |t| ==> t[k] in chars
  }

  /** Python `s.lstrip(chars)`: drops the longest prefix made of `chars`. */
  function LStrip(s: String, chars: set<char>): (r: String)
    ensures |r| <= |s| && r == s[|s| - |r|..]
    ensures AllIn(s[..|s| - |r|], chars)
    ensures |r| > 0 ==> r[0] !in chars
    decreases |s|
  {
    if |s| > 0 && s[0] in chars then
      var r := LStrip(s[1..], chars);
      assert s[..|s| - |r|] == [s[0]] + s[1..][..|s| - 1 - |r|];
      r
    else s
  }

  /** Python `s.rstrip(chars)`: drops the longest suffix made of `chars`. */
  function RStrip(s: String, chars: set<char>): (r: String)
    ensures |r| <= |s| && r == s[..|r|]
    ensures AllIn(s[|r|..], chars)
    ensures |r| > 0 ==> r[|r| - 1] !in chars
    decreases |s|
  {
    if |s| > 0 && s[|s| - 1] in chars then
      var r := RStrip(s[..|s| - 1], chars);
      assert s[|r|..] == s[..|s| - 1][|r|..] + [s[|s| - 1]];
      r
    else s
  }

  /** Python `s.strip(chars)`: `chars` is a set of characters removed from
      both ends, not a prefix or suffix string. */
  function Strip(s: String, chars: set<char>): (r: String)
    ensures exists i, j :: 0 <= i <= j <= |s| && r == s[i..j] && AllIn(s[..i], chars) && AllIn(s[j..], chars)
    ensures |r| > 0 ==> r[0] !in chars && r[|r| - 1] !in chars
  {
    var l := LStrip(s, chars);
    var r := RStrip(l, chars);
    PrefixOfSuffix(s, l, r, chars);
    assert |r| > 0 ==> r[0] == l[0];
    r
  }

  /** A prefix `r` of a suffix `l` of `s` is a slice of `s`; what lies
      outside it in `l` and in `s` lies outside it in `s`. */
  lemma PrefixOfSuffix(s: String, l: String, r: String, chars: set<char>)
    requires |l| <= |s| && l == s[|s| - |l|..]
    requires |r| <= |l| && r == l[..|r|]
    requires AllIn(s[..|s| - |l|], chars) && AllIn(l[|r|..], chars)
    ensures var i := |s| - |l|;
      && r == s[i..i + |r|] && AllIn(s[..i], chars) && AllIn(s[i + |r|..], chars)
  {
    var i := |s| - |l|;
    assert s[i + |r|..] == l[|r|..];
  }

  /** `strip` is `rstrip` after `lstrip`. */
  lemma StripUnfold(s: String, chars: set<char>)
    ensures Strip(s, chars) == RStrip(LStrip(s, chars), chars)
  {
  }

  /** `lstrip` removes exactly a prefix made of `chars` when what follows
      it does not start with one of them. */
  lemma {:induction false} LStripPrefix(p: String, q: String, chars: set<char>)
    requires AllIn(p, chars)
    requires |q| == 0 || q[0] !in chars
    ensures LStrip(p + q, chars) == q
    decreases |p|
  {
    if |p| == 0 {
      assert p + q == q;
    } else {
      assert (p + q)[1..] == p[1..] + q;
      LStripPrefix(p[1..], q, chars);
    }
  }

  /** `rstrip` keeps a string whose last character is not in `chars`. */
  lemma RStripKeeps(s: String, chars: set<char>)
    requires |s| == 0 || s[|s| - 1] !in chars
    ensures RStrip(s, chars) == s
  {
  }

  /** ASCII upper-casing of one character. */
  function UpperChar(c: char): char {
    if 'a' <= c <= 'z' then (c as int - 32) as char else c
  }

  /** Python `s.upper()` restricted to ASCII letters. */
  function Upper(s: String): (r: String)
    ensures |r| == |s|
    ensures forall k :: 0 <= k < |s| ==> r[k] == UpperChar(s[k])
  {
    seq(|s|, k requires 0 <= k < |s| => UpperChar(s[k]))
  }
}
