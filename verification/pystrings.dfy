/** Python 2 `str` primitives that the web front end relies on, written out
    as pure functions over `seq<char>`: `s.split('\n')`, `'\n'.join(ps)`,
    `s.replace(c, '')`, `s.strip()` and the substring test `n in h`.
    Each comes with the lemmas that pin it down independently of its body. */
module PyStrings {

  /** Number of occurrences of `c` in `s`. */
  function Count(s: string, c: char): (n: nat)
    ensures n <= |s|
    ensures c !in s ==> n == 0
  {
    if |s| == 0 then 0
    else (if s[0] == c then 1 else 0) + Count(s[1..], c)
  }

  lemma {:induction false} CountAppend(a: string, b: string, c: char)
    ensures Count(a + b, c) == Count(a, c) + Count(b, c)
  {
    if |a| == 0 {
      assert a + b == b;
    } else {
      assert (a + b)[1..] == a[1..] + b;
      CountAppend(a[1..], b, c);
    }
  }

  // ---------------------------------------------------------------------
  // s.split('\n') and '\n'.join(ps)
  // ---------------------------------------------------------------------

  const Newline: char := '\n'

  /** No piece of `ps` contains the separator. */
  predicate SeparatorFree(ps: seq<string>)
  {
    forall i :: 0 <= i < |ps| ==> Newline !in ps[i]
  }

  /** Python's `s.split('\n')`: the empty string gives `['']`, and each
      separator closes one piece and opens the next, so there is one piece
      more than there are separators. */
  function Split(s: string): (r: seq<string>)
    ensures |r| == Count(s, Newline) + 1
  {
    if |s| == 0 then [""]
    else
      var rest := Split(s[1..]);
      if s[0] == Newline then [""] + rest
      else [[s[0]] + rest[0]] + rest[1..]
  }

  /** Python's `'\n'.join(ps)`. */
  function Join(ps: seq<string>): string
  {
    if |ps| == 0 then ""
    else if |ps| == 1 then ps[0]
    else ps[0] + [Newline] + Join(ps[1..])
  }

  lemma JoinCons(p: string, ps: seq<string>)
    requires |ps| >= 1
    ensures Join([p] + ps) == p + [Newline] + Join(ps)
  {
    assert ([p] + ps)[1..] == ps;
  }

  /** Prepending a character to the first piece prepends it to the join. */
  lemma JoinPrependChar(c: char, ps: seq<string>)
    requires |ps| >= 1
    ensures Join([[c] + ps[0]] + ps[1..]) == [c] + Join(ps)
  {
    if |ps| > 1 {
      JoinCons([c] + ps[0], ps[1..]);
    }
  }

  /** No piece produced by `split` contains the separator. */
  lemma {:induction false} SplitPiecesSeparatorFree(s: string)
    ensures SeparatorFree(Split(s))
  {
    if |s| > 0 {
      SplitPiecesSeparatorFree(s[1..]);
      var rest := Split(s[1..]);
      if s[0] != Newline {
        var r := Split(s);
        assert r[0] == [s[0]] + rest[0];
        forall i | 1 <= i < |r| ensures Newline !in r[i] {
          assert r[i] == rest[i];
        }
      }
    }
  }

  /** Joining the pieces of a split gives the original text back. */
  lemma {:induction false} JoinSplit(s: string)
    ensures Join(Split(s)) == s
  {
    if |s| > 0 {
      JoinSplit(s[1..]);
      var rest := Split(s[1..]);
      if s[0] == Newline {
        JoinCons("", rest);
        assert s == [s[0]] + s[1..];
      } else {
        JoinPrependChar(s[0], rest);
        assert s == [s[0]] + s[1..];
      }
    }
  }

  lemma {:induction false} SplitSeparatorFreeText(p: string)
    requires Newline !in p
    ensures Split(p) == [p]
  {
    if |p| > 0 {
      assert Newline !in p[1..] by {
        forall k | 0 <= k < |p[1..]| ensures p[1..][k] != Newline {
          assert p[1..][k] == p[k + 1];
        }
      }
      SplitSeparatorFreeText(p[1..]);
      assert [p[0]] + p[1..] == p;
    }
  }

  lemma {:induction false} SplitAfterFreePrefix(p: string, t: string)
    requires Newline !in p
    ensures Split(p + t) == [p + Split(t)[0]] + Split(t)[1..]
  {
    if |p| == 0 {
      assert p + t == t;
      assert Split(t) == [Split(t)[0]] + Split(t)[1..];
      assert p + Split(t)[0] == Split(t)[0];
    } else {
      assert Newline !in p[1..] by {
        forall k | 0 <= k < |p[1..]| ensures p[1..][k] != Newline {
          assert p[1..][k] == p[k + 1];
        }
      }
      assert (p + t)[1..] == p[1..] + t;
      SplitAfterFreePrefix(p[1..], t);
      assert [p[0]] + (p[1..] + Split(t)[0]) == p + Split(t)[0];
    }
  }

  /** Splitting a join of separator-free pieces gives the pieces back, so
      `Split` is the only decomposition with the properties above. */
  lemma {:induction false} SplitJoin(ps: seq<string>)
    requires |ps| >= 1
    requires SeparatorFree(ps)
    ensures Split(Join(ps)) == ps
  {
    if |ps| == 1 {
      assert Newline !in ps[0];
      SplitSeparatorFreeText(ps[0]);
    } else {
      JoinCons(ps[0], ps[1..]);
      assert SeparatorFree(ps[1..]) by {
        forall i | 0 <= i < |ps[1..]| ensures Newline !in ps[1..][i] {
          assert ps[1..][i] == ps[i + 1];
        }
      }
      SplitJoin(ps[1..]);
      var t := [Newline] + Join(ps[1..]);
      assert ps[0] + [Newline] + Join(ps[1..]) == ps[0] + t;
      SplitAfterFreePrefix(ps[0], t);
      assert t[1..] == Join(ps[1..]);
      assert Split(t) == [""] + ps[1..];
      assert ps[0] + Split(t)[0] == ps[0];
      assert Split(t)[1..] == ps[1..];
      assert [ps[0]] + ps[1..] == ps;
    }
  }

  // ---------------------------------------------------------------------
  // s.replace(c, '')
  // ---------------------------------------------------------------------

  /** Python's `s.replace(c, '')`: every occurrence of `c` is deleted and
      every other character is kept, in order. */
  function Delete(s: string, c: char): (r: string)
    ensures c !in r
    ensures |r| == |s| - Count(s, c)
  {
    if |s| == 0 then ""
    else if s[0] == c then Delete(s[1..], c)
    else [s[0]] + Delete(s[1..], c)
  }

  /** Deletion distributes over concatenation. */
  lemma {:induction false} DeleteAppend(a: string, b: string, c: char)
    ensures Delete(a + b, c) == Delete(a, c) + Delete(b, c)
  {
    if |a| == 0 {
      assert a + b == b;
    } else {
      assert (a + b)[1..] == a[1..] + b;
      DeleteAppend(a[1..], b, c);
    }
  }

  /** Text without `c` is left exactly as it was. */
  lemma {:induction false} DeleteAbsent(s: string, c: char)
    requires c !in s
    ensures Delete(s, c) == s
  {
    if |s| > 0 {
      assert c !in s[1..] by {
        forall k | 0 <= k < |s[1..]| ensures s[1..][k] != c {
          assert s[1..][k] == s[k + 1];
        }
      }
      DeleteAbsent(s[1..], c);
      assert [s[0]] + s[1..] == s;
    }
  }

  /** Every other character keeps its number of occurrences. */
  lemma {:induction false} DeleteKeepsOthers(s: string, c: char, d: char)
    requires d != c
    ensures Count(Delete(s, c), d) == Count(s, d)
  {
    if |s| > 0 {
      DeleteKeepsOthers(s[1..], c, d);
      if s[0] != c {
        assert ([s[0]] + Delete(s[1..], c))[1..] == Delete(s[1..], c);
      }
    }
  }

  // ---------------------------------------------------------------------
  // s.strip()
  // ---------------------------------------------------------------------

  /** The characters Python 2's `str.strip()` removes. */
  predicate IsSpace(c: char)
  {
    c == ' ' || c == '\t' || c == '\n' || c == '\r' || c == '\U{B}' || c == '\U{C}'
  }

  predicate AllSpace(s: string)
  {
    forall i :: 0 <= i < |s| ==> IsSpace(s[i])
  }

  /** `s.lstrip()`: the longest suffix of `s` not starting with whitespace,
      everything cut off being whitespace. */
  function StripLeft(s: string): (r: string)
    ensures |r| <= |s|
    ensures r == s[|s| - |r|..]
    ensures AllSpace(s[..|s| - |r|])
    ensures r == "" || !IsSpace(r[0])
  {
    if |s| == 0 || !IsSpace(s[0]) then s
    else
      var r := StripLeft(s[1..]);
      LeadingSpaceExtends(s, r);
      r
  }

  /** One more whitespace character in front keeps `r` a suffix with only
      whitespace before it. */
  lemma LeadingSpaceExtends(s: string, r: string)
    requires |s| > 0 && IsSpace(s[0])
    requires |r| <= |s| - 1 && r == s[1..][|s| - 1 - |r|..]
    requires AllSpace(s[1..][..|s| - 1 - |r|])
    ensures r == s[|s| - |r|..]
    ensures AllSpace(s[..|s| - |r|])
  {
    var k := |s| - |r|;
    assert s[1..][k - 1..] == s[k..];
    forall i | 0 <= i < k ensures IsSpace(s[..k][i]) {
      if i > 0 {
        assert s[..k][i] == s[1..][..k - 1][i - 1];
      }
    }
  }

  /** One more whitespace character at the back keeps `r` a prefix with only
      whitespace after it. */
  lemma TrailingSpaceExtends(s: string, r: string)
    requires |s| > 0 && IsSpace(s[|s| - 1])
    requires |r| <= |s| - 1 && r == s[..|s| - 1][..|r|]
    requires AllSpace(s[..|s| - 1][|r|..])
    ensures r == s[..|r|]
    ensures AllSpace(s[|r|..])
  {
    forall i | 0 <= i < |s| - |r| ensures IsSpace(s[|r|..][i]) {
      if i < |s| - 1 - |r| {
        assert s[|r|..][i] == s[..|s| - 1][|r|..][i];
      }
    }
  }

  /** `s.rstrip()`: the longest prefix of `s` not ending with whitespace,
      everything cut off being whitespace. */
  function StripRight(s: string): (r: string)
    ensures |r| <= |s|
    ensures r == s[..|r|]
    ensures AllSpace(s[|r|..])
    ensures r == "" || !IsSpace(r[|r| - 1])
  {
    if |s| == 0 || !IsSpace(s[|s| - 1]) then s
    else
      var r := StripRight(s[..|s| - 1]);
      TrailingSpaceExtends(s, r);
      r
  }

  /** `r` is the piece of `s` starting at offset `i`, and everything of `s`
      before and after it is whitespace. */
  predicate Trims(s: string, i: int, r: string)
  {
    0 <= i <= |s| - |r| && r == s[i..i + |r|] && AllSpace(s[..i]) && AllSpace(s[i + |r|..])
  }

  /** Python 2's `s.strip()`: a contiguous piece of `s`, with only whitespace
      cut off on either side and no whitespace left at either end. */
  function Strip(s: string): (r: string)
    ensures |r| <= |s|
    ensures r == "" || (!IsSpace(r[0]) && !IsSpace(r[|r| - 1]))
    ensures exists i :: Trims(s, i, r)
  {
    var l := StripLeft(s);
    var r := StripRight(l);
    TrimsOfSuffixPrefix(s, |s| - |l|, l, r);
    r
  }

  /** Cutting whitespace off the front and then off the back trims. */
  lemma TrimsOfSuffixPrefix(s: string, i: nat, l: string, r: string)
    requires i <= |s| && l == s[i..] && AllSpace(s[..i])
    requires |r| <= |l| && r == l[..|r|] && AllSpace(l[|r|..])
    ensures Trims(s, i, r)
  {
    assert r == s[i..i + |r|];
    assert l[|r|..] == s[i + |r|..];
  }

  /** `s.strip()` is empty exactly when `s` is all whitespace. */
  lemma StripBlankIff(s: string)
    ensures Strip(s) == "" <==> AllSpace(s)
  {
    if Strip(s) == "" {
      var i :| Trims(s, i, Strip(s));
      forall k | 0 <= k < |s| ensures IsSpace(s[k]) {
        if k < i { assert s[..i][k] == s[k]; } else { assert s[i..][k - i] == s[k]; }
      }
    }
  }

  /** Stripping twice strips nothing more. */
  lemma StripIdempotent(s: string)
    ensures Strip(Strip(s)) == Strip(s)
  {
    var t := Strip(s);
    assert StripLeft(t) == t;
    assert StripRight(t) == t;
  }

  // ---------------------------------------------------------------------
  // needle in haystack
  // ---------------------------------------------------------------------

  predicate IsPrefix(n: string, h: string)
  {
    |n| <= |h| && h[..|n|] == n
  }

  /** Python's `n in h` on two strings: `n` occurs somewhere in `h` as a
      contiguous piece. */
  predicate IsSubstring(n: string, h: string)
    ensures n == "" ==> IsSubstring(n, h)
    ensures n == h ==> IsSubstring(n, h)
    ensures IsSubstring(n, h) ==> |n| <= |h|
    decreases |h|
  {
    IsPrefix(n, h) || (|h| > 0 && IsSubstring(n, h[1..]))
  }

  /** `n` sits in `h` at offset `i`. */
  predicate OccursAt(n: string, h: string, i: int)
  {
    0 <= i <= |h| - |n| && h[i..i + |n|] == n
  }

  /** `n in h` holds exactly when `n` sits at some offset of `h`. */
  lemma {:induction false} IsSubstringIff(n: string, h: string)
    ensures IsSubstring(n, h) <==> exists i :: OccursAt(n, h, i)
    decreases |h|
  {
    if IsSubstring(n, h) {
      if IsPrefix(n, h) {
        assert OccursAt(n, h, 0);
      } else {
        IsSubstringIff(n, h[1..]);
        var j :| OccursAt(n, h[1..], j);
        assert h[j + 1..j + 1 + |n|] == h[1..][j..j + |n|];
        assert OccursAt(n, h, j + 1);
      }
    }
    if exists i :: OccursAt(n, h, i) {
      var i :| OccursAt(n, h, i);
      if i > 0 {
        assert h[1..][i - 1..i - 1 + |n|] == h[i..i + |n|];
        assert OccursAt(n, h[1..], i - 1);
        IsSubstringIff(n, h[1..]);
      }
    }
  }
}
