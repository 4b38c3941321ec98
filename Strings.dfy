/** The two operations of Python's `str` that the policy form applies to its
    text fields, on Dafny strings (`seq<char>`): `replace` with a
    one-character pattern, and `lstrip` with a one-character set. */
module Strings {

  /** Number of occurrences of `c` in `s`. */
  function Count(s: string, c: char): (n: nat)
    ensures n <= |s|
    ensures n == 0 <==> c !in s
  {
    if s == [] then 0
    else (if s[0] == c then 1 else 0) + Count(s[1..], c)
  }

  /** `s.replace(c, rep)`: every occurrence of the character `c`, scanned left
      to right, is replaced by `rep`; every other character is kept in order. */
  function ReplaceChar(s: string, c: char, rep: string): (r: string)
    ensures c !in rep ==> c !in r
    ensures c !in s ==> r == s
  {
    if s == [] then []
    else (if s[0] == c then rep else [s[0]]) + ReplaceChar(s[1..], c, rep)
  }

  /** Each occurrence of `c` turns into the `|rep|` characters of `rep`. */
  lemma {:induction false} ReplaceCharLength(s: string, c: char, rep: string)
    ensures |ReplaceChar(s, c, rep)| == |s| + Count(s, c) * (|rep| - 1)
  {
    if s != [] {
      ReplaceCharLength(s[1..], c, rep);
      var n, k := Count(s[1..], c), |rep| - 1;
      var rest := ReplaceChar(s[1..], c, rep);
      if s[0] == c {
        calc {
          |ReplaceChar(s, c, rep)|;
          { assert ReplaceChar(s, c, rep) == rep + rest; }
          |rep| + |rest|;
          |s| + n * k + k;
          { OneMore(n, k); }
          |s| + (n + 1) * k;
          { assert Count(s, c) == n + 1; }
          |s| + Count(s, c) * k;
        }
      } else {
        calc {
          |ReplaceChar(s, c, rep)|;
          { assert ReplaceChar(s, c, rep) == [s[0]] + rest; }
          1 + |rest|;
          |s| + n * k;
          { assert Count(s, c) == n; }
          |s| + Count(s, c) * k;
        }
      }
    }
  }

  /** One more occurrence adds one more `k`. */
  lemma OneMore(n: int, k: int)
    ensures (n + 1) * k == n * k + k
  {
  }

  /** Replacing distributes over concatenation: each character is rewritten on
      its own, so nothing is dropped, duplicated or reordered across a cut. */
  lemma {:induction false} ReplaceCharConcat(a: string, b: string, c: char, rep: string)
    ensures ReplaceChar(a + b, c, rep) == ReplaceChar(a, c, rep) + ReplaceChar(b, c, rep)
  {
    if a == [] {
      assert a + b == b;
    } else {
      assert (a + b)[0] == a[0];
      assert (a + b)[1..] == a[1..] + b;
      ReplaceCharConcat(a[1..], b, c, rep);
    }
  }

  /** Replacing brings in no character other than those of `rep`. */
  lemma {:induction false} ReplaceCharAdds(s: string, c: char, rep: string, d: char)
    requires d !in s && d !in rep
    ensures d !in ReplaceChar(s, c, rep)
  {
    if s != [] {
      ReplaceCharAdds(s[1..], c, rep, d);
    }
  }

  /** Replacing inside a string rewrites the middle part on its own. */
  lemma ReplaceCharSplice(before: string, mid: string, after: string, c: char, rep: string)
    ensures ReplaceChar(before + mid + after, c, rep)
         == ReplaceChar(before, c, rep) + ReplaceChar(mid, c, rep) + ReplaceChar(after, c, rep)
  {
    ReplaceCharConcat(before, mid, c, rep);
    ReplaceCharConcat(before + mid, after, c, rep);
  }

  /** Inside any string, one character is rewritten on its own: `c` becomes
      exactly `rep`, any other character stays as it is. */
  lemma ReplaceCharAt(before: string, x: char, after: string, c: char, rep: string)
    ensures ReplaceChar(before + [x] + after, c, rep)
         == ReplaceChar(before, c, rep) + (if x == c then rep else [x]) + ReplaceChar(after, c, rep)
  {
    ReplaceCharSplice(before, [x], after, c, rep);
    assert [x][1..] == [];
  }

  /** `s.lstrip(c)`: the longest prefix made only of `c` is removed. */
  function TrimLeading(s: string, c: char): (r: string)
    ensures |r| <= |s|
    ensures r == s[|s| - |r|..]
    ensures forall i :: 0 <= i < |s| - |r| ==> s[i] == c
    ensures r == [] || r[0] != c
  {
    if s != [] && s[0] == c then TrimLeading(s[1..], c) else s
  }

  /** Trimming removes exactly a leading run of `c` in front of a string
      that does not start with `c`. */
  lemma {:induction false} TrimLeadingRun(run: string, s: string, c: char)
    requires forall i :: 0 <= i < |run| ==> run[i] == c
    requires s == [] || s[0] != c
    ensures TrimLeading(run + s, c) == s
  {
    if run == [] {
      assert run + s == s;
    } else {
      assert (run + s)[0] == c;
      assert (run + s)[1..] == run[1..] + s;
      TrimLeadingRun(run[1..], s, c);
    }
  }
}
