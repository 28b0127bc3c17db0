/**
 * Python's `str.replace(old, new)` for a one-character `old`, the only
 * form normality/__init__.py uses (`text.replace(' ', sep)` in `slugify`).
 */
module StrReplace {

  /** Number of occurrences of `c` in `s` (Python's `s.count(c)`). */
  function Occurrences(s: string, c: char): (n: nat)
    ensures n <= |s|
    ensures n == 0 <==> c !in s
  {
    if s == [] then 0 else (if s[0] == c then 1 else 0) + Occurrences(s[1..], c)
  }

  /**
   * Every occurrence of `c` in `s` replaced by `rep`, scanning left to right;
   * every other character is copied.
   */
  function ReplaceChar(s: string, c: char, rep: string): (r: string)
    ensures |r| == |s| + Occurrences(s, c) * (|rep| - 1)
    ensures forall x :: x in r ==> x in rep || (x in s && x != c)
    ensures forall x :: x in s && x != c ==> x in r
    ensures c in s ==> forall x :: x in rep ==> x in r
  {
    if s == [] then []
    else
      var head := if s[0] == c then rep else [s[0]];
      var tail := ReplaceChar(s[1..], c, rep);
      var grow, rest := |rep| - 1, Occurrences(s[1..], c);
      assert Occurrences(s, c) * grow == (if s[0] == c then grow else 0) + rest * grow by {
        if s[0] == c {
          assert (1 + rest) * grow == grow + rest * grow;
        }
      }
      assert s == [s[0]] + s[1..];
      assert forall x :: x in head + tail <==> x in head || x in tail;
      head + tail
  }

  /** Replacement works piecewise: it distributes over concatenation. */
  lemma {:induction false} ReplaceAppend(a: string, b: string, c: char, rep: string)
    ensures ReplaceChar(a + b, c, rep) == ReplaceChar(a, c, rep) + ReplaceChar(b, c, rep)
  {
    if a == [] {
      assert a + b == b;
    } else {
      assert (a + b)[1..] == a[1..] + b;
      ReplaceAppend(a[1..], b, c, rep);
    }
  }

  /**
   * With a one-character replacement the length is kept, and position `i`
   * of the result is `rep[0]` where `s[i]` was `c`, and `s[i]` otherwise.
   */
  lemma {:induction false} ReplaceOneForOne(s: string, c: char, rep: string)
    requires |rep| == 1
    ensures |ReplaceChar(s, c, rep)| == |s|
    ensures forall i :: 0 <= i < |s| ==>
      ReplaceChar(s, c, rep)[i] == if s[i] == c then rep[0] else s[i]
  {
    if s != [] {
      ReplaceOneForOne(s[1..], c, rep);
      var r := ReplaceChar(s, c, rep);
      forall i | 0 <= i < |s|
        ensures r[i] == if s[i] == c then rep[0] else s[i]
      {
        if i > 0 {
          assert r[i] == ReplaceChar(s[1..], c, rep)[i - 1];
        }
      }
    }
  }

  /**
   * A character other than `c` is copied: `s[i]` lands at `i` shifted by
   * the growth `|rep| - 1` of every `c` before it.
   */
  lemma {:induction false} ReplaceKeepsOthersAt(s: string, c: char, rep: string, i: int)
    requires 0 <= i < |s| && s[i] != c
    ensures 0 <= i + Occurrences(s[..i], c) * (|rep| - 1) < |ReplaceChar(s, c, rep)|
    ensures ReplaceChar(s, c, rep)[i + Occurrences(s[..i], c) * (|rep| - 1)] == s[i]
  {
    assert s == s[..i] + s[i..];
    ReplaceAppend(s[..i], s[i..], c, rep);
    var prefix := ReplaceChar(s[..i], c, rep);
    assert |prefix| == i + Occurrences(s[..i], c) * (|rep| - 1);
    assert ReplaceChar(s[i..], c, rep) == [s[i]] + ReplaceChar(s[i + 1..], c, rep) by {
      assert s[i..][0] == s[i] && s[i..][1..] == s[i + 1..];
    }
  }

  /** Text without `c` is left as it is. */
  lemma {:induction false} ReplaceAbsent(s: string, c: char, rep: string)
    requires c !in s
    ensures ReplaceChar(s, c, rep) == s
  {
    if s != [] {
      assert s == [s[0]] + s[1..];
      ReplaceAbsent(s[1..], c, rep);
    }
  }

  /** Replacing `c` by itself is the identity. */
  lemma {:induction false} ReplaceWithItself(s: string, c: char)
    ensures ReplaceChar(s, c, [c]) == s
  {
    if s != [] {
      assert s == [s[0]] + s[1..];
      ReplaceWithItself(s[1..], c);
    }
  }

  /**
   * Replacing `c` by a character `d` that `s` does not contain loses
   * nothing: replacing `d` back by `c` restores `s`.
   */
  lemma {:induction false} ReplaceRoundTrip(s: string, c: char, d: char)
    requires d !in s
    ensures ReplaceChar(ReplaceChar(s, c, [d]), d, [c]) == s
  {
    if s != [] {
      var head := if s[0] == c then [d] else [s[0]];
      var tail := ReplaceChar(s[1..], c, [d]);
      assert ReplaceChar(s, c, [d]) == head + tail;
      ReplaceAppend(head, tail, d, [c]);
      ReplaceRoundTrip(s[1..], c, d);
      assert ReplaceChar(head, d, [c]) == [s[0]] by {
        assert head[1..] == [];
        assert s[0] != d;
      }
      assert s == [s[0]] + s[1..];
    }
  }
}
