/** The JavaScript string operations the dashboard relies on, over
    `seq<char>`. Case mapping is restricted to ASCII letters: the model
    does not reproduce Unicode case tables. */
module Text {

  function LowerChar(c: char): char
  {
    if 'A' <= c <= 'Z' then (c as int + 32) as char else c
  }

  function UpperChar(c: char): char
  {
    if 'a' <= c <= 'z' then (c as int - 32) as char else c
  }

  /** `s.toLowerCase()` (ASCII). */
  function Lower(s: string): (r: string)
    ensures |r| == |s|
    ensures forall i :: 0 <= i < |s| ==> r[i] == LowerChar(s[i])
  {
    seq(|s|, i requires 0 <= i < |s| => LowerChar(s[i]))
  }

  /** `s.toUpperCase()` (ASCII). */
  function Upper(s: string): (r: string)
    ensures |r| == |s|
    ensures forall i :: 0 <= i < |s| ==> r[i] == UpperChar(s[i])
  {
    seq(|s|, i requires 0 <= i < |s| => UpperChar(s[i]))
  }

  /** `s.substring(0, n)`: the first `n` characters, or all of `s` when it
      is shorter. */
  function Take(s: string, n: nat): string
  {
    if |s| <= n then s else s[..n]
  }

  /** `name.substring(0, 2).toUpperCase()`: the avatar initials, the
      upper-cased first two characters, or the whole name when shorter. */
  function Initials(name: string): (a: string)
    ensures |a| == if |name| < 2 then |name| else 2
    ensures forall i :: 0 <= i < |a| ==> a[i] == UpperChar(name[i])
  {
    Upper(Take(name, 2))
  }

  predicate IsPrefix(p: string, s: string)
  {
    |p| <= |s| && s[..|p|] == p
  }

  /** `s.includes(sub)`: `sub` occurs in `s` as a contiguous block. */
  predicate Contains(s: string, sub: string)
    decreases |s|
  {
    IsPrefix(sub, s) || (|s| > 0 && Contains(s[1..], sub))
  }

  /** `sub` occurs in `s` starting at position `i`. */
  predicate OccursAt(s: string, sub: string, i: int)
  {
    0 <= i <= |s| - |sub| && s[i..i + |sub|] == sub
  }

  /** `Contains` agrees with the positional definition of an occurrence. */
  lemma {:induction false} ContainsIffOccurs(s: string, sub: string)
    ensures Contains(s, sub) <==> exists i :: OccursAt(s, sub, i)
    decreases |s|
  {
    if IsPrefix(sub, s) {
      assert OccursAt(s, sub, 0);
    }
    if |s| > 0 {
      ContainsIffOccurs(s[1..], sub);
      if Contains(s[1..], sub) {
        var i :| OccursAt(s[1..], sub, i);
        assert s[1..][i..i + |sub|] == s[i + 1..i + 1 + |sub|];
        assert OccursAt(s, sub, i + 1);
      }
      if exists i :: OccursAt(s, sub, i) {
        var i :| OccursAt(s, sub, i);
        if i > 0 {
          assert s[1..][i - 1..i - 1 + |sub|] == s[i..i + |sub|];
          assert OccursAt(s[1..], sub, i - 1);
        } else {
          assert IsPrefix(sub, s);
        }
      }
    } else if exists i :: OccursAt(s, sub, i) {
      var i :| OccursAt(s, sub, i);
      assert IsPrefix(sub, s);
    }
  }

  /** The empty string occurs in every string, so an empty search term
      matches everything. */
  lemma EmptyOccursEverywhere(s: string)
    ensures Contains(s, "")
  {
  }

  /** Both halves of a concatenation occur in it. */
  lemma ContainsParts(a: string, b: string)
    ensures Contains(a + b, a)
    ensures Contains(a + b, b)
  {
    ContainsIffOccurs(a + b, a);
    assert OccursAt(a + b, a, 0);
    ContainsIffOccurs(a + b, b);
    assert OccursAt(a + b, b, |a|);
  }

  /** An occurrence in a part is an occurrence in the whole. */
  lemma ContainsInSuffix(a: string, b: string, sub: string)
    requires Contains(b, sub)
    ensures Contains(a + b, sub)
  {
    ContainsIffOccurs(b, sub);
    var i :| OccursAt(b, sub, i);
    assert (a + b)[|a| + i..|a| + i + |sub|] == b[i..i + |sub|];
    assert OccursAt(a + b, sub, |a| + i);
    ContainsIffOccurs(a + b, sub);
  }

  lemma ContainsInPrefix(a: string, b: string, sub: string)
    requires Contains(a, sub)
    ensures Contains(a + b, sub)
  {
    ContainsIffOccurs(a, sub);
    var i :| OccursAt(a, sub, i);
    assert (a + b)[i..i + |sub|] == a[i..i + |sub|];
    assert OccursAt(a + b, sub, i);
    ContainsIffOccurs(a + b, sub);
  }

  /** JavaScript's `a < b` on strings: lexicographic by character code, a
      proper prefix being smaller. */
  predicate Less(a: string, b: string)
    decreases |a|
  {
    if |a| == 0 then |b| > 0
    else if |b| == 0 then false
    else if a[0] != b[0] then a[0] < b[0]
    else Less(a[1..], b[1..])
  }

  lemma {:induction false} LessIrreflexive(a: string)
    ensures !Less(a, a)
    decreases |a|
  {
    if |a| > 0 {
      LessIrreflexive(a[1..]);
    }
  }

  lemma {:induction false} LessTransitive(a: string, b: string, c: string)
    requires Less(a, b) && Less(b, c)
    ensures Less(a, c)
    decreases |a|
  {
    if |a| > 0 && |b| > 0 && |c| > 0 && a[0] == b[0] && b[0] == c[0] {
      LessTransitive(a[1..], b[1..], c[1..]);
    }
  }

  lemma {:induction false} LessConnected(a: string, b: string)
    requires a != b
    ensures Less(a, b) || Less(b, a)
    decreases |a|
  {
    if |a| > 0 && |b| > 0 && a[0] == b[0] {
      assert a == [a[0]] + a[1..] && b == [b[0]] + b[1..];
      LessConnected(a[1..], b[1..]);
    }
  }

  /** `s.padStart(width, fill)` for a one-character `fill`. */
  function PadStart(s: string, width: nat, fill: char): (r: string)
    ensures |r| == if |s| >= width then |s| else width
    ensures r[|r| - |s|..] == s
    ensures forall i :: 0 <= i < |r| - |s| ==> r[i] == fill
  {
    if |s| >= width then s else seq(width - |s|, _ => fill) + s
  }

  /** `xs.join(sep)`. */
  function Join(xs: seq<string>, sep: string): string
  {
    if |xs| == 0 then ""
    else if |xs| == 1 then xs[0]
    else xs[0] + sep + Join(xs[1..], sep)
  }

  /** Every joined part occurs in the joined text. */
  lemma {:induction false} JoinContainsEachPart(xs: seq<string>, sep: string, i: nat)
    requires i < |xs|
    ensures Contains(Join(xs, sep), xs[i])
  {
    if |xs| == 1 {
      ContainsParts(xs[0], "");
      assert xs[0] + "" == xs[0];
    } else if i == 0 {
      ContainsParts(xs[0], sep + Join(xs[1..], sep));
      assert xs[0] + sep + Join(xs[1..], sep) == xs[0] + (sep + Join(xs[1..], sep));
    } else {
      JoinContainsEachPart(xs[1..], sep, i - 1);
      ContainsInSuffix(xs[0] + sep, Join(xs[1..], sep), xs[i]);
    }
  }

  /** Position of the first `c` in `s`, or -1: `s.indexOf(c)`. */
  function IndexOf(s: string, c: char): (i: int)
    ensures -1 <= i
    ensures i == -1 <==> c !in s
    ensures 0 <= i ==> i < |s| && s[i] == c && c !in s[..i]
  {
    if |s| == 0 then -1
    else if s[0] == c then 0
    else
      var j := IndexOf(s[1..], c);
      assert s[1..][..if j < 0 then 0 else j] == s[1..if j < 0 then 1 else j + 1];
      if j < 0 then -1 else j + 1
  }

  /** `s.replace(c, '')` with a one-character string pattern: only the
      first occurrence of `c` is removed. */
  function RemoveFirst(s: string, c: char): (r: string)
    ensures c !in s ==> r == s
    ensures c in s ==> multiset(r) == multiset(s) - multiset{c}
    ensures c in s ==> var i := IndexOf(s, c); r == s[..i] + s[i + 1..]
  {
    var i := IndexOf(s, c);
    if i < 0 then s
    else
      assert s == s[..i] + [s[i]] + s[i + 1..];
      s[..i] + s[i + 1..]
  }
}
