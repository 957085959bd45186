/** Byte strings as the engine compares them: the `strcmp` order used by the
    sorter, the `std::string` order used by the search (the same order), the
    ASCII case folding of `::tolower`, and `substr(0, n)`. A C string is
    modelled by its characters up to (not including) its NUL terminator. */
module Strings {

  /** `strcmp(a, b) < 0`: lexicographic order on unsigned bytes, where a proper
      prefix sorts before the longer string (its NUL is the smallest byte). */
  predicate Less(a: string, b: string)
  {
    if b == [] then false
    else if a == [] then true
    else if a[0] != b[0] then a[0] < b[0]
    else Less(a[1..], b[1..])
  }

  /** `strcmp(a, b) <= 0`: `a` does not sort after `b`. */
  predicate LessEq(a: string, b: string)
  {
    !Less(b, a)
  }

  lemma {:induction false} LessIrreflexive(a: string)
    ensures !Less(a, a)
  {
    if a != [] {
      LessIrreflexive(a[1..]);
    }
  }

  lemma {:induction false} LessTransitive(a: string, b: string, c: string)
    requires Less(a, b) && Less(b, c)
    ensures Less(a, c)
  {
    if a != [] && a[0] == b[0] && b[0] == c[0] {
      LessTransitive(a[1..], b[1..], c[1..]);
    }
  }

  /** Two different strings are always ordered one way or the other. */
  lemma {:induction false} LessTotal(a: string, b: string)
    requires a != b
    ensures Less(a, b) || Less(b, a)
  {
    if a != [] && b != [] && a[0] == b[0] {
      assert a == [a[0]] + a[1..] && b == [b[0]] + b[1..];
      LessTotal(a[1..], b[1..]);
    }
  }

  lemma LessAsymmetric(a: string, b: string)
    requires Less(a, b)
    ensures !Less(b, a)
  {
    if Less(b, a) {
      LessTransitive(a, b, a);
      LessIrreflexive(a);
    }
  }

  /** `LessEq` is the reflexive closure of `Less`. */
  lemma LessEqIff(a: string, b: string)
    ensures LessEq(a, b) <==> Less(a, b) || a == b
  {
    LessIrreflexive(a);
    if a != b {
      LessTotal(a, b);
      if Less(a, b) {
        LessAsymmetric(a, b);
      }
    }
  }

  lemma LessEqTransitive(a: string, b: string, c: string)
    requires LessEq(a, b) && LessEq(b, c)
    ensures LessEq(a, c)
  {
    if Less(c, a) {
      if a == b {
      } else {
        LessTotal(a, b);
        LessTransitive(c, a, b);
      }
    }
  }

  /** `::tolower` restricted to ASCII: only 'A'..'Z' change. */
  function Lower(c: char): (r: char)
    ensures 'A' <= c <= 'Z' ==> r as int == c as int + 32
    ensures !('A' <= c <= 'Z') ==> r == c
  {
    if 'A' <= c <= 'Z' then (c as int + 32) as char else c
  }

  /** `transform(s.begin(), s.end(), s.begin(), ::tolower)`. */
  function LowerStr(s: string): (r: string)
    ensures |r| == |s|
    ensures forall k :: 0 <= k < |s| ==> r[k] == Lower(s[k])
  {
    seq(|s|, k requires 0 <= k < |s| => Lower(s[k]))
  }

  /** Folding leaves no upper-case letter behind, so folding twice is
      folding once. */
  lemma LowerIdempotent(s: string)
    ensures forall k :: 0 <= k < |s| ==> !('A' <= LowerStr(s)[k] <= 'Z')
    ensures LowerStr(LowerStr(s)) == LowerStr(s)
  {
  }

  /** `s.substr(0, n)`: at most the first `n` characters. */
  function Take(s: string, n: nat): (r: string)
    ensures |r| == if |s| <= n then |s| else n
    ensures r == s[..|r|]
  {
    if |s| <= n then s else s[..n]
  }

  /** Truncating both sides to the same length never reverses their order. */
  lemma {:induction false} TakeMonotone(a: string, b: string, n: nat)
    requires LessEq(a, b)
    ensures LessEq(Take(a, n), Take(b, n))
  {
    if Less(Take(b, n), Take(a, n)) {
      TakeLessReflects(b, a, n);
    }
  }

  lemma {:induction false} TakeLessReflects(a: string, b: string, n: nat)
    requires Less(Take(a, n), Take(b, n))
    ensures Less(a, b)
  {
    var ta, tb := Take(a, n), Take(b, n);
    assert tb != [];
    assert n > 0 && b != [];
    if a != [] && a[0] == b[0] {
      assert ta[0] == a[0] && tb[0] == b[0];
      assert ta[1..] == Take(a[1..], n - 1);
      assert tb[1..] == Take(b[1..], n - 1);
      TakeLessReflects(a[1..], b[1..], n - 1);
    }
  }

  /** Lower-casing and truncating commute. */
  lemma LowerTakeCommute(s: string, n: nat)
    ensures LowerStr(Take(s, n)) == Take(LowerStr(s), n)
  {
  }
}
