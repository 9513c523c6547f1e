/** Helpers shared by the builder: the length of the common prefix of two words. */
module Utilities {

  /** Specification: the length of the longest common prefix of `a` and `b`. */
  function Lcp(a: seq<char>, b: seq<char>): nat
  {
    if a == [] || b == [] || a[0] != b[0] then 0 else 1 + Lcp(a[1..], b[1..])
  }

  /** `k` is a common-prefix length of `a` and `b` that cannot be extended. */
  ghost predicate IsLongestCommonPrefix(a: seq<char>, b: seq<char>, k: nat)
  {
    && k <= |a| && k <= |b|
    && a[..k] == b[..k]
    && (k < |a| && k < |b| ==> a[k] != b[k])
  }

  /** `Lcp` is characterised by the three properties: bounded, agreeing, maximal. */
  lemma {:induction false} LcpCharacterised(a: seq<char>, b: seq<char>, k: nat)
    ensures IsLongestCommonPrefix(a, b, k) <==> k == Lcp(a, b)
  {
    if a == [] || b == [] || a[0] != b[0] {
      if a != [] && b != [] && 0 < k <= |a| && k <= |b| {
        assert a[..k][0] == a[0] && b[..k][0] == b[0];
      }
    } else {
      LcpCharacterised(a[1..], b[1..], if k == 0 then 0 else k - 1);
      if 0 < k <= |a| && k <= |b| {
        assert a[1..][..k-1] == a[..k][1..];
        assert b[1..][..k-1] == b[..k][1..];
        if IsLongestCommonPrefix(a[1..], b[1..], k - 1) {
          assert a[..k] == [a[0]] + a[1..][..k-1];
          assert b[..k] == [b[0]] + b[1..][..k-1];
        }
      } else {
        assert !IsLongestCommonPrefix(a, b, 0);
      }
    }
  }

  /** The common prefix does not depend on the order of the operands. */
  lemma {:induction false} LcpSymmetric(a: seq<char>, b: seq<char>)
    ensures Lcp(a, b) == Lcp(b, a)
  {
    if a != [] && b != [] && a[0] == b[0] {
      LcpSymmetric(a[1..], b[1..]);
    }
  }

  /** A word shares all of itself with itself, and nothing with the empty word. */
  lemma {:induction false} LcpSelf(a: seq<char>)
    ensures Lcp(a, a) == |a|
    ensures Lcp(a, []) == 0 && Lcp([], a) == 0
  {
    if a != [] {
      LcpSelf(a[1..]);
    }
  }

  /** utilities::common_prefix: counts the leading positions where `a` and `b` agree,
      stopping at the first mismatch. */
  method CommonPrefix(a: seq<char>, b: seq<char>) returns (prefixIndex: nat)
    ensures prefixIndex <= |a| && prefixIndex <= |b|
    ensures a[..prefixIndex] == b[..prefixIndex]
    ensures prefixIndex < |a| && prefixIndex < |b| ==> a[prefixIndex] != b[prefixIndex]
    ensures prefixIndex == Lcp(a, b)
  {
    prefixIndex := 0;
    var n := if |a| < |b| then |a| else |b|;
    for i := 0 to n
      invariant prefixIndex == i
      invariant a[..i] == b[..i]
    {
      if a[i] != b[i] {
        break;
      }
      prefixIndex := prefixIndex + 1;
      assert a[..i + 1] == a[..i] + [a[i]];
      assert b[..i + 1] == b[..i] + [b[i]];
    }
    LcpCharacterised(a, b, prefixIndex);
  }
}
