/**
 * The order Python's `sorted` uses on `str` values: lexicographic
 * comparison character by character (by code point), where a proper
 * prefix sorts before any of its extensions.
 */
module StringOrder {

  /** `a` sorts strictly before `b`; no string sorts before itself. */
  predicate Less(a: string, b: string)
    ensures Less(a, b) ==> a != b
    decreases |a|
  {
    if |a| == 0 then |b| > 0
    else if |b| == 0 then false
    else a[0] < b[0] || (a[0] == b[0] && Less(a[1..], b[1..]))
  }

  /**
   * The textbook reading of the same order: `a` and `b` agree on their
   * first `k` characters, and then either `a` has ended while `b` has not,
   * or `a`'s next character is smaller.
   */
  predicate LessAt(a: string, b: string, k: nat)
  {
    k <= |a| && k < |b| && a[..k] == b[..k] && (k == |a| || a[k] < b[k])
  }

  /** The length of the longest common prefix of `a` and `b`. */
  function CommonPrefix(a: string, b: string): (k: nat)
    ensures k <= |a| && k <= |b|
    ensures a[..k] == b[..k]
    ensures k < |a| && k < |b| ==> a[k] != b[k]
    decreases |a|
  {
    if |a| == 0 || |b| == 0 || a[0] != b[0] then 0
    else
      var k := CommonPrefix(a[1..], b[1..]);
      assert a[..k + 1] == [a[0]] + a[1..][..k];
      assert b[..k + 1] == [b[0]] + b[1..][..k];
      k + 1
  }

  lemma {:induction false} LessIsLessAtCommonPrefix(a: string, b: string)
    ensures Less(a, b) <==> LessAt(a, b, CommonPrefix(a, b))
    decreases |a|
  {
    if |a| != 0 && |b| != 0 && a[0] == b[0] {
      LessIsLessAtCommonPrefix(a[1..], b[1..]);
      var k := CommonPrefix(a[1..], b[1..]);
      assert a[..k + 1] == [a[0]] + a[1..][..k];
      assert b[..k + 1] == [b[0]] + b[1..][..k];
    }
  }

  /** `Less` holds exactly when `a` and `b` first differ in `a`'s favour. */
  lemma LessCharacterised(a: string, b: string, k: nat)
    requires k <= |a| && k <= |b| && a[..k] == b[..k]
    requires k < |a| && k < |b| ==> a[k] != b[k]
    ensures Less(a, b) <==> LessAt(a, b, k)
  {
    LessIsLessAtCommonPrefix(a, b);
    CommonPrefixUnique(a, b, k);
  }

  /** Any prefix length after which `a` and `b` stop agreeing is `CommonPrefix(a, b)`. */
  lemma {:induction false} CommonPrefixUnique(a: string, b: string, k: nat)
    requires k <= |a| && k <= |b| && a[..k] == b[..k]
    requires k < |a| && k < |b| ==> a[k] != b[k]
    ensures k == CommonPrefix(a, b)
    decreases |a|
  {
    if k > 0 {
      assert a[0] == a[..k][0] == b[..k][0] == b[0];
      assert a[1..][..k - 1] == a[..k][1..] == b[..k][1..] == b[1..][..k - 1];
      CommonPrefixUnique(a[1..], b[1..], k - 1);
    } else if |a| > 0 && |b| > 0 {
      assert a[0] != b[0];
    }
  }

  lemma {:induction false} LessAsymmetric(a: string, b: string)
    ensures Less(a, b) ==> !Less(b, a)
    decreases |a|
  {
    if |a| > 0 && |b| > 0 {
      LessAsymmetric(a[1..], b[1..]);
    }
  }

  lemma {:induction false} LessTransitive(a: string, b: string, c: string)
    ensures Less(a, b) && Less(b, c) ==> Less(a, c)
    decreases |a|
  {
    if |a| > 0 && |b| > 0 && |c| > 0 {
      LessTransitive(a[1..], b[1..], c[1..]);
    }
  }

  lemma {:induction false} LessTotal(a: string, b: string)
    ensures a == b || Less(a, b) || Less(b, a)
    decreases |a|
  {
    if |a| > 0 && |b| > 0 && a[0] == b[0] {
      LessTotal(a[1..], b[1..]);
      if a[1..] == b[1..] {
        assert a == [a[0]] + a[1..] && b == [b[0]] + b[1..];
      }
    }
  }
}
