/**
 * `sorted(list(set(xs)))` on a list of strings: the elements of `xs`,
 * each once, in increasing `StringOrder.Less` order.
 */
module SortedUnique {
  import opened StringOrder

  /** Every earlier element sorts strictly before every later one. */
  predicate StrictlySorted(s: seq<string>)
  {
    forall i, j :: 0 <= i < j < |s| ==> Less(s[i], s[j])
  }

  /** `s` holds no element twice. */
  predicate NoDuplicates(s: seq<string>)
  {
    forall i, j :: 0 <= i < j < |s| ==> s[i] != s[j]
  }

  /** Adds `x` to a strictly sorted list, keeping it strictly sorted. */
  function Insert(s: seq<string>, x: string): (r: seq<string>)
    requires StrictlySorted(s)
    ensures StrictlySorted(r)
    ensures forall y :: y in r <==> y in s || y == x
    ensures |r| == if x in s then |s| else |s| + 1
  {
    if s == [] then [x]
    else if x == s[0] then s
    else if Less(x, s[0]) then
      var t := [x] + s;
      forall i, j | 0 <= i < j < |t| ensures Less(t[i], t[j]) {
        assert t[j] == s[j - 1];
        if i == 0 {
          LessTransitive(x, s[0], s[j - 1]);
        } else {
          assert t[i] == s[i - 1];
        }
      }
      assert x !in s by {
        forall j | 0 <= j < |s| ensures s[j] != x {
          LessTransitive(x, s[0], s[j]);
        }
      }
      [x] + s
    else
      var rest := Insert(s[1..], x);
      assert Less(s[0], x) by { LessTotal(x, s[0]); }
      assert x in s[1..] <==> x in s;
      var t := [s[0]] + rest;
      forall i, j | 0 <= i < j < |t| ensures Less(t[i], t[j]) {
        assert t[j] == rest[j - 1] && rest[j - 1] in rest;
        if i == 0 {
          if rest[j - 1] in s[1..] {
            var k :| 0 <= k < |s[1..]| && s[1..][k] == rest[j - 1];
            assert s[k + 1] == rest[j - 1];
          }
        } else {
          assert t[i] == rest[i - 1];
        }
      }
      t
  }

  /** The strictly sorted list of the distinct elements of `s`. */
  function Dedupe(s: seq<string>): (r: seq<string>)
    ensures StrictlySorted(r)
    ensures forall y :: y in r <==> y in s
    ensures |r| <= |s|
  {
    if s == [] then [] else Insert(Dedupe(s[1..]), s[0])
  }

  /** A strictly sorted list, such as `Dedupe`'s result, holds no name twice. */
  lemma StrictlySortedHasNoDuplicates(s: seq<string>)
    requires StrictlySorted(s)
    ensures NoDuplicates(s)
  {
    forall i, j | 0 <= i < j < |s| ensures s[i] != s[j] {
      assert Less(s[i], s[j]);
    }
  }

  /** A strictly sorted list is fixed by its elements: `a` and `b` agree. */
  lemma {:induction false} StrictlySortedUnique(a: seq<string>, b: seq<string>)
    requires StrictlySorted(a) && StrictlySorted(b)
    requires forall y :: y in a <==> y in b
    ensures a == b
  {
    assert a == [] <==> b == [] by {
      assert a != [] ==> a[0] in b;
      assert b != [] ==> b[0] in a;
    }
    if a != [] {
      assert a[0] == b[0] by {
        assert a[0] in a && b[0] in b;
        var i :| 0 <= i < |a| && a[i] == b[0];
        var j :| 0 <= j < |b| && b[j] == a[0];
        assert i == 0 || Less(a[0], b[0]);
        assert j == 0 || Less(b[0], a[0]);
        LessAsymmetric(a[0], b[0]);
      }
      forall y ensures y in a[1..] <==> y in b[1..] {
        TailElements(a, y);
        TailElements(b, y);
      }
      StrictlySortedUnique(a[1..], b[1..]);
    }
  }

  /** Dropping the head of a strictly sorted list removes exactly that one name. */
  lemma TailElements(s: seq<string>, y: string)
    requires StrictlySorted(s) && s != []
    ensures y in s[1..] <==> y in s && y != s[0]
  {
    if y in s[1..] {
      var j :| 1 <= j < |s| && s[j] == y;
      assert Less(s[0], s[j]);
    }
  }

  /**
   * `Dedupe(s)` is the one list that is strictly sorted and holds exactly
   * the elements of `s`.
   */
  lemma DedupeIsUniqueSortedForm(s: seq<string>, r: seq<string>)
    requires StrictlySorted(r)
    requires forall y :: y in r <==> y in s
    ensures r == Dedupe(s)
  {
    StrictlySortedUnique(r, Dedupe(s));
  }

  lemma {:induction false} DedupeOfSorted(s: seq<string>)
    requires StrictlySorted(s)
    ensures Dedupe(s) == s
  {
    StrictlySortedUnique(s, Dedupe(s));
  }
}
