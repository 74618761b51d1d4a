/**
 * The order of strings, character by character: the order of peer ids in a query, and, for peer ids, whose
 * characters are ASCII, also the order by which nodes break ties.
 */
module Strings {

  /** Lexicographic order. */
  predicate Less(a: string, b: string) {
    if b == "" then false
    else if a == "" then true
    else a[0] < b[0] || (a[0] == b[0] && Less(a[1..], b[1..]))
  }

  lemma {:induction false} LessTotal(a: string, b: string)
    ensures a == b || Less(a, b) || Less(b, a)
    ensures !(Less(a, b) && Less(b, a)) && !Less(a, a)
    decreases |a|
  {
    if a != "" && b != "" {
      LessTotal(a[1..], b[1..]);
      if a[1..] == b[1..] && a[0] == b[0] { assert a == [a[0]] + a[1..] == b; }
    }
    if a != "" { LessTotal(a[1..], a[1..]); }
  }

  /** One string is less iff it ends before, or is smaller at, the first place where the two differ. */
  lemma {:induction false} LessExactly(a: string, b: string)
    ensures Less(a, b) <==> exists k :: DiffersAt(a, b, k)
    decreases |a|
  {
    if a == "" {
      assert b != "" ==> DiffersAt(a, b, 0);
    } else if b != "" {
      LessExactly(a[1..], b[1..]);
      if a[0] < b[0] {
        assert DiffersAt(a, b, 0);
      } else if a[0] == b[0] {
        if Less(a[1..], b[1..]) {
          var k: nat :| DiffersAt(a[1..], b[1..], k);
          DiffersNext(a, b, k);
        }
        if exists k: nat :: DiffersAt(a, b, k) {
          var k: nat :| DiffersAt(a, b, k);
          DiffersNext(a, b, k - 1);
        }
      }
    }
  }

  lemma DiffersNext(a: string, b: string, k: nat)
    requires a != "" && b != "" && a[0] == b[0]
    ensures DiffersAt(a[1..], b[1..], k) <==> DiffersAt(a, b, k + 1)
  {
    if DiffersAt(a[1..], b[1..], k) {
      forall i | 0 <= i < k + 1
        ensures a[i] == b[i]
      {
        if i > 0 { assert a[1..][i - 1] == b[1..][i - 1]; }
      }
    }
    if DiffersAt(a, b, k + 1) {
      forall i | 0 <= i < k
        ensures a[1..][i] == b[1..][i]
      {
        assert a[i + 1] == b[i + 1];
      }
    }
  }

  /** The first `k` characters agree, and then `a` ends or has the smaller one. */
  predicate DiffersAt(a: string, b: string, k: nat) {
    && k <= |a| && k < |b| && (forall i | 0 <= i < k :: a[i] == b[i])
    && (k == |a| || a[k] < b[k])
  }

  lemma {:induction false} LessTransitive(a: string, b: string, c: string)
    requires Less(a, b) && Less(b, c)
    ensures Less(a, c)
    decreases |a|
  {
    if a != "" && a[0] == b[0] && b[0] == c[0] { LessTransitive(a[1..], b[1..], c[1..]); }
  }
}
