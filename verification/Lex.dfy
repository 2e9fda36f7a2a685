/** Lexicographic order on tuples of equal length, and what it means for a
    generator to enumerate a family of tuples completely and in order. */
module Lex {

  type Tuple = seq<int>

  predicate Less(a: Tuple, b: Tuple)
    requires |a| == |b|
  {
    a != [] && (a[0] < b[0] || (a[0] == b[0] && Less(a[1..], b[1..])))
  }

  /** out lists every k-tuple satisfying valid, nothing else, in strictly
      increasing lexicographic order (hence each exactly once). */
  ghost predicate Enumerates(out: seq<Tuple>, k: nat, valid: Tuple -> bool) {
    && (forall i | 0 <= i < |out| :: |out[i]| == k && valid(out[i]))
    && (forall i, j | 0 <= i < j < |out| :: Less(out[i], out[j]))
    && (forall t: Tuple | |t| == k && valid(t) :: t in out)
  }

  lemma {:induction false} Trichotomy(a: Tuple, b: Tuple)
    requires |a| == |b|
    ensures Less(a, b) || a == b || Less(b, a)
    ensures !(Less(a, b) && Less(b, a)) && (a == b ==> !Less(a, b))
  {
    if a != [] {
      Trichotomy(a[1..], b[1..]);
      assert a == [a[0]] + a[1..] && b == [b[0]] + b[1..];
    }
  }

  /** rank numbers the valid tuples below total, in order. */
  ghost predicate RanksInOrder(k: nat, valid: Tuple -> bool, rank: Tuple -> int, total: nat) {
    && (forall t: Tuple | |t| == k && valid(t) :: 0 <= rank(t) < total)
    && (forall s: Tuple, t: Tuple | |s| == k && |t| == k && valid(s) && valid(t) && Less(s, t) :: rank(s) < rank(t))
  }

  /** A run whose i-th item has rank i, for every i below total, enumerates. */
  lemma {:induction false} RankedRunEnumerates(out: seq<Tuple>, k: nat, valid: Tuple -> bool, rank: Tuple -> int)
    requires RanksInOrder(k, valid, rank, |out|)
    requires forall i | 0 <= i < |out| :: |out[i]| == k && valid(out[i]) && rank(out[i]) == i
    ensures Enumerates(out, k, valid)
  {
    forall i, j | 0 <= i < j < |out|
      ensures Less(out[i], out[j])
    {
      Trichotomy(out[i], out[j]);
    }
    forall t: Tuple | |t| == k && valid(t)
      ensures t in out
    {
      Trichotomy(t, out[rank(t)]);
    }
  }

  /** Two lists that enumerate the same family are the same list. */
  lemma {:induction false} EnumerationUnique(a: seq<Tuple>, b: seq<Tuple>, k: nat, valid: Tuple -> bool)
    requires Enumerates(a, k, valid) && Enumerates(b, k, valid)
    ensures a == b
  {
    EnumerationPrefix(a, b, k, valid, |a|);
    EnumerationPrefix(b, a, k, valid, |b|);
  }

  lemma {:induction false} EnumerationPrefix(a: seq<Tuple>, b: seq<Tuple>, k: nat, valid: Tuple -> bool, m: nat)
    requires Enumerates(a, k, valid) && Enumerates(b, k, valid) && m <= |a|
    ensures m <= |b| && a[..m] == b[..m]
  {
    if m > 0 {
      EnumerationPrefix(a, b, k, valid, m - 1);
      var i: nat := m - 1;
      assert a[i] in b;
      var j :| 0 <= j < |b| && b[j] == a[i];
      if j < i {
        assert a[j] == a[..i][j] == b[..i][j] == b[j];
        Trichotomy(a[j], a[i]);
        assert false;
      }
      assert b[i] in a;
      var h :| 0 <= h < |a| && a[h] == b[i];
      if h < i {
        assert b[h] == b[..i][h] == a[..i][h] == a[h];
        Trichotomy(b[h], b[i]);
        assert false;
      }
      Trichotomy(a[i], b[i]);
      assert a[..m] == a[..i] + [a[i]] && b[..m] == b[..i] + [b[i]];
    }
  }
}
