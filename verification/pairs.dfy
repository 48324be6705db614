/** Counting unordered pairs of node ids: the facts behind "a fresh pair still exists". */
module Pairs {

  /** The ordered pair listing the smaller component first: one name per unordered pair. */
  function Canon(p: (int, int)): (q: (int, int))
    ensures q.0 <= q.1
    ensures q == p || q == (p.1, p.0)
  {
    if p.0 <= p.1 then p else (p.1, p.0)
  }

  function CanonSet(s: set<(int, int)>): set<(int, int)>
  {
    set p | p in s :: Canon(p)
  }

  /** Every unordered pair of distinct node ids 1..n, each named once. */
  function AllPairs(n: int): set<(int, int)>
  {
    set a, b | 1 <= a < b <= n :: (a, b)
  }

  /** The pairs (a, m) with 1 <= a < k. */
  function Column(k: int, m: int): set<(int, int)>
  {
    set a | 1 <= a < k :: (a, m)
  }

  lemma {:induction false} ColumnCount(k: nat, m: int)
    requires k >= 1
    ensures |Column(k, m)| == k - 1
  {
    if k == 1 {
      assert Column(k, m) == {};
    } else {
      ColumnCount(k - 1, m);
      assert Column(k, m) == Column(k - 1, m) + {(k - 1, m)};
    }
  }

  /** There are n(n-1)/2 unordered pairs of distinct nodes among 1..n. */
  lemma {:induction false} AllPairsCount(n: nat)
    ensures 2 * |AllPairs(n)| == n * (n - 1)
  {
    if n == 0 {
      assert AllPairs(n) == {};
    } else {
      AllPairsCount(n - 1);
      ColumnCount(n, n);
      assert AllPairs(n) == AllPairs(n - 1) + Column(n, n) by {
        forall p | p in AllPairs(n)
          ensures p in AllPairs(n - 1) + Column(n, n)
        {
          if p.1 < n {
            assert p in AllPairs(n - 1);
          } else {
            assert p in Column(n, n);
          }
        }
      }
      assert AllPairs(n - 1) !! Column(n, n);
    }
  }

  /** Naming pairs canonically loses nothing when no two members of `s` name the same unordered pair. */
  lemma {:induction false} CanonSetCount(s: set<(int, int)>)
    requires forall p, q :: p in s && q in s && Canon(p) == Canon(q) ==> p == q
    ensures |CanonSet(s)| == |s|
    decreases |s|
  {
    if s != {} {
      var p :| p in s;
      var rest := s - {p};
      CanonSetCount(rest);
      assert CanonSet(s) == CanonSet(rest) + {Canon(p)};
      assert Canon(p) !in CanonSet(rest);
    }
  }
}
