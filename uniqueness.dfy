/**
 The uniqueness test of the checker,
 `!(1..n).any(|i| rfids[i..].contains(&rfids[i - 1]))`,
 and its meaning: no value occurs twice in the candidate list.
 */
module Uniqueness {

  /**
   `(i..n).any(|i| c[i..].contains(&c[i - 1]))`: scanning `i` upwards from the
   given start, some element `c[i - 1]` occurs again in the suffix from `i`.
   */
  function RepeatFrom<T(==)>(c: seq<T>, i: nat): (found: bool)
    requires 1 <= i
    ensures found <==> exists j :: i <= j < |c| && c[j - 1] in c[j..]
    decreases |c| - i
  {
    if i >= |c| then false
    else c[i - 1] in c[i..] || RepeatFrom(c, i + 1)
  }

  /** The source's uniqueness test over the whole list (range `1..n`). */
  function SuffixCheckUnique<T(==)>(c: seq<T>): (unique: bool)
    ensures unique <==> forall j :: 1 <= j < |c| ==> c[j - 1] !in c[j..]
    ensures |c| <= 1 ==> unique
  {
    !RepeatFrom(c, 1)
  }

  /** All elements are pairwise distinct. */
  ghost predicate Distinct<T>(c: seq<T>)
  {
    forall i, j :: 0 <= i < j < |c| ==> c[i] != c[j]
  }

  /** Some value occurs at two different positions. */
  ghost predicate HasDuplicate<T>(c: seq<T>)
  {
    exists i, j :: 0 <= i < j < |c| && c[i] == c[j]
  }

  /**
   The scan from `i` finds a repeat exactly when two equal elements sit at
   positions `j < k` with `j >= i - 1`.
   */
  lemma {:induction false} RepeatFromIff<T>(c: seq<T>, i: nat)
    requires 1 <= i
    ensures RepeatFrom(c, i) <==> exists j, k :: i - 1 <= j < k < |c| && c[j] == c[k]
    decreases |c| - i
  {
    if i < |c| {
      RepeatFromIff(c, i + 1);
      if c[i - 1] in c[i..] {
        var m :| 0 <= m < |c[i..]| && c[i..][m] == c[i - 1];
        assert c[i - 1] == c[i + m];
      }
      if j, k :| i - 1 <= j < k < |c| && c[j] == c[k] {
        if j == i - 1 {
          assert c[i..][k - i] == c[k];
        }
      }
    }
  }

  /**
   The central property: the suffix-contains test of the source reports
   "unique" exactly when the candidates are pairwise distinct.
   */
  lemma SuffixCheckIffDistinct<T>(c: seq<T>)
    ensures SuffixCheckUnique(c) <==> Distinct(c)
    ensures !SuffixCheckUnique(c) <==> HasDuplicate(c)
  {
    RepeatFromIff(c, 1);
  }

  /** Distinctness is the same as having as many distinct values as positions. */
  lemma {:induction false} DistinctIffCardinality<T>(c: seq<T>)
    ensures Distinct(c) <==> |set x | x in c| == |c|
  {
    if c != [] {
      var rest := c[1..];
      DistinctIffCardinality(rest);
      var s, r := set x | x in c, set x | x in rest;
      assert s == r + {c[0]} by {
        forall x | x in s ensures x in r + {c[0]} {
          var k :| 0 <= k < |c| && c[k] == x;
          if k > 0 { assert rest[k - 1] == x; }
        }
      }
      if c[0] in rest {
        var m :| 0 <= m < |rest| && rest[m] == c[0];
        assert c[m + 1] == c[0];
        assert s == r;
        assert |r| <= |rest| by { CardinalityBound(rest); }
      } else {
        assert |s| == |r| + 1;
        if Distinct(c) {
          assert Distinct(rest) by {
            forall i, j | 0 <= i < j < |rest| ensures rest[i] != rest[j] {
              assert rest[i] == c[i + 1] && rest[j] == c[j + 1];
            }
          }
        }
        if Distinct(rest) {
          forall i, j | 0 <= i < j < |c| ensures c[i] != c[j] {
            if i == 0 {
              assert c[j] == rest[j - 1];
            } else {
              assert c[i] == rest[i - 1] && c[j] == rest[j - 1];
            }
          }
        }
      }
    }
  }

  /** A list has at most as many distinct values as positions. */
  lemma {:induction false} CardinalityBound<T>(c: seq<T>)
    ensures |set x | x in c| <= |c|
  {
    if c != [] {
      var rest := c[1..];
      CardinalityBound(rest);
      var s, r := set x | x in c, set x | x in rest;
      assert s <= r + {c[0]} by {
        forall x | x in s ensures x in r + {c[0]} {
          var k :| 0 <= k < |c| && c[k] == x;
          if k > 0 { assert rest[k - 1] == x; }
        }
      }
      assert |r + {c[0]}| <= |r| + 1;
      SubsetCardinality(s, r + {c[0]});
    }
  }

  /** A subset is no larger than its superset. */
  lemma SubsetCardinality<T>(a: set<T>, b: set<T>)
    requires a <= b
    ensures |a| <= |b|
  {
    assert b == a + (b - a);
  }
}
