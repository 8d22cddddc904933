/**
 * The longest-prefix lookup shared by the sidebar and table-of-contents
 * configuration: among the configured keys that a path starts with, the
 * longest one wins. Keys are visited in an unspecified order; a strictly
 * longer candidate replaces the current best, so the empty key never wins.
 */
module PathPrefix {
  import opened Strings

  /** `k` can win for `path`: a configured, non-empty key that `path` starts with. */
  predicate Candidate(keys: set<string>, path: string, k: string)
  {
    k in keys && k != "" && StartsWith(path, k)
  }

  /**
   * `best` is the outcome of the longest-prefix search: the empty string when
   * no key is a candidate, otherwise a candidate no other candidate is longer than.
   */
  ghost predicate IsBest(keys: set<string>, path: string, best: string)
  {
    if best == "" then forall k :: !Candidate(keys, path, k)
    else Candidate(keys, path, best) && forall k :: Candidate(keys, path, k) ==> |k| <= |best|
  }

  /** The outcome of the search does not depend on the order the keys are visited in: it is unique. */
  lemma BestUnique(keys: set<string>, path: string, b1: string, b2: string)
    requires IsBest(keys, path, b1) && IsBest(keys, path, b2)
    ensures b1 == b2
  {
    if b1 != "" && b2 != "" {
      SamePrefix(path, b1, b2);
    }
  }

  /** Every key set has an outcome. */
  lemma {:induction false} BestExists(keys: set<string>, path: string)
    ensures exists b :: IsBest(keys, path, b)
    decreases |keys|
  {
    if keys == {} {
      assert IsBest(keys, path, "");
    } else {
      var k :| k in keys;
      var rest := keys - {k};
      BestExists(rest, path);
      var b :| IsBest(rest, path, b);
      BestStep(rest, path, b, k);
      assert rest + {k} == keys;
      var next := if StartsWith(path, k) && |k| > |b| then k else b;
      assert IsBest(keys, path, next);
    }
  }

  /**
   * One iteration of the search loop: visiting key `k` with current best
   * `best` keeps `best` unless `k` is a longer prefix of `path`.
   */
  lemma BestStep(seen: set<string>, path: string, best: string, k: string)
    requires IsBest(seen, path, best)
    ensures IsBest(seen + {k}, path, if StartsWith(path, k) && |k| > |best| then k else best)
  {
    var next := if StartsWith(path, k) && |k| > |best| then k else best;
    forall c | Candidate(seen + {k}, path, c)
      ensures next != "" && |c| <= |next|
    {
      if c != k {
        assert Candidate(seen, path, c);
      }
    }
  }

  /** The winning key for `path`, or "" when there is none. */
  ghost function BestPrefix(keys: set<string>, path: string): (b: string)
    ensures IsBest(keys, path, b)
  {
    BestExists(keys, path);
    var b :| IsBest(keys, path, b);
    b
  }

  /** Any key that satisfies the longest-prefix description is the winner. */
  lemma BestPrefixIs(keys: set<string>, path: string, k: string)
    requires Candidate(keys, path, k)
    requires forall c :: Candidate(keys, path, c) ==> |c| <= |k|
    ensures BestPrefix(keys, path) == k
  {
    BestUnique(keys, path, BestPrefix(keys, path), k);
  }

  /** With no candidate key there is no winner. */
  lemma BestPrefixNone(keys: set<string>, path: string)
    requires forall c :: !Candidate(keys, path, c)
    ensures BestPrefix(keys, path) == ""
  {
    BestUnique(keys, path, BestPrefix(keys, path), "");
  }
}
