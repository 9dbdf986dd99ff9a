// The four carving directions and their random shuffle.

module DirectionShuffle {

  /** The four unit directions as the generator lists them before shuffling: up, down, left, right. */
  const Directions: seq<(int, int)> := [(0, -1), (0, 1), (-1, 0), (1, 0)]

  /** d is one of the four unit steps; IsUnitIsListed shows these are exactly the entries of Directions. */
  predicate IsUnit(d: (int, int))
  {
    d == (0, -1) || d == (0, 1) || d == (-1, 0) || d == (1, 0)
  }

  lemma IsUnitIsListed(d: (int, int))
    ensures IsUnit(d) <==> d in Directions
  {
  }

  /** Every entry of a permutation of the four directions is a unit direction. */
  lemma DirectionIsUnit(directions: seq<(int, int)>, k: int)
    requires multiset(directions) == multiset(Directions) && 0 <= k < |directions|
    ensures IsUnit(directions[k])
  {
  }

  /**
   * The random source: some index in [lo, hi]. A caller may assume nothing
   * more than the bounds, so everything proved about generation holds for
   * every sequence of random choices.
   */
  method RandomValue(lo: int, hi: int) returns (j: int)
    requires lo <= hi
    ensures lo <= j <= hi
  {
    j :| lo <= j <= hi;
  }

  /**
   * Fisher-Yates shuffle of the four directions: position i is swapped with
   * a random position j in [i, 3]. Whatever the random choices, the result
   * is a permutation of the four directions.
   */
  method ShuffleDirections() returns (directions: seq<(int, int)>)
    ensures |directions| == 4
    ensures multiset(directions) == multiset(Directions)
  {
    directions := Directions;
    for i := 0 to 4
      invariant |directions| == 4
      invariant multiset(directions) == multiset(Directions)
    {
      var j := RandomValue(i, 3);
      ghost var before := directions;
      var temp := directions[i];
      directions := directions[i := directions[j]];
      directions := directions[j := temp];
      SwapPermutes(before, i, j);
    }
  }

  lemma SwapPermutes<T>(s: seq<T>, i: int, j: int)
    requires 0 <= i < |s| && 0 <= j < |s|
    ensures multiset(s[i := s[j]][j := s[i]]) == multiset(s)
  {
  }
}
