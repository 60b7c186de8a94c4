// The command filter of src/proxy_capture.rs: a two-index glob matcher that backtracks to the
// last star only, against the recursive meaning of a glob.
module Wildcard {
  import opened Bytes

  const STAR: Byte := 42

  /** A star stands for any bytes, every other pattern byte for itself. */
  predicate Glob(p: Bytes, v: Bytes)
    decreases |p| + |v|
  {
    if p == [] then v == []
    else if p[0] == STAR then Glob(p[1..], v) || (v != [] && Glob(p, v[1..]))
    else v != [] && p[0] == v[0] && Glob(p[1..], v[1..])
  }

  /** No star byte before the last byte. */
  predicate StarFree(v: Bytes) { forall i :: 0 <= i < |v| - 1 ==> v[i] != STAR }

  predicate AllStars(p: Bytes) { forall i :: 0 <= i < |p| ==> p[i] == STAR }

  /** The matcher's variables; the star fields are set once a star has been passed. */
  datatype Scan = Scan(pi: nat, vi: nat, star: Option<nat>, starValue: nat)

  predicate InRange(p: Bytes, v: Bytes, s: Scan) {
    && s.pi <= |p| && s.vi <= |v| && s.starValue <= s.vi
    && (s.star.Some? ==> s.star.value < s.pi)
  }

  /** One turn of the loop: the next state, or None for an early `return false`. */
  function Turn(p: Bytes, v: Bytes, s: Scan): (r: Option<Scan>)
    requires InRange(p, v, s) && s.vi < |v|
    ensures r.Some? ==> InRange(p, v, r.value)
  {
    if s.pi < |p| && p[s.pi] == v[s.vi] then Some(s.(pi := s.pi + 1, vi := s.vi + 1))
    else if s.pi < |p| && p[s.pi] == STAR then Some(s.(star := Some(s.pi), pi := s.pi + 1, starValue := s.vi))
    else if s.star.Some? then
      Some(s.(pi := s.star.value + 1, starValue := s.starValue + 1, vi := s.starValue + 1))
    else None
  }

  /** How much later stars could still start. */
  function StarsLeft(p: Bytes, s: Scan): int { if s.star.Some? then |p| - s.star.value else |p| + 1 }

  /** The whole loop and the trailing stars. */
  function Run(p: Bytes, v: Bytes, s: Scan): bool
    requires InRange(p, v, s)
    decreases |v| - s.starValue, StarsLeft(p, s), |v| - s.vi
  {
    if s.vi == |v| then AllStars(p[s.pi..])
    else
      var t := Turn(p, v, s);
      t.Some? && Run(p, v, t.value)
  }

  const START := Scan(0, 0, None, 0)

  predicate Matches(p: Bytes, v: Bytes) { Run(p, v, START) }

  /** wildcard_match */
  method WildcardMatch(pattern: Bytes, value: Bytes) returns (matched: bool)
    ensures matched == Matches(pattern, value)
    ensures matched ==> Glob(pattern, value)
    ensures StarFree(value) ==> matched == Glob(pattern, value)
  {
    hide Glob;
    MatchesIsSound(pattern, value);
    if StarFree(value) {
      MatchesIsComplete(pattern, value);
    }
    var patternIndex: nat, valueIndex: nat := 0, 0;
    var starIndex: Option<nat>, starValueIndex: nat := None, 0;
    while valueIndex < |value|
      invariant InRange(pattern, value, Scan(patternIndex, valueIndex, starIndex, starValueIndex))
      invariant Run(pattern, value, Scan(patternIndex, valueIndex, starIndex, starValueIndex))
                == Matches(pattern, value)
      decreases |value| - starValueIndex,
                StarsLeft(pattern, Scan(patternIndex, valueIndex, starIndex, starValueIndex)),
                |value| - valueIndex
    {
      if patternIndex < |pattern| && pattern[patternIndex] == value[valueIndex] {
        patternIndex := patternIndex + 1;
        valueIndex := valueIndex + 1;
      } else if patternIndex < |pattern| && pattern[patternIndex] == STAR {
        starIndex := Some(patternIndex);
        patternIndex := patternIndex + 1;
        starValueIndex := valueIndex;
      } else if starIndex.Some? {
        patternIndex := starIndex.value + 1;
        starValueIndex := starValueIndex + 1;
        valueIndex := starValueIndex;
      } else {
        return false;
      }
    }
    ghost var rest := pattern[patternIndex..];
    while patternIndex < |pattern| && pattern[patternIndex] == STAR
      invariant patternIndex <= |pattern|
      invariant AllStars(pattern[patternIndex..]) <==> AllStars(rest)
    {
      assert pattern[patternIndex..] == [STAR] + pattern[patternIndex + 1..];
      patternIndex := patternIndex + 1;
    }
    matched := patternIndex == |pattern|;
  }

  // ---------------------------------------------------------------- facts about globs

  lemma {:induction false} GlobOfEmpty(p: Bytes)
    ensures Glob(p, []) <==> AllStars(p)
  {
    if p != [] {
      GlobOfEmpty(p[1..]);
      assert p == [p[0]] + p[1..];
    }
  }

  /** A leading star matches some suffix onwards. */
  lemma {:induction false} GlobAfterStar(p: Bytes, v: Bytes, j: nat)
    requires p != [] && p[0] == STAR && j <= |v| && Glob(p[1..], v[j..])
    ensures Glob(p, v)
    decreases j
  {
    if j == 0 {
      assert v[0..] == v;
    } else {
      assert v[1..][j - 1..] == v[j..];
      GlobAfterStar(p, v[1..], j - 1);
    }
  }

  lemma {:induction false} StarSuffix(p: Bytes, v: Bytes) returns (j: nat)
    requires p != [] && p[0] == STAR && Glob(p, v)
    ensures j <= |v| && Glob(p[1..], v[j..])
    decreases |v|
  {
    if Glob(p[1..], v) {
      assert v[0..] == v;
      return 0;
    }
    var k := StarSuffix(p, v[1..]);
    assert v[1..][k..] == v[k + 1..];
    j := k + 1;
  }

  /** A pattern that starts with n literal bytes matches only values that start with them. */
  lemma {:induction false} LiteralPrefix(p: Bytes, v: Bytes, n: nat)
    requires n <= |p| && STAR !in p[..n] && Glob(p, v)
    ensures n <= |v| && p[..n] == v[..n] && Glob(p[n..], v[n..])
    decreases n
  {
    if n == 0 {
      assert p[0..] == p && v[0..] == v;
    } else {
      assert p[0] in p[..n];
      assert p[1..][..n - 1] == p[..n][1..];
      LiteralPrefix(p[1..], v[1..], n - 1);
      assert p[1..][n - 1..] == p[n..] && v[1..][n - 1..] == v[n..];
      assert p[..n] == [p[0]] + p[1..][..n - 1] && v[..n] == [v[0]] + v[1..][..n - 1];
    }
  }

  // ---------------------------------------------------------------- soundness, for every value

  /** What is left to match implies the whole, from the current attempt or a later start of the star. */
  predicate Sound(p: Bytes, v: Bytes, s: Scan)
    requires InRange(p, v, s)
  {
    && (Glob(p[s.pi..], v[s.vi..]) ==> Glob(p, v))
    && (s.star.Some? ==> forall j :: s.starValue <= j <= |v| && Glob(p[s.star.value + 1..], v[j..]) ==> Glob(p, v))
  }

  lemma TurnIsSound(p: Bytes, v: Bytes, s: Scan)
    requires InRange(p, v, s) && s.vi < |v| && Sound(p, v, s)
    ensures Turn(p, v, s).Some? ==> Sound(p, v, Turn(p, v, s).value)
  {
    var rest, tail := p[s.pi..], v[s.vi..];
    assert s.pi < |p| ==> rest[1..] == p[s.pi + 1..];
    assert tail[1..] == v[s.vi + 1..];
    if s.pi < |p| && p[s.pi] == v[s.vi] {
      if p[s.pi] == STAR && Glob(rest[1..], tail[1..]) {
        GlobAfterStar(rest, tail, 1);
      }
    } else if s.pi < |p| && p[s.pi] == STAR {
      forall j | s.vi <= j <= |v| && Glob(p[s.pi + 1..], v[j..]) ensures Glob(p, v) {
        assert v[j..] == tail[j - s.vi..];
        GlobAfterStar(rest, tail, j - s.vi);
      }
    }
  }

  lemma {:induction false} RunIsSound(p: Bytes, v: Bytes, s: Scan)
    requires InRange(p, v, s) && Sound(p, v, s)
    ensures Run(p, v, s) ==> Glob(p, v)
    decreases |v| - s.starValue, StarsLeft(p, s), |v| - s.vi
  {
    if s.vi == |v| {
      GlobOfEmpty(p[s.pi..]);
      assert v[s.vi..] == [];
    } else {
      TurnIsSound(p, v, s);
      var t := Turn(p, v, s);
      if t.Some? {
        RunIsSound(p, v, t.value);
      }
    }
  }

  /** A match reported is a match, whatever bytes the value holds. */
  lemma MatchesIsSound(p: Bytes, v: Bytes)
    ensures Matches(p, v) ==> Glob(p, v)
  {
    assert p[0..] == p && v[0..] == v;
    RunIsSound(p, v, START);
  }

  // ---------------------------------------------------------------- completeness

  /** The bytes since the last star were compared as literals. */
  predicate Literal(p: Bytes, v: Bytes, s: Scan)
    requires InRange(p, v, s)
  {
    s.star.Some? ==>
      && s.pi - (s.star.value + 1) == s.vi - s.starValue
      && p[s.star.value + 1..s.pi] == v[s.starValue..s.vi]
      && STAR !in p[s.star.value + 1..s.pi]
  }

  /** If there is a match, the current attempt succeeds or the last star can start later. */
  ghost predicate Complete(p: Bytes, v: Bytes, s: Scan)
    requires InRange(p, v, s)
  {
    Glob(p, v) ==>
      || Glob(p[s.pi..], v[s.vi..])
      || (s.star.Some? && exists j :: s.starValue < j <= |v| && Glob(p[s.star.value + 1..], v[j..]))
  }

  /** A later start of the previous star passes through the new one. */
  lemma CommitToStar(p: Bytes, v: Bytes, s: Scan, j: nat) returns (k: nat)
    requires InRange(p, v, s) && Literal(p, v, s) && s.star.Some?
    requires s.pi < |p| && p[s.pi] == STAR
    requires s.starValue < j <= |v| && Glob(p[s.star.value + 1..], v[j..])
    ensures s.vi < k <= |v| && Glob(p[s.pi + 1..], v[k..])
  {
    var q, n := p[s.star.value + 1..], s.vi - s.starValue;
    assert q[..n] == p[s.star.value + 1..s.pi] && q[n..] == p[s.pi..];
    LiteralPrefix(q, v[j..], n);
    assert v[j..][n..] == v[j + n..];
    var m := StarSuffix(p[s.pi..], v[j + n..]);
    assert p[s.pi..][1..] == p[s.pi + 1..] && v[j + n..][m..] == v[j + n + m..];
    k := j + n + m;
  }

  lemma TurnIsComplete(p: Bytes, v: Bytes, s: Scan)
    requires InRange(p, v, s) && s.vi < |v| && Literal(p, v, s) && Complete(p, v, s)
    requires !(s.pi < |p| && p[s.pi] == v[s.vi] == STAR)
    ensures var t := Turn(p, v, s);
            if t.Some? then Literal(p, v, t.value) && Complete(p, v, t.value) else !Glob(p, v)
  {
    if s.pi < |p| && p[s.pi] == v[s.vi] {
      LiteralTurnIsComplete(p, v, s);
    } else if s.pi < |p| && p[s.pi] == STAR {
      NewStarIsComplete(p, v, s);
    } else {
      MismatchIsComplete(p, v, s);
    }
  }

  lemma LiteralTurnIsComplete(p: Bytes, v: Bytes, s: Scan)
    requires InRange(p, v, s) && s.vi < |v| && Literal(p, v, s) && Complete(p, v, s)
    requires s.pi < |p| && p[s.pi] == v[s.vi] && p[s.pi] != STAR
    ensures var t := Turn(p, v, s).value;
            Literal(p, v, t) && Complete(p, v, t)
  {
    assert p[s.pi..][1..] == p[s.pi + 1..] && v[s.vi..][1..] == v[s.vi + 1..];
    if s.star.Some? {
      var a, b := s.star.value + 1, s.starValue;
      assert p[a..s.pi + 1] == p[a..s.pi] + [p[s.pi]] && v[b..s.vi + 1] == v[b..s.vi] + [v[s.vi]];
    }
  }

  lemma MismatchIsComplete(p: Bytes, v: Bytes, s: Scan)
    requires InRange(p, v, s) && s.vi < |v| && Literal(p, v, s) && Complete(p, v, s)
    requires s.pi < |p| ==> p[s.pi] != v[s.vi] && p[s.pi] != STAR
    ensures var t := Turn(p, v, s);
            if t.Some? then Literal(p, v, t.value) && Complete(p, v, t.value) else !Glob(p, v)
  {
    assert !Glob(p[s.pi..], v[s.vi..]);
    if s.star.Some? && Glob(p, v) {
      var j :| s.starValue < j <= |v| && Glob(p[s.star.value + 1..], v[j..]);
    }
  }

  lemma NewStarIsComplete(p: Bytes, v: Bytes, s: Scan)
    requires InRange(p, v, s) && s.vi < |v| && Literal(p, v, s) && Complete(p, v, s)
    requires s.pi < |p| && p[s.pi] == STAR && v[s.vi] != STAR
    ensures Complete(p, v, Turn(p, v, s).value)
  {
    if Glob(p, v) {
      var k: nat;
      if Glob(p[s.pi..], v[s.vi..]) {
        k := StarSuffix(p[s.pi..], v[s.vi..]);
        assert p[s.pi..][1..] == p[s.pi + 1..] && v[s.vi..][k..] == v[s.vi + k..];
        k := s.vi + k;
      } else {
        var j :| s.starValue < j <= |v| && Glob(p[s.star.value + 1..], v[j..]);
        k := CommitToStar(p, v, s, j);
      }
      assert Glob(p[s.pi + 1..], v[k..]);
    }
  }

  /** Every byte of the value is used up: a later start of the last star has too little left. */
  lemma ExhaustedValue(p: Bytes, v: Bytes, s: Scan)
    requires InRange(p, v, s) && s.vi == |v| && Literal(p, v, s) && Complete(p, v, s)
    ensures AllStars(p[s.pi..]) <==> Glob(p, v) || AllStars(p[s.pi..])
    ensures Glob(p, v) ==> AllStars(p[s.pi..])
  {
    GlobOfEmpty(p[s.pi..]);
    assert v[s.vi..] == [];
    if Glob(p, v) && !Glob(p[s.pi..], v[s.vi..]) {
      var j :| s.starValue < j <= |v| && Glob(p[s.star.value + 1..], v[j..]);
      var q, n := p[s.star.value + 1..], s.vi - s.starValue;
      assert q[..n] == p[s.star.value + 1..s.pi];
      LiteralPrefix(q, v[j..], n);
      assert false;
    }
  }

  /** The value's last byte is a star compared with a star of the pattern. */
  lemma LastByteStar(p: Bytes, v: Bytes, s: Scan)
    requires InRange(p, v, s) && s.vi == |v| - 1 && Literal(p, v, s) && Complete(p, v, s) && StarFree(v)
    requires s.pi < |p| && p[s.pi] == v[s.vi] == STAR
    ensures Glob(p, v) ==> AllStars(p[s.pi + 1..])
  {
    if Glob(p, v) {
      if Glob(p[s.pi..], v[s.vi..]) {
        assert v[s.vi..] == [STAR];
        GlobOfOneStar(p[s.pi..]);
        assert p[s.pi..][1..] == p[s.pi + 1..];
      } else {
        var j :| s.starValue < j <= |v| && Glob(p[s.star.value + 1..], v[j..]);
        LateStartAtLastByte(p, v, s, j);
      }
    }
  }

  lemma LateStartAtLastByte(p: Bytes, v: Bytes, s: Scan, j: nat)
    requires InRange(p, v, s) && s.vi == |v| - 1 && Literal(p, v, s) && s.star.Some?
    requires s.pi < |p| && p[s.pi] == v[s.vi] == STAR
    requires s.starValue < j <= |v| && Glob(p[s.star.value + 1..], v[j..])
    ensures AllStars(p[s.pi + 1..])
  {
    var q, n := p[s.star.value + 1..], s.vi - s.starValue;
    assert q[..n] == p[s.star.value + 1..s.pi] && q[n..] == p[s.pi..];
    LiteralPrefix(q, v[j..], n);
    assert j + n == |v|;
    assert v[j..][n..] == [];
    GlobOfEmpty(p[s.pi..]);
    assert p[s.pi + 1..] == p[s.pi..][1..];
  }

  /** Only stars match a single star byte. */
  lemma {:induction false} GlobOfOneStar(p: Bytes)
    requires Glob(p, [STAR])
    ensures AllStars(p)
  {
    if p != [] {
      assert [STAR][1..] == [];
      if Glob(p[1..], [STAR]) {
        GlobOfOneStar(p[1..]);
      } else {
        GlobOfEmpty(p);
      }
      assert p == [p[0]] + p[1..];
    }
  }

  lemma {:induction false} RunIsComplete(p: Bytes, v: Bytes, s: Scan)
    requires InRange(p, v, s) && Literal(p, v, s) && Complete(p, v, s) && StarFree(v)
    ensures Glob(p, v) ==> Run(p, v, s)
    decreases |v| - s.starValue, StarsLeft(p, s), |v| - s.vi
  {
    if s.vi == |v| {
      ExhaustedValue(p, v, s);
    } else if s.pi < |p| && p[s.pi] == v[s.vi] == STAR {
      LastByteStar(p, v, s);
    } else {
      TurnIsComplete(p, v, s);
      var t := Turn(p, v, s);
      if t.Some? {
        RunIsComplete(p, v, t.value);
      }
    }
  }

  /** Committing to the earliest match of every segment loses nothing, as long as no byte of the value
      before the last is a star. */
  lemma MatchesIsComplete(p: Bytes, v: Bytes)
    requires StarFree(v)
    ensures Matches(p, v) <==> Glob(p, v)
  {
    MatchesIsSound(p, v);
    assert p[0..] == p && v[0..] == v;
    RunIsComplete(p, v, START);
  }

  // ---------------------------------------------------------------- and nowhere else

  lemma {:induction false} PrefixThenStar(u: Bytes, v: Bytes)
    requires u <= v
    ensures Glob(u + [STAR], v)
  {
    if u == [] {
      assert u + [STAR] == [STAR];
      assert Glob([STAR][1..], v[|v|..]);
      GlobAfterStar([STAR], v, |v|);
    } else {
      PrefixThenStar(u[1..], v[1..]);
      assert (u + [STAR])[1..] == u[1..] + [STAR];
      if u[0] == STAR {
        GlobAfterStar(u + [STAR], v, 1);
      }
    }
  }

  /** Literal steps run through a common prefix without passing a star. */
  lemma {:induction false} RunThroughPrefix(p: Bytes, v: Bytes, n: nat, i: nat)
    requires i <= n <= |p| && n <= |v| && p[..n] == v[..n]
    ensures Run(p, v, Scan(i, i, None, 0)) == Run(p, v, Scan(n, n, None, 0))
    decreases n - i
  {
    if i < n {
      assert p[i] == p[..n][i] && v[i] == v[..n][i];
      RunThroughPrefix(p, v, n, i + 1);
    }
  }

  /** A value with a star before its last byte: the pattern that stops at that star means the value but is
      not reported to match it, because its star is taken as a literal. */
  lemma StarInValueIsMissed(v: Bytes, k: nat)
    requires k < |v| - 1 && v[k] == STAR
    ensures Glob(v[..k] + [STAR], v) && !Matches(v[..k] + [STAR], v)
  {
    var p := v[..k] + [STAR];
    PrefixThenStar(v[..k], v);
    assert p == v[..k + 1];
    RunThroughPrefix(p, v, k + 1, 0);
  }

  /** The matcher decides every pattern correctly exactly for the values without a star before the last byte. */
  lemma CompleteExactlyForStarFreeValues(v: Bytes)
    ensures (forall p :: Matches(p, v) <==> Glob(p, v)) <==> StarFree(v)
  {
    if StarFree(v) {
      forall p: Bytes ensures Matches(p, v) <==> Glob(p, v) {
        MatchesIsComplete(p, v);
      }
    } else {
      var k :| 0 <= k < |v| - 1 && v[k] == STAR;
      StarInValueIsMissed(v, k);
    }
  }
}
