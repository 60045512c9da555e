/** The alert rules' wildcard matcher: `?` is one character, `*` is any run of characters. */
module Wildcard {
  import opened Common

  // ----- what a pattern means

  predicate Glob(p: string, v: string)
    decreases |p| + |v|
  {
    if p == [] then v == []
    else if p[0] == '*' then Glob(p[1..], v) || (v != [] && Glob(p, v[1..]))
    else v != [] && (p[0] == '?' || p[0] == v[0]) && Glob(p[1..], v[1..])
  }

  // ----- what the matcher computes

  predicate OnlyStars(p: string) {
    forall i :: 0 <= i < |p| ==> p[i] == '*'
  }

  predicate LiteralAt(p: string, v: string, pat: nat, val: nat) {
    pat < |p| && val < |v| && (p[pat] == '?' || p[pat] == v[val])
  }

  predicate StarAt(p: string, pat: nat) {
    pat < |p| && p[pat] == '*'
  }

  /** The indices of the matcher: the last star seen lies before `pat`, its run ends at `mat`. */
  predicate InRange(p: string, v: string, pat: nat, val: nat, star: Option<nat>, mat: nat) {
    pat <= |p| && mat <= val <= |v| && (star.Some? ==> star.value < pat && p[star.value] == '*')
  }

  /** The outcome of the matcher's loop from the given indices on. */
  predicate Greedy(p: string, v: string, pat: nat, val: nat, star: Option<nat>, mat: nat)
    requires InRange(p, v, pat, val, star, mat)
    decreases if star.Some? then |p| - star.value else |p| + 1, |v| - mat, |v| - val
  {
    if val == |v| then OnlyStars(p[pat..])
    else if LiteralAt(p, v, pat, val) then Greedy(p, v, pat + 1, val + 1, star, mat)
    else if StarAt(p, pat) then Greedy(p, v, pat + 1, val, Some(pat), val)
    else if star.Some? then Greedy(p, v, star.value + 1, mat + 1, star, mat + 1)
    else false
  }

  predicate GreedyMatch(p: string, v: string) {
    Greedy(p, v, 0, 0, None, 0)
  }

  method WildcardMatchChars(p: string, v: string) returns (r: bool)
    ensures r == GreedyMatch(p, v)
  {
    var patIdx: nat, valIdx: nat, matchIdx: nat := 0, 0, 0;
    var starIdx: Option<nat> := None;
    while valIdx < |v|
      invariant InRange(p, v, patIdx, valIdx, starIdx, matchIdx)
      invariant Greedy(p, v, patIdx, valIdx, starIdx, matchIdx) == GreedyMatch(p, v)
      decreases if starIdx.Some? then |p| - starIdx.value else |p| + 1, |v| - matchIdx, |v| - valIdx
    {
      if patIdx < |p| && (p[patIdx] == '?' || p[patIdx] == v[valIdx]) {
        patIdx, valIdx := patIdx + 1, valIdx + 1;
        continue;
      }
      if patIdx < |p| && p[patIdx] == '*' {
        starIdx, matchIdx := Some(patIdx), valIdx;
        patIdx := patIdx + 1;
        continue;
      }
      if starIdx.Some? {
        patIdx := starIdx.value + 1;
        matchIdx := matchIdx + 1;
        valIdx := matchIdx;
        continue;
      }
      return false;
    }
    ghost var rest := p[patIdx..];
    while patIdx < |p| && p[patIdx] == '*'
      invariant patIdx <= |p|
      invariant OnlyStars(rest) == OnlyStars(p[patIdx..])
    {
      assert p[patIdx..] == ['*'] + p[patIdx + 1..];
      patIdx := patIdx + 1;
    }
    r := patIdx == |p|;
  }

  // ----- facts about patterns

  lemma {:induction false} GlobEmptyValue(p: string)
    ensures Glob(p, []) <==> OnlyStars(p)
  {
    if p != [] {
      assert p == [p[0]] + p[1..];
      GlobEmptyValue(p[1..]);
    }
  }

  /** A leading star takes in any longer value. */
  lemma {:induction false} StarAbsorbs(p: string, v: string, j: nat)
    requires p != [] && p[0] == '*' && j <= |v| && Glob(p, v[j..])
    ensures Glob(p, v)
  {
    if j > 0 {
      assert v[1..][j - 1..] == v[j..];
      StarAbsorbs(p, v[1..], j - 1);
    } else {
      assert v[0..] == v;
    }
  }

  lemma {:induction false} StarUnfold(p: string, v: string) returns (j: nat)
    requires p != [] && p[0] == '*' && Glob(p, v)
    ensures j <= |v| && Glob(p[1..], v[j..])
  {
    if Glob(p[1..], v) {
      j := 0;
      assert v[0..] == v;
    } else {
      var k := StarUnfold(p, v[1..]);
      j := k + 1;
      assert v[1..][k..] == v[j..];
    }
  }

  /** A stretch of pattern without stars takes exactly its length of the value. */
  lemma {:induction false} FixedStretch(p: string, n: nat, v: string)
    requires n <= |p| && '*' !in p[..n] && Glob(p, v)
    ensures n <= |v| && Glob(p[n..], v[n..])
  {
    if n > 0 {
      assert p[0] == p[..n][0] && p[0] in p[..n];
      assert forall c :: c in p[1..][..n - 1] ==> c in p[..n];
      FixedStretch(p[1..], n - 1, v[1..]);
      assert p[1..][n - 1..] == p[n..] && v[1..][n - 1..] == v[n..];
    } else {
      assert p[0..] == p && v[0..] == v;
    }
  }

  // ----- the matcher finds only matches

  /** What remains to be matched: from here on, or with one more character in the last star's run. */
  predicate Matchable(p: string, v: string, pat: nat, val: nat, star: Option<nat>, mat: nat)
    requires InRange(p, v, pat, val, star, mat)
  {
    Glob(p[pat..], v[val..]) || (star.Some? && mat < |v| && Glob(p[star.value..], v[mat + 1..]))
  }

  lemma GlobAt(p: string, v: string, pat: nat, val: nat)
    requires pat < |p| && val <= |v|
    ensures p[pat] == '*' ==>
      (Glob(p[pat..], v[val..]) <==> Glob(p[pat + 1..], v[val..]) || (val < |v| && Glob(p[pat..], v[val + 1..])))
    ensures p[pat] != '*' ==>
      (Glob(p[pat..], v[val..]) <==> LiteralAt(p, v, pat, val) && Glob(p[pat + 1..], v[val + 1..]))
  {
    assert p[pat..][1..] == p[pat + 1..];
    if val < |v| {
      assert v[val..][1..] == v[val + 1..];
    }
  }

  lemma {:induction false} GreedySound(p: string, v: string, pat: nat, val: nat, star: Option<nat>, mat: nat)
    requires InRange(p, v, pat, val, star, mat) && Greedy(p, v, pat, val, star, mat)
    ensures Matchable(p, v, pat, val, star, mat)
    decreases if star.Some? then |p| - star.value else |p| + 1, |v| - mat, |v| - val
  {
    if val == |v| {
      GlobEmptyValue(p[pat..]);
    } else if LiteralAt(p, v, pat, val) {
      GreedySound(p, v, pat + 1, val + 1, star, mat);
      GlobAt(p, v, pat, val);
      GlobAt(p, v, pat, val + 1);
    } else if StarAt(p, pat) {
      GreedySound(p, v, pat + 1, val, Some(pat), val);
      GlobAt(p, v, pat, val);
    } else {
      GreedySound(p, v, star.value + 1, mat + 1, star, mat + 1);
      GlobAt(p, v, star.value, mat + 1);
    }
  }

  // ----- and, for values without stars, all of them

  /** Since the last star every pattern character has taken one character of the value. */
  predicate Stretch(p: string, pat: nat, val: nat, star: Option<nat>, mat: nat) {
    star.Some? ==> star.value < pat <= |p| && val - mat == pat - star.value - 1 && '*' !in p[star.value + 1..pat]
  }

  /**
   Backtracking only to the latest star loses nothing: whatever an earlier star could still match, the
   pattern from the new star on matches from here.
   */
  lemma LatestStarSuffices(p: string, v: string, pat: nat, val: nat, star: nat, mat: nat)
    requires InRange(p, v, pat, val, Some(star), mat) && Stretch(p, pat, val, Some(star), mat)
    requires mat < |v| && Glob(p[star..], v[mat + 1..])
    ensures val < |v|
    ensures StarAt(p, pat) ==> Glob(p[pat..], v[val..])
  {
    var n := pat - star - 1;
    assert p[star..][1..] == p[star + 1..];
    var j := StarUnfold(p[star..], v[mat + 1..]);
    assert v[mat + 1..][j..] == v[mat + 1 + j..];
    assert p[star + 1..][..n] == p[star + 1..pat];
    FixedStretch(p[star + 1..], n, v[mat + 1 + j..]);
    assert p[star + 1..][n..] == p[pat..];
    assert v[mat + 1 + j..][n..] == v[val + 1 + j..];
    if StarAt(p, pat) {
      assert v[val..][1 + j..] == v[val + 1 + j..];
      StarAbsorbs(p[pat..], v[val..], 1 + j);
    }
  }

  lemma {:induction false} GreedyComplete(p: string, v: string, pat: nat, val: nat, star: Option<nat>, mat: nat)
    requires InRange(p, v, pat, val, star, mat) && Stretch(p, pat, val, star, mat)
    requires '*' !in v && Matchable(p, v, pat, val, star, mat)
    ensures Greedy(p, v, pat, val, star, mat)
    decreases if star.Some? then |p| - star.value else |p| + 1, |v| - mat, |v| - val
  {
    if star.Some? && mat < |v| && Glob(p[star.value..], v[mat + 1..]) {
      LatestStarSuffices(p, v, pat, val, star.value, mat);
    }
    if val == |v| {
      GlobEmptyValue(p[pat..]);
    } else if LiteralAt(p, v, pat, val) {
      assert v[val] in v;
      GlobAt(p, v, pat, val);
      StretchGrows(p, pat, val, star, mat);
      GreedyComplete(p, v, pat + 1, val + 1, star, mat);
    } else if StarAt(p, pat) {
      GlobAt(p, v, pat, val);
      GreedyComplete(p, v, pat + 1, val, Some(pat), val);
    } else {
      if pat < |p| {
        GlobAt(p, v, pat, val);
      }
      GlobAt(p, v, star.value, mat + 1);
      GreedyComplete(p, v, star.value + 1, mat + 1, star, mat + 1);
    }
  }

  lemma StretchGrows(p: string, pat: nat, val: nat, star: Option<nat>, mat: nat)
    requires pat < |p| && p[pat] != '*' && Stretch(p, pat, val, star, mat)
    ensures Stretch(p, pat + 1, val + 1, star, mat)
  {
    if star.Some? {
      assert p[star.value + 1..pat + 1] == p[star.value + 1..pat] + [p[pat]];
    }
  }

  /** Whatever the matcher accepts is a match. */
  lemma MatcherSound(p: string, v: string)
    requires GreedyMatch(p, v)
    ensures Glob(p, v)
  {
    GreedySound(p, v, 0, 0, None, 0);
    assert p[0..] == p && v[0..] == v;
  }

  /** On a value without stars the matcher accepts every match. */
  lemma MatcherComplete(p: string, v: string)
    requires '*' !in v && Glob(p, v)
    ensures GreedyMatch(p, v)
  {
    assert p[0..] == p && v[0..] == v;
    GreedyComplete(p, v, 0, 0, None, 0);
  }

  // ----- values with stars

  function Questions(n: nat): (q: string)
    ensures |q| == n
    ensures forall i :: 0 <= i < n ==> q[i] == '?'
  {
    if n == 0 then [] else Questions(n - 1) + ['?']
  }

  /** A pattern that a value with a star at position `i` matches and the matcher rejects. */
  function Witness(v: string, i: nat): (p: string)
    requires i < |v|
    ensures |p| == |v| + 1 && p[i] == '*'
    ensures forall k :: 0 <= k < |p| && k != i ==> p[k] == '?'
  {
    Questions(i) + ['*'] + Questions(|v| - i)
  }

  lemma {:induction false} GlobQuestions(p: string, v: string)
    requires |p| == |v| && forall k :: 0 <= k < |p| ==> p[k] == '?'
    ensures Glob(p, v)
  {
    if p != [] {
      GlobQuestions(p[1..], v[1..]);
    }
  }

  lemma {:induction false} WitnessMatches(v: string, i: nat, k: nat)
    requires i < |v| && k <= i
    ensures Glob(Witness(v, i)[k..], v[k..])
    decreases i - k
  {
    var p := Witness(v, i);
    GlobAt(p, v, k, k);
    if k == i {
      GlobQuestions(p[i + 1..], v[i..]);
    } else {
      WitnessMatches(v, i, k + 1);
    }
  }

  lemma {:induction false} WitnessRejected(v: string, i: nat, k: nat)
    requires i < |v| && v[i] == '*' && k <= |v|
    ensures !Greedy(Witness(v, i), v, k, k, None, 0)
    decreases |v| - k
  {
    var p := Witness(v, i);
    if k == |v| {
      assert p[k..][0] == '?';
    } else {
      assert LiteralAt(p, v, k, k);
      WitnessRejected(v, i, k + 1);
    }
  }

  /** The matcher agrees with the meaning of every pattern exactly on the values that contain no star. */
  lemma ExactlyWithoutStars(v: string)
    ensures (forall p :: GreedyMatch(p, v) <==> Glob(p, v)) <==> '*' !in v
  {
    if '*' in v {
      var i :| 0 <= i < |v| && v[i] == '*';
      var p := Witness(v, i);
      WitnessMatches(v, i, 0);
      WitnessRejected(v, i, 0);
      assert p[0..] == p && v[0..] == v;
      assert Glob(p, v) && !GreedyMatch(p, v);
    } else {
      forall p ensures GreedyMatch(p, v) <==> Glob(p, v) {
        if Glob(p, v) {
          MatcherComplete(p, v);
        }
        if GreedyMatch(p, v) {
          MatcherSound(p, v);
        }
      }
    }
  }
}
