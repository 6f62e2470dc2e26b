/**
  Removal of a chosen word from a sanitised file name: the substitution of
  `\b<word>\b` by nothing, with the word matched literally (escaped), left to
  right, without overlaps, and with `\b` judged on the string being scanned.
 */
module WordRemoval {
  import opened CharClass
  import opened Subsequence

  /** `\b` at position `i` (0 <= i <= |s|): exactly one of the two neighbouring
      characters is a word character; a position outside `s` counts as non-word. */
  predicate IsBoundary(s: string, i: nat)
    requires i <= |s|
  {
    (0 < i && IsWordChar(s[i - 1])) != (i < |s| && IsWordChar(s[i]))
  }

  /** `\b<word>\b` matches at position `i`. */
  predicate MatchAt(s: string, w: string, i: nat) {
    i + |w| <= |s| && s[i..i + |w|] == w && IsBoundary(s, i) && IsBoundary(s, i + |w|)
  }

  /** The scan of `re.sub` from position `i`: a match is deleted and the scan
      resumes after it; otherwise the character at `i` is copied and the scan
      moves on by one. */
  function RemoveFrom(s: string, w: string, i: nat): (r: string)
    requires w != [] && i <= |s|
    ensures |r| <= |s| - i
    decreases |s| - i
  {
    if i == |s| then []
    else if MatchAt(s, w, i) then RemoveFrom(s, w, i + |w|)
    else [s[i]] + RemoveFrom(s, w, i + 1)
  }

  /** The whole substitution: every occurrence of `\b<w>\b` in `s` replaced by nothing. */
  function RemoveWord(s: string, w: string): (r: string)
    requires w != []
    ensures |r| <= |s|
  {
    RemoveFrom(s, w, 0)
  }

  // ---------------------------------------------------------------------------
  // An independent description of the removal: the set of deleted occurrences.

  /** `ps` lists positions at or after `i`, each leaving room for a word of
      length `n` inside `s` before the next position. */
  predicate Spaced(s: string, n: nat, i: nat, ps: seq<nat>)
    decreases |ps|
  {
    ps == [] || (i <= ps[0] && ps[0] + n <= |s| && Spaced(s, n, ps[0] + n, ps[1..]))
  }

  /** The same, stated position by position: every listed word fits inside `s`
      after `i`, and any two listed words are in order and do not overlap. */
  lemma {:induction false} SpacedBounds(s: string, n: nat, i: nat, ps: seq<nat>)
    requires Spaced(s, n, i, ps)
    ensures forall k :: 0 <= k < |ps| ==> i <= ps[k] && ps[k] + n <= |s|
    ensures forall k, l :: 0 <= k < l < |ps| ==> ps[k] + n <= ps[l]
    decreases |ps|
  {
    if ps != [] {
      var rest := ps[1..];
      SpacedBounds(s, n, ps[0] + n, rest);
      forall k | 0 <= k < |ps|
        ensures i <= ps[k] && ps[k] + n <= |s|
      {
        if k > 0 {
          assert ps[k] == rest[k - 1];
        }
      }
      forall k, l | 0 <= k < l < |ps|
        ensures ps[k] + n <= ps[l]
      {
        assert ps[l] == rest[l - 1];
        if k > 0 {
          assert ps[k] == rest[k - 1];
        }
      }
    }
  }

  /** Position `q` lies strictly inside one of the occurrences starting at `ps`. */
  predicate Covered(ps: seq<nat>, n: nat, q: nat) {
    exists k :: 0 <= k < |ps| && ps[k] < q < ps[k] + n
  }

  /** The occurrences a left-to-right, non-overlapping search from `i` deletes,
      described without a scan: each listed position is a match, the list is
      spaced, and every match that is not listed overlaps an earlier listed one. */
  ghost predicate ValidPlanFrom(s: string, w: string, i: nat, ps: seq<nat>) {
    Spaced(s, |w|, i, ps) &&
    (forall k :: 0 <= k < |ps| ==> MatchAt(s, w, ps[k])) &&
    (forall q: nat :: i <= q && MatchAt(s, w, q) && q !in ps ==> Covered(ps, |w|, q))
  }

  ghost predicate ValidPlan(s: string, w: string, ps: seq<nat>) {
    ValidPlanFrom(s, w, 0, ps)
  }

  /** The text from `i` on with the `n` characters at each position of `ps` cut out. */
  function ExciseFrom(s: string, ps: seq<nat>, n: nat, i: nat): string
    requires i <= |s| && Spaced(s, n, i, ps)
    decreases |ps|
  {
    if ps == [] then s[i..]
    else s[i..ps[0]] + ExciseFrom(s, ps[1..], n, ps[0] + n)
  }

  /** Each cut removes exactly `n` characters. */
  lemma {:induction false} ExciseLength(s: string, ps: seq<nat>, n: nat, i: nat)
    requires i <= |s| && Spaced(s, n, i, ps)
    ensures |ExciseFrom(s, ps, n, i)| == |s| - i - |ps| * n
    decreases |ps|
  {
    if ps != [] {
      ExciseLength(s, ps[1..], n, ps[0] + n);
    }
  }

  /** The match positions the scan of `RemoveFrom` deletes. */
  function PlanFrom(s: string, w: string, i: nat): (ps: seq<nat>)
    requires w != [] && i <= |s|
    decreases |s| - i
  {
    if i == |s| then []
    else if MatchAt(s, w, i) then [i] + PlanFrom(s, w, i + |w|)
    else PlanFrom(s, w, i + 1)
  }

  /** No match starts at the end of the text, so only the empty plan is valid there. */
  lemma ValidPlanAtEnd(s: string, w: string, ps: seq<nat>)
    requires w != []
    ensures ValidPlanFrom(s, w, |s|, [])
    ensures ValidPlanFrom(s, w, |s|, ps) ==> ps == []
  {
    assert forall q: nat :: |s| <= q ==> !MatchAt(s, w, q);
  }

  /** A match at `i` followed by a valid plan after it is a valid plan from `i`. */
  lemma ValidPlanTake(s: string, w: string, i: nat, rest: seq<nat>)
    requires MatchAt(s, w, i)
    requires ValidPlanFrom(s, w, i + |w|, rest)
    ensures ValidPlanFrom(s, w, i, [i] + rest)
  {
    var ps := [i] + rest;
    forall q: nat | i <= q && MatchAt(s, w, q) && q !in ps
      ensures Covered(ps, |w|, q)
    {
      if q < i + |w| {
        assert ps[0] < q < ps[0] + |w|;
      } else {
        assert q !in rest;
        var k :| 0 <= k < |rest| && rest[k] < q < rest[k] + |w|;
        assert ps[k + 1] == rest[k];
      }
    }
  }

  /** Where no match starts at `i`, the valid plans from `i` and from `i + 1` agree. */
  lemma ValidPlanSkip(s: string, w: string, i: nat, ps: seq<nat>)
    requires !MatchAt(s, w, i)
    ensures ValidPlanFrom(s, w, i + 1, ps) ==> ValidPlanFrom(s, w, i, ps)
    ensures ValidPlanFrom(s, w, i, ps) ==> ValidPlanFrom(s, w, i + 1, ps)
  {
    if ValidPlanFrom(s, w, i, ps) && ps != [] {
      assert MatchAt(s, w, ps[0]);
    }
  }

  /** Where a match starts at `i`, every valid plan from `i` deletes it first. */
  lemma ValidPlanHead(s: string, w: string, i: nat, ps: seq<nat>)
    requires w != []
    requires MatchAt(s, w, i)
    requires ValidPlanFrom(s, w, i, ps)
    ensures ps != [] && ps[0] == i && ValidPlanFrom(s, w, i + |w|, ps[1..])
  {
    ValidPlanStartsAtMatch(s, w, i, ps);
    ValidPlanTail(s, w, i, ps);
  }

  lemma ValidPlanStartsAtMatch(s: string, w: string, i: nat, ps: seq<nat>)
    requires w != []
    requires MatchAt(s, w, i)
    requires ValidPlanFrom(s, w, i, ps)
    ensures ps != [] && ps[0] == i
  {
    SpacedBounds(s, |w|, i, ps);
    assert i in ps;
    var j :| 0 <= j < |ps| && ps[j] == i;
    assert j == 0;
  }

  lemma ValidPlanTail(s: string, w: string, i: nat, ps: seq<nat>)
    requires w != []
    requires ps != [] && ps[0] == i
    requires ValidPlanFrom(s, w, i, ps)
    ensures ValidPlanFrom(s, w, i + |w|, ps[1..])
  {
    var rest := ps[1..];
    assert ps == [i] + rest;
    forall k | 0 <= k < |rest|
      ensures MatchAt(s, w, rest[k])
    {
      assert rest[k] == ps[k + 1];
    }
    forall q: nat | i + |w| <= q && MatchAt(s, w, q) && q !in rest
      ensures Covered(rest, |w|, q)
    {
      assert q != ps[0] && q !in ps;
      var k :| 0 <= k < |ps| && ps[k] < q < ps[k] + |w|;
      assert rest[k - 1] == ps[k];
    }
  }

  /** The positions the scan deletes form a valid plan. */
  lemma {:induction false} PlanFromValid(s: string, w: string, i: nat)
    requires w != [] && i <= |s|
    ensures ValidPlanFrom(s, w, i, PlanFrom(s, w, i))
    decreases |s| - i
  {
    if i == |s| {
      ValidPlanAtEnd(s, w, []);
    } else if MatchAt(s, w, i) {
      PlanFromValid(s, w, i + |w|);
      ValidPlanTake(s, w, i, PlanFrom(s, w, i + |w|));
    } else {
      PlanFromValid(s, w, i + 1);
      ValidPlanSkip(s, w, i, PlanFrom(s, w, i + 1));
    }
  }

  /** There is only one valid plan: the scan's. */
  lemma {:induction false} PlanFromUnique(s: string, w: string, i: nat, ps: seq<nat>)
    requires w != [] && i <= |s|
    requires ValidPlanFrom(s, w, i, ps)
    ensures ps == PlanFrom(s, w, i)
    decreases |s| - i, 1
  {
    if i == |s| {
      ValidPlanAtEnd(s, w, ps);
    } else if MatchAt(s, w, i) {
      PlanFromUniqueAtMatch(s, w, i, ps);
    } else {
      ValidPlanSkip(s, w, i, ps);
      PlanFromUnique(s, w, i + 1, ps);
    }
  }

  /** The step of `PlanFromUnique` where a match starts at `i`. */
  lemma {:induction false} PlanFromUniqueAtMatch(s: string, w: string, i: nat, ps: seq<nat>)
    requires w != [] && i < |s| && MatchAt(s, w, i)
    requires ValidPlanFrom(s, w, i, ps)
    ensures ps == PlanFrom(s, w, i)
    decreases |s| - i, 0
  {
    ValidPlanHead(s, w, i, ps);
    var tail := ps[1..];
    PlanFromUnique(s, w, i + |w|, tail);
    assert ps == [i] + tail;
    assert PlanFrom(s, w, i) == [i] + PlanFrom(s, w, i + |w|);
  }

  /** Cutting out nothing before the first planned position keeps the character at `i`. */
  lemma ExciseKeeps(s: string, ps: seq<nat>, n: nat, i: nat)
    requires i < |s| && Spaced(s, n, i + 1, ps)
    ensures Spaced(s, n, i, ps)
    ensures ExciseFrom(s, ps, n, i) == [s[i]] + ExciseFrom(s, ps, n, i + 1)
  {
    if ps == [] {
      assert s[i..] == [s[i]] + s[i + 1..];
    } else {
      var rest := ExciseFrom(s, ps[1..], n, ps[0] + n);
      assert ExciseFrom(s, ps, n, i + 1) == s[i + 1..ps[0]] + rest;
      assert ExciseFrom(s, ps, n, i) == s[i..ps[0]] + rest;
      assert s[i..ps[0]] == [s[i]] + s[i + 1..ps[0]];
    }
  }

  /** Cutting out an occurrence at `i` resumes the text after it. */
  lemma ExciseSkips(s: string, rest: seq<nat>, n: nat, i: nat)
    requires i + n <= |s| && Spaced(s, n, i + n, rest)
    ensures Spaced(s, n, i, [i] + rest)
    ensures ExciseFrom(s, [i] + rest, n, i) == ExciseFrom(s, rest, n, i + n)
  {
    assert ([i] + rest)[1..] == rest;
    assert s[i..i] == [];
  }

  /** The scan keeps exactly the text outside the planned occurrences. */
  lemma {:induction false} RemoveFromIsExcise(s: string, w: string, i: nat)
    requires w != [] && i <= |s|
    ensures Spaced(s, |w|, i, PlanFrom(s, w, i))
    ensures RemoveFrom(s, w, i) == ExciseFrom(s, PlanFrom(s, w, i), |w|, i)
    decreases |s| - i, 1
  {
    if i == |s| {
      assert PlanFrom(s, w, i) == [];
    } else if MatchAt(s, w, i) {
      RemoveFromIsExciseAtMatch(s, w, i);
    } else {
      RemoveFromIsExciseNoMatch(s, w, i);
    }
  }

  /** The step of `RemoveFromIsExcise` where a match starts at `i`. */
  lemma {:induction false} RemoveFromIsExciseAtMatch(s: string, w: string, i: nat)
    requires w != [] && i < |s| && MatchAt(s, w, i)
    ensures Spaced(s, |w|, i, PlanFrom(s, w, i))
    ensures RemoveFrom(s, w, i) == ExciseFrom(s, PlanFrom(s, w, i), |w|, i)
    decreases |s| - i, 0
  {
    var rest := PlanFrom(s, w, i + |w|);
    assert PlanFrom(s, w, i) == [i] + rest;
    var r := RemoveFrom(s, w, i + |w|);
    assert RemoveFrom(s, w, i) == r;
    RemoveFromIsExcise(s, w, i + |w|);
    ExciseSkips(s, rest, |w|, i);
  }

  /** The step of `RemoveFromIsExcise` where no match starts at `i`. */
  lemma {:induction false} RemoveFromIsExciseNoMatch(s: string, w: string, i: nat)
    requires w != [] && i < |s| && !MatchAt(s, w, i)
    ensures Spaced(s, |w|, i, PlanFrom(s, w, i))
    ensures RemoveFrom(s, w, i) == ExciseFrom(s, PlanFrom(s, w, i), |w|, i)
    decreases |s| - i, 0
  {
    var rest := PlanFrom(s, w, i + 1);
    assert PlanFrom(s, w, i) == rest;
    var r := RemoveFrom(s, w, i + 1);
    assert RemoveFrom(s, w, i) == [s[i]] + r;
    RemoveFromIsExcise(s, w, i + 1);
    ExciseKeeps(s, rest, |w|, i);
  }

  /** Word removal deletes exactly the occurrences of a valid plan -- the
      boundary-delimited, left-to-right, non-overlapping matches -- and keeps
      every other character in order; such a plan always exists. */
  lemma RemoveWordDeletesExactlyMatches(s: string, w: string, ps: seq<nat>)
    requires w != []
    ensures ValidPlan(s, w, PlanFrom(s, w, 0))
    ensures ValidPlan(s, w, ps) ==>
      ps == PlanFrom(s, w, 0) && RemoveWord(s, w) == ExciseFrom(s, ps, |w|, 0)
  {
    PlanFromValid(s, w, 0);
    RemoveFromIsExcise(s, w, 0);
    if ValidPlan(s, w, ps) {
      PlanFromUnique(s, w, 0, ps);
    }
  }

  /** The scan only deletes: its result is an order-preserving subsequence. */
  lemma {:induction false} RemoveFromIsSubseq(s: string, w: string, i: nat)
    requires w != [] && i <= |s|
    ensures IsSubseq(RemoveFrom(s, w, i), s[i..])
    decreases |s| - i
  {
    if i == |s| {
      assert RemoveFrom(s, w, i) == [];
    } else if MatchAt(s, w, i) {
      var r := RemoveFrom(s, w, i + |w|);
      assert RemoveFrom(s, w, i) == r;
      RemoveFromIsSubseq(s, w, i + |w|);
      SubseqPrepend(r, s[i..i + |w|], s[i + |w|..]);
      SliceSplit(s, i, i + |w|);
    } else {
      var r := RemoveFrom(s, w, i + 1);
      assert RemoveFrom(s, w, i) == [s[i]] + r;
      RemoveFromIsSubseq(s, w, i + 1);
      SubseqCons(s[i], r, s[i + 1..]);
      assert s[i..] == [s[i]] + s[i + 1..];
    }
  }

  /** Removal deletes characters and adds none. */
  lemma RemoveWordOnlyDeletes(s: string, w: string)
    requires w != []
    ensures multiset(RemoveWord(s, w)) <= multiset(s)
  {
    RemoveFromIsSubseq(s, w, 0);
    assert s[0..] == s;
    SubseqShrinks(RemoveWord(s, w), s);
  }

  lemma SliceSplit(s: string, i: nat, j: nat)
    requires i <= j <= |s|
    ensures s[i..j] + s[j..] == s[i..]
  {
  }

  /** A word that matches at exactly one position is cut out there and nowhere else. */
  lemma RemoveSingleMatch(s: string, w: string, p: nat)
    requires w != [] && MatchAt(s, w, p)
    requires forall q: nat :: MatchAt(s, w, q) ==> q == p
    ensures RemoveWord(s, w) == s[..p] + s[p + |w|..]
  {
    assert ValidPlan(s, w, [p]);
    RemoveWordDeletesExactlyMatches(s, w, [p]);
    assert s[0..p] == s[..p];
  }

  /** Where the word never matches, removal returns the text unchanged. */
  lemma NoMatchKeepsText(s: string, w: string)
    requires w != []
    requires forall q: nat :: !MatchAt(s, w, q)
    ensures RemoveWord(s, w) == s
  {
    assert ValidPlan(s, w, []);
    RemoveWordDeletesExactlyMatches(s, w, []);
    assert s[0..] == s;
  }

  /** The text is lower case at this point, so a word with an upper-case ASCII
      letter never matches and removes nothing. */
  lemma UpperCaseWordRemovesNothing(s: string, w: string)
    requires forall j :: 0 <= j < |s| ==> !IsUpper(s[j])
    requires exists j :: 0 <= j < |w| && IsUpper(w[j])
    ensures w != [] && RemoveWord(s, w) == s
  {
    var j :| 0 <= j < |w| && IsUpper(w[j]);
    forall q: nat | MatchAt(s, w, q)
      ensures false
    {
      // `w[j]` is upper-case, but the text character it would have to equal is not.
    }
    NoMatchKeepsText(s, w);
  }
}
