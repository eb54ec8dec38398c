/**
  The split of the language list by the completion threshold into the
  "Available" bucket (progress at or above it) and the "In progress" bucket
  (progress below it), each in list order, as `Array.prototype.filter` does.
 */
module Buckets {
  import opened Wrappers
  import opened Progress

  /** `s.filter(keep)`: the elements that satisfy keep, in their order in s. */
  function Filter(s: seq<Language>, keep: Language -> bool): (r: seq<Language>)
    ensures |r| <= |s|
    ensures forall k :: 0 <= k < |r| ==> keep(r[k])
  {
    if |s| == 0 then [] else (if keep(s[0]) then [s[0]] else []) + Filter(s[1..], keep)
  }

  /** r is obtained from s by deleting elements; what is left keeps its order. */
  ghost predicate IsSubsequence(r: seq<Language>, s: seq<Language>)
    decreases |s|
  {
    if |r| == 0 then true
    else if |s| == 0 then false
    else (r[0] == s[0] && IsSubsequence(r[1..], s[1..])) || IsSubsequence(r, s[1..])
  }

  /** The two filter predicates. */
  function AtLeast(threshold: int): Language -> bool {
    (l: Language) => l.translationProgress >= threshold
  }

  function Below(threshold: int): Language -> bool {
    (l: Language) => l.translationProgress < threshold
  }

  function AvailableBucket(s: seq<Language>, threshold: int): seq<Language> {
    Filter(s, AtLeast(threshold))
  }

  function InProgressBucket(s: seq<Language>, threshold: int): seq<Language> {
    Filter(s, Below(threshold))
  }

  /** `languages?.filter(...)`: an absent list stays absent. */
  function Available(languages: Option<seq<Language>>, threshold: int): (r: Option<seq<Language>>)
    ensures r.Some? <==> languages.Some?
  {
    if languages.None? then None else Some(AvailableBucket(languages.value, threshold))
  }

  function InProgress(languages: Option<seq<Language>>, threshold: int): (r: Option<seq<Language>>)
    ensures r.Some? <==> languages.Some?
  {
    if languages.None? then None else Some(InProgressBucket(languages.value, threshold))
  }

  /** filter keeps order: its result is a subsequence of its input. */
  lemma {:induction false} FilterIsSubsequence(s: seq<Language>, keep: Language -> bool)
    ensures IsSubsequence(Filter(s, keep), s)
    decreases |s|
  {
    if |s| > 0 {
      FilterIsSubsequence(s[1..], keep);
      var r := Filter(s, keep);
      if keep(s[0]) {
        assert r[0] == s[0] && r[1..] == Filter(s[1..], keep);
      } else {
        assert r == Filter(s[1..], keep);
        if |r| > 0 {
          assert IsSubsequence(r, s[1..]);
        }
      }
    }
  }

  /** Every element the filter keeps comes from its input. */
  lemma FilterMembers(s: seq<Language>, keep: Language -> bool)
    ensures forall x :: x in Filter(s, keep) ==> x in s
  {
    forall x | x in Filter(s, keep)
      ensures x in s
    {
      FilterCounts(s, keep, x);
    }
  }

  /** filter keeps every occurrence of every element that satisfies keep, and nothing else. */
  lemma {:induction false} FilterCounts(s: seq<Language>, keep: Language -> bool, x: Language)
    ensures multiset(Filter(s, keep))[x] == if keep(x) then multiset(s)[x] else 0
    decreases |s|
  {
    if |s| > 0 {
      FilterCounts(s[1..], keep, x);
      assert s == [s[0]] + s[1..];
    }
  }

  /** A filter that keeps everything returns its input; one that keeps nothing returns []. */
  lemma {:induction false} FilterAllOrNone(s: seq<Language>, keep: Language -> bool)
    ensures (forall k :: 0 <= k < |s| ==> keep(s[k])) ==> Filter(s, keep) == s
    ensures (forall k :: 0 <= k < |s| ==> !keep(s[k])) ==> Filter(s, keep) == []
    decreases |s|
  {
    if |s| > 0 {
      FilterAllOrNone(s[1..], keep);
      if forall k :: 0 <= k < |s| ==> keep(s[k]) {
        assert forall k :: 0 <= k < |s[1..]| ==> keep(s[1..][k]) by {
          forall k | 0 <= k < |s[1..]| ensures keep(s[1..][k]) { assert s[1..][k] == s[k + 1]; }
        }
        assert s == [s[0]] + s[1..];
      }
      if forall k :: 0 <= k < |s| ==> !keep(s[k]) {
        assert forall k :: 0 <= k < |s[1..]| ==> !keep(s[1..][k]) by {
          forall k | 0 <= k < |s[1..]| ensures !keep(s[1..][k]) { assert s[1..][k] == s[k + 1]; }
        }
      }
    }
  }

  /**
    The buckets partition the list: "Available" holds exactly the entries at
    or above the threshold and "In progress" exactly those below it, each a
    subsequence of the list, every entry landing in exactly one of them.
   */
  lemma BucketsPartition(s: seq<Language>, threshold: int)
    ensures forall k :: 0 <= k < |AvailableBucket(s, threshold)| ==>
              AvailableBucket(s, threshold)[k].translationProgress >= threshold
    ensures forall k :: 0 <= k < |InProgressBucket(s, threshold)| ==>
              InProgressBucket(s, threshold)[k].translationProgress < threshold
    ensures IsSubsequence(AvailableBucket(s, threshold), s)
    ensures IsSubsequence(InProgressBucket(s, threshold), s)
    ensures multiset(AvailableBucket(s, threshold)) + multiset(InProgressBucket(s, threshold)) == multiset(s)
    ensures |AvailableBucket(s, threshold)| + |InProgressBucket(s, threshold)| == |s|
  {
    FilterIsSubsequence(s, AtLeast(threshold));
    FilterIsSubsequence(s, Below(threshold));
    BucketsShareOut(s, threshold);
  }

  /** Every occurrence of an entry goes to exactly one bucket. */
  lemma BucketsShareOut(s: seq<Language>, threshold: int)
    ensures multiset(AvailableBucket(s, threshold)) + multiset(InProgressBucket(s, threshold)) == multiset(s)
    ensures |AvailableBucket(s, threshold)| + |InProgressBucket(s, threshold)| == |s|
  {
    var a := AvailableBucket(s, threshold);
    var b := InProgressBucket(s, threshold);
    forall x
      ensures (multiset(a) + multiset(b))[x] == multiset(s)[x]
    {
      FilterCounts(s, AtLeast(threshold), x);
      FilterCounts(s, Below(threshold), x);
    }
    assert multiset(a) + multiset(b) == multiset(s);
    assert |multiset(a) + multiset(b)| == |multiset(s)|;
  }

  /**
    On a list sorted by non-increasing progress, as the fetch step returns it,
    the two buckets are a prefix and the rest: "Available" followed by
    "In progress" is the list itself.
   */
  lemma {:induction false} SortedBucketsSplit(s: seq<Language>, threshold: int)
    requires SortedByProgress(s)
    ensures AvailableBucket(s, threshold) + InProgressBucket(s, threshold) == s
    decreases |s|
  {
    var available := AtLeast(threshold);
    var inProgress := Below(threshold);
    if |s| > 0 {
      if s[0].translationProgress >= threshold {
        assert SortedByProgress(s[1..]) by {
          forall i, j | 0 <= i < j < |s[1..]|
            ensures s[1..][i].translationProgress >= s[1..][j].translationProgress
          {
            assert s[1..][i] == s[i + 1] && s[1..][j] == s[j + 1];
          }
        }
        SortedBucketsSplit(s[1..], threshold);
        assert s == [s[0]] + s[1..];
      } else {
        FilterAllOrNone(s, available);
        FilterAllOrNone(s, inProgress);
      }
    }
  }
}
