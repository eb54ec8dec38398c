/**
  The post-processing of the "get project progress" call: the records of the
  (already fully paginated) response are collected and sorted so that
  translation progress never increases along the list; a failed call yields
  no list at all.
 */
module Progress {
  import opened Wrappers

  /** One language of the project, as far as the action reads it. */
  datatype Language = Language(languageId: string, translationProgress: int)

  /** One element of the response's `data` array; the record itself sits in its `data` field. */
  datatype ResponseItem = ResponseItem(data: Language)

  /** The records carried by a response, in response order. */
  function Payloads(items: seq<ResponseItem>): (r: seq<Language>)
    ensures |r| == |items|
    ensures forall k :: 0 <= k < |items| ==> r[k] == items[k].data
  {
    if |items| == 0 then [] else Payloads(items[..|items| - 1]) + [items[|items| - 1].data]
  }

  /** Progress never increases from one entry to any later one. */
  ghost predicate SortedByProgress(s: seq<Language>) {
    forall i, j :: 0 <= i < j < |s| ==> s[i].translationProgress >= s[j].translationProgress
  }

  /**
    The comparator handed to `sort`: positive ("b goes first") when a has less
    progress than b, and -1 otherwise, even for equal progress.
   */
  function Compare(a: Language, b: Language): (r: int)
    ensures r != 0
    ensures r > 0 <==> a.translationProgress < b.translationProgress
  {
    if a.translationProgress < b.translationProgress then 1 else -1
  }

  /** The comparator is not antisymmetric on ties: both orders answer -1, so tie order is left to the sort. */
  lemma CompareTies(a: Language, b: Language)
    requires a.translationProgress == b.translationProgress
    ensures Compare(a, b) == Compare(b, a) == -1
  {
  }

  /** Progress never increases within a[lo..hi). */
  ghost predicate SortedRange(a: array<Language>, lo: int, hi: int)
    reads a
  {
    forall k, l :: lo <= k < l < hi && 0 <= k && l < a.Length ==>
      a[k].translationProgress >= a[l].translationProgress
  }

  /** Two sequences with the same elements and the same rest after position n have the same elements before it. */
  lemma PrefixMultiset(pre: seq<Language>, post: seq<Language>, n: int)
    requires 0 <= n <= |pre| == |post|
    requires multiset(post) == multiset(pre)
    requires post[n..] == pre[n..]
    ensures multiset(post[..n]) == multiset(pre[..n])
  {
    assert pre == pre[..n] + pre[n..];
    assert post == post[..n] + post[n..];
    forall x | true
      ensures multiset(post[..n])[x] == multiset(pre[..n])[x]
    {
      assert multiset(post)[x] == multiset(post[..n])[x] + multiset(post[n..])[x];
      assert multiset(pre)[x] == multiset(pre[..n])[x] + multiset(pre[n..])[x];
    }
  }

  /** s with its neighbours at j-1 and j exchanged. */
  function Swapped(s: seq<Language>, j: int): (r: seq<Language>)
    requires 0 < j < |s|
    ensures |r| == |s|
    ensures multiset(r) == multiset(s)
  {
    assert s == s[..j - 1] + [s[j - 1], s[j]] + s[j + 1..];
    s[..j - 1] + [s[j], s[j - 1]] + s[j + 1..]
  }

  /**
    The state of the insertion of s[i]: s[..i+1] is non-increasing once the
    element at j, the one being moved, is left out, and that element is
    at least every later element of the prefix.
   */
  ghost predicate Inserting(s: seq<Language>, i: int, j: int) {
    0 <= j <= i < |s| &&
    (forall k, l :: 0 <= k < l <= i && k != j && l != j ==> s[k].translationProgress >= s[l].translationProgress) &&
    (forall l :: j < l <= i ==> s[j].translationProgress >= s[l].translationProgress)
  }

  /** Moving the element at j one place left past a smaller neighbour keeps the insertion state. */
  lemma SwapLeftKeepsInserting(s: seq<Language>, i: int, j: int)
    requires Inserting(s, i, j) && j > 0
    requires s[j - 1].translationProgress < s[j].translationProgress
    ensures Inserting(Swapped(s, j), i, j - 1)
    ensures Swapped(s, j)[i + 1..] == s[i + 1..]
  {
    var r := Swapped(s, j);
    assert forall k :: 0 <= k < |s| && k != j - 1 && k != j ==> r[k] == s[k];
    assert r[j - 1] == s[j] && r[j] == s[j - 1];
  }

  /** The insertion is finished once the moved element has no smaller neighbour on its left. */
  lemma InsertingDone(s: seq<Language>, i: int, j: int)
    requires Inserting(s, i, j)
    requires j == 0 || s[j - 1].translationProgress >= s[j].translationProgress
    ensures forall k, l :: 0 <= k < l <= i ==> s[k].translationProgress >= s[l].translationProgress
  {
  }

  /** Exchanges two neighbouring elements. */
  method SwapWithLeft(a: array<Language>, j: int)
    requires 0 < j < a.Length
    modifies a
    ensures a[..] == Swapped(old(a[..]), j)
  {
    a[j - 1], a[j] := a[j], a[j - 1];
  }

  /**
    One step of the sort: a[i] moves left past every neighbour that the
    comparator puts after it, so that a[..i+1] is sorted.
   */
  method InsertLeft(a: array<Language>, i: int)
    requires 0 <= i < a.Length
    requires SortedRange(a, 0, i)
    modifies a
    ensures SortedRange(a, 0, i + 1)
    ensures multiset(a[..i + 1]) == old(multiset(a[..i + 1]))
    ensures a[i + 1..] == old(a[i + 1..])
    ensures multiset(a[..]) == old(multiset(a[..]))
  {
    var j := i;
    assert Inserting(a[..], i, j);
    while j > 0 && Compare(a[j - 1], a[j]) > 0
      invariant Inserting(a[..], i, j)
      invariant a[i + 1..] == old(a[i + 1..])
      invariant multiset(a[..]) == old(multiset(a[..]))
    {
      SwapLeftKeepsInserting(a[..], i, j);
      SwapWithLeft(a, j);
      j := j - 1;
    }
    InsertingDone(a[..], i, j);
    PrefixMultiset(old(a[..]), a[..], i + 1);
  }

  /**
    In-place sort of the collected records with the comparator above, so that
    progress never increases along the array.
   */
  method SortByProgress(a: array<Language>)
    modifies a
    ensures SortedByProgress(a[..])
    ensures multiset(a[..]) == old(multiset(a[..]))
  {
    var i := 0;
    while i < a.Length
      invariant 0 <= i <= a.Length
      invariant SortedRange(a, 0, i)
      invariant multiset(a[..]) == old(multiset(a[..]))
    {
      InsertLeft(a, i);
      i := i + 1;
    }
  }

  /**
    `getLanguagesProgress` after the network call: None for the `.catch`
    path, otherwise the response's records sorted by non-increasing progress.
   */
  method GetLanguagesProgress(response: Option<seq<ResponseItem>>) returns (languages: Option<seq<Language>>)
    ensures languages.Some? <==> response.Some?
    ensures response.Some? ==> SortedByProgress(languages.value)
    ensures response.Some? ==> multiset(languages.value) == multiset(Payloads(response.value))
  {
    if response.None? {
      return None;
    }
    var items := response.value;
    var collected := new Language[|items|];
    var i := 0;
    while i < |items|
      invariant 0 <= i <= |items|
      invariant collected[..i] == Payloads(items)[..i]
    {
      collected[i] := items[i].data;
      i := i + 1;
    }
    assert collected[..] == Payloads(items);
    SortByProgress(collected);
    languages := Some(collected[..]);
  }
}
