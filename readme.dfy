/**
  The file update: the rendered markdown is wrapped in the START/END marker
  comments and replaces, through `String.prototype.replace` with the regular
  expression /START.*END/gs, the text from a START marker to an END marker;
  the whole file is then written back.
 */
module Readme {
  import opened Wrappers

  /** What the two markers have in common. */
  const MarkerPrefix: string := "<!-- CROWDIN-TRANSLATIONS-PROGRESS-ACTION-"
  const StartMarker: string := MarkerPrefix + "START -->"
  const EndMarker: string := MarkerPrefix + "END -->"

  /** The replacement text: the markdown between the two markers, each on its own line. */
  function Wrap(markdown: string): string {
    StartMarker + "\n" + markdown + "\n" + EndMarker
  }

  predicate OccursAt(s: string, pat: string, i: int) {
    0 <= i && i + |pat| <= |s| && s[i..i + |pat|] == pat
  }

  /** The largest position in lo..hi at which pat occurs in s. */
  function LastOccurrence(s: string, pat: string, lo: nat, hi: int): (r: Option<nat>)
    ensures r.Some? ==> lo <= r.value <= hi && OccursAt(s, pat, r.value)
    ensures r.Some? ==> forall k :: r.value < k <= hi ==> !OccursAt(s, pat, k)
    ensures r.None? ==> forall k :: lo <= k <= hi ==> !OccursAt(s, pat, k)
    decreases hi - lo
  {
    if hi < lo then None
    else if OccursAt(s, pat, hi) then Some(hi)
    else LastOccurrence(s, pat, lo, hi - 1)
  }

  /**
    Where a match of /START.*END/s that begins at p ends: `.` matches every
    character under the s flag and `.*` is greedy, so the match runs to the
    end of the LAST END marker that begins after the START marker at p.
   */
  function MatchAt(s: string, p: nat): (r: Option<nat>)
    ensures r.Some? ==> OccursAt(s, StartMarker, p)
    ensures r.Some? ==> p + |StartMarker| + |EndMarker| <= r.value <= |s|
    ensures r.Some? ==> OccursAt(s, EndMarker, r.value - |EndMarker|)
  {
    if !OccursAt(s, StartMarker, p) then None
    else match LastOccurrence(s, EndMarker, p + |StartMarker|, |s| - |EndMarker|)
      case None => None
      case Some(q) => Some(q + |EndMarker|)
  }

  /** The match ends with the last END marker of s. */
  lemma MatchEndsWithLastEnd(s: string, p: nat)
    requires MatchAt(s, p).Some?
    ensures forall q :: MatchAt(s, p).value - |EndMarker| < q ==> !OccursAt(s, EndMarker, q)
  {
  }

  /** No match starts at p exactly when p holds no START marker or no END marker begins after it. */
  lemma NoMatchAt(s: string, p: nat)
    ensures MatchAt(s, p).None? <==> !OccursAt(s, StartMarker, p) ||
                                     forall q :: p + |StartMarker| <= q ==> !OccursAt(s, EndMarker, q)
  {
  }

  /** The leftmost match that begins at or after from, as (start, end). */
  function Search(s: string, from: nat): (r: Option<(nat, nat)>)
    requires from <= |s|
    ensures r.Some? ==> from <= r.value.0 && MatchAt(s, r.value.0) == Some(r.value.1)
    ensures forall p :: from <= p <= |s| && (r.None? || p < r.value.0) ==> MatchAt(s, p).None?
    decreases |s| - from
  {
    match MatchAt(s, from)
    case Some(e) => Some((from, e))
    case None => if from == |s| then None else Search(s, from + 1)
  }

  /**
    The replacement text after ECMAScript's substitution of `$` patterns,
    for a pattern without capture groups: `$$` is '$', `$&` the matched
    text, `` $` `` the text before the match and `$'` the text after it;
    every other '$' stands for itself.
   */
  function Substitute(replacement: string, matched: string, before: string, after: string): string
    decreases |replacement|
  {
    if |replacement| == 0 then ""
    else if replacement[0] == '$' && |replacement| >= 2 && replacement[1] in "$&`'" then
      var expansion := match replacement[1]
        case '$' => "$"
        case '&' => matched
        case '`' => before
        case _ => after;
      expansion + Substitute(replacement[2..], matched, before, after)
    else [replacement[0]] + Substitute(replacement[1..], matched, before, after)
  }

  /** The global replace from position from on: every match, left to right, each search resuming after the last match. */
  function ReplaceFrom(s: string, replacement: string, from: nat): string
    requires from <= |s|
    decreases |s| - from
  {
    match Search(s, from)
    case None => s[from..]
    case Some((p, e)) =>
      s[from..p] + Substitute(replacement, s[p..e], s[..p], s[e..]) + ReplaceFrom(s, replacement, e)
  }

  /** `s.replace(/START.*END/gs, replacement)` */
  function RegexReplace(s: string, replacement: string): string {
    ReplaceFrom(s, replacement, 0)
  }

  /** The facts about the markers' characters that the proofs below use. */
  lemma MarkerCharacters()
    ensures |StartMarker| > 0 && StartMarker[0] == '<' && forall t :: 0 < t < |StartMarker| ==> StartMarker[t] != '<'
    ensures |EndMarker| > 0 && EndMarker[0] == '<' && forall t :: 0 < t < |EndMarker| ==> EndMarker[t] != '<'
    ensures '$' !in StartMarker && '$' !in EndMarker
  {
    assert MarkerPrefix[0] == '<' && (forall t :: 0 < t < |MarkerPrefix| ==> MarkerPrefix[t] != '<') && '$' !in MarkerPrefix;
  }

  /** A replacement without '$' is inserted literally. */
  lemma {:induction false} SubstituteLiteral(replacement: string, matched: string, before: string, after: string)
    requires '$' !in replacement
    ensures Substitute(replacement, matched, before, after) == replacement
    decreases |replacement|
  {
    if |replacement| > 0 {
      assert replacement[0] in replacement;
      assert forall c :: c in replacement[1..] ==> c in replacement;
      SubstituteLiteral(replacement[1..], matched, before, after);
      assert replacement == [replacement[0]] + replacement[1..];
    }
  }

  lemma {:induction false} SearchSkips(s: string, from: nat, i: nat)
    requires from <= i <= |s|
    requires forall p :: from <= p < i ==> MatchAt(s, p).None?
    ensures Search(s, from) == Search(s, i)
    decreases i - from
  {
    if from < i {
      assert Search(s, from) == Search(s, from + 1) by {
        assert MatchAt(s, from).None?;
      }
      SearchSkips(s, from + 1, i);
    }
  }

  /**
    When i is the first START marker and j the last END marker, with j after
    the START marker, the expression matches exactly s[i..j + |END|], and
    nothing after that match matches again: the g flag makes no difference.
   */
  lemma FirstMatchIsWholeRegion(s: string, i: nat, j: nat)
    requires OccursAt(s, StartMarker, i) && forall k :: 0 <= k < i ==> !OccursAt(s, StartMarker, k)
    requires i + |StartMarker| <= j && OccursAt(s, EndMarker, j) && forall k :: j < k ==> !OccursAt(s, EndMarker, k)
    ensures Search(s, 0) == Some((i, j + |EndMarker|))
    ensures Search(s, j + |EndMarker|).None?
  {
    SearchSkips(s, 0, i);
    var e := j + |EndMarker|;
    match MatchAt(s, i)
    case None =>
      assert false;
    case Some(e') =>
      assert e' - |EndMarker| == j;
    if Search(s, e).Some? {
      assert false;
    }
  }

  /**
    The replace keeps the text before the first START marker and after the
    last END marker, and puts the substituted replacement in between.
   */
  lemma ReplaceRegion(s: string, replacement: string, i: nat, j: nat)
    requires OccursAt(s, StartMarker, i) && forall k :: 0 <= k < i ==> !OccursAt(s, StartMarker, k)
    requires i + |StartMarker| <= j && OccursAt(s, EndMarker, j) && forall k :: j < k ==> !OccursAt(s, EndMarker, k)
    ensures var e := j + |EndMarker|;
            RegexReplace(s, replacement) == s[..i] + Substitute(replacement, s[i..e], s[..i], s[e..]) + s[e..]
  {
    FirstMatchIsWholeRegion(s, i, j);
    var e := j + |EndMarker|;
    assert ReplaceFrom(s, replacement, e) == s[e..];
    assert s[0..i] == s[..i];
  }

  /** Without a START marker followed by an END marker the text is returned unchanged. */
  lemma ReplaceNoRegion(s: string, replacement: string)
    requires forall i, j :: OccursAt(s, StartMarker, i) && OccursAt(s, EndMarker, j) ==> j < i + |StartMarker|
    ensures RegexReplace(s, replacement) == s
  {
    match Search(s, 0)
    case None =>
      assert s[0..] == s;
    case Some(_) =>
      assert false;
  }

  /**
    Writing markdown into a file with a marked region: the text before the
    first START marker and after the last END marker is kept byte for byte,
    and the region, every marker inside it included, becomes the wrapped
    markdown.
   */
  lemma SpliceMarkedRegion(contents: string, markdown: string, i: nat, j: nat)
    requires OccursAt(contents, StartMarker, i) && forall k :: 0 <= k < i ==> !OccursAt(contents, StartMarker, k)
    requires i + |StartMarker| <= j && OccursAt(contents, EndMarker, j) && forall k :: j < k ==> !OccursAt(contents, EndMarker, k)
    requires '$' !in markdown
    ensures RegexReplace(contents, Wrap(markdown)) == contents[..i] + Wrap(markdown) + contents[j + |EndMarker|..]
  {
    ReplaceRegion(contents, Wrap(markdown), i, j);
    MarkerCharacters();
    assert '$' !in Wrap(markdown) by {
      assert forall c :: c in Wrap(markdown) ==> c in StartMarker || c == '\n' || c in markdown || c in EndMarker;
    }
    var e := j + |EndMarker|;
    SubstituteLiteral(Wrap(markdown), contents[i..e], contents[..i], contents[e..]);
  }

  /**
    The match found in s starts at the first START marker and ends with the
    last END marker.
   */
  lemma MatchIsFirstStartLastEnd(s: string, i: nat, e: nat)
    requires Search(s, 0) == Some((i, e))
    ensures OccursAt(s, StartMarker, i) && forall k :: 0 <= k < i ==> !OccursAt(s, StartMarker, k)
    ensures i + |StartMarker| <= e - |EndMarker| && OccursAt(s, EndMarker, e - |EndMarker|)
    ensures forall k :: e - |EndMarker| < k ==> !OccursAt(s, EndMarker, k)
  {
    var j := e - |EndMarker|;
    var m := MatchAt(s, i);
    assert m == Some(e);
    assert forall k :: m.value - |EndMarker| < k ==> !OccursAt(s, EndMarker, k);
    forall k | 0 <= k < i
      ensures !OccursAt(s, StartMarker, k)
    {
      NoMatchNoStart(s, k, j);
    }
  }

  /** No match starts at k although an END marker begins far enough after k: so no START is at k. */
  lemma NoMatchNoStart(s: string, k: nat, j: nat)
    requires MatchAt(s, k).None? && OccursAt(s, EndMarker, j) && k + |StartMarker| <= j
    ensures !OccursAt(s, StartMarker, k)
  {
  }

  /** In a + Wrap(markdown) + b, the first START marker is the inserted one when a holds none. */
  lemma InsertedStartIsFirst(a: string, markdown: string, b: string)
    requires forall k :: 0 <= k && k + |StartMarker| <= |a| ==> !OccursAt(a, StartMarker, k)
    ensures var r := a + Wrap(markdown) + b;
            OccursAt(r, StartMarker, |a|) && forall k :: 0 <= k < |a| ==> !OccursAt(r, StartMarker, k)
  {
    var w := Wrap(markdown);
    var r := a + w + b;
    MarkerCharacters();
    assert w[..|StartMarker|] == StartMarker;
    assert r[|a|..|a| + |StartMarker|] == StartMarker;
    assert r[|a|] == '<';
    forall k | 0 <= k < |a|
      ensures !OccursAt(r, StartMarker, k)
    {
      if k + |StartMarker| <= |a| {
        assert r[k..k + |StartMarker|] == a[k..k + |StartMarker|];
        assert !OccursAt(a, StartMarker, k);
      } else if k + |StartMarker| <= |r| {
        assert r[k..k + |StartMarker|][|a| - k] == r[|a|] == '<';
        assert StartMarker[|a| - k] != '<';
      }
    }
  }

  /** In a + Wrap(markdown) + b, the last END marker is the inserted one when b holds none. */
  lemma InsertedEndIsLast(a: string, markdown: string, b: string)
    requires forall k :: !OccursAt(b, EndMarker, k)
    ensures var r := a + Wrap(markdown) + b;
            var j := |a| + |Wrap(markdown)| - |EndMarker|;
            |a| + |StartMarker| <= j && OccursAt(r, EndMarker, j) && forall k :: j < k ==> !OccursAt(r, EndMarker, k)
  {
    var w := Wrap(markdown);
    var r := a + w + b;
    var j := |a| + |w| - |EndMarker|;
    MarkerCharacters();
    assert w[|w| - |EndMarker|..] == EndMarker;
    assert r[j..j + |EndMarker|] == EndMarker;
    forall k | j < k
      ensures !OccursAt(r, EndMarker, k)
    {
      if k >= |a| + |w| {
        var k' := k - (|a| + |w|);
        assert k + |EndMarker| <= |r| ==> r[k..k + |EndMarker|] == b[k'..k' + |EndMarker|];
        assert !OccursAt(b, EndMarker, k');
      } else if k + |EndMarker| <= |r| {
        assert r[k..k + |EndMarker|][0] == r[k] == EndMarker[k - j] != '<';
      }
    }
  }

  lemma PrefixHoldsNoStart(s: string, i: nat)
    requires i <= |s| && forall k :: 0 <= k < i ==> !OccursAt(s, StartMarker, k)
    ensures forall k :: 0 <= k && k + |StartMarker| <= i ==> !OccursAt(s[..i], StartMarker, k)
  {
    forall k | 0 <= k && k + |StartMarker| <= i
      ensures !OccursAt(s[..i], StartMarker, k)
    {
      assert s[..i][k..k + |StartMarker|] == s[k..k + |StartMarker|];
      assert !OccursAt(s, StartMarker, k);
    }
  }

  lemma SuffixHoldsNoEnd(s: string, j: nat)
    requires j + |EndMarker| <= |s| && forall k :: j < k ==> !OccursAt(s, EndMarker, k)
    ensures var b := s[j + |EndMarker|..]; forall k :: !OccursAt(b, EndMarker, k)
  {
    var e := j + |EndMarker|;
    forall k | 0 <= k && k + |EndMarker| <= |s| - e
      ensures !OccursAt(s[e..], EndMarker, k)
    {
      assert s[e..][k..k + |EndMarker|] == s[e + k..e + k + |EndMarker|];
      assert !OccursAt(s, EndMarker, e + k);
    }
  }

  /**
    Running the update a second time with the same markdown leaves the file
    as the first run left it.
   */
  lemma SpliceIdempotent(contents: string, markdown: string)
    requires '$' !in markdown
    ensures RegexReplace(RegexReplace(contents, Wrap(markdown)), Wrap(markdown)) == RegexReplace(contents, Wrap(markdown))
  {
    var w := Wrap(markdown);
    match Search(contents, 0)
    case None =>
      assert contents[0..] == contents;
      assert RegexReplace(contents, w) == contents;
    case Some((i, e)) =>
      MatchIsFirstStartLastEnd(contents, i, e);
      SpliceIdempotentAt(contents, markdown, i, e - |EndMarker|);
  }

  /** Idempotence for a file whose first START marker is at i and whose last END marker is at j. */
  lemma SpliceIdempotentAt(contents: string, markdown: string, i: nat, j: nat)
    requires OccursAt(contents, StartMarker, i) && forall k :: 0 <= k < i ==> !OccursAt(contents, StartMarker, k)
    requires i + |StartMarker| <= j && OccursAt(contents, EndMarker, j) && forall k :: j < k ==> !OccursAt(contents, EndMarker, k)
    requires '$' !in markdown
    ensures RegexReplace(RegexReplace(contents, Wrap(markdown)), Wrap(markdown)) == RegexReplace(contents, Wrap(markdown))
  {
    SpliceMarkedRegion(contents, markdown, i, j);
    PrefixHoldsNoStart(contents, i);
    SuffixHoldsNoEnd(contents, j);
    ReplaceSplicedAgain(contents[..i], markdown, contents[j + |EndMarker|..]);
  }

  /** A file that was just updated holds its only START and last END around the inserted markdown. */
  lemma ReplaceSplicedAgain(a: string, markdown: string, b: string)
    requires forall k :: 0 <= k && k + |StartMarker| <= |a| ==> !OccursAt(a, StartMarker, k)
    requires forall k :: !OccursAt(b, EndMarker, k)
    requires '$' !in markdown
    ensures RegexReplace(a + Wrap(markdown) + b, Wrap(markdown)) == a + Wrap(markdown) + b
  {
    var w := Wrap(markdown);
    var r := a + w + b;
    InsertedStartIsFirst(a, markdown, b);
    InsertedEndIsLast(a, markdown, b);
    SpliceMarkedRegion(r, markdown, |a|, |a| + |w| - |EndMarker|);
    assert r[..|a|] == a;
    assert r[|a| + |w|..] == b;
  }

  /** The files the action can see, by path. */
  class FileSystem {
    var files: map<string, string>

    constructor (files: map<string, string>)
      ensures this.files == files
    {
      this.files := files;
    }
  }

  function MissingFileMessage(file: string): string {
    "The file " + file + " doesn't exists"
  }

  /**
    `writeReadme`, with the target path passed in: a missing file fails
    before anything is written; otherwise the whole file is rewritten with
    the marked region replaced, and no other file changes.
   */
  method WriteReadme(fs: FileSystem, file: string, markdown: string) returns (outcome: Outcome<string>)
    modifies fs
    ensures file !in old(fs.files) ==> outcome == Fail(MissingFileMessage(file)) && fs.files == old(fs.files)
    ensures file in old(fs.files) ==>
              outcome == Pass && fs.files == old(fs.files)[file := RegexReplace(old(fs.files)[file], Wrap(markdown))]
  {
    if file !in fs.files {
      return Fail(MissingFileMessage(file));
    }
    var fileContents := fs.files[file];
    var wrapped := StartMarker + "\n" + markdown + "\n" + EndMarker;
    fileContents := RegexReplace(fileContents, wrapped);
    fs.files := fs.files[file := fileContents];
    outcome := Pass;
  }
}
