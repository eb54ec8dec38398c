/**
  The renderer: each non-empty bucket becomes a titled HTML `<table>` whose
  cells are grouped into `<tr>` rows by a clamped row width, and the final
  markdown is the "Available" section followed by the "In progress" section.
 */
module Table {
  import opened Wrappers
  import opened Progress
  import opened Decimal
  import opened Buckets

  /** Where the flag images live: host, owner, repository, then the tag's flags directory. */
  const FlagHost: string := "https://raw.githubusercontent.com/"
  const FlagOwner: string := "benjaminjonard/"
  const FlagRepository: string := "crowdin-translations-progress-action/"
  const FlagBaseUrl: string := FlagHost + FlagOwner + FlagRepository + "1.0/flags/"

  /** The fixed parts of a cell, in output order. */
  const CellOpen: string := "<td align=\"center\" valign=\"top\">"
  const ImageOpen: string := "<img width=\"30px\" height=\"30px\" src=\""
  const ImageClose: string := "\"></div>"
  const LabelOpen: string := "<div align=\"center\" valign=\"top\">"
  const CellClose: string := "%</td>"
  const AvailableTitle: string := "Available"
  const InProgressTitle: string := "In progress"

  /** The text before the first cell of a section. */
  function SectionHeader(title: string): string {
    "\n\n" + "#### " + title + "\n\n" + "<table>"
  }

  /** The flag image of a language. */
  function FlagUrl(languageId: string): string {
    FlagBaseUrl + languageId + ".png"
  }

  /** One table cell: the flag image and the progress followed by '%'. */
  function CellHtml(l: Language): string {
    CellOpen + ImageOpen + FlagUrl(l.languageId) + ImageClose + LabelOpen + IntToString(l.translationProgress) + CellClose
  }

  /**
    JavaScript's `a % b` on integral numbers: the remainder of the division
    truncated toward zero, which takes the sign of a; None stands for NaN,
    the value of `a % 0`.
   */
  function JsRemainder(a: int, b: int): (r: Option<int>)
    ensures r.None? <==> b == 0
    ensures r.Some? && a >= 0 ==> 0 <= r.value < (if b < 0 then -b else b)
  {
    if b == 0 then None
    else
      var m := if b < 0 then -b else b;
      if a >= 0 then Some(a % m) else Some(-((-a) % m))
  }

  /**
    JsRemainder is the remainder of truncating division: it is smaller than
    |b| in magnitude, never has the opposite sign of a, and a minus it is a
    multiple of b.
   */
  lemma JsRemainderTruncates(a: int, b: int)
    requires b != 0
    ensures var r := JsRemainder(a, b).value; var m := if b < 0 then -b else b;
            -m < r < m && (a >= 0 ==> r >= 0) && (a <= 0 ==> r <= 0) && (a - r) % m == 0
  {
    var m := if b < 0 then -b else b;
    if a >= 0 {
      RemainderMultiple(a, m);
    } else {
      RemainderMultiple(-a, m);
      assert a - JsRemainder(a, b).value == -((-a) - (-a) % m);
      NegatedMultiple((-a) - (-a) % m, m);
    }
  }

  lemma RemainderMultiple(a: int, m: int)
    requires m > 0
    ensures (a - a % m) % m == 0
  {
    var q := a / m;
    assert a - a % m == m * q;
    DivModUnique(m * q, m, q, 0);
  }

  lemma NegatedMultiple(x: int, m: int)
    requires m > 0 && x % m == 0
    ensures (-x) % m == 0
  {
    var q := x / m;
    assert x == m * q;
    assert -x == m * (-q);
    DivModUnique(-x, m, -q, 0);
  }

  /** The row width clamped to the cell count: the smaller of the two. */
  function RowWidth(count: nat, languagesPerRow: int): (w: int)
    ensures w <= count && w <= languagesPerRow
    ensures w == count || w == languagesPerRow
  {
    if count < languagesPerRow then count else languagesPerRow
  }

  /** A row is opened before the cell with 1-based index i. */
  predicate OpensRow(i: int, w: int) {
    JsRemainder(i, w) == Some(1) || i == 1
  }

  /** A row is closed after the cell with 1-based index i. */
  predicate ClosesRow(i: int, w: int) {
    JsRemainder(i, w) == Some(0)
  }

  /** The pieces a section's table is made of, in output order. */
  datatype Piece = RowOpen | RowClose | Cell(language: Language)

  function PieceText(p: Piece): string {
    match p
    case RowOpen => "<tr>"
    case RowClose => "</tr>"
    case Cell(l) => CellHtml(l)
  }

  function Text(ps: seq<Piece>): string {
    if |ps| == 0 then "" else Text(ps[..|ps| - 1]) + PieceText(ps[|ps| - 1])
  }

  /** What the loop emits for the cell with 1-based index i. */
  function CellPieces(l: Language, i: int, w: int): seq<Piece> {
    (if OpensRow(i, w) then [RowOpen] else []) + [Cell(l)] + (if ClosesRow(i, w) then [RowClose] else [])
  }

  /** Everything between `<table>` and `</table>` for the given languages and row width. */
  function RowPieces(languages: seq<Language>, w: int): seq<Piece> {
    if |languages| == 0 then []
    else RowPieces(languages[..|languages| - 1], w) + CellPieces(languages[|languages| - 1], |languages|, w)
  }

  /** The languages whose cells appear in ps, in order. */
  function CellsOf(ps: seq<Piece>): seq<Language> {
    if |ps| == 0 then []
    else CellsOf(ps[..|ps| - 1]) + (if ps[|ps| - 1].Cell? then [ps[|ps| - 1].language] else [])
  }

  /** The text of a section: "" for an absent or empty bucket. */
  function TableSection(languages: Option<seq<Language>>, title: string, languagesPerRow: int): string {
    if languages.None? || |languages.value| == 0 then ""
    else
      var w := RowWidth(|languages.value|, languagesPerRow);
      SectionHeader(title) + Text(RowPieces(languages.value, w)) + "</table>"
  }

  lemma {:induction false} TextAppend(a: seq<Piece>, b: seq<Piece>)
    ensures Text(a + b) == Text(a) + Text(b)
    decreases |b|
  {
    if |b| == 0 {
      assert a + b == a;
    } else {
      var b' := b[..|b| - 1];
      var last := b[|b| - 1];
      assert (a + b)[..|a + b| - 1] == a + b';
      assert (a + b)[|a + b| - 1] == last;
      calc {
        Text(a + b);
        Text(a + b') + PieceText(last);
        { TextAppend(a, b'); }
        Text(a) + Text(b') + PieceText(last);
        { ConcatAssociative(Text(a), Text(b'), PieceText(last)); }
        Text(a) + (Text(b') + PieceText(last));
      }
    }
  }

  lemma {:induction false} CellsOfAppend(a: seq<Piece>, b: seq<Piece>)
    ensures CellsOf(a + b) == CellsOf(a) + CellsOf(b)
    decreases |b|
  {
    if |b| == 0 {
      assert a + b == a;
    } else {
      var b' := b[..|b| - 1];
      assert (a + b)[..|a + b| - 1] == a + b';
      assert (a + b)[|a + b| - 1] == b[|b| - 1];
      CellsOfAppend(a, b');
    }
  }

  lemma ConcatAssociative(a: string, b: string, c: string)
    ensures a + b + c == a + (b + c)
  {
  }

  /** The pieces for a prefix one longer extend those for the prefix by one step. */
  lemma RowPiecesStep(list: seq<Language>, index: nat, w: int)
    requires index < |list|
    ensures RowPieces(list[..index + 1], w) == RowPieces(list[..index], w) + CellPieces(list[index], index + 1, w)
  {
    assert list[..index + 1][..index] == list[..index];
  }

  /** Number of 1-based indices up to n before which a row is opened. */
  function OpenCount(n: nat, w: int): nat {
    if n == 0 then 0 else OpenCount(n - 1, w) + (if OpensRow(n, w) then 1 else 0)
  }

  /** Number of 1-based indices up to n after which a row is closed. */
  function CloseCount(n: nat, w: int): nat {
    if n == 0 then 0 else CloseCount(n - 1, w) + (if ClosesRow(n, w) then 1 else 0)
  }

  lemma {:induction false} MulAtLeast(m: int, k: nat)
    requires m > 0 && k >= 1
    ensures m * k >= m
    decreases k
  {
    if k > 1 {
      MulAtLeast(m, k - 1);
      assert m * k == m * (k - 1) + m;
    }
  }

  lemma DivModUnique(a: int, m: int, q: int, r: int)
    requires m > 0 && 0 <= r < m && a == m * q + r
    ensures a / m == q && a % m == r
  {
    var q', r' := a / m, a % m;
    assert a == m * q' + r';
    assert m * q - m * q' == r' - r;
    assert m * (q - q') == r' - r;
    if q > q' {
      MulAtLeast(m, q - q');
    } else if q < q' {
      assert m * (q' - q) == r - r';
      MulAtLeast(m, q' - q);
    }
  }

  /** How quotient and remainder change from x to x + 1. */
  lemma DivModStep(x: nat, m: int)
    requires m > 0
    ensures (x + 1) / m == x / m + (if (x + 1) % m == 0 then 1 else 0)
    ensures (x + 1) % m == if x % m == m - 1 then 0 else x % m + 1
  {
    var q, r := x / m, x % m;
    assert x == m * q + r;
    if r + 1 < m {
      DivModUnique(x + 1, m, q, r + 1);
    } else {
      assert x + 1 == m * (q + 1) + 0;
      DivModUnique(x + 1, m, q + 1, 0);
    }
  }

  /** With |w| = m >= 1, a row is closed after every m-th cell: floor(n / m) closing tags. */
  lemma {:induction false} CloseCountValue(n: nat, w: int)
    ensures var m := if w < 0 then -w else w;
            CloseCount(n, w) == if m == 0 then 0 else n / m
    decreases n
  {
    var m := if w < 0 then -w else w;
    if n > 0 {
      CloseCountValue(n - 1, w);
      if m > 0 {
        DivModStep(n - 1, m);
      }
    } else if m > 0 {
      DivModUnique(0, m, 0, 0);
    }
  }

  /**
    With |w| = m >= 2, a row is opened before the first cell and after every
    m-th one: floor(n / m) tags, plus one for a last, partial row. With m = 1
    (every remainder is 0) or m = 0 (NaN) only the first cell opens a row.
   */
  lemma {:induction false} OpenCountValue(n: nat, w: int)
    requires n >= 1
    ensures var m := if w < 0 then -w else w;
            OpenCount(n, w) == if m >= 2 then n / m + (if n % m == 0 then 0 else 1) else 1
    decreases n
  {
    var m := if w < 0 then -w else w;
    if n == 1 {
      assert OpenCount(0, w) == 0;
      if m >= 2 {
        DivModUnique(1, m, 0, 1);
      }
    } else {
      OpenCountValue(n - 1, w);
      if m >= 2 {
        DivModStep(n - 1, m);
      } else if m == 1 {
        DivModUnique(n, 1, n, 0);
      }
    }
  }

  lemma {:induction false} RowPiecesCounts(languages: seq<Language>, w: int)
    ensures multiset(RowPieces(languages, w))[RowOpen] == OpenCount(|languages|, w)
    ensures multiset(RowPieces(languages, w))[RowClose] == CloseCount(|languages|, w)
    decreases |languages|
  {
    if |languages| > 0 {
      var n := |languages|;
      RowPiecesCounts(languages[..n - 1], w);
      var openTag: seq<Piece> := if OpensRow(n, w) then [RowOpen] else [];
      var closeTag: seq<Piece> := if ClosesRow(n, w) then [RowClose] else [];
      var step := CellPieces(languages[n - 1], n, w);
      assert step == openTag + [Cell(languages[n - 1])] + closeTag;
      assert multiset(step)[RowOpen] == if OpensRow(n, w) then 1 else 0;
      assert multiset(step)[RowClose] == if ClosesRow(n, w) then 1 else 0;
      assert RowPieces(languages, w) == RowPieces(languages[..n - 1], w) + step;
    }
  }

  /** A cell between optional row tags contributes exactly that cell. */
  lemma TaggedCell(l: Language, openTag: seq<Piece>, closeTag: seq<Piece>)
    requires openTag == [] || openTag == [RowOpen]
    requires closeTag == [] || closeTag == [RowClose]
    ensures CellsOf(openTag + [Cell(l)] + closeTag) == [l]
  {
    CellsOfAppend(openTag + [Cell(l)], closeTag);
    CellsOfAppend(openTag, [Cell(l)]);
    assert [Cell(l)][..0] == [];
    assert [RowOpen][..0] == [];
    assert [RowClose][..0] == [];
  }

  /** One loop step contributes exactly one cell. */
  lemma CellPiecesCell(l: Language, i: int, w: int)
    ensures CellsOf(CellPieces(l, i, w)) == [l]
  {
    var openTag: seq<Piece> := if OpensRow(i, w) then [RowOpen] else [];
    var closeTag: seq<Piece> := if ClosesRow(i, w) then [RowClose] else [];
    assert CellPieces(l, i, w) == openTag + [Cell(l)] + closeTag;
    TaggedCell(l, openTag, closeTag);
  }

  /** The cells appear once each, in list order. */
  lemma {:induction false} RowPiecesCells(languages: seq<Language>, w: int)
    ensures CellsOf(RowPieces(languages, w)) == languages
    decreases |languages|
  {
    if |languages| > 0 {
      var n := |languages|;
      var l := languages[n - 1];
      RowPiecesCells(languages[..n - 1], w);
      CellsOfAppend(RowPieces(languages[..n - 1], w), CellPieces(l, n, w));
      CellPiecesCell(l, n, w);
      assert languages[..n - 1] + [l] == languages;
    }
  }

  /** The table's last piece is `</tr>` exactly when the cell count is a multiple of the row width. */
  lemma LastRowClosed(languages: seq<Language>, w: int)
    requires |languages| >= 1
    ensures var ps := RowPieces(languages, w);
            |ps| >= 1 && (ps[|ps| - 1] == RowClose <==> JsRemainder(|languages|, w) == Some(0))
  {
  }

  lemma TagTexts()
    ensures Text([]) == "" && Text([RowOpen]) == "<tr>" && Text([RowClose]) == "</tr>"
  {
    assert [RowOpen][..0] == [];
    assert [RowClose][..0] == [];
  }

  /** The text of a piece between optional row tags, appended to prefix. */
  lemma TaggedText(prefix: string, p: Piece, openTag: seq<Piece>, closeTag: seq<Piece>)
    requires openTag == [] || openTag == [RowOpen]
    requires closeTag == [] || closeTag == [RowClose]
    ensures prefix + Text(openTag + [p] + closeTag) ==
            prefix + Text(openTag) + PieceText(p) + Text(closeTag)
  {
    TextAppend(openTag + [p], closeTag);
    TextAppend(openTag, [p]);
    assert [p][..0] == [];
    assert [RowOpen][..0] == [];
    assert [RowClose][..0] == [];
    ConcatAssociative(prefix, Text(openTag) + PieceText(p), Text(closeTag));
    ConcatAssociative(prefix, Text(openTag), PieceText(p));
  }

  /**
    The body of the `forEach` callback: the optional `<tr>`, the cell and the
    optional `</tr>` for the language at 0-based position index.
   */
  method AppendCell(markdown: string, language: Language, index: nat, perRow: int) returns (result: string)
    ensures result == markdown + Text(CellPieces(language, index + 1, perRow))
  {
    var currentIndex := index + 1;
    var remainder := JsRemainder(currentIndex, perRow);
    ghost var openTag: seq<Piece> := [];
    ghost var closeTag: seq<Piece> := [];
    TagTexts();
    result := markdown;
    if remainder == Some(1) || currentIndex == 1 {
      result := result + "<tr>";
      openTag := [RowOpen];
    }
    assert result == markdown + Text(openTag);
    result := result + CellHtml(language);
    assert result == markdown + Text(openTag) + PieceText(Cell(language));
    if remainder == Some(0) {
      result := result + "</tr>";
      closeTag := [RowClose];
    }
    assert result == markdown + Text(openTag) + PieceText(Cell(language)) + Text(closeTag);
    TaggedText(markdown, Cell(language), openTag, closeTag);
  }

  /** `generateTableSection`, with the row width passed in instead of read from the action input. */
  method GenerateTableSection(languages: Option<seq<Language>>, title: string, languagesPerRow: int)
    returns (markdown: string)
    ensures markdown == TableSection(languages, title, languagesPerRow)
  {
    if languages.None? || |languages.value| == 0 {
      return "";
    }
    var list := languages.value;
    var count := |list|;
    var perRow := if count < languagesPerRow then count else languagesPerRow;
    markdown := "\n\n";
    markdown := markdown + "#### " + title;
    markdown := markdown + "\n\n";
    markdown := markdown + "<table>";
    assert markdown == SectionHeader(title);
    var index := 0;
    while index < count
      invariant 0 <= index <= count
      invariant markdown == SectionHeader(title) + Text(RowPieces(list[..index], perRow))
    {
      ghost var done := RowPieces(list[..index], perRow);
      ghost var step := CellPieces(list[index], index + 1, perRow);
      RowPiecesStep(list, index, perRow);
      TextAppend(done, step);
      ConcatAssociative(SectionHeader(title), Text(done), Text(step));
      markdown := AppendCell(markdown, list[index], index, perRow);
      index := index + 1;
    }
    assert list[..count] == list;
    markdown := markdown + "</table>";
  }

  /**
    The row tags of n cells grouped by a positive width w: for w >= 2,
    floor(n / w) closing and ceil(n / w) opening tags, so a last, partial
    row stays open; for w = 1, one `<tr>` and n `</tr>`.
   */
  lemma RowTagCounts(languages: seq<Language>, w: int)
    requires |languages| >= 1 && w >= 1
    ensures var n := |languages|;
            var ps := RowPieces(languages, w);
            && (w >= 2 ==> multiset(ps)[RowClose] == n / w && multiset(ps)[RowOpen] == n / w + (if n % w == 0 then 0 else 1))
            && (w == 1 ==> multiset(ps)[RowOpen] == 1 && multiset(ps)[RowClose] == n)
  {
    RowPiecesCounts(languages, w);
    OpenCountValue(|languages|, w);
    CloseCountValue(|languages|, w);
    if w == 1 {
      DivModUnique(|languages|, 1, |languages|, 0);
    }
  }

  /**
    A non-empty section is the header, the row pieces and `</table>`, and
    the cells among those pieces are the bucket's languages, once each, in
    order.
   */
  lemma SectionShape(languages: seq<Language>, title: string, languagesPerRow: int)
    requires |languages| >= 1
    ensures var ps := RowPieces(languages, RowWidth(|languages|, languagesPerRow));
            TableSection(Some(languages), title, languagesPerRow) == SectionHeader(title) + Text(ps) + "</table>" &&
            CellsOf(ps) == languages
  {
    RowPiecesCells(languages, RowWidth(|languages|, languagesPerRow));
  }

  /**
    `generateMarkdown`, with the threshold and row width passed in: the
    "Available" section followed by the "In progress" section.
   */
  method GenerateMarkdown(languages: Option<seq<Language>>, minimumCompletionPercent: int, languagesPerRow: int)
    returns (markdown: string)
    ensures markdown == TableSection(Available(languages, minimumCompletionPercent), AvailableTitle, languagesPerRow)
                      + TableSection(InProgress(languages, minimumCompletionPercent), InProgressTitle, languagesPerRow)
  {
    markdown := "";
    var available := GenerateTableSection(Available(languages, minimumCompletionPercent), AvailableTitle, languagesPerRow);
    markdown := markdown + available;
    assert markdown == available;
    var inProgress := GenerateTableSection(InProgress(languages, minimumCompletionPercent), InProgressTitle, languagesPerRow);
    markdown := markdown + inProgress;
  }

  /** The markdown is empty exactly when there is no list (a failed fetch) or the list is empty. */
  lemma MarkdownEmptyIffNoLanguages(languages: Option<seq<Language>>, minimumCompletionPercent: int, languagesPerRow: int)
    ensures TableSection(Available(languages, minimumCompletionPercent), AvailableTitle, languagesPerRow)
              + TableSection(InProgress(languages, minimumCompletionPercent), InProgressTitle, languagesPerRow) == ""
            <==> languages.None? || |languages.value| == 0
  {
    if languages.Some? {
      var s := languages.value;
      BucketsPartition(s, minimumCompletionPercent);
      var a := TableSection(Available(languages, minimumCompletionPercent), AvailableTitle, languagesPerRow);
      var b := TableSection(InProgress(languages, minimumCompletionPercent), InProgressTitle, languagesPerRow);
      if |AvailableBucket(s, minimumCompletionPercent)| > 0 {
        assert |a| > 0;
      } else if |InProgressBucket(s, minimumCompletionPercent)| > 0 {
        assert |b| > 0;
      }
      assert |a + b| == |a| + |b|;
    }
  }

  /** The rendering of a number is digits and possibly a '-'; it holds no '$'. */
  lemma NumberHasNoDollar(n: int)
    ensures '$' !in IntToString(n)
  {
    var digits := NatToString(if n < 0 then -n else n);
    assert forall c :: c in digits ==> IsDigit(c);
  }

  lemma NoDollarConcat(a: string, b: string)
    requires '$' !in a && '$' !in b
    ensures '$' !in a + b
  {
  }

  lemma FlagUrlHasNoDollar(languageId: string)
    requires '$' !in languageId
    ensures '$' !in FlagUrl(languageId)
  {
    assert '$' !in FlagHost;
    assert '$' !in FlagOwner;
    assert '$' !in FlagRepository;
    NoDollarConcat(FlagHost, FlagOwner);
    NoDollarConcat(FlagHost + FlagOwner, FlagRepository);
    NoDollarConcat(FlagHost + FlagOwner + FlagRepository, "1.0/flags/");
    NoDollarConcat(FlagBaseUrl, languageId);
    NoDollarConcat(FlagBaseUrl + languageId, ".png");
  }

  lemma CellHasNoDollar(l: Language)
    requires '$' !in l.languageId
    ensures '$' !in CellHtml(l)
  {
    NumberHasNoDollar(l.translationProgress);
    FlagUrlHasNoDollar(l.languageId);
    assert '$' !in CellOpen;
    assert '$' !in ImageOpen;
    assert '$' !in ImageClose;
    assert '$' !in LabelOpen;
    assert '$' !in CellClose;
    var url := FlagUrl(l.languageId);
    NoDollarConcat(CellOpen, ImageOpen);
    NoDollarConcat(CellOpen + ImageOpen, url);
    NoDollarConcat(CellOpen + ImageOpen + url, ImageClose);
    NoDollarConcat(CellOpen + ImageOpen + url + ImageClose, LabelOpen);
    NoDollarConcat(CellOpen + ImageOpen + url + ImageClose + LabelOpen, IntToString(l.translationProgress));
    NoDollarConcat(CellOpen + ImageOpen + url + ImageClose + LabelOpen + IntToString(l.translationProgress), CellClose);
  }

  lemma TaggedHasNoDollar(p: Piece, openTag: seq<Piece>, closeTag: seq<Piece>)
    requires openTag == [] || openTag == [RowOpen]
    requires closeTag == [] || closeTag == [RowClose]
    requires '$' !in PieceText(p)
    ensures '$' !in Text(openTag + [p] + closeTag)
  {
    TextAppend(openTag + [p], closeTag);
    TextAppend(openTag, [p]);
    assert [p][..0] == [];
    assert Text([p]) == PieceText(p);
    TagHasNoDollar(openTag);
    TagHasNoDollar(closeTag);
    NoDollarConcat(Text(openTag), Text([p]));
    NoDollarConcat(Text(openTag + [p]), Text(closeTag));
  }

  lemma TagHasNoDollar(tag: seq<Piece>)
    requires tag == [] || tag == [RowOpen] || tag == [RowClose]
    ensures '$' !in Text(tag)
  {
    TagTexts();
    if tag == [RowOpen] {
      assert '$' !in "<tr>";
    } else if tag == [RowClose] {
      assert '$' !in "</tr>";
    }
  }

  lemma {:induction false} RowPiecesHaveNoDollar(languages: seq<Language>, w: int)
    requires forall k :: 0 <= k < |languages| ==> '$' !in languages[k].languageId
    ensures '$' !in Text(RowPieces(languages, w))
    decreases |languages|
  {
    if |languages| > 0 {
      var n := |languages|;
      var l := languages[n - 1];
      RowPiecesHaveNoDollar(languages[..n - 1], w);
      var openTag: seq<Piece> := if OpensRow(n, w) then [RowOpen] else [];
      var closeTag: seq<Piece> := if ClosesRow(n, w) then [RowClose] else [];
      assert CellPieces(l, n, w) == openTag + [Cell(l)] + closeTag;
      CellHasNoDollar(l);
      TaggedHasNoDollar(Cell(l), openTag, closeTag);
      TextAppend(RowPieces(languages[..n - 1], w), CellPieces(l, n, w));
      NoDollarConcat(Text(RowPieces(languages[..n - 1], w)), Text(CellPieces(l, n, w)));
    }
  }

  lemma HeaderHasNoDollar(title: string)
    requires '$' !in title
    ensures '$' !in SectionHeader(title)
  {
    assert '$' !in "\n\n";
    assert '$' !in "#### ";
    assert '$' !in "<table>";
    NoDollarConcat("\n\n", "#### ");
    NoDollarConcat("\n\n" + "#### ", title);
    NoDollarConcat("\n\n" + "#### " + title, "\n\n");
    NoDollarConcat("\n\n" + "#### " + title + "\n\n", "<table>");
  }

  lemma SectionHasNoDollar(languages: Option<seq<Language>>, title: string, languagesPerRow: int)
    requires '$' !in title
    requires languages.Some? ==> forall k :: 0 <= k < |languages.value| ==> '$' !in languages.value[k].languageId
    ensures '$' !in TableSection(languages, title, languagesPerRow)
  {
    if languages.Some? && |languages.value| > 0 {
      var w := RowWidth(|languages.value|, languagesPerRow);
      var body := Text(RowPieces(languages.value, w));
      RowPiecesHaveNoDollar(languages.value, w);
      HeaderHasNoDollar(title);
      assert '$' !in "</table>";
      NoDollarConcat(SectionHeader(title), body);
      NoDollarConcat(SectionHeader(title) + body, "</table>");
    }
  }

  /**
    When no language id holds a '$', neither does the rendered markdown, so
    the replace inserts it literally.
   */
  lemma MarkdownHasNoDollar(languages: Option<seq<Language>>, minimumCompletionPercent: int, languagesPerRow: int)
    requires languages.Some? ==> forall k :: 0 <= k < |languages.value| ==> '$' !in languages.value[k].languageId
    ensures '$' !in TableSection(Available(languages, minimumCompletionPercent), AvailableTitle, languagesPerRow)
                  + TableSection(InProgress(languages, minimumCompletionPercent), InProgressTitle, languagesPerRow)
  {
    assert '$' !in AvailableTitle && '$' !in InProgressTitle;
    if languages.Some? {
      var s := languages.value;
      FilterMembers(s, AtLeast(minimumCompletionPercent));
      FilterMembers(s, Below(minimumCompletionPercent));
      forall x | x in s
        ensures '$' !in x.languageId
      {
        var k :| 0 <= k < |s| && s[k] == x;
      }
    }
    SectionHasNoDollar(Available(languages, minimumCompletionPercent), AvailableTitle, languagesPerRow);
    SectionHasNoDollar(InProgress(languages, minimumCompletionPercent), InProgressTitle, languagesPerRow);
    NoDollarConcat(TableSection(Available(languages, minimumCompletionPercent), AvailableTitle, languagesPerRow),
                   TableSection(InProgress(languages, minimumCompletionPercent), InProgressTitle, languagesPerRow));
  }
}
