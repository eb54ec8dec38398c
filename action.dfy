/**
  The pipeline of one run, from the fetched languages to the new file
  contents: the rendered tables, wrapped in the markers, replace the marked
  region of the file, and only that region.
 */
module Action {
  import opened Wrappers
  import opened Progress
  import opened Buckets
  import opened Table
  import opened Readme

  /**
    When the file holds a START marker followed later by an END marker and no
    language id holds a '$', the file after the update is the text before
    the first START, the freshly rendered tables between the markers, and the
    text after the last END; updating a second time with the same languages
    changes nothing.
   */
  lemma UpdateReplacesMarkedRegion(contents: string, languages: Option<seq<Language>>,
                                   minimumCompletionPercent: int, languagesPerRow: int, i: nat, j: nat)
    requires OccursAt(contents, StartMarker, i) && forall k :: 0 <= k < i ==> !OccursAt(contents, StartMarker, k)
    requires i + |StartMarker| <= j && OccursAt(contents, EndMarker, j) && forall k :: j < k ==> !OccursAt(contents, EndMarker, k)
    requires languages.Some? ==> forall k :: 0 <= k < |languages.value| ==> '$' !in languages.value[k].languageId
    ensures var markdown := TableSection(Available(languages, minimumCompletionPercent), AvailableTitle, languagesPerRow)
                          + TableSection(InProgress(languages, minimumCompletionPercent), InProgressTitle, languagesPerRow);
            var updated := RegexReplace(contents, Wrap(markdown));
            updated == contents[..i] + Wrap(markdown) + contents[j + |EndMarker|..] &&
            RegexReplace(updated, Wrap(markdown)) == updated
  {
    var markdown := TableSection(Available(languages, minimumCompletionPercent), AvailableTitle, languagesPerRow)
                  + TableSection(InProgress(languages, minimumCompletionPercent), InProgressTitle, languagesPerRow);
    MarkdownHasNoDollar(languages, minimumCompletionPercent, languagesPerRow);
    SpliceMarkedRegion(contents, markdown, i, j);
    SpliceIdempotent(contents, markdown);
  }
}
