/** The two Handlebars helpers the table views use on a record's `Website`
    field: `hasWebsite`, which chooses whether a row is rendered in the
    filtered view, and `highlightIfNoWebsite`, which chooses the row's CSS
    class in the highlighted view. */
module ViewHelpers {
  import opened Wrappers
  import opened Text

  /** JavaScript truthiness of the field: present and not the empty
      string. */
  predicate Truthy(website: Option<string>) {
    website.Some? && website.value != ""
  }

  /** `hasWebsite`: true selects the helper's main block (`options.fn`), false
      its inverse block (`options.inverse`). A row shows exactly when the
      field is present and holds some non-whitespace character. */
  function HasWebsite(website: Option<string>): (r: bool)
    ensures r <==>
      website.Some? && exists i :: 0 <= i < |website.value| && !IsWhitespace(website.value[i])
  {
    Truthy(website) && Trim(website.value) != ""
  }

  const HighlightClass: string := "highlight"

  /** The marker the helper compares the lower-cased field against. */
  const NotAvailable: string := "n/a"

  /** `highlightIfNoWebsite`: the CSS class of the row. Highlighted exactly
      when the field is absent, is all whitespace (the empty string
      included), or lower-cases to "n/a" as it stands, without trimming;
      otherwise the empty class. */
  function HighlightIfNoWebsite(website: Option<string>): (r: string)
    ensures r == HighlightClass || r == ""
    ensures r == HighlightClass <==>
      website.None? || AllWhitespace(website.value) || Lower(website.value) == NotAvailable
  {
    if !Truthy(website) || Trim(website.value) == "" || Lower(website.value) == NotAvailable then
      HighlightClass
    else
      ""
  }

  /** A row hidden from the filtered view is always highlighted. */
  lemma HiddenRowsAreHighlighted(website: Option<string>)
    requires !HasWebsite(website)
    ensures HighlightIfNoWebsite(website) == HighlightClass
  {
  }

  /** The two helpers are not complements: a row is both shown in the
      filtered view and highlighted exactly when its field lower-cases to
      "n/a". */
  lemma ShownAndHighlightedIff(website: Option<string>)
    ensures HasWebsite(website) && HighlightIfNoWebsite(website) == HighlightClass
      <==> website.Some? && Lower(website.value) == NotAvailable
  {
    if website.Some? && Lower(website.value) == NotAvailable {
      assert Lower(website.value)[0] == LowerChar(website.value[0]) == 'n';
      assert !IsWhitespace(website.value[0]);
    }
  }

  /** "N/A" counts as a website for the filtered view, yet is highlighted. */
  lemma UpperCaseMarkerIsShownAndHighlighted()
    ensures HasWebsite(Some("N/A"))
    ensures HighlightIfNoWebsite(Some("N/A")) == HighlightClass
  {
    assert Lower("N/A") == NotAvailable;
    ShownAndHighlightedIff(Some("N/A"));
  }

  /** " n/a " is not highlighted: the comparison does not trim. */
  lemma PaddedMarkerIsNotHighlighted()
    ensures HasWebsite(Some(" n/a "))
    ensures HighlightIfNoWebsite(Some(" n/a ")) == ""
  {
    var w := " n/a ";
    assert !IsWhitespace(w[1]);
    assert |Lower(w)| != |NotAvailable|;
  }

  /** Apart from the "n/a" marker the helpers are complements: a shown row
      is not highlighted, a hidden row is. */
  lemma ComplementsAwayFromMarker(website: Option<string>)
    requires website.None? || Lower(website.value) != NotAvailable
    ensures HasWebsite(website) <==> HighlightIfNoWebsite(website) == ""
  {
  }
}
