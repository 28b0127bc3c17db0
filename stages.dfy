/**
 * The collaborators that normality/__init__.py imports from
 * `normality.cleaning`, `normality.transliteration` and
 * `normality.constants`. Their bodies are not part of this model, so they
 * are carried as the fields of one record: every definition and lemma of
 * the pipeline is stated for ALL values of that record, i.e. for
 * arbitrary (uninterpreted) stage functions.
 */
module Stages {
  import opened Wrappers

  /**
   * `C` is the type of a set of Unicode categories, as passed to
   * `category_replace`; nothing is assumed about it.
   */
  datatype Env<!C> = Env(
    lower: string -> string,                  // str.lower()
    asciiText: string -> string,              // transliteration.ascii_text
    latinizeText: string -> string,           // transliteration.latinize_text
    categoryReplace: (string, C) -> string,   // cleaning.category_replace
    collapseSpaces: string -> Option<string>, // cleaning.collapse_spaces
    unicodeCategories: C                      // constants.UNICODE_CATEGORIES
  )
}
