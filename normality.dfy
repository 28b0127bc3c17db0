/**
 * The public pipeline of normality/__init__.py: `normalize` decides which
 * stages run and in which order, `slugify` builds on it.
 */
module Normality {
  import opened Wrappers
  import opened Stages
  import opened StrReplace

  /**
   * The value handed to `normalize`: a Python string, or anything else
   * (a number, `None`, bytes under Python 3, ...).
   */
  datatype Text = Str(s: string) | NotStr

  /** The keyword arguments of `normalize`. */
  datatype Config<C> = Config(
    lowercase: bool,
    collapse: bool,
    latinize: bool,
    ascii: bool,
    replaceCategories: C
  )

  /** The keyword defaults of `normalize`. */
  function DefaultConfig<C>(env: Env<C>): (cfg: Config<C>)
    ensures cfg.lowercase && cfg.collapse && !cfg.latinize && !cfg.ascii
    ensures cfg.replaceCategories == env.unicodeCategories
  {
    Config(true, true, false, false, env.unicodeCategories)
  }

  /** The text that reaches transliteration: lowercased only when asked. */
  function Lowered<C>(env: Env<C>, s: string, cfg: Config<C>): string
  {
    if cfg.lowercase then env.lower(s) else s
  }

  /** At most one transliteration, `ascii_text` taking precedence over `latinize_text`. */
  function Transliterated<C>(env: Env<C>, s: string, cfg: Config<C>): string
  {
    if cfg.ascii then env.asciiText(s)
    else if cfg.latinize then env.latinizeText(s)
    else s
  }

  /**
   * `normalize(text, ...)`: lowercase, then at most one transliteration
   * (`ascii` before `latinize`), then category replacement, then the
   * optional whitespace collapse.
   */
  function Normalize<C>(env: Env<C>, text: Text, cfg: Config<C>): (r: Option<string>)
    ensures text.NotStr? ==> r == None
    ensures text.Str? && !cfg.collapse ==> r.Some?
  {
    match text
    case NotStr => None
    case Str(s) =>
      var replaced := env.categoryReplace(Transliterated(env, Lowered(env, s, cfg), cfg), cfg.replaceCategories);
      if cfg.collapse then env.collapseSpaces(replaced) else Some(replaced)
  }

  /** With `lowercase`, the rest of the pipeline sees `lower(text)`. */
  lemma LowercaseFeedsTransliteration<C>(env: Env<C>, s: string, cfg: Config<C>)
    requires cfg.lowercase
    ensures Normalize(env, Str(s), cfg) == Normalize(env, Str(env.lower(s)), cfg.(lowercase := false))
  {
  }

  /** Without `lowercase`, the text is never lowercased. */
  lemma NoLowercaseIgnoresLower<C>(env: Env<C>, lower: string -> string, text: Text, cfg: Config<C>)
    requires !cfg.lowercase
    ensures Normalize(env.(lower := lower), text, cfg) == Normalize(env, text, cfg)
  {
  }

  /**
   * `ascii` wins over `latinize`: with `ascii` set, neither the `latinize`
   * flag nor the latinize stage has any effect.
   */
  lemma AsciiBeatsLatinize<C>(env: Env<C>, latinizeText: string -> string, latinize: bool, text: Text, cfg: Config<C>)
    requires cfg.ascii
    ensures Normalize(env.(latinizeText := latinizeText), text, cfg.(latinize := latinize))
         == Normalize(env, text, cfg)
  {
  }

  /** With `ascii` set, the transliteration stage is `ascii_text`. */
  lemma AsciiTransliterates<C>(env: Env<C>, s: string, cfg: Config<C>)
    requires cfg.ascii && !cfg.lowercase
    ensures Normalize(env, Str(s), cfg)
         == Normalize(env, Str(env.asciiText(s)), cfg.(ascii := false, latinize := false))
  {
  }

  /** With only `latinize` set, the transliteration stage is `latinize_text`. */
  lemma LatinizeTransliterates<C>(env: Env<C>, s: string, cfg: Config<C>)
    requires !cfg.ascii && cfg.latinize && !cfg.lowercase
    ensures Normalize(env, Str(s), cfg)
         == Normalize(env, Str(env.latinizeText(s)), cfg.(latinize := false))
  {
  }

  /** With neither flag set, no transliteration function is consulted. */
  lemma NoTransliteration<C>(env: Env<C>, asciiText: string -> string, latinizeText: string -> string,
                             text: Text, cfg: Config<C>)
    requires !cfg.ascii && !cfg.latinize
    ensures Normalize(env.(asciiText := asciiText, latinizeText := latinizeText), text, cfg)
         == Normalize(env, text, cfg)
  {
  }

  /**
   * The category stage always runs, with the caller's categories: with
   * every optional stage off, the result is exactly one `category_replace`.
   */
  lemma CategoryReplaceAlwaysRuns<C>(env: Env<C>, s: string, cfg: Config<C>)
    requires !cfg.lowercase && !cfg.ascii && !cfg.latinize && !cfg.collapse
    ensures Normalize(env, Str(s), cfg) == Some(env.categoryReplace(s, cfg.replaceCategories))
  {
  }

  /** `collapse` adds exactly one final `collapse_spaces` to the pipeline. */
  lemma CollapseIsLast<C>(env: Env<C>, text: Text, cfg: Config<C>)
    requires cfg.collapse
    ensures Normalize(env, text, cfg)
         == match Normalize(env, text, cfg.(collapse := false))
            case None => None
            case Some(v) => env.collapseSpaces(v)
  {
  }

  /** `slugify` calls `normalize` with `ascii=True` and the other defaults. */
  function SlugConfig<C>(env: Env<C>): (cfg: Config<C>)
    ensures cfg.ascii && cfg.lowercase && cfg.collapse && !cfg.latinize
    ensures cfg.replaceCategories == env.unicodeCategories
  {
    DefaultConfig(env).(ascii := true)
  }

  /**
   * `slugify(text, sep)`: `None` exactly when `normalize` gives `None`,
   * otherwise the normalized text with every space replaced by `sep`.
   */
  function Slugify<C>(env: Env<C>, text: Text, sep: string := "-"): (r: Option<string>)
    ensures r.None? <==> Normalize(env, text, SlugConfig(env)).None?
    ensures r.Some? ==> r.value == ReplaceChar(Normalize(env, text, SlugConfig(env)).value, ' ', sep)
  {
    match Normalize(env, text, SlugConfig(env))
    case None => None
    case Some(normalized) => Some(ReplaceChar(normalized, ' ', sep))
  }

  /** The separator defaults to `"-"`. */
  lemma SlugDefaultSeparator<C>(env: Env<C>, text: Text)
    ensures Slugify(env, text) == Slugify(env, text, "-")
  {
  }

  /** A separator without spaces gives a slug without spaces. */
  lemma SlugHasNoSpaces<C>(env: Env<C>, text: Text, sep: string)
    requires ' ' !in sep
    ensures Slugify(env, text, sep).Some? ==> ' ' !in Slugify(env, text, sep).value
  {
  }

  /** A one-character separator keeps the length and every other character. */
  lemma SlugKeepsPositions<C>(env: Env<C>, text: Text, sep: string)
    requires |sep| == 1 && Slugify(env, text, sep).Some?
    ensures var n := Normalize(env, text, SlugConfig(env)).value;
            var slug := Slugify(env, text, sep).value;
            |slug| == |n| &&
            forall i :: 0 <= i < |n| ==> slug[i] == if n[i] == ' ' then sep[0] else n[i]
  {
    ReplaceOneForOne(Normalize(env, text, SlugConfig(env)).value, ' ', sep);
  }

  /** With `sep == " "` the slug is the normalized text itself. */
  lemma SlugWithSpaceIsNormalize<C>(env: Env<C>, text: Text)
    ensures Slugify(env, text, " ") == Normalize(env, text, SlugConfig(env))
  {
    if Normalize(env, text, SlugConfig(env)).Some? {
      ReplaceWithItself(Normalize(env, text, SlugConfig(env)).value, ' ');
    }
  }

  /**
   * Nothing is lost: when the normalized text has no `c`, replacing `c`
   * back by spaces recovers it from the slug.
   */
  lemma SlugRecoversNormalized<C>(env: Env<C>, text: Text, c: char)
    requires Slugify(env, text, [c]).Some?
    requires c !in Normalize(env, text, SlugConfig(env)).value
    ensures ReplaceChar(Slugify(env, text, [c]).value, c, " ") == Normalize(env, text, SlugConfig(env)).value
  {
    ReplaceRoundTrip(Normalize(env, text, SlugConfig(env)).value, ' ', c);
  }
}
