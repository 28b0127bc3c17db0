/**
 * An independent description of `normalize` (normality/__init__.py) as the
 * list of stages it runs, and an interpreter for such lists. Ordering,
 * precedence and "applied exactly once" are properties of the list.
 */
module Trace {
  import opened Wrappers
  import opened Stages
  import opened Normality

  datatype Stage = Lower | Ascii | Latinize | CategoryReplace | Collapse

  /** Position of a stage in the pipeline; the two transliterations share one. */
  function Rank(st: Stage): nat
  {
    match st
    case Lower => 0
    case Ascii => 1
    case Latinize => 1
    case CategoryReplace => 2
    case Collapse => 3
  }

  /** Each stage ranks strictly above the one before it. */
  predicate InOrder(p: seq<Stage>)
  {
    forall i :: 0 < i < |p| ==> Rank(p[i - 1]) < Rank(p[i])
  }

  /** The stages `normalize` runs on a string under `cfg`. */
  function Plan<C>(cfg: Config<C>): (p: seq<Stage>)
    ensures InOrder(p)
    ensures CategoryReplace in p
    ensures Lower in p <==> cfg.lowercase
    ensures Ascii in p <==> cfg.ascii
    ensures Latinize in p <==> !cfg.ascii && cfg.latinize
    ensures Collapse in p <==> cfg.collapse
  {
    LowerPart(cfg) + TransliterationPart(cfg) + [CategoryReplace] + CollapsePart(cfg)
  }

  /** The lowercasing stage, when `lowercase` is set. */
  function LowerPart<C>(cfg: Config<C>): seq<Stage>
  {
    if cfg.lowercase then [Lower] else []
  }

  /** The one transliteration stage, `ascii` before `latinize`, if any. */
  function TransliterationPart<C>(cfg: Config<C>): seq<Stage>
  {
    if cfg.ascii then [Ascii] else if cfg.latinize then [Latinize] else []
  }

  /** The collapse stage, when `collapse` is set. */
  function CollapsePart<C>(cfg: Config<C>): seq<Stage>
  {
    if cfg.collapse then [Collapse] else []
  }

  /** In an ordered plan, rank grows between any two positions. */
  lemma {:induction false} RankIncreases(p: seq<Stage>, i: int, j: int)
    requires InOrder(p) && 0 <= i < j < |p|
    ensures Rank(p[i]) < Rank(p[j])
    decreases j - i
  {
    if i + 1 < j {
      RankIncreases(p, i, j - 1);
    }
  }

  /** In an ordered plan a stage occurs at most once. */
  lemma AtMostOnce(p: seq<Stage>, i: int, j: int)
    requires InOrder(p) && 0 <= i < |p| && 0 <= j < |p|
    ensures i != j ==> p[i] != p[j]
  {
    if i < j {
      RankIncreases(p, i, j);
    } else if j < i {
      RankIncreases(p, j, i);
    }
  }

  /** `category_replace` occurs exactly once in every plan. */
  lemma CategoryReplaceOnce<C>(cfg: Config<C>)
    ensures multiset(Plan(cfg))[CategoryReplace] == 1
  {
  }

  /** One stage applied to a text; only `collapse_spaces` can give `None`. */
  function Apply<C>(env: Env<C>, st: Stage, s: string, cats: C): (r: Option<string>)
    ensures st != Collapse ==> r.Some?
  {
    match st
    case Lower => Some(env.lower(s))
    case Ascii => Some(env.asciiText(s))
    case Latinize => Some(env.latinizeText(s))
    case CategoryReplace => Some(env.categoryReplace(s, cats))
    case Collapse => env.collapseSpaces(s)
  }

  /** Runs the stages of `p` in order, stopping at the first `None`. */
  function Run<C>(env: Env<C>, p: seq<Stage>, s: string, cats: C): (r: Option<string>)
    ensures Collapse !in p ==> r.Some?
    decreases |p|
  {
    if p == [] then Some(s)
    else match Apply(env, p[0], s, cats)
      case None => None
      case Some(t) => Run(env, p[1..], t, cats)
  }

  /** Running `p + q` is running `p`, then `q` on its result. */
  lemma {:induction false} RunAppend<C>(env: Env<C>, p: seq<Stage>, q: seq<Stage>, s: string, cats: C)
    ensures Run(env, p + q, s, cats)
         == match Run(env, p, s, cats)
            case None => None
            case Some(t) => Run(env, q, t, cats)
    decreases |p|
  {
    if p == [] {
      assert p + q == q;
    } else {
      assert (p + q)[0] == p[0] && (p + q)[1..] == p[1..] + q;
      match Apply(env, p[0], s, cats)
      case None =>
      case Some(t) => RunAppend(env, p[1..], q, t, cats);
    }
  }

  /** A one-stage run is that stage. */
  lemma RunSingle<C>(env: Env<C>, st: Stage, s: string, cats: C)
    ensures Run(env, [st], s, cats) == Apply(env, st, s, cats)
  {
    assert [st][1..] == [];
  }

  /** `normalize` on a string is exactly the run of its plan. */
  lemma NormalizeFollowsPlan<C>(env: Env<C>, s: string, cfg: Config<C>)
    ensures Normalize(env, Str(s), cfg) == Run(env, Plan(cfg), s, cfg.replaceCategories)
  {
    var cats := cfg.replaceCategories;
    var pl, pt, pc := LowerPart(cfg), TransliterationPart(cfg), CollapsePart(cfg);
    var lowered := Lowered(env, s, cfg);
    var transliterated := Transliterated(env, lowered, cfg);
    var replaced := env.categoryReplace(transliterated, cats);
    assert Run(env, pl, s, cats) == Some(lowered) by {
      if cfg.lowercase { RunSingle(env, Lower, s, cats); }
    }
    assert Run(env, pt, lowered, cats) == Some(transliterated) by {
      if pt != [] { RunSingle(env, pt[0], lowered, cats); }
    }
    RunSingle(env, CategoryReplace, transliterated, cats);
    assert Run(env, pc, replaced, cats) == Normalize(env, Str(s), cfg) by {
      if cfg.collapse { RunSingle(env, Collapse, replaced, cats); }
    }
    RunAppend(env, pl, pt, s, cats);
    RunAppend(env, pl + pt, [CategoryReplace], s, cats);
    RunAppend(env, (pl + pt) + [CategoryReplace], pc, s, cats);
    assert Plan(cfg) == ((pl + pt) + [CategoryReplace]) + pc;
  }

  /** Two environments that give the same result for stage `st`, on every text. */
  ghost predicate Interchangeable<C>(env1: Env<C>, env2: Env<C>, st: Stage, cats: C)
  {
    forall x :: Apply(env1, st, x, cats) == Apply(env2, st, x, cats)
  }

  /** A run only depends on the stages it contains. */
  lemma {:induction false} RunAgrees<C>(env1: Env<C>, env2: Env<C>, p: seq<Stage>, s: string, cats: C)
    requires forall i :: 0 <= i < |p| ==> Interchangeable(env1, env2, p[i], cats)
    ensures Run(env1, p, s, cats) == Run(env2, p, s, cats)
    decreases |p|
  {
    if p != [] {
      assert Interchangeable(env1, env2, p[0], cats);
      assert Apply(env1, p[0], s, cats) == Apply(env2, p[0], s, cats);
      match Apply(env1, p[0], s, cats)
      case None =>
      case Some(t) =>
        forall i | 0 <= i < |p[1..]|
          ensures Interchangeable(env1, env2, p[1..][i], cats)
        {
          assert p[1..][i] == p[i + 1];
        }
        RunAgrees(env1, env2, p[1..], t, cats);
    }
  }

  /**
   * A stage that the plan leaves out is never applied: changing only that
   * stage's function does not change what `normalize` returns (e.g. the
   * latinize stage under `ascii`, both transliterations when neither flag
   * is set, `collapse_spaces` without `collapse`).
   */
  lemma UnplannedStageIgnored<C>(env1: Env<C>, env2: Env<C>, st: Stage, s: string, cfg: Config<C>)
    requires st !in Plan(cfg)
    requires forall other :: other != st ==> Interchangeable(env1, env2, other, cfg.replaceCategories)
    ensures Normalize(env1, Str(s), cfg) == Normalize(env2, Str(s), cfg)
  {
    var p := Plan(cfg);
    forall i | 0 <= i < |p|
      ensures Interchangeable(env1, env2, p[i], cfg.replaceCategories)
    {
      assert p[i] != st;
    }
    RunAgrees(env1, env2, p, s, cfg.replaceCategories);
    NormalizeFollowsPlan(env1, s, cfg);
    NormalizeFollowsPlan(env2, s, cfg);
  }
}
