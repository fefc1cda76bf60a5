/**
 * How the stages hand rasters to one another: the containers one script
 * writes and the next one lists.
 */
module Pipeline {
  import opened SpeciesTable
  import Effects
  import Weighting
  import DepositionLevel
  import Percentile

  /** The weighting scripts list the containers the growth effect scripts write. */
  lemma EffectsFeedWeighting(e: Element)
    ensures Weighting.Script.Current.InputContainer(e) == Effects.OutputContainer(Effects.GrowthEffect, e)
    ensures Weighting.Script.Legacy.InputContainer(e) == Effects.OutputContainer(Effects.GrowthReductionLegacy, e)
  {
  }

  /** The current percentile script lists the growth levels where the growth solver writes them. */
  lemma GrowthLevelsFeedPercentile(e: Element)
    ensures Percentile.Script.Current.InputContainer(Growth, e) == DepositionLevel.OutputContainer(DepositionLevel.GrowthLevel, e)
  {
    var tail := "_" + ResponseName(Growth) + "_deposition_5_red.gdb";
    assert Percentile.Script.Current.InputContainer(Growth, e) == ElementCapitalized(e) + tail;
  }

  /**
   * The current percentile script looks for survival levels in
   * `<E>_survival_deposition_5_red.gdb`, which the survival solver does not
   * write: it writes `<E>_survival_deposition_1_red_check.gdb`.
   */
  lemma SurvivalLevelsMissPercentile(e: Element)
    ensures Percentile.Script.Current.InputContainer(Survival, e) != DepositionLevel.OutputContainer(DepositionLevel.SurvivalLevel, e)
  {
    assert |Percentile.Script.Current.InputContainer(Survival, e)| == |ElementCapitalized(e)| + 30;
    assert |DepositionLevel.OutputContainer(DepositionLevel.SurvivalLevel, e)| == |ElementCapitalized(e)| + 36;
  }

  /** The legacy percentile script lists the legacy growth reduction containers. */
  lemma LegacyEffectsFeedPercentile(e: Element)
    ensures Percentile.Script.Legacy.InputContainer(Growth, e) == Effects.OutputContainer(Effects.GrowthReductionLegacy, e)
  {
  }
}
