/**
 * The fallback values exportInit applies to the export configuration sent
 * by the service. JavaScript's `x || d` keeps x only when it is truthy: a
 * missing or empty string, and a missing or zero number, take the default.
 */
module ExportDefaults {
  import opened Types

  const DefaultSplit := "note"
  const DefaultAddToJournals := 1
  const DefaultPageNoteAsAttr := 2
  const DefaultAnnoAsAttr := 2
  const DefaultQuery := ""
  const DefaultTitleTemplate := "{{title}}"
  const DefaultAttrTemplate := "collapsed:: true"
  const DefaultHighlightTemplate := "{{note}}"
  const DefaultAnnoTemplate := "{{anno}}"

  predicate TruthyStr(o: Option<string>) { o.Some? && o.value != "" }
  predicate TruthyInt(o: Option<int>) { o.Some? && o.value != 0 }

  /** `o || d` for a string field. */
  function OrStr(o: Option<string>, d: string): (r: string)
    ensures TruthyStr(o) ==> r == o.value
    ensures !TruthyStr(o) ==> r == d
  {
    if TruthyStr(o) then o.value else d
  }

  /** `o || d` for a number field. */
  function OrInt(o: Option<int>, d: int): (r: int)
    ensures TruthyInt(o) ==> r == o.value
    ensures !TruthyInt(o) ==> r == d
  {
    if TruthyInt(o) then o.value else d
  }

  /** The configuration with no field set: what `initRet.exportConfig || {}` gives for a missing one. */
  const EmptyRaw := RawConfig(None, None, None, None, None, None, None, None, None)

  /** Every field that may come back falsy has a truthy value after the defaults. */
  predicate Complete(c: ExportConfig) {
    && c.logseqSplitTemplate != ""
    && c.logseqPageAddToJournals != 0
    && c.logseqPageNoteAsAttr != 0
    && c.logseqAnnoAsAttr != 0
    && c.lsqtt != "" && c.lsqat != "" && c.lsqht != "" && c.lsqant != ""
  }

  /** The `tmpConfig` block of exportInit. */
  function ApplyDefaults(exportConfig: Option<RawConfig>): (c: ExportConfig)
    ensures Complete(c)
    ensures exportConfig.None? ==> c == ExportConfig(DefaultSplit, DefaultAddToJournals,
              DefaultPageNoteAsAttr, DefaultAnnoAsAttr, DefaultQuery, DefaultTitleTemplate,
              DefaultAttrTemplate, DefaultHighlightTemplate, DefaultAnnoTemplate)
    ensures var raw := if exportConfig.Some? then exportConfig.value else EmptyRaw;
      && (TruthyStr(raw.logseqSplitTemplate) ==> c.logseqSplitTemplate == raw.logseqSplitTemplate.value)
      && (TruthyInt(raw.logseqPageAddToJournals) ==> c.logseqPageAddToJournals == raw.logseqPageAddToJournals.value)
      && (TruthyInt(raw.logseqPageNoteAsAttr) ==> c.logseqPageNoteAsAttr == raw.logseqPageNoteAsAttr.value)
      && (TruthyInt(raw.logseqAnnoAsAttr) ==> c.logseqAnnoAsAttr == raw.logseqAnnoAsAttr.value)
      && (TruthyStr(raw.logseqQuery) ==> c.logseqQuery == raw.logseqQuery.value)
      && (TruthyStr(raw.lsqtt) ==> c.lsqtt == raw.lsqtt.value)
      && (TruthyStr(raw.lsqat) ==> c.lsqat == raw.lsqat.value)
      && (TruthyStr(raw.lsqht) ==> c.lsqht == raw.lsqht.value)
      && (TruthyStr(raw.lsqant) ==> c.lsqant == raw.lsqant.value)
    ensures var raw := if exportConfig.Some? then exportConfig.value else EmptyRaw;
      && (!TruthyStr(raw.logseqSplitTemplate) ==> c.logseqSplitTemplate == DefaultSplit)
      && (!TruthyInt(raw.logseqPageAddToJournals) ==> c.logseqPageAddToJournals == DefaultAddToJournals)
      && (!TruthyInt(raw.logseqPageNoteAsAttr) ==> c.logseqPageNoteAsAttr == DefaultPageNoteAsAttr)
      && (!TruthyInt(raw.logseqAnnoAsAttr) ==> c.logseqAnnoAsAttr == DefaultAnnoAsAttr)
      && (!TruthyStr(raw.logseqQuery) ==> c.logseqQuery == DefaultQuery)
      && (!TruthyStr(raw.lsqtt) ==> c.lsqtt == DefaultTitleTemplate)
      && (!TruthyStr(raw.lsqat) ==> c.lsqat == DefaultAttrTemplate)
      && (!TruthyStr(raw.lsqht) ==> c.lsqht == DefaultHighlightTemplate)
      && (!TruthyStr(raw.lsqant) ==> c.lsqant == DefaultAnnoTemplate)
  {
    var raw := if exportConfig.Some? then exportConfig.value else EmptyRaw;
    ExportConfig(
      OrStr(raw.logseqSplitTemplate, DefaultSplit),
      OrInt(raw.logseqPageAddToJournals, DefaultAddToJournals),
      OrInt(raw.logseqPageNoteAsAttr, DefaultPageNoteAsAttr),
      OrInt(raw.logseqAnnoAsAttr, DefaultAnnoAsAttr),
      OrStr(raw.logseqQuery, DefaultQuery),
      OrStr(raw.lsqtt, DefaultTitleTemplate),
      OrStr(raw.lsqat, DefaultAttrTemplate),
      OrStr(raw.lsqht, DefaultHighlightTemplate),
      OrStr(raw.lsqant, DefaultAnnoTemplate))
  }

  /** The configuration sent back as the service would send it, every field present. */
  function AsRaw(c: ExportConfig): RawConfig {
    RawConfig(Some(c.logseqSplitTemplate), Some(c.logseqPageAddToJournals), Some(c.logseqPageNoteAsAttr),
      Some(c.logseqAnnoAsAttr), Some(c.logseqQuery), Some(c.lsqtt), Some(c.lsqat), Some(c.lsqht), Some(c.lsqant))
  }

  /** Applying the defaults a second time changes nothing. */
  lemma DefaultsAreStable(exportConfig: Option<RawConfig>)
    ensures ApplyDefaults(Some(AsRaw(ApplyDefaults(exportConfig)))) == ApplyDefaults(exportConfig)
  {
  }

  /** A configuration whose fields are all truthy is taken as sent. */
  lemma CompleteConfigKept(c: ExportConfig)
    requires Complete(c)
    ensures ApplyDefaults(Some(AsRaw(c))) == c
  {
  }
}
