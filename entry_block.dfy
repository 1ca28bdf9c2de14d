/**
 * getNewEntryBlock: the title and the property map of the block that stands
 * for one synced page.
 */
module EntryBlock {
  import opened Types
  import opened Decimal

  const NoTitle := "No title"
  const ViewDateFormat := "yyyy-MM-dd HH:mm"

  /** The title and properties of a page's record block. */
  datatype NewBlock = NewBlock(title: string, properties: map<string, PropValue>)

  /** How an attribute's text is stored: the words true and false become
      booleans, a run of digits becomes an integer, anything else stays text. */
  function Coerce(v: string): (p: PropValue)
    ensures p.PBool? <==> v == "true" || v == "false"
    ensures p.PBool? ==> p.b == (v == "true")
    ensures p.PInt? <==> v != "true" && v != "false" && IsDigits(v)
    ensures p.PStr? ==> p.s == v
  {
    if v == "true" || v == "false" then PBool(v == "true")
    else if IsDigits(v) then PInt(DigitsValue(v))
    else PStr(v)
  }

  /** A number's decimal text is stored as that number. */
  lemma CoerceNumber(n: nat)
    ensures Coerce(NatToString(n)) == PInt(n)
  {
    var s := NatToString(n);
    assert s != "true" && s != "false" by {
      assert IsDigit(s[0]);
    }
    DigitsValueOfNatToString(n);
  }

  /** `tags.join(' ')`. */
  function JoinTags(tags: seq<string>): string {
    if tags == [] then "" else if |tags| == 1 then tags[0] else tags[0] + " " + JoinTags(tags[1..])
  }

  /** The view the attribute templates are rendered against. */
  function EntryView(entry: NoteEntry, h: Helpers): View {
    map[
      "noteid" := entry.noteIdX,
      "tags" := JoinTags(entry.tags),
      "createat" := h.formatDate(entry.createAt, ViewDateFormat),
      "updateat" := h.formatDate(entry.updateAt, ViewDateFormat),
      "url" := entry.url,
      "wucaiurl" := entry.wucaiurl,
      "pagenote" := entry.pageNote]
  }

  /** The view the title template is rendered against. */
  function TitleView(entry: NoteEntry, h: Helpers): View {
    map["title" := h.formatTitle(entry.title), "url" := entry.url, "wucaiurl" := entry.wucaiurl]
  }

  /** The properties set before the attribute templates are applied. */
  function BaseProperties(entry: NoteEntry, preferredDateFormat: string, cfg: ExportConfig, h: Helpers): map<string, PropValue> {
    var p0 := map["noteid" := PStr(entry.noteIdX)];
    var p1 := if cfg.logseqPageNoteAsAttr == 1 then p0["note" := PStr(entry.pageNote)] else p0;
    if cfg.logseqPageAddToJournals == 1
    then p1["date" := PStr("[[" + h.formatDate(entry.createAt, preferredDateFormat) + "]]")]
    else p1
  }

  /** An attribute's text: rendered when it holds tags, taken as written otherwise;
      None when rendering throws. */
  function AttrValue(attr: Template, view: View, h: Helpers): Option<string> {
    if attr.render then h.renderTemplate(attr.value, view) else Some(attr.value)
  }

  /** The attribute loop: each attribute in turn, skipping empty values, a
      later attribute overwriting an earlier one of the same name. */
  function ApplyAttrs(props: map<string, PropValue>, attrs: seq<Template>, view: View, h: Helpers): Option<map<string, PropValue>> {
    if attrs == [] then Some(props)
    else
      var done := ApplyAttrs(props, attrs[..|attrs| - 1], view, h);
      var attr := attrs[|attrs| - 1];
      var v := AttrValue(attr, view, h);
      if done.None? || v.None? then None
      else if v.value == "" then done
      else Some(done.value[attr.name := Coerce(v.value)])
  }

  /** The value of the last attribute named `name` whose text is not empty. */
  function LastSet(attrs: seq<Template>, name: string, view: View, h: Helpers): Option<string> {
    if attrs == [] then None
    else
      var attr := attrs[|attrs| - 1];
      var v := AttrValue(attr, view, h);
      if attr.name == name && v.Some? && v.value != "" then v
      else LastSet(attrs[..|attrs| - 1], name, view, h)
  }

  /** The title: the rendered title template when it holds tags, the formatted
      title otherwise, and the literal default when that is empty. */
  function Title(entry: NoteEntry, tpl: Templates, h: Helpers): (r: Option<string>)
    ensures r.Some? ==> r.value != ""
    ensures !tpl.titleTemplate.render ==> r.Some?
  {
    var t := if tpl.titleTemplate.render
             then h.renderTemplate(tpl.titleTemplate.value, TitleView(entry, h))
             else Some(h.formatTitle(entry.title));
    if t.None? then None else Some(if t.value != "" then t.value else NoTitle)
  }

  /** getNewEntryBlock as a value; None when a template throws. */
  function NewEntryBlock(entry: NoteEntry, preferredDateFormat: string, cfg: ExportConfig, tpl: Templates, h: Helpers): Option<NewBlock> {
    var props := ApplyAttrs(BaseProperties(entry, preferredDateFormat, cfg, h), tpl.attrTemplate, EntryView(entry, h), h);
    var title := Title(entry, tpl, h);
    if props.None? || title.None? then None else Some(NewBlock(title.value, props.value))
  }

  /** getNewEntryBlock: fills the property dictionary attribute by attribute. */
  method GetNewEntryBlock(entry: NoteEntry, preferredDateFormat: string, cfg: ExportConfig, tpl: Templates, h: Helpers)
    returns (r: Option<NewBlock>)
    ensures r == NewEntryBlock(entry, preferredDateFormat, cfg, tpl, h)
  {
    var view := EntryView(entry, h);
    var properties := map["noteid" := PStr(entry.noteIdX)];
    if cfg.logseqPageNoteAsAttr == 1 {
      properties := properties["note" := PStr(entry.pageNote)];
    }
    if cfg.logseqPageAddToJournals == 1 {
      properties := properties["date" := PStr("[[" + h.formatDate(entry.createAt, preferredDateFormat) + "]]")];
    }
    ghost var base := properties;
    var attrs := tpl.attrTemplate;
    for i := 0 to |attrs|
      invariant ApplyAttrs(base, attrs[..i], view, h) == Some(properties)
    {
      assert attrs[..i + 1][..i] == attrs[..i];
      var attr := attrs[i];
      var tmpvalue: string;
      if attr.render {
        var rendered := h.renderTemplate(attr.value, view);
        if rendered.None? {
          ApplyAttrsFailed(base, attrs, i + 1, view, h);
          return None;
        }
        tmpvalue := rendered.value;
      } else {
        tmpvalue := attr.value;
      }
      if tmpvalue == "" {
        continue;
      }
      properties := properties[attr.name := Coerce(tmpvalue)];
    }
    assert attrs[..|attrs|] == attrs;
    var title := Title(entry, tpl, h);
    if title.None? {
      return None;
    }
    r := Some(NewBlock(title.value, properties));
  }

  /** Once an attribute throws, the whole loop throws. */
  lemma {:induction false} ApplyAttrsFailed(props: map<string, PropValue>, attrs: seq<Template>, i: nat, view: View, h: Helpers)
    requires i <= |attrs|
    requires ApplyAttrs(props, attrs[..i], view, h).None?
    ensures ApplyAttrs(props, attrs, view, h).None?
    decreases |attrs| - i
  {
    if i < |attrs| {
      assert attrs[..i + 1][..i] == attrs[..i];
      ApplyAttrsFailed(props, attrs, i + 1, view, h);
    } else {
      assert attrs[..i] == attrs;
    }
  }

  /** What the loop leaves under each key: the coerced text of the last
      non-empty attribute of that name, or the base value when there is none. */
  lemma {:induction false} ApplyAttrsAt(props: map<string, PropValue>, attrs: seq<Template>, view: View, h: Helpers, k: string)
    requires ApplyAttrs(props, attrs, view, h).Some?
    ensures var r := ApplyAttrs(props, attrs, view, h).value;
            var last := LastSet(attrs, k, view, h);
            && (k in r <==> k in props || last.Some?)
            && (last.Some? ==> r[k] == Coerce(last.value))
            && (last.None? && k in props ==> r[k] == props[k])
  {
    if attrs != [] {
      ApplyAttrsAt(props, attrs[..|attrs| - 1], view, h, k);
    }
  }

  /** The noteid property is always there, and it holds the entry's id unless
      an attribute template of that name overrides it. */
  lemma NoteIdProperty(entry: NoteEntry, preferredDateFormat: string, cfg: ExportConfig, tpl: Templates, h: Helpers)
    requires NewEntryBlock(entry, preferredDateFormat, cfg, tpl, h).Some?
    ensures var p := NewEntryBlock(entry, preferredDateFormat, cfg, tpl, h).value.properties;
            "noteid" in p &&
            (LastSet(tpl.attrTemplate, "noteid", EntryView(entry, h), h).None? ==> p["noteid"] == PStr(entry.noteIdX))
  {
    ApplyAttrsAt(BaseProperties(entry, preferredDateFormat, cfg, h), tpl.attrTemplate, EntryView(entry, h), h, "noteid");
  }

  /** No attribute template named `name` means no attribute sets it. */
  lemma {:induction false} LastSetNeedsName(attrs: seq<Template>, name: string, view: View, h: Helpers)
    requires forall i :: 0 <= i < |attrs| ==> attrs[i].name != name
    ensures LastSet(attrs, name, view, h).None?
  {
    if attrs != [] {
      LastSetNeedsName(attrs[..|attrs| - 1], name, view, h);
    }
  }

  /** The page-note property is there exactly when page notes are configured
      as an attribute or an attribute template named "note" has a value;
      the date property likewise for journals. */
  lemma NoteAndDateProperties(entry: NoteEntry, preferredDateFormat: string, cfg: ExportConfig, tpl: Templates, h: Helpers)
    requires NewEntryBlock(entry, preferredDateFormat, cfg, tpl, h).Some?
    ensures var p := NewEntryBlock(entry, preferredDateFormat, cfg, tpl, h).value.properties;
            var view := EntryView(entry, h);
            && ("note" in p <==> cfg.logseqPageNoteAsAttr == 1 || LastSet(tpl.attrTemplate, "note", view, h).Some?)
            && ("date" in p <==> cfg.logseqPageAddToJournals == 1 || LastSet(tpl.attrTemplate, "date", view, h).Some?)
            && (LastSet(tpl.attrTemplate, "note", view, h).None? && cfg.logseqPageNoteAsAttr == 1 ==>
                  p["note"] == PStr(entry.pageNote))
            && (LastSet(tpl.attrTemplate, "date", view, h).None? && cfg.logseqPageAddToJournals == 1 ==>
                  p["date"] == PStr("[[" + h.formatDate(entry.createAt, preferredDateFormat) + "]]"))
  {
    var base := BaseProperties(entry, preferredDateFormat, cfg, h);
    ApplyAttrsAt(base, tpl.attrTemplate, EntryView(entry, h), h, "note");
    ApplyAttrsAt(base, tpl.attrTemplate, EntryView(entry, h), h, "date");
  }

  /** Each attribute key that is not one of the three base keys is present
      exactly when some attribute of that name has a non-empty value, and then
      holds that value's coerced form. */
  lemma AttributeProperty(entry: NoteEntry, preferredDateFormat: string, cfg: ExportConfig, tpl: Templates, h: Helpers, k: string)
    requires NewEntryBlock(entry, preferredDateFormat, cfg, tpl, h).Some?
    requires k != "noteid" && k != "note" && k != "date"
    ensures var p := NewEntryBlock(entry, preferredDateFormat, cfg, tpl, h).value.properties;
            var last := LastSet(tpl.attrTemplate, k, EntryView(entry, h), h);
            (k in p <==> last.Some?) && (last.Some? ==> p[k] == Coerce(last.value) && last.value != "")
  {
    ApplyAttrsAt(BaseProperties(entry, preferredDateFormat, cfg, h), tpl.attrTemplate, EntryView(entry, h), h, k);
    LastSetNonEmpty(tpl.attrTemplate, k, EntryView(entry, h), h);
  }

  lemma {:induction false} LastSetNonEmpty(attrs: seq<Template>, name: string, view: View, h: Helpers)
    ensures LastSet(attrs, name, view, h).Some? ==> LastSet(attrs, name, view, h).value != ""
  {
    if attrs != [] {
      LastSetNonEmpty(attrs[..|attrs| - 1], name, view, h);
    }
  }

  /** The title is never empty. */
  lemma TitleNeverEmpty(entry: NoteEntry, preferredDateFormat: string, cfg: ExportConfig, tpl: Templates, h: Helpers)
    requires NewEntryBlock(entry, preferredDateFormat, cfg, tpl, h).Some?
    ensures NewEntryBlock(entry, preferredDateFormat, cfg, tpl, h).value.title != ""
  {
  }
}
