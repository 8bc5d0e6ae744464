/**
 * The URL-template record shared by the background page and the options page,
 * the validity test the context menu applies, and the localized defaults.
 */
module Templates {
  import opened Wrappers
  import opened JsText
  import opened Indexed

  /**
   * One stored template. A field missing from a stored record behaves as "" in
   * every use (each test is a JavaScript truthiness test).
   */
  datatype Template = Template(id: string, name: string, url: string)

  /** A display title: the user's name, a `chrome.i18n` message, or the positional default "Template N". */
  datatype Label = Name(text: string) | DefaultName(position: nat) | ContextMenuParent

  /** What `chrome.i18n` supplies: whether the UI language starts with `zh`, and the default names. */
  datatype Locale = Locale(isChinese: bool, defaultGoogle: string, defaultBaidu: string)

  /** The substitution marker. */
  const Marker: string := "{text}"

  /** The two seeded templates, ids '1' and '2'. */
  function DefaultTemplates(locale: Locale): (ts: seq<Template>)
    ensures |ts| == 2 && ts[0].id == "1" && ts[1].id == "2"
  {
    [ Template("1", locale.defaultGoogle, "https://www.google.com/search?q={text}"),
      Template("2", locale.defaultBaidu, "https://www.baidu.com/s?wd={text}") ]
  }

  /** Both seeded templates are valid, so both appear in the menu. */
  lemma DefaultTemplatesValid(locale: Locale)
    ensures ValidTemplates(DefaultTemplates(locale)) == DefaultTemplates(locale)
  {
    var ts := DefaultTemplates(locale);
    forall i | 0 <= i < |ts| ensures IsValidTemplate(ts[i]) {
      var u := ts[i].url;
      assert u[|u| - 6..] == Marker;
      assert OccursAt(u, Marker, |u| - 6);
      ValidIffContainsMarker(ts[i]);
    }
    ValidTemplatesAllValid(ts);
  }

  /** `t.url && t.url.trim() && t.url.includes('{text}')`. */
  predicate IsValidTemplate(t: Template) {
    !IsBlank(t.url) && Contains(t.url, Marker)
  }

  /** The blank test is implied by the marker test: validity is just "contains `{text}`". */
  lemma ValidIffContainsMarker(t: Template)
    ensures IsValidTemplate(t) <==> Contains(t.url, Marker)
  {
    if Contains(t.url, Marker) {
      assert !IsWhiteSpace(Marker[0]);
      ContainsNonBlankIsNotBlank(t.url, Marker);
    }
  }

  function KeepValid(ctx: (), t: Template, index: nat): Option<Template> {
    if IsValidTemplate(t) then Some(t) else None
  }

  /** `templates.filter(t => t && t.url && t.url.trim() && t.url.includes('{text}'))`. */
  function ValidTemplates(ts: seq<Template>): seq<Template> {
    Collect(ts, (), KeepValid, 0)
  }

  /**
   * The valid templates are exactly the valid entries of the list, in their order:
   * the k-th is the entry at the k-th valid position, and the positions are the
   * ascending list of all indices holding a valid entry.
   */
  lemma ValidTemplatesSpec(ts: seq<Template>)
    ensures var ps := Hits(ts, (), KeepValid, 0);
      && |ValidTemplates(ts)| == |ps| <= |ts|
      && (forall k :: 0 <= k < |ps| ==> ValidTemplates(ts)[k] == ts[ps[k]])
      && (forall k, l :: 0 <= k < l < |ps| ==> ps[k] < ps[l])
      && (forall i :: 0 <= i < |ts| ==> (i in ps <==> IsValidTemplate(ts[i])))
  {
    CollectAtHits(ts, (), KeepValid, 0);
  }

  /** A list whose entries are all valid is kept whole. */
  lemma ValidTemplatesAllValid(ts: seq<Template>)
    requires forall i :: 0 <= i < |ts| ==> IsValidTemplate(ts[i])
    ensures ValidTemplates(ts) == ts
  {
    CollectTotal(ts, (), KeepValid, 0);
  }

  /** A list with no valid entry gives nothing. */
  lemma ValidTemplatesNoneValid(ts: seq<Template>)
    requires forall i :: 0 <= i < |ts| ==> !IsValidTemplate(ts[i])
    ensures ValidTemplates(ts) == []
  {
    CollectNone(ts, (), KeepValid, 0);
  }

  /** A template whose url lacks the marker is never among the valid templates, whatever its name. */
  lemma NoMarkerNeverValid(ts: seq<Template>, t: Template)
    requires !Contains(t.url, Marker)
    ensures t !in ValidTemplates(ts)
  {
    ValidTemplatesSpec(ts);
  }

  /** `template.name || defaultName`, with the default numbered by `position`. */
  function TitleFor(t: Template, position: nat): (l: Label)
    ensures l.Name? <==> t.name != ""
    ensures l.Name? ==> l.text == t.name
    ensures !l.Name? ==> l == DefaultName(position)
  {
    if t.name == "" then DefaultName(position) else Name(t.name)
  }

  /** `templates.find(t => t.id === id)`, as the index of the first template with that id. */
  function FirstIndexOf(ts: seq<Template>, id: string): (r: Option<nat>)
    ensures r.Some? ==> r.value < |ts| && ts[r.value].id == id
    ensures r.Some? ==> forall j :: 0 <= j < r.value ==> ts[j].id != id
    ensures r.None? ==> forall j :: 0 <= j < |ts| ==> ts[j].id != id
  {
    if ts == [] then None
    else if ts[0].id == id then Some(0)
    else match FirstIndexOf(ts[1..], id)
      case None => None
      case Some(i) => Some(i + 1)
  }

  /** Template ids are pairwise distinct. */
  ghost predicate DistinctIds(ts: seq<Template>) {
    forall i, j :: 0 <= i < j < |ts| ==> ts[i].id != ts[j].id
  }

  /** The tail of a list with distinct ids has distinct ids, none of them the head's. */
  lemma DistinctIdsTail(ts: seq<Template>)
    requires DistinctIds(ts) && ts != []
    ensures DistinctIds(ts[1..])
    ensures forall j :: 0 <= j < |ts| - 1 ==> ts[1..][j].id != ts[0].id
  {
    var tail := ts[1..];
    forall i, j | 0 <= i < j < |tail| ensures tail[i].id != tail[j].id {
      assert tail[i] == ts[i + 1] && tail[j] == ts[j + 1];
    }
  }

  /** With distinct ids, looking up a template's own id finds that template. */
  lemma FirstIndexOfDistinct(ts: seq<Template>, k: nat)
    requires DistinctIds(ts) && k < |ts|
    ensures FirstIndexOf(ts, ts[k].id) == Some(k)
  {
    var r := FirstIndexOf(ts, ts[k].id);
    assert r.Some?;
    assert !(r.value < k) && !(k < r.value);
  }
}
