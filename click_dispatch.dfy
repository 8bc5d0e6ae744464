/**
 * The `chrome.contextMenus.onClicked` listener of background.js: which menu ids it
 * answers, which template it resolves, and the URL it opens in a new tab.
 */
module ClickDispatch {
  import opened Wrappers
  import opened JsText
  import opened UriComponent
  import opened Templates
  import opened MenuSync
  import Indexed

  /**
   * The template id behind a clicked menu id: only ids that start with the prefix
   * and are not the parent's are answered, and `replace` then removes the first
   * occurrence of the prefix, which is the leading one.
   */
  function TemplateIdOf(menuItemId: string): (r: Option<string>)
    ensures r.Some? ==> r.value != "parent" && MenuIdFor(r.value) == menuItemId
  {
    if |menuItemId| >= |MenuPrefix| && menuItemId[..|MenuPrefix|] == MenuPrefix && menuItemId != ParentId
    then Some(menuItemId[|MenuPrefix|..])
    else None
  }

  /**
   * Stripping the prefix from a template's menu id gives the template id back; a
   * click is answered exactly for the menu ids of templates other than "parent"
   * (whose menu id is the parent's).
   */
  lemma MenuIdRoundTrip(id: string)
    ensures TemplateIdOf(MenuIdFor(id)) == if id == "parent" then None else Some(id)
  {
    if id == "parent" {
      assert MenuIdFor(id) == ParentId;
    }
  }

  /** The parent entry and ids outside the extension's namespace are ignored. */
  lemma ForeignIdsIgnored(menuItemId: string)
    requires menuItemId == ParentId || !(exists id :: MenuIdFor(id) == menuItemId)
    ensures TemplateIdOf(menuItemId) == None
  {
  }

  /**
   * The URL opened for a click, if any: nothing for an ignored id or a blank
   * selection; otherwise the stored list (the defaults when nothing is stored) is
   * searched for the first template with the id, and nothing opens when there is
   * none or its url is empty.
   */
  function ResolveClick(menuItemId: string, selectionText: string, stored: Option<seq<Template>>, locale: Locale)
    : (r: Option<string>)
  {
    match TemplateIdOf(menuItemId)
    case None => None
    case Some(templateId) =>
      var selected := Trim(selectionText);
      if selected == [] then None
      else
        var ts := stored.GetOr(DefaultTemplates(locale));
        match FirstIndexOf(ts, templateId)
        case None => None
        case Some(i) =>
          if ts[i].url == [] then None
          else Some(ReplaceAll(ts[i].url, Marker, Encode(selected)))
  }

  /** A blank selection opens nothing. */
  lemma BlankSelectionOpensNothing(menuItemId: string, selectionText: string, stored: Option<seq<Template>>, locale: Locale)
    requires IsBlank(selectionText)
    ensures ResolveClick(menuItemId, selectionText, stored, locale) == None
  {
  }

  /** A template id no longer in the list (deleted since the menu was built) opens nothing. */
  lemma UnknownTemplateOpensNothing(id: string, selectionText: string, stored: Option<seq<Template>>, locale: Locale)
    requires forall t | t in stored.GetOr(DefaultTemplates(locale)) :: t.id != id
    ensures ResolveClick(MenuIdFor(id), selectionText, stored, locale) == None
  {
    MenuIdRoundTrip(id);
  }

  /** A found template with an empty url opens nothing. */
  lemma EmptyUrlOpensNothing(id: string, i: nat, selectionText: string, stored: Option<seq<Template>>, locale: Locale)
    requires FirstIndexOf(stored.GetOr(DefaultTemplates(locale)), id) == Some(i)
    requires stored.GetOr(DefaultTemplates(locale))[i].url == []
    ensures ResolveClick(MenuIdFor(id), selectionText, stored, locale) == None
  {
    MenuIdRoundTrip(id);
  }

  /**
   * Otherwise the first template with the id is opened: its url with every marker
   * replaced by the encoded trimmed selection.
   */
  lemma ClickOpens(id: string, i: nat, selectionText: string, stored: Option<seq<Template>>, locale: Locale)
    requires id != "parent" && !IsBlank(selectionText)
    requires FirstIndexOf(stored.GetOr(DefaultTemplates(locale)), id) == Some(i)
    requires stored.GetOr(DefaultTemplates(locale))[i].url != []
    ensures ResolveClick(MenuIdFor(id), selectionText, stored, locale)
      == Some(ReplaceAll(stored.GetOr(DefaultTemplates(locale))[i].url, Marker, Encode(Trim(selectionText))))
  {
    MenuIdRoundTrip(id);
  }

  /**
   * Clicking the menu entry built for a valid template of the stored list, with a
   * non-blank selection, opens that template's url with the marker replaced,
   * provided ids are distinct and none is "parent".
   */
  lemma ClickOnBuiltEntry(ts: seq<Template>, k: nat, selectionText: string, locale: Locale)
    requires DistinctIds(ts)
    requires k < |ValidTemplates(ts)| && ValidTemplates(ts)[k].id != "parent"
    requires !IsBlank(selectionText)
    ensures var v := ValidTemplates(ts)[k];
      ResolveClick(ChildItems(ValidTemplates(ts))[k].id, selectionText, Some(ts), locale)
        == Some(ReplaceAll(v.url, Marker, Encode(Trim(selectionText))))
  {
    var v := ValidTemplates(ts)[k];
    ValidTemplatesSpec(ts);
    var p := Indexed.Hits(ts, (), KeepValid, 0)[k];
    assert ts[p] == v;
    FirstIndexOfDistinct(ts, p);
    assert v.url != [] by {
      assert IsValidTemplate(v);
    }
    assert ChildItems(ValidTemplates(ts))[k].id == MenuIdFor(v.id);
    ClickOpens(v.id, p, selectionText, Some(ts), locale);
  }

  /**
   * Selecting "café" and clicking the entry of the template
   * `https://x.com/s?q={text}` opens `https://x.com/s?q=caf%C3%A9`.
   */
  lemma CafeClick(locale: Locale)
    ensures ResolveClick("freejumper-1", "café", Some([Template("1", "", "https://x.com/s?q={text}")]), locale)
      == Some("https://x.com/s?q=caf%C3%A9")
  {
    var ts := [Template("1", "", "https://x.com/s?q={text}")];
    assert TrimEnd(TrimStart("café")) == "café";
    assert MenuIdFor("1") == "freejumper-1";
    ClickOpens("1", 0, "café", Some(ts), locale);
    EncodeCafe();
    CafeSubstitution();
  }

  lemma CafeSubstitution()
    ensures ReplaceAll("https://x.com/s?q={text}", Marker, "caf%C3%A9") == "https://x.com/s?q=caf%C3%A9"
  {
    var head := "https://x.com/s?q=";
    assert forall i :: 0 <= i < |head| ==> head[i] != '{';
    ReplaceAllSkip(head, Marker, Marker, "caf%C3%A9");
    ReplaceAllPattern(Marker, "caf%C3%A9");
    assert head + Marker == "https://x.com/s?q={text}";
    assert head + "caf%C3%A9" == "https://x.com/s?q=caf%C3%A9";
  }
}
