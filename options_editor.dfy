/**
 * The options page (options.js): the ordered list `templates` and the counter
 * `nextId` that its editing operations change, the save validation and the live
 * preview.
 */
module Options {
  import opened Wrappers
  import opened JsText
  import opened UriComponent
  import opened Templates
  import opened Indexed

  /** Which input an `input` event came from: `.template-name` or `.template-url`. */
  datatype Field = NameField | UrlField

  /** The `chrome.i18n` messages the editor reports, with their substitutions. */
  datatype Message = ErrEmptyUrl(position: nat) | ErrNoPlaceholder(position: nat) | ErrNoTemplates | ErrMinTemplates

  /** What `saveConfig` does: refuse with the messages it shows, or write the list to storage. */
  datatype SaveOutcome = Rejected(errors: seq<Message>) | Written(list: seq<Template>)

  /** One preview line: its title and the substituted URL. */
  datatype PreviewEntry = PreviewEntry(title: Label, url: string)

  /** The preview area: the "no templates" notice, or the lines shown. */
  datatype Preview = PreviewEmpty | PreviewLines(entries: seq<PreviewEntry>)

  // ---------------------------------------------------------------- ids

  /** `parseInt(id) || 0`: NaN (and -0) count as 0. */
  function IdNumber(id: string): int {
    ParseInt(id).GetOr(0)
  }

  /** `String(n)` read back by `parseInt` is `n`. */
  lemma IdNumberOfString(n: int)
    ensures IdNumber(IntToString(n)) == n
  {
    ParseIntOfIntToString(n);
  }

  /**
   * An id the page did not issue still counts by its leading number: white space
   * before it and junk after it are ignored.
   */
  lemma IdNumberOfPaddedId()
    ensures IdNumber(" 12px") == 12
  {
    assert " 12px"[1..] == "12px";
    assert DigitPrefix("12px", false) == "12" by {
      assert "12px"[1..] == "2px" && "2px"[1..] == "px";
    }
    assert DigitsValue("12", 10) == 12 by {
      assert "12"[..1] == "1";
    }
    assert ParseMagnitude("12px") == Some(12);
    assert ParseSigned("12px") == Some(12);
  }

  /** An id with no leading digit counts as 0, as `NaN || 0` does. */
  lemma IdNumberOfWordId()
    ensures IdNumber("abc") == 0
  {
    assert DigitPrefix("abc", false) == [];
    assert ParseSigned("abc") == None;
  }

  /** `Math.max(...templates.map(t => parseInt(t.id) || 0))`: the largest id number of a non-empty list. */
  function MaxIdNumber(ts: seq<Template>): (m: int)
    requires |ts| > 0
    ensures forall i :: 0 <= i < |ts| ==> IdNumber(ts[i].id) <= m
    ensures exists i :: 0 <= i < |ts| && IdNumber(ts[i].id) == m
  {
    if |ts| == 1 then IdNumber(ts[0].id)
    else
      var rest := MaxIdNumber(ts[1..]);
      assert forall i :: 1 <= i < |ts| ==> ts[i] == ts[1..][i - 1];
      if IdNumber(ts[0].id) >= rest then IdNumber(ts[0].id) else rest
  }

  /** Every id number of the list is below `next`: `String(next)` is then a fresh id. */
  ghost predicate IdsBelow(ts: seq<Template>, next: int) {
    forall i :: 0 <= i < |ts| ==> IdNumber(ts[i].id) < next
  }

  /** An id issued as `String(next)` differs from every id of a list whose id numbers are below `next`. */
  lemma IssuedIdIsFresh(ts: seq<Template>, next: int)
    requires IdsBelow(ts, next)
    ensures forall i :: 0 <= i < |ts| ==> ts[i].id != IntToString(next)
  {
    IdNumberOfString(next);
  }

  /** A list made of entries of another keeps the other's bound on id numbers. */
  lemma IdsBelowOfMembers(a: seq<Template>, b: seq<Template>, next: int)
    requires IdsBelow(b, next) && forall t | t in a :: t in b
    ensures IdsBelow(a, next)
  {
    forall i | 0 <= i < |a|
      ensures IdNumber(a[i].id) < next
    {
      assert a[i] in b;
      var j :| 0 <= j < |b| && b[j] == a[i];
    }
  }

  /** Replacing an entry by one with the same id keeps the bound on id numbers. */
  lemma IdsBelowAfterSet(ts: seq<Template>, i: nat, t: Template, next: int)
    requires i < |ts| && t.id == ts[i].id && IdsBelow(ts, next)
    ensures IdsBelow(ts[i := t], next)
  {
    var u := ts[i := t];
    forall j | 0 <= j < |u| ensures IdNumber(u[j].id) < next {
      assert u[j].id == ts[j].id;
    }
  }

  // ---------------------------------------------------------------- move

  /** `moveTemplate(index, direction)`: swap with the neighbour at `index + direction` when it exists. */
  function Moved(ts: seq<Template>, index: nat, direction: int): seq<Template>
    requires index < |ts|
  {
    var target := index + direction;
    if target < 0 || target >= |ts| then ts
    else ts[index := ts[target]][target := ts[index]]
  }

  /**
   * A move out of range changes nothing; otherwise exactly the two positions are
   * exchanged, every other entry stays, and the result is a permutation.
   */
  lemma MovedSpec(ts: seq<Template>, index: nat, direction: int)
    requires index < |ts|
    ensures |Moved(ts, index, direction)| == |ts|
    ensures multiset(Moved(ts, index, direction)) == multiset(ts)
    ensures index + direction < 0 || index + direction >= |ts| ==> Moved(ts, index, direction) == ts
    ensures 0 <= index + direction < |ts| ==>
      && Moved(ts, index, direction)[index] == ts[index + direction]
      && Moved(ts, index, direction)[index + direction] == ts[index]
      && forall j :: 0 <= j < |ts| && j != index && j != index + direction ==> Moved(ts, index, direction)[j] == ts[j]
  {
    var target := index + direction;
    if 0 <= target < |ts| {
      var r := ts[index := ts[target]][target := ts[index]];
      assert Moved(ts, index, direction) == r;
      if target != index {
        SwapPermutes(ts, index, target);
      } else {
        assert r == ts;
      }
    }
  }

  /** Exchanging two entries of a sequence keeps its multiset. */
  lemma SwapPermutes<T>(s: seq<T>, i: nat, j: nat)
    requires i < |s| && j < |s| && i != j
    ensures multiset(s[i := s[j]][j := s[i]]) == multiset(s)
  {
    var s1 := s[i := s[j]];
    assert multiset(s1) == multiset(s) - multiset{s[i]} + multiset{s[j]};
    assert s1[j] == s[j];
    assert multiset(s1[j := s[i]]) == multiset(s1) - multiset{s[j]} + multiset{s[i]};
  }

  /** Moving an entry down and then back up restores the list. */
  lemma MoveDownThenUp(ts: seq<Template>, index: nat)
    requires index + 1 < |ts|
    ensures Moved(Moved(ts, index, 1), index + 1, -1) == ts
  {
    var once := Moved(ts, index, 1);
    assert |once| == |ts|;
    assert Moved(once, index + 1, -1) == once[index + 1 := once[index]][index := once[index + 1]];
  }

  // ---------------------------------------------------------------- delete

  /** `templates.filter(t => t.id !== id)`. */
  function WithoutId(ts: seq<Template>, id: string): (r: seq<Template>)
    ensures |r| <= |ts|
  {
    if ts == [] then []
    else (if ts[0].id == id then [] else [ts[0]]) + WithoutId(ts[1..], id)
  }

  /** Exactly the templates with another id remain. */
  lemma {:induction false} WithoutIdMembers(ts: seq<Template>, id: string)
    ensures forall t :: t in WithoutId(ts, id) <==> t in ts && t.id != id
  {
    if ts != [] {
      WithoutIdMembers(ts[1..], id);
      assert ts == [ts[0]] + ts[1..];
    }
  }

  /**
   * Every template with another id stays as often as it occurs, and none with the
   * id does; with WithoutIdKeepsOrder this pins the result down to the list of
   * the templates with another id, in their order.
   */
  lemma {:induction false} WithoutIdCounts(ts: seq<Template>, id: string)
    ensures forall t :: multiset(WithoutId(ts, id))[t] == if t.id == id then 0 else multiset(ts)[t]
  {
    if ts != [] {
      WithoutIdCounts(ts[1..], id);
      assert ts == [ts[0]] + ts[1..];
      var head: seq<Template> := if ts[0].id == id then [] else [ts[0]];
      assert WithoutId(ts, id) == head + WithoutId(ts[1..], id);
    }
  }

  /** `a` is `b` with some entries left out, the rest in the same order. */
  ghost predicate IsSubsequence(a: seq<Template>, b: seq<Template>)
    decreases |b|
  {
    if b == [] then a == []
    else (a != [] && a[0] == b[0] && IsSubsequence(a[1..], b[1..])) || IsSubsequence(a, b[1..])
  }

  /** The templates that remain keep their relative order. */
  lemma {:induction false} WithoutIdKeepsOrder(ts: seq<Template>, id: string)
    ensures IsSubsequence(WithoutId(ts, id), ts)
  {
    if ts != [] {
      WithoutIdKeepsOrder(ts[1..], id);
      var rest := WithoutId(ts[1..], id);
      if ts[0].id == id {
        assert WithoutId(ts, id) == [] + rest == rest;
      } else {
        assert WithoutId(ts, id) == [ts[0]] + rest;
        assert ([ts[0]] + rest)[1..] == rest;
      }
    }
  }

  /** With distinct ids, deleting a present id removes exactly that one entry. */
  lemma {:induction false} WithoutUniqueId(ts: seq<Template>, i: nat)
    requires DistinctIds(ts) && i < |ts|
    ensures WithoutId(ts, ts[i].id) == ts[..i] + ts[i + 1..]
  {
    var id := ts[i].id;
    var tail := ts[1..];
    DistinctIdsTail(ts);
    if i == 0 {
      WithoutAbsentId(tail, id);
      assert WithoutId(ts, id) == [] + WithoutId(tail, id);
      assert ts[i + 1..] == tail;
    } else {
      assert tail[i - 1] == ts[i];
      WithoutUniqueId(tail, i - 1);
      assert ts[0].id != id;
      assert WithoutId(ts, id) == [ts[0]] + WithoutId(tail, id);
      assert ts[..i] == [ts[0]] + tail[..i - 1];
      assert ts[i + 1..] == tail[i..];
    }
  }

  /** Deleting an id no template has changes nothing. */
  lemma {:induction false} WithoutAbsentId(ts: seq<Template>, id: string)
    requires forall j :: 0 <= j < |ts| ==> ts[j].id != id
    ensures WithoutId(ts, id) == ts
  {
    if ts != [] {
      WithoutAbsentId(ts[1..], id);
      assert ts == [ts[0]] + ts[1..];
    }
  }

  // ---------------------------------------------------------------- update

  function WithField(t: Template, field: Field, value: string): (r: Template)
    ensures r.id == t.id
  {
    match field
    case NameField => t.(name := value)
    case UrlField => t.(url := value)
  }

  /**
   * `updateTemplate`: the first template with the id gets the trimmed value in the
   * field the input belongs to; an unknown id changes nothing.
   */
  function Updated(ts: seq<Template>, id: string, field: Field, value: string): seq<Template> {
    Assigned(ts, id, field, Trim(value))
  }

  /** The first template with the id, if any, gets `value` in the field. */
  function Assigned(ts: seq<Template>, id: string, field: Field, value: string): seq<Template> {
    match FirstIndexOf(ts, id)
    case None => ts
    case Some(i) => ts[i := WithField(ts[i], field, value)]
  }

  /**
   * Ids and length are kept; an unknown id changes nothing; otherwise only the
   * first template with the id changes, taking the trimmed value in the field the
   * input belongs to and keeping the other field.
   */
  lemma UpdatedSpec(ts: seq<Template>, id: string, field: Field, value: string)
    ensures var r := Updated(ts, id, field, value);
      && |r| == |ts| && (forall j :: 0 <= j < |ts| ==> r[j].id == ts[j].id)
      && (FirstIndexOf(ts, id).None? ==> r == ts)
      && (FirstIndexOf(ts, id).Some? ==>
            var i := FirstIndexOf(ts, id).value;
            && ts[i].id == id && (forall j :: 0 <= j < i ==> ts[j].id != id)
            && (forall j :: 0 <= j < |ts| && j != i ==> r[j] == ts[j])
            && (field == NameField ==> r[i].name == Trim(value) && r[i].url == ts[i].url)
            && (field == UrlField ==> r[i].url == Trim(value) && r[i].name == ts[i].name))
  {
    AssignedSpec(ts, id, field, Trim(value));
  }

  /** Assigned changes at most the field of the first template with the id. */
  lemma AssignedSpec(ts: seq<Template>, id: string, field: Field, value: string)
    ensures var r := Assigned(ts, id, field, value);
      && |r| == |ts| && (forall j :: 0 <= j < |ts| ==> r[j].id == ts[j].id)
      && (FirstIndexOf(ts, id).None? ==> r == ts)
      && (FirstIndexOf(ts, id).Some? ==>
            var i := FirstIndexOf(ts, id).value;
            && (forall j :: 0 <= j < |ts| && j != i ==> r[j] == ts[j])
            && (field == NameField ==> r[i].name == value && r[i].url == ts[i].url)
            && (field == UrlField ==> r[i].url == value && r[i].name == ts[i].name))
  {
    var found := FirstIndexOf(ts, id);
    if found.Some? {
      var i := found.value;
      var t := WithField(ts[i], field, value);
      assert Assigned(ts, id, field, value) == ts[i := t];
    }
  }

  // ---------------------------------------------------------------- drop

  /** The first template with the id, or nothing. */
  function FindById(ts: seq<Template>, id: string): (r: seq<Template>)
    ensures |r| <= 1
    ensures r == [] <==> forall j :: 0 <= j < |ts| ==> ts[j].id != id
    ensures r != [] ==> r[0].id == id && r[0] in ts
  {
    match FirstIndexOf(ts, id)
    case None => []
    case Some(i) => [ts[i]]
  }

  /**
   * The list `handleDrop` rebuilds from the ids in DOM order: for each id, the
   * first template with it; ids not found are skipped.
   */
  function Reordered(ts: seq<Template>, order: seq<string>): (r: seq<Template>)
    ensures |r| <= |order|
  {
    if order == [] then []
    else Reordered(ts, order[..|order| - 1]) + FindById(ts, order[|order| - 1])
  }

  /** Every rebuilt entry is a template of the old list. */
  lemma {:induction false} ReorderedMembers(ts: seq<Template>, order: seq<string>)
    ensures forall t | t in Reordered(ts, order) :: t in ts
  {
    if order != [] {
      ReorderedMembers(ts, order[..|order| - 1]);
    }
  }

  lemma {:induction false} ReorderedAppend(ts: seq<Template>, a: seq<string>, b: seq<string>)
    ensures Reordered(ts, a + b) == Reordered(ts, a) + Reordered(ts, b)
    decreases |b|
  {
    if b == [] {
      assert a + b == a;
    } else {
      var b' := b[..|b| - 1];
      assert (a + b)[..|a + b| - 1] == a + b';
      ReorderedAppend(ts, a, b');
    }
  }

  /** Reordering by a rearranged id list gives a rearranged result. */
  lemma {:induction false} ReorderedPermutes(ts: seq<Template>, o1: seq<string>, o2: seq<string>)
    requires multiset(o1) == multiset(o2)
    ensures multiset(Reordered(ts, o1)) == multiset(Reordered(ts, o2))
    decreases |o1|
  {
    if o1 == [] {
      assert |multiset(o2)| == 0;
      assert o2 == [];
    } else {
      var x := o1[|o1| - 1];
      var o1' := o1[..|o1| - 1];
      assert o1 == o1' + [x];
      assert x in multiset(o2);
      var j :| 0 <= j < |o2| && o2[j] == x;
      var o2' := o2[..j] + o2[j + 1..];
      WithoutOne(o1, |o1| - 1);
      WithoutOne(o2, j);
      ReorderedPermutes(ts, o1', o2');
      ReorderedExtract(ts, o2, j);
    }
  }

  /** Leaving out position `j` takes one copy of its element out of the multiset. */
  lemma WithoutOne<T>(o: seq<T>, j: nat)
    requires j < |o|
    ensures multiset(o[..j] + o[j + 1..]) == multiset(o) - multiset{o[j]}
  {
    assert o == o[..j] + [o[j]] + o[j + 1..];
  }

  /** The entry an id at position `j` contributes can be taken out of the rebuilt list. */
  lemma ReorderedExtract(ts: seq<Template>, o: seq<string>, j: nat)
    requires j < |o|
    ensures multiset(Reordered(ts, o))
      == multiset(Reordered(ts, o[..j] + o[j + 1..])) + multiset(FindById(ts, o[j]))
  {
    var left, mid, right := Reordered(ts, o[..j]), FindById(ts, o[j]), Reordered(ts, o[j + 1..]);
    ReorderedSplit(ts, o, j);
    ReorderedAppend(ts, o[..j], o[j + 1..]);
    assert multiset(left + mid + right) == multiset(left + right) + multiset(mid);
  }

  /** The rebuilt list is the part before position `j`, its entry, and the part after. */
  lemma ReorderedSplit(ts: seq<Template>, o: seq<string>, j: nat)
    requires j < |o|
    ensures Reordered(ts, o) == Reordered(ts, o[..j]) + FindById(ts, o[j]) + Reordered(ts, o[j + 1..])
  {
    var x, before, after := o[j], o[..j], o[j + 1..];
    assert o == before + ([x] + after);
    ReorderedAppend(ts, before, [x] + after);
    ReorderedAppend(ts, [x], after);
    assert Reordered(ts, [x]) == FindById(ts, x) by {
      assert [x][..0] == [];
    }
  }

  /** The ids of a list, in order. */
  function Ids(ts: seq<Template>): (r: seq<string>)
    ensures |r| == |ts| && forall i :: 0 <= i < |ts| ==> r[i] == ts[i].id
  {
    seq(|ts|, i requires 0 <= i < |ts| => ts[i].id)
  }

  lemma {:induction false} ReorderedByOwnIds(ts: seq<Template>, n: nat)
    requires DistinctIds(ts) && n <= |ts|
    ensures Reordered(ts, Ids(ts)[..n]) == ts[..n]
  {
    if n > 0 {
      ReorderedByOwnIds(ts, n - 1);
      assert Ids(ts)[..n][..n - 1] == Ids(ts)[..n - 1];
      FirstIndexOfDistinct(ts, n - 1);
      assert ts[..n] == ts[..n - 1] + [ts[n - 1]];
    }
  }

  /**
   * When the DOM order lists each id of a list with distinct ids exactly once,
   * the rebuilt list is a permutation of the old one.
   */
  lemma ReorderedIsPermutation(ts: seq<Template>, order: seq<string>)
    requires DistinctIds(ts) && multiset(order) == multiset(Ids(ts))
    ensures |Reordered(ts, order)| == |ts| && multiset(Reordered(ts, order)) == multiset(ts)
  {
    ReorderedPermutes(ts, order, Ids(ts));
    ReorderedByOwnIds(ts, |ts|);
    assert Ids(ts)[..|ts|] == Ids(ts) && ts[..|ts|] == ts;
    assert |multiset(Reordered(ts, order))| == |Reordered(ts, order)|;
  }

  // ---------------------------------------------------------------- save

  /** The validation message for the template at `index`, tagged with its 1-based position. */
  function SaveErrorAt(ctx: (), t: Template, index: nat): Option<Message> {
    if IsBlank(t.url) then Some(ErrEmptyUrl(index + 1))
    else if !Contains(t.url, Marker) then Some(ErrNoPlaceholder(index + 1))
    else None
  }

  /** The messages `saveConfig` collects, in index order. */
  function SaveErrors(ts: seq<Template>): seq<Message> {
    Collect(ts, (), SaveErrorAt, 0)
  }

  /** `saveConfig`'s decision: any message, or no valid template, refuses; else the whole list is written. */
  function SaveDecision(ts: seq<Template>): SaveOutcome {
    var errors := SaveErrors(ts);
    if errors != [] then Rejected(errors)
    else if ValidTemplates(ts) == [] then Rejected([ErrNoTemplates])
    else Written(ts)
  }

  /**
   * One message per offending template, in index order: the k-th message belongs
   * to the k-th invalid position p, is tagged p + 1, and is the empty-url message
   * for a blank url and the missing-placeholder message otherwise.
   */
  lemma SaveErrorsSpec(ts: seq<Template>)
    ensures var ps := Hits(ts, (), SaveErrorAt, 0);
      && |SaveErrors(ts)| == |ps|
      && (forall k, l :: 0 <= k < l < |ps| ==> ps[k] < ps[l])
      && (forall i :: 0 <= i < |ts| ==> (i in ps <==> !IsValidTemplate(ts[i])))
      && (forall k :: 0 <= k < |ps| ==>
            SaveErrors(ts)[k] == if IsBlank(ts[ps[k]].url) then ErrEmptyUrl(ps[k] + 1) else ErrNoPlaceholder(ps[k] + 1))
  {
    CollectAtHits(ts, (), SaveErrorAt, 0);
  }

  /**
   * A list is written exactly when it is non-empty and every template is valid,
   * and then it is written whole and in order; an empty list is refused with the
   * no-templates message.
   */
  lemma SaveDecisionSpec(ts: seq<Template>)
    ensures SaveDecision(ts).Written? <==> ts != [] && forall i :: 0 <= i < |ts| ==> IsValidTemplate(ts[i])
    ensures SaveDecision(ts).Written? ==> SaveDecision(ts).list == ts
    ensures ts == [] ==> SaveDecision(ts) == Rejected([ErrNoTemplates])
  {
    if forall i :: 0 <= i < |ts| ==> IsValidTemplate(ts[i]) {
      CollectNone(ts, (), SaveErrorAt, 0);
      ValidTemplatesAllValid(ts);
    } else {
      SaveErrorsSpec(ts);
      var i :| 0 <= i < |ts| && !IsValidTemplate(ts[i]);
      assert i in Hits(ts, (), SaveErrorAt, 0);
    }
  }

  /** The `templates.forEach` pass of `saveConfig`: each template's message, if any, in order. */
  method ValidateAll(ts: seq<Template>) returns (errors: seq<Message>)
    ensures errors == SaveErrors(ts)
  {
    errors := [];
    var i := 0;
    while i < |ts|
      invariant 0 <= i <= |ts|
      invariant errors + Collect(ts, (), SaveErrorAt, i) == SaveErrors(ts)
    {
      errors := ValidateOne(ts, i, errors);
      i := i + 1;
    }
    assert Collect(ts, (), SaveErrorAt, i) == [];
  }

  /** One step of the `forEach` callback: the message for `ts[i]`, if any, is pushed. */
  method ValidateOne(ts: seq<Template>, i: nat, errors: seq<Message>) returns (pushed: seq<Message>)
    requires i < |ts|
    ensures pushed + Collect(ts, (), SaveErrorAt, i + 1) == errors + Collect(ts, (), SaveErrorAt, i)
  {
    var t := ts[i];
    ghost var rest := Collect(ts, (), SaveErrorAt, i + 1);
    ghost var here := Collect(ts, (), SaveErrorAt, i);
    pushed := errors;
    if IsBlank(t.url) {
      assert SaveErrorAt((), t, i) == Some(ErrEmptyUrl(i + 1));
      assert here == [ErrEmptyUrl(i + 1)] + rest;
      AppendShift(errors, ErrEmptyUrl(i + 1), rest);
      pushed := errors + [ErrEmptyUrl(i + 1)];
    } else if !Contains(t.url, Marker) {
      assert SaveErrorAt((), t, i) == Some(ErrNoPlaceholder(i + 1));
      assert here == [ErrNoPlaceholder(i + 1)] + rest;
      AppendShift(errors, ErrNoPlaceholder(i + 1), rest);
      pushed := errors + [ErrNoPlaceholder(i + 1)];
    } else {
      assert SaveErrorAt((), t, i) == None;
      assert here == rest;
    }
  }

  /** Appending one message, then the rest, is prepending it to the rest. */
  lemma AppendShift(a: seq<Message>, m: Message, b: seq<Message>)
    ensures (a + [m]) + b == a + ([m] + b)
  {
  }

  // ---------------------------------------------------------------- preview

  /** The preview text: the trimmed input, or the localized default when that is empty. */
  function PreviewText(input: string, locale: Locale): (r: string)
    ensures r != []
  {
    var trimmed := Trim(input);
    if trimmed != [] then trimmed else if locale.isChinese then "示例文字" else "Example text"
  }

  /** The preview line of the template at `index`; none for a blank url. */
  function PreviewEntryAt(text: string, t: Template, index: nat): Option<PreviewEntry> {
    if IsBlank(t.url) then None
    else Some(PreviewEntry(TitleFor(t, index + 1), ReplaceAll(t.url, Marker, Encode(text))))
  }

  /** `updatePreview`. */
  function PreviewOf(ts: seq<Template>, input: string, locale: Locale): Preview {
    if ts == [] then PreviewEmpty
    else PreviewLines(Collect(ts, PreviewText(input, locale), PreviewEntryAt, 0))
  }

  /**
   * One line per template with a non-blank url, in list order, urls without the
   * marker included: the k-th line belongs to the k-th such position p, is
   * labelled by the name or the default numbered p + 1 in the full list, and shows
   * the url with every marker replaced by the encoded preview text.
   */
  lemma PreviewSpec(ts: seq<Template>, input: string, locale: Locale)
    requires ts != []
    ensures var text := PreviewText(input, locale);
      var ps := Hits(ts, text, PreviewEntryAt, 0);
      var lines := PreviewOf(ts, input, locale).entries;
      && |lines| == |ps|
      && (forall k, l :: 0 <= k < l < |ps| ==> ps[k] < ps[l])
      && (forall i :: 0 <= i < |ts| ==> (i in ps <==> !IsBlank(ts[i].url)))
      && (forall k :: 0 <= k < |ps| ==>
            lines[k] == PreviewEntry(TitleFor(ts[ps[k]], ps[k] + 1), ReplaceAll(ts[ps[k]].url, Marker, Encode(text))))
  {
    var text := PreviewText(input, locale);
    PreviewLinesAt(ts, text);
    assert PreviewOf(ts, input, locale).entries == Collect(ts, text, PreviewEntryAt, 0);
  }

  /** PreviewSpec for a given preview text. */
  lemma PreviewLinesAt(ts: seq<Template>, text: string)
    ensures var ps := Hits(ts, text, PreviewEntryAt, 0);
      var lines := Collect(ts, text, PreviewEntryAt, 0);
      && |lines| == |ps|
      && (forall k, l :: 0 <= k < l < |ps| ==> ps[k] < ps[l])
      && (forall i :: 0 <= i < |ts| ==> (i in ps <==> !IsBlank(ts[i].url)))
      && (forall k :: 0 <= k < |ps| ==>
            lines[k] == PreviewEntry(TitleFor(ts[ps[k]], ps[k] + 1), ReplaceAll(ts[ps[k]].url, Marker, Encode(text))))
  {
    CollectAtHits(ts, text, PreviewEntryAt, 0);
  }

  /** A non-blank url without the marker is previewed as it is. */
  lemma PreviewShowsUnmarkedUrl(t: Template, index: nat, text: string)
    requires !IsBlank(t.url) && !Contains(t.url, Marker)
    ensures PreviewEntryAt(text, t, index) == Some(PreviewEntry(TitleFor(t, index + 1), t.url))
  {
    ReplaceAllAbsent(t.url, Marker, Encode(text));
  }

  // ---------------------------------------------------------------- the page state

  class Editor {
    /** The global `templates`. */
    var templates: seq<Template>
    /** The global `nextId`. */
    var nextId: int

    /** Every id number is below `nextId`, so each id the page issues is fresh. */
    ghost predicate Valid()
      reads this
    {
      IdsBelow(templates, nextId)
    }

    constructor ()
      ensures Valid() && templates == [] && nextId == 1
    {
      templates, nextId := [], 1;
    }

    /**
     * `loadConfig`: a non-empty stored list is adopted as it is, with `nextId` one
     * more than its largest id number; otherwise the two defaults, with `nextId` 3.
     */
    method LoadConfig(stored: Option<seq<Template>>, locale: Locale)
      modifies this
      ensures Valid()
      ensures stored.Some? && stored.value != [] ==>
        templates == stored.value && nextId == MaxIdNumber(stored.value) + 1
      ensures !(stored.Some? && stored.value != []) ==> templates == DefaultTemplates(locale) && nextId == 3
    {
      if stored.Some? && |stored.value| > 0 {
        templates := stored.value;
        nextId := MaxIdNumber(templates) + 1;
      } else {
        SetDefaults(locale);
      }
    }

    method SetDefaults(locale: Locale)
      modifies this
      ensures Valid() && templates == DefaultTemplates(locale) && nextId == 3
    {
      templates := DefaultTemplates(locale);
      nextId := 3;
      assert IntToString(1) == "1" && IntToString(2) == "2";
      IdNumberOfString(1);
      IdNumberOfString(2);
    }

    /** `addTemplate`: one blank template with id `String(nextId)` is appended and `nextId` goes up. */
    method AddTemplate()
      requires Valid()
      modifies this
      ensures Valid()
      ensures templates == old(templates) + [Template(IntToString(old(nextId)), "", "")]
      ensures nextId == old(nextId) + 1
      ensures forall i :: 0 <= i < |old(templates)| ==> old(templates)[i].id != IntToString(old(nextId))
    {
      Append("", "");
    }

    /** `addTemplateFromExample`: as `addTemplate`, with the example's name and url. */
    method AddTemplateFromExample(name: string, url: string)
      requires Valid()
      modifies this
      ensures Valid()
      ensures templates == old(templates) + [Template(IntToString(old(nextId)), name, url)]
      ensures nextId == old(nextId) + 1
      ensures forall i :: 0 <= i < |old(templates)| ==> old(templates)[i].id != IntToString(old(nextId))
    {
      Append(name, url);
    }

    method Append(name: string, url: string)
      requires Valid()
      modifies this
      ensures Valid()
      ensures templates == old(templates) + [Template(IntToString(old(nextId)), name, url)]
      ensures nextId == old(nextId) + 1
      ensures forall i :: 0 <= i < |old(templates)| ==> old(templates)[i].id != IntToString(old(nextId))
    {
      var id := IntToString(nextId);
      IssuedIdIsFresh(templates, nextId);
      IdNumberOfString(nextId);
      nextId := nextId + 1;
      templates := templates + [Template(id, name, url)];
    }

    /** `moveTemplate`: the entry at `index` trades places with its neighbour in `direction`, if there is one. */
    method MoveTemplate(index: nat, direction: int)
      requires Valid() && index < |templates|
      modifies this
      ensures Valid()
      ensures templates == Moved(old(templates), index, direction) && nextId == old(nextId)
    {
      var target := index + direction;
      if target < 0 || target >= |templates| {
        return;
      }
      MovedSpec(templates, index, direction);
      templates := templates[index := templates[target]][target := templates[index]];
    }

    /**
     * `deleteTemplate`: refused with a message while at most one template is left;
     * otherwise, when the user confirms, every template with the id is removed.
     */
    method DeleteTemplate(id: string, confirmed: bool) returns (error: Option<Message>)
      requires Valid()
      modifies this
      ensures Valid() && nextId == old(nextId)
      ensures |old(templates)| <= 1 ==> error == Some(ErrMinTemplates) && templates == old(templates)
      ensures |old(templates)| > 1 ==>
        error == None && templates == if confirmed then WithoutId(old(templates), id) else old(templates)
    {
      if |templates| <= 1 {
        return Some(ErrMinTemplates);
      }
      if confirmed {
        WithoutIdMembers(templates, id);
        IdsBelowOfMembers(WithoutId(templates, id), templates, nextId);
        templates := WithoutId(templates, id);
      }
      return None;
    }

    /** `updateTemplate`: the first template with the id gets the trimmed value. */
    method UpdateTemplate(id: string, field: Field, value: string)
      requires Valid()
      modifies this
      ensures Valid()
      ensures templates == Updated(old(templates), id, field, value) && nextId == old(nextId)
    {
      Assign(id, field, Trim(value));
    }

    method Assign(id: string, field: Field, value: string)
      requires Valid()
      modifies this
      ensures Valid()
      ensures templates == Assigned(old(templates), id, field, value) && nextId == old(nextId)
    {
      var found := FirstIndexOf(templates, id);
      if found.Some? {
        var i := found.value;
        var t := WithField(templates[i], field, value);
        IdsBelowAfterSet(templates, i, t, nextId);
        templates := templates[i := t];
      }
    }

    /**
     * `handleDrop`: while a drag is in progress, the list is rebuilt from the ids
     * in DOM order, taking the first template found for each and skipping ids not
     * found.
     */
    method HandleDrop(dragging: bool, domOrder: seq<string>)
      requires Valid()
      modifies this
      ensures Valid()
      ensures templates == (if dragging then Reordered(old(templates), domOrder) else old(templates))
      ensures nextId == old(nextId)
    {
      if !dragging {
        return;
      }
      var rebuilt: seq<Template> := [];
      var i := 0;
      while i < |domOrder|
        invariant 0 <= i <= |domOrder|
        invariant rebuilt == Reordered(templates, domOrder[..i])
      {
        var found := FirstIndexOf(templates, domOrder[i]);
        if found.Some? {
          rebuilt := rebuilt + [templates[found.value]];
        }
        assert domOrder[..i + 1][..i] == domOrder[..i];
        i := i + 1;
      }
      assert domOrder[..i] == domOrder;
      ReorderedMembers(templates, domOrder);
      IdsBelowOfMembers(rebuilt, templates, nextId);
      templates := rebuilt;
    }

    /** `saveConfig`: validate every template, in order, and decide what is written. */
    method SaveConfig() returns (outcome: SaveOutcome)
      ensures outcome == SaveDecision(templates)
    {
      var errors := ValidateAll(templates);
      if errors != [] {
        return Rejected(errors);
      }
      if ValidTemplates(templates) == [] {
        return Rejected([ErrNoTemplates]);
      }
      return Written(templates);
    }

    /** `resetConfig`: when confirmed, back to the two defaults with `nextId` 3. */
    method ResetConfig(confirmed: bool, locale: Locale)
      requires Valid()
      modifies this
      ensures Valid()
      ensures confirmed ==> templates == DefaultTemplates(locale) && nextId == 3
      ensures !confirmed ==> templates == old(templates) && nextId == old(nextId)
    {
      if confirmed {
        SetDefaults(locale);
      }
    }
  }
}
