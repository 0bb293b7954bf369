/** The content script's view of one frame (content.js): the element records
    it reads, the label cascade of `getBestLabel` and the field scan of
    `scanForm`. */
module Content {
  import opened Text
  import opened Wrappers

  /** One `<option>` of a `<select>`: its `value`, its `text` and whether it
      is selected. */
  datatype SelectOption = SelectOption(value: string, text: string, selected: bool)

  /** One element of the document, in document order, with the properties the
      content script reads or writes. `tagName` is as the DOM reports it
      (upper case for HTML elements); `inputType` is the `type` property, ""
      for elements that have none; `rendered` stands for
      `offsetParent !== null`; `enclosingLabel` is the text content of the
      nearest ancestor `<label>`, if there is one. An empty `id`, `name` or
      `placeholder` stands for a missing attribute. */
  datatype Element = Element(
    tagName: string,
    inputType: string,
    id: string,
    name: string,
    placeholder: string,
    disabled: bool,
    rendered: bool,
    required: bool,
    value: string,
    checked: bool,
    options: seq<SelectOption>,
    enclosingLabel: Option<string>)

  /** A `<label>` of the document: its `for` attribute and its text content. */
  datatype LabelElement = LabelElement(htmlFor: string, text: string)

  /** The description of a form control that the scan reports. */
  datatype Field = Field(
    id: string,
    labelText: string,
    name: string,
    fieldType: string,
    tagName: string,
    value: string,
    placeholder: string,
    required: bool,
    options: Option<seq<SelectOption>>)

  /** The element's tag name as the script compares it. */
  function Tag(e: Element): string
  {
    Lower(e.tagName)
  }

  /** The selector `input:not([type="hidden"]):not([type="submit"]), textarea, select`. */
  predicate IsCandidate(e: Element)
  {
    (Tag(e) == "input" && e.inputType != "hidden" && e.inputType != "submit")
    || Tag(e) == "textarea" || Tag(e) == "select"
  }

  /** `document.querySelectorAll(selector)`: the matching elements, in
      document order. */
  function Candidates(page: seq<Element>): (cs: seq<Element>)
    ensures |cs| <= |page|
    ensures forall e :: e in cs <==> e in page && IsCandidate(e)
  {
    if page == [] then []
    else Candidates(page[..|page| - 1]) + (if IsCandidate(page[|page| - 1]) then [page[|page| - 1]] else [])
  }

  /** A single element is its own candidate list when it is a candidate. */
  lemma CandidatesSingle(e: Element)
    ensures Candidates([e]) == if IsCandidate(e) then [e] else []
  {
    assert [e][..0] == [];
  }

  /** The candidates of two stretches of the page, one after the other, are
      those of the first stretch followed by those of the second: the
      candidates keep document order. */
  lemma {:induction false} CandidatesAppend(a: seq<Element>, b: seq<Element>)
    ensures Candidates(a + b) == Candidates(a) + Candidates(b)
    decreases |b|
  {
    if b == [] {
      assert a + b == a;
    } else {
      var init := b[..|b| - 1];
      assert (a + b)[..|a + b| - 1] == a + init;
      assert (a + b)[|a + b| - 1] == b[|b| - 1];
      CandidatesAppend(a, init);
    }
  }

  /** The position of the first label whose `for` attribute is `id`, which is
      what `document.querySelector('label[for="id"]')` finds. */
  function FirstLabelFor(labels: seq<LabelElement>, id: string): (r: Option<nat>)
    ensures r.Some? ==> r.value < |labels| && labels[r.value].htmlFor == id
    ensures r.Some? ==> forall j :: 0 <= j < r.value ==> labels[j].htmlFor != id
    ensures r.None? ==> forall j :: 0 <= j < |labels| ==> labels[j].htmlFor != id
  {
    if labels == [] then None
    else if labels[0].htmlFor == id then Some(0)
    else match FirstLabelFor(labels[1..], id)
      case None => None
      case Some(j) => Some(j + 1)
  }

  /** Some label of the document names `id` in its `for` attribute. */
  predicate HasLabelFor(labels: seq<LabelElement>, id: string)
  {
    exists j :: 0 <= j < |labels| && labels[j].htmlFor == id
  }

  /** `getBestLabel`: the first source that exists wins, in this order: the
      trimmed text of the first `label[for=id]` (looked up only when the
      element has an id; an empty text still wins), the trimmed text of the
      nearest ancestor label, a non-empty placeholder, and the name (which is
      "" when there is none). */
  function GetBestLabel(e: Element, labels: seq<LabelElement>): (r: string)
    ensures e.id != "" && HasLabelFor(labels, e.id) ==>
      exists j :: 0 <= j < |labels| && labels[j].htmlFor == e.id && r == Trim(labels[j].text)
                  && forall k :: 0 <= k < j ==> labels[k].htmlFor != e.id
    ensures !(e.id != "" && HasLabelFor(labels, e.id)) && e.enclosingLabel.Some? ==>
      r == Trim(e.enclosingLabel.value)
    ensures !(e.id != "" && HasLabelFor(labels, e.id)) && e.enclosingLabel.None? && e.placeholder != "" ==>
      r == e.placeholder
    ensures !(e.id != "" && HasLabelFor(labels, e.id)) && e.enclosingLabel.None? && e.placeholder == "" ==>
      r == e.name
  {
    var linked := if e.id != "" then FirstLabelFor(labels, e.id) else None;
    if linked.Some? then Trim(labels[linked.value].text)
    else if e.enclosingLabel.Some? then Trim(e.enclosingLabel.value)
    else if e.placeholder != "" then e.placeholder
    else e.name
  }

  /** A label linked by `for` is reported even when the element also has a
      placeholder and an enclosing label. */
  lemma LinkedLabelBeatsPlaceholder(e: Element, labels: seq<LabelElement>, j: nat)
    requires e.id != "" && e.placeholder != ""
    requires j < |labels| && labels[j].htmlFor == e.id
    requires forall k :: 0 <= k < j ==> labels[k].htmlFor != e.id
    ensures GetBestLabel(e, labels) == Trim(labels[j].text)
  {
  }

  /** The prefix of the identifiers the scan makes up. */
  const SynthesizedPrefix := "smartfill-field-"

  /** `el.id || el.name || \`smartfill-field-${index}\``, where `index` is the
      element's position among all candidates. */
  function FieldId(e: Element, index: nat): (r: string)
    ensures r != ""
    ensures e.id != "" ==> r == e.id
    ensures e.id == "" && e.name != "" ==> r == e.name
  {
    if e.id != "" then e.id
    else if e.name != "" then e.name
    else SynthesizedPrefix + NatToString(index)
  }

  /** A made-up identifier is the prefix followed by the candidate index,
      which can be read back from it. */
  lemma SynthesizedIdRoundTrip(e: Element, index: nat)
    requires e.id == "" && e.name == ""
    ensures StartsWith(FieldId(e, index), SynthesizedPrefix)
    ensures var digits := FieldId(e, index)[|SynthesizedPrefix|..];
            (forall i :: 0 <= i < |digits| ==> IsDigit(digits[i])) && ParseDecimal(digits) == index
  {
    var id := FieldId(e, index);
    assert id[..|SynthesizedPrefix|] == SynthesizedPrefix;
    assert id[|SynthesizedPrefix|..] == NatToString(index);
    DecimalRoundTrip(index);
  }

  /** Two candidates without id and name at different positions get
      different made-up identifiers. */
  lemma SynthesizedIdsDistinct(e1: Element, i1: nat, e2: Element, i2: nat)
    requires e1.id == "" && e1.name == "" && e2.id == "" && e2.name == ""
    requires i1 != i2
    ensures FieldId(e1, i1) != FieldId(e2, i2)
  {
    SynthesizedIdRoundTrip(e1, i1);
    SynthesizedIdRoundTrip(e2, i2);
  }

  /** Identifiers are not unique: two elements without id that share a name,
      such as the buttons of a radio group, are reported under the same id. */
  lemma SharedNameSharesId(e1: Element, i1: nat, e2: Element, i2: nat)
    requires e1.id == "" && e2.id == "" && e1.name == e2.name && e1.name != ""
    ensures FieldId(e1, i1) == FieldId(e2, i2) == e1.name
  {
  }

  /** The field object the scan builds for a kept element. */
  function Describe(e: Element, index: nat, labels: seq<LabelElement>): (f: Field)
    ensures f.fieldType != ""
    ensures f.tagName == Tag(e)
    ensures f.options.Some? <==> Tag(e) == "select"
    ensures f.options.Some? ==> f.options.value == e.options
  {
    Field(
      FieldId(e, index),
      GetBestLabel(e, labels),
      e.name,
      if e.inputType != "" then e.inputType else if Tag(e) == "select" then "select" else "textarea",
      Tag(e),
      e.value,
      e.placeholder,
      e.required,
      if Tag(e) == "select" then Some(e.options) else None)
  }

  /** The scan keeps an element that is enabled and rendered. */
  predicate Kept(e: Element)
  {
    !e.disabled && e.rendered
  }

  /** The positions, among the candidates, of the elements the scan keeps:
      increasing, and exactly the kept ones. */
  function KeptIndices(cs: seq<Element>): (ks: seq<nat>)
    ensures |ks| <= |cs|
    ensures forall k :: 0 <= k < |ks| ==> ks[k] < |cs| && Kept(cs[ks[k]])
    ensures forall k, l :: 0 <= k < l < |ks| ==> ks[k] < ks[l]
    ensures forall i :: 0 <= i < |cs| && Kept(cs[i]) ==> i in ks
  {
    if cs == [] then []
    else
      var n := |cs| - 1;
      var pre := KeptIndices(cs[..n]);
      assert forall k :: 0 <= k < |pre| ==> cs[pre[k]] == cs[..n][pre[k]];
      pre + (if Kept(cs[n]) then [n] else [])
  }

  /** `scanForm`: one field per kept candidate, in document order, each
      described with the candidate's position among all candidates
      (skipped ones included). */
  method ScanForm(page: seq<Element>, labels: seq<LabelElement>) returns (fields: seq<Field>)
    ensures var cs := Candidates(page); var ks := KeptIndices(cs);
            |fields| == |ks| && forall k :: 0 <= k < |ks| ==> fields[k] == Describe(cs[ks[k]], ks[k], labels)
  {
    var cands := Candidates(page);
    fields := [];
    var index := 0;
    while index < |cands|
      invariant index <= |cands|
      invariant var ks := KeptIndices(cands[..index]);
                |fields| == |ks| && forall k :: 0 <= k < |ks| ==> fields[k] == Describe(cands[ks[k]], ks[k], labels)
    {
      var el := cands[index];
      assert cands[..index + 1][..index] == cands[..index];
      if !(el.disabled || !el.rendered) {
        fields := fields + [Describe(el, index, labels)];
      }
      index := index + 1;
    }
    assert cands[..index] == cands;
  }
}
