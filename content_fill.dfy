/** `fillForm` and the message listener of the content script (content.js):
    each instruction is resolved to an element of the document, the element
    is changed according to its type, and a count of filled fields and a list
    of errors are kept. */
module Fill {
  import opened Text
  import opened Wrappers
  import opened Content
  import opened SelectMatch

  /** One instruction: the identifier of a field and the value to put in it. */
  datatype FillItem = FillItem(id: string, value: string)

  /** What `fillForm` receives: something that is not an array, or an array
      of instructions. */
  datatype FillValues = NotAnArray | Items(items: seq<FillItem>)

  /** `{ filledCount, errors }`. */
  datatype FillResult = FillResult(filledCount: nat, errors: seq<string>)

  /** What filling one element amounts to: counted as filled, skipped without
      a count or an error (a select with no matching option), or failed with
      the message of the exception the assignment raised. */
  datatype Outcome = Filled | Skipped | Failed(message: string)

  /** The state of a fill after some instructions: the result so far and the
      document. */
  datatype Run = Run(result: FillResult, doc: seq<Element>)

  /** The words that check a checkbox. */
  const CheckedWords: seq<string> := ["true", "yes", "1", "on", "checked"]

  /** The result for an argument that is not an array. */
  const InvalidValuesMessage := "Invalid values provided"

  /** The listener's reply when the request carries no array of values. */
  const NoValuesMessage := "No values " + "provided or " + "values is not " + "an array."

  /** The exception message of assigning a non-empty string to the `value` of
      a file input, which the browser refuses. */
  const FileValueMessage := "Failed to set " + "the 'value' " + "property on " + "'HTMLInputElement': " + "This input " + "element accepts " + "a filename, " + "which may only " + "be " + "programmatically " + "set to the " + "empty string."

  /** `Field with ID "<id>" not found.` */
  function NotFoundMessage(id: string): string
  {
    "Field with ID \"" + id + "\" not found."
  }

  /** `Could not fill field <id>: <message>`. */
  function CouldNotFillMessage(id: string, message: string): string
  {
    "Could not fill field " + id + ": " + message
  }

  /** `document.getElementById(id)`, then `document.getElementsByName(id)[0]`:
      the first element with that id, else the first element with that name.
      An empty identifier names no element. */
  function Lookup(doc: seq<Element>, id: string): (r: Option<nat>)
    ensures r.Some? <==> id != "" && exists i :: 0 <= i < |doc| && (doc[i].id == id || doc[i].name == id)
    ensures r.Some? ==> r.value < |doc|
    ensures r.Some? && (exists i :: 0 <= i < |doc| && doc[i].id == id) ==>
              doc[r.value].id == id && forall j :: 0 <= j < r.value ==> doc[j].id != id
    ensures r.Some? && (forall i :: 0 <= i < |doc| ==> doc[i].id != id) ==>
              doc[r.value].name == id && forall j :: 0 <= j < r.value ==> doc[j].name != id
  {
    if id == "" then None
    else match FindFirst(doc, (e: Element) => e.id == id)
      case Some(i) => Some(i)
      case None => FindFirst(doc, (e: Element) => e.name == id)
  }

  /** The element with only the properties a fill may change cleared: two
      elements with the same identity differ at most in `value` and
      `checked`. */
  function Identity(e: Element): Element
  {
    e.(value := "", checked := false)
  }

  /** Filling one element with value `v`, as the branches of the loop body do.
      A select takes the value of the option the matcher picks, or is skipped;
      a checkbox is checked exactly when `v` is one of the checking words; a
      radio button is only ever checked, and only when its own value is `v`
      or `v` is "true"; a file input refuses a non-empty value; anything else
      takes `v` verbatim. */
  function Apply(e: Element, v: string): (r: (Outcome, Element))
    ensures Identity(r.1) == Identity(e)
    ensures r.0.Skipped? <==> Tag(e) == "select" && FindBestSelectOption(e.options, v).None?
    ensures r.0.Failed? <==> Tag(e) != "select" && e.inputType == "file" && v != ""
    ensures !r.0.Filled? ==> r.1 == e
  {
    if Tag(e) == "select" then
      match FindBestSelectOption(e.options, v)
      case Some(o) => (Filled, e.(value := o.value))
      case None => (Skipped, e)
    else if e.inputType == "checkbox" then
      (Filled, e.(checked := Lower(v) in CheckedWords))
    else if e.inputType == "radio" then
      if e.value == v || Lower(v) == "true" then (Filled, e.(checked := true)) else (Filled, e)
    else if e.inputType == "file" && v != "" then
      (Failed(FileValueMessage), e)
    else
      (Filled, e.(value := v))
  }

  /** One turn of the loop: resolve the instruction, fill the element, and
      count it or record the error. */
  function Step(run: Run, item: FillItem): Run
  {
    match Lookup(run.doc, item.id)
    case None => Run(run.result.(errors := run.result.errors + [NotFoundMessage(item.id)]), run.doc)
    case Some(i) => Record(run, item.id, i, Apply(run.doc[i], item.value))
  }

  /** The bookkeeping after filling element `i` for the instruction `id`: a
      filled element is stored and counted, a failure is reported under the
      instruction's id, and a skipped select leaves everything as it was. */
  function Record(run: Run, id: string, i: nat, step: (Outcome, Element)): Run
    requires i < |run.doc|
  {
    match step.0
    case Filled => Run(run.result.(filledCount := run.result.filledCount + 1), run.doc[i := step.1])
    case Skipped => run
    case Failed(m) => Run(run.result.(errors := run.result.errors + [CouldNotFillMessage(id, m)]), run.doc)
  }

  /** When the instruction resolves to element `i`, the turn is the
      bookkeeping of filling that element. */
  lemma StepFound(run: Run, item: FillItem, i: nat, step: (Outcome, Element))
    requires Lookup(run.doc, item.id) == Some(i) && step == Apply(run.doc[i], item.value)
    ensures Step(run, item) == Record(run, item.id, i, step)
  {
  }

  /** The instructions applied in order to the document, from a zero count
      and no errors. */
  function FillAll(doc: seq<Element>, items: seq<FillItem>): Run
  {
    if items == [] then Run(FillResult(0, []), doc)
    else Step(FillAll(doc, items[..|items| - 1]), items[|items| - 1])
  }

  /** The instructions up to `k` are those before it followed by one more
      turn. */
  lemma FillAllSnoc(doc: seq<Element>, items: seq<FillItem>, k: nat)
    requires k < |items|
    ensures FillAll(doc, items[..k + 1]) == Step(FillAll(doc, items[..k]), items[k])
  {
    assert items[..k + 1][..k] == items[..k];
  }

  /** `fillForm`: a non-array gives the fixed error and changes nothing;
      otherwise every instruction is carried out in order on the document. */
  method FillForm(dom: array<Element>, values: FillValues) returns (result: FillResult)
    modifies dom
    ensures values.NotAnArray? ==> result == FillResult(0, [InvalidValuesMessage]) && dom[..] == old(dom[..])
    ensures values.Items? ==> result == FillAll(old(dom[..]), values.items).result
                              && dom[..] == FillAll(old(dom[..]), values.items).doc
  {
    if values.NotAnArray? {
      return FillResult(0, [InvalidValuesMessage]);
    }
    var items := values.items;
    var filledCount: nat := 0;
    var errors: seq<string> := [];
    for k := 0 to |items|
      invariant FillAll(old(dom[..]), items[..k]) == Run(FillResult(filledCount, errors), dom[..])
    {
      FillAllSnoc(old(dom[..]), items, k);
      filledCount, errors := FillItemInPlace(dom, items[k], filledCount, errors);
    }
    assert items[..|items|] == items;
    result := FillResult(filledCount, errors);
  }

  /** One turn of the loop of `fillForm`, carried out on the document. */
  method FillItemInPlace(dom: array<Element>, item: FillItem, filledCount: nat, errors: seq<string>)
    returns (filledCount': nat, errors': seq<string>)
    modifies dom
    ensures Run(FillResult(filledCount', errors'), dom[..]) == Step(Run(FillResult(filledCount, errors), old(dom[..])), item)
  {
    filledCount', errors' := filledCount, errors;
    ghost var before := Run(FillResult(filledCount, errors), dom[..]);
    var found := Lookup(dom[..], item.id);
    if found.Some? {
      var i := found.value;
      var step := Apply(dom[i], item.value);
      StepFound(before, item, i, step);
      match step.0 {
        case Filled =>
          dom[i] := step.1;
          assert dom[..] == before.doc[i := step.1];
          filledCount' := filledCount + 1;
          assert Record(before, item.id, i, step) == Run(FillResult(filledCount', errors'), dom[..]);
        case Skipped =>
          assert Record(before, item.id, i, step) == before;
        case Failed(m) =>
          errors' := errors + [CouldNotFillMessage(item.id, m)];
          assert Record(before, item.id, i, step) == Run(FillResult(filledCount', errors'), dom[..]);
      }
    } else {
      errors' := errors + [NotFoundMessage(item.id)];
    }
  }

  // ---------------------------------------------------------------------
  // Properties of a fill.
  // ---------------------------------------------------------------------

  /** Two documents whose elements have the same identities, position by
      position. */
  predicate SameShape(d1: seq<Element>, d2: seq<Element>)
  {
    |d1| == |d2| && forall i :: 0 <= i < |d1| ==> Identity(d1[i]) == Identity(d2[i])
  }

  /** Lookups see only identities, so they agree on documents of the same
      shape. */
  lemma LookupSameShape(d1: seq<Element>, d2: seq<Element>, id: string)
    requires SameShape(d1, d2)
    ensures Lookup(d1, id) == Lookup(d2, id)
  {
    assert forall i :: 0 <= i < |d1| ==> d1[i].id == Identity(d1[i]).id && d1[i].name == Identity(d1[i]).name;
    assert forall i :: 0 <= i < |d2| ==> d2[i].id == Identity(d2[i]).id && d2[i].name == Identity(d2[i]).name;
    var byId, byName := (e: Element) => e.id == id, (e: Element) => e.name == id;
    FindFirstAgree(d1, d2, byId, byId);
    FindFirstAgree(d1, d2, byName, byName);
  }

  /** A fill changes only `value` and `checked`, and every instruction adds
      at most one to the count or one error, never both. */
  lemma {:induction false} FillShape(doc: seq<Element>, items: seq<FillItem>)
    ensures SameShape(FillAll(doc, items).doc, doc)
    ensures FillAll(doc, items).result.filledCount + |FillAll(doc, items).result.errors| <= |items|
  {
    if items != [] {
      var pre := items[..|items| - 1];
      FillShape(doc, pre);
      StepShape(FillAll(doc, pre), items[|items| - 1]);
    }
  }

  /** One turn changes only `value` and `checked`, and adds at most one to
      the count or one error. */
  lemma StepShape(run: Run, item: FillItem)
    ensures SameShape(Step(run, item).doc, run.doc)
    ensures Step(run, item).result.filledCount + |Step(run, item).result.errors|
            <= run.result.filledCount + |run.result.errors| + 1
  {
    var found := Lookup(run.doc, item.id);
    if found.Some? {
      var i := found.value;
      var step := Apply(run.doc[i], item.value);
      StepFound(run, item, i, step);
      RecordShape(run, item.id, i, step);
    }
  }

  /** Storing an element with the same identity keeps the shape of the
      document, and the bookkeeping adds at most one to the count or one
      error. */
  lemma RecordShape(run: Run, id: string, i: nat, step: (Outcome, Element))
    requires i < |run.doc| && Identity(step.1) == Identity(run.doc[i])
    ensures SameShape(Record(run, id, i, step).doc, run.doc)
    ensures Record(run, id, i, step).result.filledCount + |Record(run, id, i, step).result.errors|
            <= run.result.filledCount + |run.result.errors| + 1
  {
    var d := Record(run, id, i, step).doc;
    assert |d| == |run.doc|;
    forall k | 0 <= k < |d| ensures Identity(d[k]) == Identity(run.doc[k]) {
      if step.0.Filled? && k == i {
        assert d[k] == step.1;
      } else {
        assert d[k] == run.doc[k];
      }
    }
  }

  /** One turn leaves every element other than the resolved one as it was. */
  lemma StepKeepsOthers(run: Run, item: FillItem, i: nat)
    requires i < |run.doc| && Lookup(run.doc, item.id) != Some(i)
    ensures |Step(run, item).doc| == |run.doc| && Step(run, item).doc[i] == run.doc[i]
  {
    var found := Lookup(run.doc, item.id);
    if found.Some? {
      var j := found.value;
      var step := Apply(run.doc[j], item.value);
      StepFound(run, item, j, step);
    }
  }

  /** The lookups of a fill are done against the original document. */
  lemma LookupDuringFill(doc: seq<Element>, items: seq<FillItem>, id: string)
    ensures Lookup(FillAll(doc, items).doc, id) == Lookup(doc, id)
  {
    FillShape(doc, items);
    LookupSameShape(FillAll(doc, items).doc, doc, id);
  }

  /** Elements that no instruction resolves to are left exactly as they were. */
  lemma {:induction false} UntouchedElementsUnchanged(doc: seq<Element>, items: seq<FillItem>, i: nat)
    requires i < |doc|
    requires forall k :: 0 <= k < |items| ==> Lookup(doc, items[k].id) != Some(i)
    ensures |FillAll(doc, items).doc| == |doc|
    ensures FillAll(doc, items).doc[i] == doc[i]
  {
    if items != [] {
      var pre := items[..|items| - 1];
      UntouchedElementsUnchanged(doc, pre, i);
      LookupDuringFill(doc, pre, items[|items| - 1].id);
      StepKeepsOthers(FillAll(doc, pre), items[|items| - 1], i);
    }
  }

  /** An instruction whose identifier names no element adds exactly the
      not-found error, and the fill goes on with the next one. */
  lemma MissingFieldReported(doc: seq<Element>, items: seq<FillItem>, item: FillItem)
    requires Lookup(doc, item.id).None?
    ensures FillAll(doc, items + [item]) ==
            Run(FillAll(doc, items).result.(errors := FillAll(doc, items).result.errors + [NotFoundMessage(item.id)]),
                FillAll(doc, items).doc)
  {
    assert (items + [item])[..|items|] == items;
    LookupDuringFill(doc, items, item.id);
  }

  /** An identifier that is neither the id nor the name of any element is
      not found. */
  lemma UnknownIdNotFound(doc: seq<Element>, id: string)
    requires forall i :: 0 <= i < |doc| ==> doc[i].id != id && doc[i].name != id
    ensures Lookup(doc, id).None?
  {
  }

  /** When every instruction names an element and none of them is a select or
      a file input, every instruction is counted and there is no error. */
  lemma {:induction false} PlainFillCountsAll(doc: seq<Element>, items: seq<FillItem>)
    requires forall k :: 0 <= k < |items| ==>
               Lookup(doc, items[k].id).Some?
               && Tag(doc[Lookup(doc, items[k].id).value]) != "select"
               && doc[Lookup(doc, items[k].id).value].inputType != "file"
    ensures FillAll(doc, items).result == FillResult(|items|, [])
  {
    if items != [] {
      var pre := items[..|items| - 1];
      var item := items[|items| - 1];
      PlainFillCountsAll(doc, pre);
      LookupDuringFill(doc, pre, item.id);
      FillShape(doc, pre);
      var i := Lookup(doc, item.id).value;
      assert Identity(FillAll(doc, pre).doc[i]) == Identity(doc[i]);
    }
  }

  /** A checkbox ends up checked exactly when the value, lower-cased, is one
      of the checking words. */
  lemma CheckboxFollowsValue(e: Element, v: string)
    requires Tag(e) != "select" && e.inputType == "checkbox"
    ensures Apply(e, v).0.Filled?
    ensures Apply(e, v).1.checked <==> Lower(v) in CheckedWords
    ensures Apply(e, v).1 == e.(checked := Apply(e, v).1.checked)
  {
  }

  /** A radio button is never unchecked by a fill, and it counts as filled
      even when its value does not match. */
  lemma RadioOnlyChecks(e: Element, v: string)
    requires Tag(e) != "select" && e.inputType == "radio"
    ensures Apply(e, v).0.Filled?
    ensures e.checked ==> Apply(e, v).1.checked
    ensures Apply(e, v).1.checked <==> e.checked || e.value == v || Lower(v) == "true"
    ensures Apply(e, v).1 == e.(checked := Apply(e, v).1.checked)
  {
  }

  /** A filled select holds the value of one of its own options: the one
      the option matcher chose, with nothing else changed. */
  lemma SelectTakesOptionValue(e: Element, v: string)
    requires Tag(e) == "select" && Apply(e, v).0.Filled?
    ensures exists o :: o in e.options && Apply(e, v).1.value == o.value
    ensures FindBestSelectOption(e.options, v).Some?
            && Apply(e, v) == (Filled, e.(value := FindBestSelectOption(e.options, v).value.value))
  {
    var o := FindBestSelectOption(e.options, v).value;
    assert o in e.options;
  }

  /** A select is skipped, with no count and no error, for an empty value. */
  lemma SelectEmptyValueSkipped(e: Element)
    requires Tag(e) == "select"
    ensures Apply(e, "") == (Skipped, e)
  {
  }

  /** Any other kind of element takes the value verbatim. */
  lemma TextTakesValue(e: Element, v: string)
    requires Tag(e) != "select" && e.inputType !in ["checkbox", "radio"]
    requires e.inputType != "file" || v == ""
    ensures Apply(e, v) == (Filled, e.(value := v))
  {
  }

  // ---------------------------------------------------------------------
  // The message listener.
  // ---------------------------------------------------------------------

  /** The requests the content script understands; any other action is
      carried as `Other`. */
  datatype Request = ScanRequest | FillRequest(values: FillValues) | Other(action: string)

  /** The listener's answer: the scanned fields, the fill result, or no
      answer at all for an unknown action. */
  datatype Reply = FieldsReply(fields: seq<Field>) | FillReply(result: FillResult) | NoReply

  /** The listener: `scan_form` answers `{ fields }`, `fill_form` answers the
      fill result, or the no-values error when `values` is not an array, and
      any other action goes unanswered. */
  method HandleMessage(dom: array<Element>, labels: seq<LabelElement>, request: Request) returns (reply: Reply)
    modifies dom
    ensures request.ScanRequest? ==>
              dom[..] == old(dom[..]) && reply.FieldsReply?
              && var cs := Candidates(dom[..]); var ks := KeptIndices(cs);
                 |reply.fields| == |ks|
                 && forall k :: 0 <= k < |ks| ==> reply.fields[k] == Describe(cs[ks[k]], ks[k], labels)
    ensures request.FillRequest? && request.values.NotAnArray? ==>
              dom[..] == old(dom[..]) && reply == FillReply(FillResult(0, [NoValuesMessage]))
    ensures request.FillRequest? && request.values.Items? ==>
              reply == FillReply(FillAll(old(dom[..]), request.values.items).result)
              && dom[..] == FillAll(old(dom[..]), request.values.items).doc
    ensures request.Other? ==> dom[..] == old(dom[..]) && reply == NoReply
  {
    match request {
      case ScanRequest =>
        var fields := ScanForm(dom[..], labels);
        reply := FieldsReply(fields);
      case FillRequest(values) =>
        if values.Items? {
          var result := FillForm(dom, values);
          reply := FillReply(result);
        } else {
          reply := FillReply(FillResult(0, [NoValuesMessage]));
        }
      case Other(_) =>
        reply := NoReply;
    }
  }
}
