/** The popup (popup.js): the fan-in of the per-frame scan replies in
    `startAutofill`, the grouping of the chosen values by frame and the merge
    of the per-frame fill replies in the confirm handler, the loaded profile
    and its one-line summary. The messaging itself is left to the caller:
    the methods receive the replies, already settled, in the order
    `Promise.all` gives them. */
module Popup {
  import opened Text
  import opened Wrappers
  import opened Content
  import Fill

  // ---------------------------------------------------------------------
  // The profile.
  // ---------------------------------------------------------------------

  /** `defaultProfile`: every key present with the empty string. */
  const DefaultProfile: map<string, string> := map[
    "name" := "", "email" := "", "profession" := "", "about" := "",
    "company" := "", "phone" := "", "street" := "", "city" := "", "state" := "", "zip" := "", "country" := "",
    "linkedin" := "", "github" := "", "portfolio" := "", "resume" := "", "coverLetter" := ""]

  /** `{ ...defaultProfile, ...stored }`: the stored keys override the
      defaults, and every default key is present. */
  function MergeProfile(stored: map<string, string>): (r: map<string, string>)
    ensures forall k :: k in r <==> k in DefaultProfile || k in stored
    ensures forall k :: k in stored ==> r[k] == stored[k]
    ensures forall k :: k in DefaultProfile && k !in stored ==> r[k] == ""
  {
    DefaultProfile + stored
  }

  /** Merging an already merged profile again changes nothing. */
  lemma MergeProfileIdempotent(stored: map<string, string>)
    ensures MergeProfile(MergeProfile(stored)) == MergeProfile(stored)
  {
    var once := MergeProfile(stored);
    assert forall k :: k in MergeProfile(once) <==> k in once;
  }

  /** A property of the profile, with a missing one read as "". */
  function Get(p: map<string, string>, key: string): string
  {
    if key in p then p[key] else ""
  }

  /** The text of `updateProfileDisplay`: `Profile: <name or 'Not set'>`,
      followed by ` (<email>)` only when there is an email. */
  function ProfileText(p: map<string, string>): (r: string)
    ensures StartsWith(r, "Profile: ")
    ensures Get(p, "email") == "" && Get(p, "name") != "" ==> r == "Profile: " + Get(p, "name")
    ensures Get(p, "email") == "" && Get(p, "name") == "" ==> r == "Profile: Not set"
    ensures Get(p, "email") != "" ==>
              |r| > |Get(p, "email")| + 3 && r[|r| - |Get(p, "email")| - 3..] == " (" + Get(p, "email") + ")"
    ensures Get(p, "email") != "" ==>
              r == "Profile: " + (if Get(p, "name") != "" then Get(p, "name") else "Not set") + " (" + Get(p, "email") + ")"
  {
    var name := if Get(p, "name") != "" then Get(p, "name") else "Not set";
    var email := if Get(p, "email") != "" then " (" + Get(p, "email") + ")" else "";
    var r := "Profile: " + name + email;
    assert r[..|"Profile: "|] == "Profile: ";
    r
  }

  /** A freshly loaded profile with nothing stored reads "Profile: Not set". */
  lemma EmptyProfileText()
    ensures ProfileText(MergeProfile(map[])) == "Profile: Not set"
  {
    assert "name" in DefaultProfile && "email" in DefaultProfile;
  }

  // ---------------------------------------------------------------------
  // Scan fan-in.
  // ---------------------------------------------------------------------

  /** What a frame answers to `scan_form`: nothing usable (an error or no
      response), or its fields and, if it sends one, its page context (""
      when absent). */
  datatype ScanReply = ScanFailed | ScanAnswer(fields: seq<Field>, pageContext: string)

  /** A frame together with its reply. */
  datatype FrameReply = FrameReply(frameId: nat, reply: ScanReply)

  /** The settled scan of one frame. */
  datatype FrameScan = FrameScan(frameId: nat, fields: seq<Field>, pageContext: string)

  /** A field together with the frame it was found in. */
  datatype TaggedField = TaggedField(field: Field, frameId: nat)

  /** The promise of one frame: a failed frame counts as a frame with no
      fields and no page context. */
  function Settle(r: FrameReply): (s: FrameScan)
    ensures s.frameId == r.frameId
    ensures r.reply.ScanFailed? ==> s.fields == [] && s.pageContext == ""
    ensures r.reply.ScanAnswer? ==> s.fields == r.reply.fields && s.pageContext == r.reply.pageContext
  {
    match r.reply
    case ScanFailed => FrameScan(r.frameId, [], "")
    case ScanAnswer(fields, context) => FrameScan(r.frameId, fields, context)
  }

  /** `Promise.all` over the frames: one settled scan per frame, in order. */
  function SettleAll(replies: seq<FrameReply>): (scans: seq<FrameScan>)
    ensures |scans| == |replies| && forall k :: 0 <= k < |replies| ==> scans[k] == Settle(replies[k])
  {
    seq(|replies|, k requires 0 <= k < |replies| => Settle(replies[k]))
  }

  /** The fields of one frame, each marked with that frame. */
  function TagFields(s: FrameScan): (tagged: seq<TaggedField>)
    ensures |tagged| == |s.fields|
    ensures forall j :: 0 <= j < |tagged| ==> tagged[j] == TaggedField(s.fields[j], s.frameId)
  {
    seq(|s.fields|, j requires 0 <= j < |s.fields| => TaggedField(s.fields[j], s.frameId))
  }

  /** All fields of all frames, frame after frame. */
  function AllFields(scans: seq<FrameScan>): seq<TaggedField>
  {
    if scans == [] then [] else AllFields(scans[..|scans| - 1]) + TagFields(scans[|scans| - 1])
  }

  /** The number of fields over all frames. */
  function FieldCount(scans: seq<FrameScan>): nat
  {
    if scans == [] then 0 else FieldCount(scans[..|scans| - 1]) + |scans[|scans| - 1].fields|
  }

  /** The page context of the last frame-0 scan that has a non-empty one, or
      "" when there is none. */
  function TopContext(scans: seq<FrameScan>): (c: string)
    ensures c == "" <==> forall k :: 0 <= k < |scans| ==> !(scans[k].frameId == 0 && scans[k].pageContext != "")
    ensures c != "" ==> exists k :: 0 <= k < |scans| && scans[k].frameId == 0 && scans[k].pageContext == c
                                    && forall l :: k < l < |scans| ==> !(scans[l].frameId == 0 && scans[l].pageContext != "")
  {
    match LastTopScan(scans)
    case None => ""
    case Some(k) => scans[k].pageContext
  }

  /** The position of the last frame-0 scan with a non-empty page context. */
  function LastTopScan(scans: seq<FrameScan>): (r: Option<nat>)
    ensures r.Some? ==> r.value < |scans| && scans[r.value].frameId == 0 && scans[r.value].pageContext != ""
    ensures r.Some? ==> forall l :: r.value < l < |scans| ==> !(scans[l].frameId == 0 && scans[l].pageContext != "")
    ensures r.None? ==> forall k :: 0 <= k < |scans| ==> !(scans[k].frameId == 0 && scans[k].pageContext != "")
  {
    if scans == [] then None
    else
      var last := scans[|scans| - 1];
      if last.frameId == 0 && last.pageContext != "" then Some(|scans| - 1)
      else
        var pre := scans[..|scans| - 1];
        assert forall k :: 0 <= k < |pre| ==> pre[k] == scans[k];
        LastTopScan(pre)
  }

  /** The fields of consecutive runs of frames come out consecutively. */
  lemma {:induction false} AllFieldsAppend(a: seq<FrameScan>, b: seq<FrameScan>)
    ensures AllFields(a + b) == AllFields(a) + AllFields(b)
    decreases |b|
  {
    if b == [] {
      assert a + b == a;
    } else {
      var init, last := b[..|b| - 1], b[|b| - 1];
      assert (a + b)[..|a + b| - 1] == a + init && (a + b)[|a + b| - 1] == last;
      calc {
        AllFields(a + b);
        AllFields(a + init) + TagFields(last);
        { AllFieldsAppend(a, init); }
        AllFields(a) + AllFields(init) + TagFields(last);
        { AppendAssociative(AllFields(a), AllFields(init), TagFields(last)); }
        AllFields(a) + (AllFields(init) + TagFields(last));
      }
    }
  }

  /** A sequence is its part before `k`, its element at `k` and its part
      after `k`. */
  lemma SplitAround<T>(s: seq<T>, k: nat)
    requires k < |s|
    ensures s == s[..k] + ([s[k]] + s[k + 1..])
  {
  }

  /** Concatenation is associative. */
  lemma AppendAssociative<T>(x: seq<T>, y: seq<T>, z: seq<T>)
    ensures x + y + z == x + (y + z)
  {
  }

  /** A single frame gives its own marked fields. */
  lemma AllFieldsOne(s: FrameScan)
    ensures AllFields([s]) == TagFields(s)
  {
    assert [s][..0] == [];
  }

  /** One field per field of every frame. */
  lemma {:induction false} AllFieldsLength(scans: seq<FrameScan>)
    ensures |AllFields(scans)| == FieldCount(scans)
  {
    if scans != [] {
      AllFieldsLength(scans[..|scans| - 1]);
    }
  }

  /** The fields of frame `k` appear as one block, in their own order, each
      marked with frame `k`'s id, after the fields of the frames before it. */
  lemma FrameBlock(scans: seq<FrameScan>, k: nat)
    requires k < |scans|
    ensures AllFields(scans) == AllFields(scans[..k]) + TagFields(scans[k]) + AllFields(scans[k + 1..])
  {
    var pre, mid, post := scans[..k], [scans[k]], scans[k + 1..];
    SplitAround(scans, k);
    AllFieldsAppend(pre, mid + post);
    AllFieldsAppend(mid, post);
    AllFieldsOne(scans[k]);
    var x, y, z := AllFields(pre), TagFields(scans[k]), AllFields(post);
    assert AllFields(scans) == x + (y + z);
    AppendAssociative(x, y, z);
  }

  /** There is no field at all exactly when no frame has one. */
  lemma {:induction false} NoFieldsIffAllFramesEmpty(scans: seq<FrameScan>)
    ensures AllFields(scans) == [] <==> forall k :: 0 <= k < |scans| ==> scans[k].fields == []
  {
    if scans != [] {
      var pre := scans[..|scans| - 1];
      NoFieldsIffAllFramesEmpty(pre);
      assert forall k :: 0 <= k < |pre| ==> pre[k] == scans[k];
    }
  }

  /** A frame whose scan failed contributes no field. */
  lemma FailedFrameContributesNothing(replies: seq<FrameReply>, k: nat)
    requires k < |replies| && replies[k].reply.ScanFailed?
    ensures var scans := SettleAll(replies);
            AllFields(scans) == AllFields(scans[..k]) + AllFields(scans[k + 1..])
  {
    var scans := SettleAll(replies);
    FrameBlock(scans, k);
  }

  /** The `forEach` over the settled scans: concatenates the marked fields of
      every frame that has some, and keeps the page context of the last
      frame-0 result that has one. */
  method AggregateScans(scans: seq<FrameScan>) returns (allFields: seq<TaggedField>, pageContext: string)
    ensures allFields == AllFields(scans)
    ensures pageContext == TopContext(scans)
  {
    allFields := [];
    pageContext := "";
    for k := 0 to |scans|
      invariant allFields == AllFields(scans[..k])
      invariant pageContext == TopContext(scans[..k])
    {
      assert scans[..k + 1][..k] == scans[..k];
      var result := scans[k];
      if |result.fields| > 0 {
        allFields := allFields + TagFields(result);
      } else {
        assert TagFields(result) == [];
      }
      if result.frameId == 0 && result.pageContext != "" {
        pageContext := result.pageContext;
      }
    }
    assert scans[..|scans|] == scans;
  }

  /** `Array.from(new Set(ids))`: the ids without repetitions, each at its
      first occurrence. */
  function Distinct(ids: seq<nat>): (r: seq<nat>)
    ensures forall x :: x in r <==> x in ids
    ensures forall i, j :: 0 <= i < j < |r| ==> r[i] != r[j]
    ensures |r| <= |ids|
  {
    if ids == [] then []
    else
      var d := Distinct(ids[..|ids| - 1]);
      assert forall x :: x in ids <==> x in ids[..|ids| - 1] || x == ids[|ids| - 1];
      if ids[|ids| - 1] in d then d else d + [ids[|ids| - 1]]
  }

  /** The frames of the fields, in order. */
  function FrameIds(fields: seq<TaggedField>): (ids: seq<nat>)
    ensures |ids| == |fields| && forall i :: 0 <= i < |fields| ==> ids[i] == fields[i].frameId
  {
    seq(|fields|, i requires 0 <= i < |fields| => fields[i].frameId)
  }

  /** What the background answers to the request for values: no answer (with
      the runtime's error message, "" when there is none), or an answer with
      an error message ("" when there is none) and the values. */
  datatype AiReply = AiNoResponse(lastError: string) | AiAnswer(error: string, values: map<string, string>)

  /** What the preview shows and the confirm handler later reads back. */
  datatype Preview = Preview(fields: seq<TaggedField>, values: map<string, string>, pageContext: string)

  const ApiKeyPrompt := "Please set your Claude API key in settings."
  const NoTabMessage := "Could not find active tab."
  const NoFieldsMessage := "No fillable fields found on this page."
  const ReviewMessage := "Review fields then confirm."
  const ScanningMessage := "Scanning form fields..."

  /** The status after an answer to the request for values that carries no
      values. */
  function AiFailureStatus(reply: AiReply): string
  {
    match reply
    case AiNoResponse(m) => "Error: " + (if m != "" then m else "Unknown error")
    case AiAnswer(e, _) => "AI Error: " + e
  }

  // ---------------------------------------------------------------------
  // Fill fan-in.
  // ---------------------------------------------------------------------

  /** A value the AI chose for `id` that the grouping keeps: present and not
      empty. */
  predicate Wanted(values: map<string, string>, id: string)
  {
    id in values && values[id] != ""
  }

  /** Some field of `fields` in frame `k` has the id `id` and a wanted
      value. */
  predicate HasWanted(fields: seq<TaggedField>, values: map<string, string>, k: nat, id: string)
  {
    exists f :: f in fields && f.frameId == k && f.field.id == id && Wanted(values, id)
  }

  /** One more field adds at most its own frame and id. */
  lemma HasWantedSnoc(fields: seq<TaggedField>, f: TaggedField, values: map<string, string>, k: nat, id: string)
    ensures HasWanted(fields + [f], values, k, id) <==>
              HasWanted(fields, values, k, id) || (f.frameId == k && f.field.id == id && Wanted(values, id))
  {
    if f.frameId == k && f.field.id == id && Wanted(values, id) {
      assert f in fields + [f];
    }
    if HasWanted(fields + [f], values, k, id) {
      var g :| g in fields + [f] && g.frameId == k && g.field.id == id && Wanted(values, id);
      assert g in fields || g == f;
    }
    if HasWanted(fields, values, k, id) {
      var g :| g in fields && g.frameId == k && g.field.id == id && Wanted(values, id);
      assert g in fields + [f];
    }
  }

  /** `byFrame` holds, for the fields seen so far, exactly the wanted value
      of each field under its frame, and no empty frame. */
  ghost predicate Grouped(byFrame: map<nat, map<string, string>>, fields: seq<TaggedField>, values: map<string, string>)
  {
    (forall k, id :: k in byFrame && id in byFrame[k] <==> HasWanted(fields, values, k, id))
    && (forall k, id :: k in byFrame && id in byFrame[k] ==> id in values && byFrame[k][id] == values[id])
    && (forall k :: k in byFrame ==> byFrame[k] != map[])
  }

  /** `valuesByFrame[f.frameId][f.id] = values[f.id]`, creating the frame's
      entry when it is missing. */
  function AddValue(byFrame: map<nat, map<string, string>>, f: TaggedField, values: map<string, string>)
    : (r: map<nat, map<string, string>>)
    requires f.field.id in values
    ensures r.Keys == byFrame.Keys + {f.frameId}
    ensures f.field.id in r[f.frameId] && r[f.frameId][f.field.id] == values[f.field.id]
    ensures forall id :: id in r[f.frameId] && id != f.field.id ==>
              f.frameId in byFrame && id in byFrame[f.frameId] && r[f.frameId][id] == byFrame[f.frameId][id]
    ensures f.frameId in byFrame ==> byFrame[f.frameId].Keys <= r[f.frameId].Keys
    ensures forall g :: g in r && g != f.frameId ==> r[g] == byFrame[g]
  {
    var entries := if f.frameId in byFrame then byFrame[f.frameId] else map[];
    byFrame[f.frameId := entries[f.field.id := values[f.field.id]]]
  }

  /** Entry `(k, id)` after adding a value: the added one, or one that was
      there before with its value. */
  lemma AddValueEntry(byFrame: map<nat, map<string, string>>, f: TaggedField, values: map<string, string>,
                      k: nat, id: string)
    requires f.field.id in values
    ensures var added := AddValue(byFrame, f, values);
            (k in added && id in added[k]) <==> (k in byFrame && id in byFrame[k]) || (k == f.frameId && id == f.field.id)
    ensures var added := AddValue(byFrame, f, values);
            k in added && id in added[k] ==>
              added[k][id] == if k == f.frameId && id == f.field.id then values[id] else byFrame[k][id]
  {
  }

  /** A field with a wanted value, added to the grouping, keeps it exact. */
  lemma GroupedAdd(byFrame: map<nat, map<string, string>>, fields: seq<TaggedField>, values: map<string, string>,
                   f: TaggedField)
    requires Grouped(byFrame, fields, values) && Wanted(values, f.field.id)
    ensures Grouped(AddValue(byFrame, f, values), fields + [f], values)
  {
    var added := AddValue(byFrame, f, values);
    forall k, id
      ensures k in added && id in added[k] <==> HasWanted(fields + [f], values, k, id)
      ensures k in added && id in added[k] ==> id in values && added[k][id] == values[id]
    {
      HasWantedSnoc(fields, f, values, k, id);
      AddValueEntry(byFrame, f, values, k, id);
    }
    forall k | k in added ensures added[k] != map[] {
      if k == f.frameId {
        assert f.field.id in added[k];
      }
    }
  }

  /** A field without a wanted value leaves the grouping exact as it is. */
  lemma GroupedSkip(byFrame: map<nat, map<string, string>>, fields: seq<TaggedField>, values: map<string, string>,
                    f: TaggedField)
    requires Grouped(byFrame, fields, values) && !Wanted(values, f.field.id)
    ensures Grouped(byFrame, fields + [f], values)
  {
    forall k, id {
      HasWantedSnoc(fields, f, values, k, id);
    }
  }

  /** The grouping of the confirm handler: for each field with a wanted value,
      `valuesByFrame[f.frameId][f.id] = values[f.id]`. */
  method GroupByFrame(fields: seq<TaggedField>, values: map<string, string>)
    returns (byFrame: map<nat, map<string, string>>)
    ensures forall k, id :: k in byFrame && id in byFrame[k] <==> HasWanted(fields, values, k, id)
    ensures forall k, id :: k in byFrame && id in byFrame[k] ==> id in values && byFrame[k][id] == values[id]
    ensures forall k :: k in byFrame ==> byFrame[k] != map[]
  {
    byFrame := map[];
    for i := 0 to |fields|
      invariant Grouped(byFrame, fields[..i], values)
    {
      var f := fields[i];
      assert fields[..i + 1] == fields[..i] + [f];
      if f.field.id in values && values[f.field.id] != "" {
        GroupedAdd(byFrame, fields[..i], values, f);
        var entries := if f.frameId in byFrame then byFrame[f.frameId] else map[];
        byFrame := byFrame[f.frameId := entries[f.field.id := values[f.field.id]]];
      } else {
        GroupedSkip(byFrame, fields[..i], values, f);
      }
    }
    assert fields[..|fields|] == fields;
  }

  /** What a frame answers to `fill_form`: a runtime error with its message,
      no response, or the content script's answer with its `filled` count (0
      when absent) and its errors. */
  datatype FillResponse = FillLastError(message: string) | FillNoResponse | FillAnswer(filled: int, errors: seq<string>)

  /** The settled fill of one frame. */
  datatype SettledFill = SettledFill(frameId: nat, filled: int, errors: seq<string>)

  /** The promise of one frame's fill: a runtime error or a missing answer is
      a result with nothing filled and one error naming the frame. */
  function SettleFill(frameId: nat, response: FillResponse): (r: SettledFill)
    ensures r.frameId == frameId
    ensures !response.FillAnswer? ==> r.filled == 0 && |r.errors| == 1
                                      && StartsWith(r.errors[0], "Frame " + NatToString(frameId) + ": ")
    ensures response.FillLastError? ==> r.errors == ["Frame " + NatToString(frameId) + ": " + response.message]
    ensures response.FillNoResponse? ==>
              r.errors == ["Frame " + NatToString(frameId) + ": " + "No response from content script."]
    ensures response.FillAnswer? ==> r == SettledFill(frameId, response.filled, response.errors)
  {
    var prefix := "Frame " + NatToString(frameId) + ": ";
    match response
    case FillLastError(m) =>
      assert (prefix + m)[..|prefix|] == prefix;
      SettledFill(frameId, 0, [prefix + m])
    case FillNoResponse =>
      assert (prefix + "No response from content script.")[..|prefix|] == prefix;
      SettledFill(frameId, 0, [prefix + "No response from content script."])
    case FillAnswer(filled, errors) => SettledFill(frameId, filled, errors)
  }

  /** The sum of the `filled` counts. */
  function TotalFilled(results: seq<SettledFill>): int
  {
    if results == [] then 0 else TotalFilled(results[..|results| - 1]) + results[|results| - 1].filled
  }

  /** The errors of all results, in result order. */
  function AllErrors(results: seq<SettledFill>): seq<string>
  {
    if results == [] then [] else AllErrors(results[..|results| - 1]) + results[|results| - 1].errors
  }

  /** The frames that filled something, in result order. */
  function FramesFilled(results: seq<SettledFill>): seq<nat>
  {
    if results == [] then []
    else FramesFilled(results[..|results| - 1])
         + (if results[|results| - 1].filled > 0 then [results[|results| - 1].frameId] else [])
  }

  /** The `forEach` over the settled fills: the total of the counts, the
      errors one after the other, and the frames that filled something. */
  method MergeFills(results: seq<SettledFill>) returns (total: int, errors: seq<string>, filledFrames: seq<nat>)
    ensures total == TotalFilled(results)
    ensures errors == AllErrors(results)
    ensures filledFrames == FramesFilled(results)
  {
    total, errors, filledFrames := 0, [], [];
    for k := 0 to |results|
      invariant total == TotalFilled(results[..k])
      invariant errors == AllErrors(results[..k])
      invariant filledFrames == FramesFilled(results[..k])
    {
      assert results[..k + 1][..k] == results[..k];
      var res := results[k];
      total := total + res.filled;
      if |res.errors| > 0 {
        errors := errors + res.errors;
      }
      if res.filled > 0 {
        filledFrames := filledFrames + [res.frameId];
      }
    }
    assert results[..|results|] == results;
  }

  /** A frame is recorded as filled exactly when one of its results filled
      something. */
  lemma {:induction false} FramesFilledExactly(results: seq<SettledFill>, frame: nat)
    ensures frame in FramesFilled(results) <==>
              exists k :: 0 <= k < |results| && results[k].frameId == frame && results[k].filled > 0
  {
    if results != [] {
      var pre := results[..|results| - 1];
      FramesFilledExactly(pre, frame);
      assert forall k :: 0 <= k < |pre| ==> pre[k] == results[k];
    }
  }

  /** The merged errors are those of the results, in order: the first one
      comes from the first result that has errors. */
  lemma {:induction false} FirstErrorFromFirstFailingResult(results: seq<SettledFill>, k: nat)
    requires k < |results| && results[k].errors != []
    requires forall l :: 0 <= l < k ==> results[l].errors == []
    ensures AllErrors(results) != [] && AllErrors(results)[0] == results[k].errors[0]
  {
    var n := |results|;
    if n - 1 == k {
      NoErrorsBefore(results[..k]);
    } else {
      FirstErrorFromFirstFailingResult(results[..n - 1], k);
    }
  }

  /** Results without errors merge into no errors. */
  lemma {:induction false} NoErrorsBefore(results: seq<SettledFill>)
    requires forall l :: 0 <= l < |results| ==> results[l].errors == []
    ensures AllErrors(results) == []
  {
    if results != [] {
      NoErrorsBefore(results[..|results| - 1]);
    }
  }

  /** When no count is negative, the total is positive exactly when some frame
      filled something. */
  lemma {:induction false} TotalPositiveIffSomeFrameFilled(results: seq<SettledFill>)
    requires forall k :: 0 <= k < |results| ==> results[k].filled >= 0
    ensures TotalFilled(results) >= 0
    ensures TotalFilled(results) > 0 <==> FramesFilled(results) != []
  {
    if results != [] {
      TotalPositiveIffSomeFrameFilled(results[..|results| - 1]);
    }
  }

  /** The status line and whether the undo button is hidden. */
  datatype StatusView = StatusView(text: string, undoHidden: bool)

  const NothingFilledMessage := "No fields were filled. " + "Check if the form is compatible."

  /** The status after a fill: the first error if there is any, with undo
      hidden; otherwise the success message when something was filled, or
      the nothing-filled message, with undo hidden exactly when the total is
      zero. */
  function FillStatus(total: int, errors: seq<string>): (v: StatusView)
    ensures errors != [] ==> v == StatusView("Error: " + errors[0], true)
    ensures errors == [] ==> (StartsWith(v.text, "Successfully filled ") <==> total > 0)
    ensures errors == [] && total > 0 ==> v.text == "Successfully filled " + NatToString(total) + " fields!"
    ensures errors == [] && total <= 0 ==> v.text == NothingFilledMessage
    ensures errors == [] ==> (v.undoHidden <==> total == 0)
  {
    if errors != [] then StatusView("Error: " + errors[0], true)
    else
      var text := if total > 0 then "Successfully filled " + NatToString(total) + " fields!" else NothingFilledMessage;
      assert total > 0 ==> text[..20] == "Successfully filled ";
      assert total <= 0 ==> text[..20] != "Successfully filled " by {
        if total <= 0 { assert text[..20][0] == 'N'; }
      }
      StatusView(text, total == 0)
  }

  /** With counts that are never negative, undo is offered exactly when a
      fill without errors filled something, and then it can be offered to
      exactly the frames that filled something. */
  lemma UndoOfferedIffFilled(results: seq<SettledFill>)
    requires forall k :: 0 <= k < |results| ==> results[k].filled >= 0
    requires AllErrors(results) == []
    ensures !FillStatus(TotalFilled(results), AllErrors(results)).undoHidden <==> FramesFilled(results) != []
  {
    TotalPositiveIffSomeFrameFilled(results);
  }

  // ---------------------------------------------------------------------
  // Reading the content script's fill answer.
  // ---------------------------------------------------------------------

  /** A frame together with the answer its content script sent to
      `fill_form`. */
  datatype FrameAnswer = FrameAnswer(frameId: nat, sent: Fill.FillResult)

  /** The confirm handler's reading of an answer, as written: it reads a
      `filled` property, which the content script's `{ filledCount, errors }`
      does not have, so every count reads as 0. */
  function FillAnswerAsWritten(sent: Fill.FillResult): (r: FillResponse)
    ensures r.FillAnswer? && r.filled == 0 && r.errors == sent.errors
  {
    FillAnswer(0, sent.errors)
  }

  /** The reading the confirm handler evidently intends: the count the
      content script sent, under its own name. */
  function FillAnswerOf(sent: Fill.FillResult): (r: FillResponse)
    ensures r.FillAnswer? && r.filled == sent.filledCount && r.errors == sent.errors
  {
    FillAnswer(sent.filledCount, sent.errors)
  }

  /** The settled fills of the frames that answered, each answer read by
      `read`. */
  function SettleAnswers(answers: seq<FrameAnswer>, read: Fill.FillResult -> FillResponse): (r: seq<SettledFill>)
    ensures |r| == |answers|
    ensures forall k :: 0 <= k < |answers| ==> r[k] == SettleFill(answers[k].frameId, read(answers[k].sent))
  {
    if answers == [] then []
    else
      var n := |answers| - 1;
      SettleAnswers(answers[..n], read) + [SettleFill(answers[n].frameId, read(answers[n].sent))]
  }

  /** Some frame is recorded as filled exactly when some result has a
      positive count. */
  lemma SomeFrameFilled(results: seq<SettledFill>)
    ensures FramesFilled(results) != [] <==> exists k :: 0 <= k < |results| && results[k].filled > 0
  {
    if FramesFilled(results) != [] {
      FramesFilledExactly(results, FramesFilled(results)[0]);
    }
    if k :| 0 <= k < |results| && results[k].filled > 0 {
      FramesFilledExactly(results, results[k].frameId);
    }
  }

  /** As written, however many fields the content scripts filled, a fill
      without errors reports that nothing was filled, hides undo and records
      no frame. */
  lemma FilledCountLostAsWritten(answers: seq<FrameAnswer>)
    requires forall k :: 0 <= k < |answers| ==> answers[k].sent.errors == []
    ensures var results := SettleAnswers(answers, FillAnswerAsWritten);
            FillStatus(TotalFilled(results), AllErrors(results)) == StatusView(NothingFilledMessage, true)
            && FramesFilled(results) == []
  {
    var results := SettleAnswers(answers, FillAnswerAsWritten);
    NoErrorsBefore(results);
    SomeFrameFilled(results);
    TotalPositiveIffSomeFrameFilled(results);
  }

  /** Read by its own names, a fill without errors offers undo exactly when
      some content script filled something, and records exactly those
      frames. */
  lemma FilledCountKept(answers: seq<FrameAnswer>, frame: nat)
    requires forall k :: 0 <= k < |answers| ==> answers[k].sent.errors == []
    ensures var results := SettleAnswers(answers, FillAnswerOf);
            var offered := !FillStatus(TotalFilled(results), AllErrors(results)).undoHidden;
            offered <==> exists k :: 0 <= k < |answers| && answers[k].sent.filledCount > 0
    ensures var results := SettleAnswers(answers, FillAnswerOf);
            frame in FramesFilled(results) <==>
              exists k :: 0 <= k < |answers| && answers[k].frameId == frame && answers[k].sent.filledCount > 0
  {
    var results := SettleAnswers(answers, FillAnswerOf);
    NoErrorsBefore(results);
    UndoOfferedIffFilled(results);
    SomeFrameFilled(results);
    FramesFilledExactly(results, frame);
  }

  // ---------------------------------------------------------------------
  // The popup's state.
  // ---------------------------------------------------------------------

  /** The popup's mutable state: the loaded profile, the frames of the last
      fill, the status line and whether the undo button is hidden. */
  class PopupState {
    var userProfile: map<string, string>
    var lastFrameIds: seq<nat>
    var status: string
    var undoHidden: bool

    /** A new popup: the default profile and no frames yet. */
    constructor (undoStartsHidden: bool)
      ensures userProfile == DefaultProfile && lastFrameIds == [] && status == "" && undoHidden == undoStartsHidden
    {
      userProfile := DefaultProfile;
      lastFrameIds := [];
      status := "";
      undoHidden := undoStartsHidden;
    }

    /** `loadData` (and the storage-change listener with a stored profile):
        a stored profile replaces the current one, merged over the defaults. */
    method LoadProfile(stored: Option<map<string, string>>)
      modifies this
      ensures stored.Some? ==> userProfile == MergeProfile(stored.value)
      ensures stored.None? ==> userProfile == old(userProfile)
      ensures lastFrameIds == old(lastFrameIds) && status == old(status) && undoHidden == old(undoHidden)
    {
      if stored.Some? {
        userProfile := MergeProfile(stored.value);
      }
    }

    /** The storage-change listener: the new value, or nothing, merged over
        the defaults. */
    method ProfileChanged(newValue: Option<map<string, string>>)
      modifies this
      ensures userProfile == MergeProfile(if newValue.Some? then newValue.value else map[])
      ensures lastFrameIds == old(lastFrameIds) && status == old(status) && undoHidden == old(undoHidden)
    {
      userProfile := MergeProfile(if newValue.Some? then newValue.value else map[]);
    }

    /** The text `updateProfileDisplay` shows. */
    function ProfileDisplay(): string
      reads this
    {
      ProfileText(userProfile)
    }

    /** `startAutofill` on settled replies: the key and the tab are checked,
        the frames' scans are merged, and with no field at all it stops;
        otherwise the AI's answer either sets an error status or leads to the
        preview, with the frames of all fields recorded. */
    method StartAutofill(apiKey: string, activeTab: Option<nat>, replies: seq<FrameReply>, ai: AiReply)
      returns (preview: Option<Preview>)
      modifies this
      ensures userProfile == old(userProfile) && undoHidden == old(undoHidden)
      ensures apiKey == "" ==> status == ApiKeyPrompt && preview.None? && lastFrameIds == old(lastFrameIds)
      ensures apiKey != "" && activeTab.None? ==>
                status == NoTabMessage && preview.None? && lastFrameIds == old(lastFrameIds)
      ensures apiKey != "" && activeTab.Some? && AllFields(SettleAll(replies)) == [] ==>
                status == NoFieldsMessage && preview.None? && lastFrameIds == old(lastFrameIds)
      ensures preview.None? && apiKey != "" && activeTab.Some? && AllFields(SettleAll(replies)) != [] ==>
                !(ai.AiAnswer? && ai.error == "") && status == AiFailureStatus(ai)
                && lastFrameIds == old(lastFrameIds)
      ensures preview.Some? ==>
                apiKey != "" && activeTab.Some? && ai.AiAnswer? && ai.error == ""
                && AllFields(SettleAll(replies)) != []
                && preview.value == Preview(AllFields(SettleAll(replies)), ai.values, TopContext(SettleAll(replies)))
                && status == ReviewMessage
                && lastFrameIds == Distinct(FrameIds(AllFields(SettleAll(replies))))
    {
      status := ScanningMessage;
      preview := None;
      if apiKey == "" {
        status := ApiKeyPrompt;
        return;
      }
      if activeTab.None? {
        status := NoTabMessage;
        return;
      }
      var allFields, pageContext := AggregateScans(SettleAll(replies));
      if |allFields| == 0 {
        status := NoFieldsMessage;
        return;
      }
      if ai.AiNoResponse? || ai.error != "" {
        status := AiFailureStatus(ai);
        return;
      }
      status := ReviewMessage;
      lastFrameIds := Distinct(FrameIds(allFields));
      preview := Some(Preview(allFields, ai.values, pageContext));
    }

    /** The end of the confirm handler: the settled fills are merged, the
        frames that filled something are recorded and the status and the
        undo button are set. */
    method FinishFill(results: seq<SettledFill>)
      modifies this
      ensures userProfile == old(userProfile)
      ensures lastFrameIds == FramesFilled(results)
      ensures StatusView(status, undoHidden) == FillStatus(TotalFilled(results), AllErrors(results))
    {
      var total, errors, filledFrames := MergeFills(results);
      lastFrameIds := filledFrames;
      var view := FillStatus(total, errors);
      status := view.text;
      undoHidden := view.undoHidden;
    }
  }
}
