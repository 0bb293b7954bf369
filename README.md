# SmartFill, modelled in Dafny

SmartFill is a browser extension that fills web forms from a stored user
profile with values chosen by a language model. It has three parts, and
this project models the logic of each of them:

- **The content script** (`content.js`) runs in every frame of a page.
  - It scans the visible, enabled form controls into field descriptions (`scanForm`, `getBestLabel`).
  - It fills controls from a list of `{ id, value }` instructions (`fillForm`). For `<select>` elements it uses a seven-rule option matcher (`findBestSelectOption`).
  - It answers the `scan_form` and `fill_form` messages.
- **The service worker** (`background.js`):
  - classifies a form as a job application, survey, contact/registration or general form (`detectFormType`);
  - guards, projects and post-processes the request to the model's API (`getHolisticFills`);
  - answers `get_holistic_fills`.
- **The popup** (`popup.js`):
  - merges the per-frame scan replies and stops when no field was found;
  - groups the chosen values by frame;
  - merges the per-frame fill replies into a status line and an undo decision;
  - keeps the loaded profile, merged over the defaults, and its one-line summary.

## Modules

| Module | File | What it holds |
|---|---|---|
| `Wrappers` | `wrappers.dfy` | `Option` and `Result` |
| `Text` | `text.dfy` | The string operations the scripts rely on, restricted to what the model needs: `toLowerCase` (ASCII letters), `trim`, `includes`, `join`, `replace`, `indexOf`/`lastIndexOf`, and number printing. |
| `Content` | `content_scan.dfy` | The element records, the label cascade and the scan, written as a `method` with a loop, as in the source. |
| `SelectMatch` | `content_select.dfy` | The option matcher as a cascade of rules, each applied with "first option that satisfies it". The year-range regular expression is written out by hand. |
| `Fill` | `content_fill.dfy` | The fill. It runs over an `array` of elements updated in place, and a pure specification (`FillAll`) describes the same run on sequences. Also holds the content script's message listener. |
| `Background` | `background.dfy` | The form-type classifier and the checks and rewrites of `getHolisticFills`. The request itself and `JSON.parse` are function parameters. |
| `Popup` | `popup.dfy` | The scan and fill fan-ins as loops over settled replies. The grouping runs over a `map`. The popup's mutable state (profile, last frames, status, undo visibility) is a `class`. |

Some behaviour follows the code rather than the design's description of it:

- **Duplicate ids:** field ids are not guaranteed unique. An element with no `id` takes its `name`, so two radios of one group get the same id (`Content.SharedNameSharesId`).
- **Scan selector:** it does not exclude buttons, file inputs or other non-text inputs. Only hidden and submit inputs are left out.
- **Labels:** `getBestLabel` has no `aria-label` step. A linked label wins even when its text is empty.
- **Country rule:** only India is recognised by the country rule.
- **Gender rule:** it can never select an option. Everything it accepts, the "contains" rules before it already accept (`SelectMatch.GenderRuleShadowed`).
- **Radio fill:** a radio button counts as filled even when its value does not match and it stays unchecked (`Fill.RadioOnlyChecks`).
- **JSON extraction:** the extracted object runs from the first `{` to the last `}` of the reply, not to the brace that closes the first object (`Background.ExtractRunsToLastBrace`).
- **Undo button:** after a fill without errors, undo is hidden exactly when the total is zero. A negative total would show it.

## Model

| member | source | states |
|---|---|---|
| Text.Lower | content.js:82 | lower-casing keeps the length and maps each character on its own (ASCII letters shift by 32, everything else is kept) |
| Text.LowerIdempotent | content.js:82 | lower-casing an already lower-cased string changes nothing |
| Text.TrimSpec | content.js:82 | the trimmed string is a slice of the input, only white space is cut away on either side, and it neither starts nor ends with white space |
| Text.Trim | content.js:82 | the trimmed string is no longer than the input and neither starts nor ends with white space |
| Text.TrimNoSpace | content.js:90 | a string without white space at either end is its own trim |
| Text.RemoveSpaces | content.js:106 | the result is no longer than the input and holds no white space |
| Text.RemoveSpacesChar | content.js:106 | one character is dropped when it is white space and kept otherwise |
| Text.RemoveSpacesAppend | content.js:106 | removing white space from two strings in a row is removing it from each, so the non-space characters are kept in order |
| Text.ReplaceFirstAbsent | content.js:106 | replacing a pattern that does not occur returns the input unchanged |
| Text.ReplaceFirst | content.js:106 | the result keeps the length or changes it by one replacement, and every character comes from the input or the replacement |
| Text.ReplaceFirstAt | content.js:106 | when the first occurrence of the pattern is at `i`, the result is the text before `i`, the replacement, and the text after the occurrence |
| Text.ReplaceFirstSpec | content.js:106 | for every input: unchanged when the pattern does not occur, the first occurrence replaced otherwise |
| Text.NatToString | content.js:45 | a number prints as a non-empty string of decimal digits with no leading zero; only 0 prints as "0" |
| Text.DecimalRoundTrip | content.js:45 | reading the printed digits back gives the number |
| Text.NatToStringInjective | content.js:45 | distinct numbers print differently |
| Text.JoinContainsParts | background.js:7 | every part occurs in the joined string, and two neighbouring parts occur with the separator between them |
| Text.JoinAppendContains | background.js:7 | whatever occurs in a join still occurs once more parts are appended |
| Text.IndexOf | background.js:155 | the position of the first occurrence of a character, or none when the string avoids it |
| Text.LastIndexOf | background.js:155 | the position of the last occurrence of a character, or none when the string avoids it |
| Text.Join | background.js:7 | joining no parts gives the empty string; otherwise the result starts with the first part and ends with the last |
| Content.Candidates | content.js:25-26 | an element is a candidate exactly when it is on the page and is an input (neither hidden nor submit), a textarea or a select, and there are no more candidates than elements; document order is stated by `Content.CandidatesAppend` |
| Content.CandidatesSingle | content.js:25-26 | one element yields itself when it is a candidate and nothing otherwise |
| Content.CandidatesAppend | content.js:25-26 | the candidates of two stretches of the page are those of the first followed by those of the second, so candidates keep document order |
| Content.FirstLabelFor | content.js:11 | the first label whose `for` names the id, or none when no label does |
| Content.GetBestLabel | content.js:9-17 | the label cascade, branch by branch: the first linked label's trimmed text when the element has an id and such a label exists, else the enclosing label's trimmed text, else a non-empty placeholder, else the name |
| Content.LinkedLabelBeatsPlaceholder | content.js:10-12 | a linked label wins over a placeholder |
| Content.SynthesizedIdRoundTrip | content.js:45 | an element with neither id nor name gets `smartfill-field-` followed by digits that read back as its candidate index |
| Content.FieldId | content.js:45 | a field id is never empty; it is the element's id when it has one, else its name when it has one |
| Content.SynthesizedIdsDistinct | content.js:45 | made-up ids of different candidates differ |
| Content.SharedNameSharesId | content.js:45 | two elements without id that share a name get the same field id |
| Content.Describe | content.js:46-64 | a field has a non-empty type and the lower-cased tag, and it lists options exactly when it is a select (those of the element) |
| Content.KeptIndices | content.js:40-43 | the kept candidates are exactly the enabled, rendered ones, in increasing order |
| Content.ScanForm | content.js:23-71 | one field per kept candidate, in order, each described with its index among all candidates (skipped ones included) |
| SelectMatch.DigitsEnd | content.js:104 | the end of the run of digits at a position |
| SelectMatch.SpacesEnd | content.js:104 | the end of the run of white space at a position |
| SelectMatch.SeparatorsEnd | content.js:104 | the end of the run of `-` and white space at a position |
| SelectMatch.FirstDigit | content.js:104 | the position of the first digit, or none when there is no digit |
| SelectMatch.SecondNumber | content.js:104 | `\s*(\d+)` ends, when it matches, after the position it starts from and within the text |
| SelectMatch.Connector | content.js:104 | `(?:to\|-)\s*(\d+)` ends, when it matches, after the position it starts from and within the text |
| SelectMatch.Backtrack | content.js:104 | the backtracking of `[-\s]*` ends, when it finds a range, after the first number and within the text |
| SelectMatch.NoDigitBeforeSecond | content.js:104 | in a range match there is no digit between the first number and the second, and the second starts with a digit |
| SelectMatch.RangeUnique | content.js:104 | a range match after a given first number has one end only |
| SelectMatch.ShapeOfConnector | content.js:104 | a connector that matches after separators makes a range match of the pattern |
| SelectMatch.ConnectorOfShape | content.js:104 | a range match is what the connector at its start finds |
| SelectMatch.ConnectorsAgree | content.js:104 | two connectors that match after the same separators reach the same end |
| SelectMatch.BacktrackSound | content.js:104 | what the backtracking finds is a range match |
| SelectMatch.BacktrackFinds | content.js:104 | backtracking from at or after a matching connector finds what that connector finds when none in between disagrees |
| SelectMatch.BacktrackComplete | content.js:104 | the backtracking over the whole separator run finds every range match there is |
| SelectMatch.MatchEnd | content.js:104 | the match at a digit ends at or after that digit's run: at a range match's end when the run is followed by a range, and exactly at the run's end when no range follows |
| SelectMatch.MatchAt | content.js:104 | the match at a digit is the slice from that digit to `MatchEnd`, and it starts and ends with a digit |
| SelectMatch.YearMatch | content.js:104-105 | the pattern matches exactly when the text holds a digit; the match is the slice from the first digit to `MatchEnd` of it, and starts and ends with a digit |
| SelectMatch.SecondNumberEndsWithDigit | content.js:104 | a matched range ends on a digit of its second number |
| SelectMatch.YearMatchExample | content.js:104 | in "3 to 5 years" the pattern matches "3 to 5" |
| SelectMatch.YearTokenExample | content.js:106 | "3 to 5" becomes "3-5" once spaces are removed and "to" is replaced |
| SelectMatch.YearToken | content.js:106 | the token holds no white space; it is the match with its white space removed when that holds no "to", and otherwise that text with its first "to" replaced by "-" |
| SelectMatch.FindFirst | content.js:86 | `find`: the first element accepted, with none before it accepted, or none when nothing is accepted |
| SelectMatch.FindFirstAgree | content.js:86 | two searches that accept at the same positions find the same position |
| SelectMatch.Cascade | content.js:85-132 | the cascade answers exactly when some rule applies to the target and accepts some option, and the answer is one of the options |
| SelectMatch.CascadeReaches | content.js:85-132 | the answer is the first option accepted by the first rule that accepts any option |
| SelectMatch.Applies | content.js:101-126 | defines when a rule is tried: the year rule only for a target mentioning "year" with a digit, the country rule for "india" or "in", the gender rule for the four labels, the rest always (no contract of its own; used by `Accepts` and the cascade lemmas) |
| SelectMatch.Matches | content.js:86-131 | defines what each rule accepts, on the lower-cased value and text (no contract of its own; used by `Accepts` and the cascade lemmas) |
| SelectMatch.YearRuleDecides | content.js:85-112 | when the first four rules reject every option, the first option the year rule accepts is the answer |
| SelectMatch.FindBestSelectOption | content.js:79-136 | an empty target or no options give no match, and a match is one of the options |
| SelectMatch.CoveredRuleAddsNothing | content.js:85-132 | a rule whose every acceptance is covered by two earlier rules never changes the answer |
| SelectMatch.CascadePrefix | content.js:85-132 | rules followed by more rules give the first rules' answer when they have one, and the more rules' answer otherwise |
| SelectMatch.ExactValueWins | content.js:82-87 | the first option whose lower-cased value equals the trimmed, lower-cased target is chosen |
| SelectMatch.GenderImpliesContains | content.js:125-131 | an option the gender rule accepts is accepted by the text-contains or the value-contains rule |
| SelectMatch.GenderRuleShadowed | content.js:93-132 | the seven-rule cascade gives the same answer as the first six rules, so the gender rule never decides |
| SelectMatch.ShortOptionRejected | content.js:85-99 | an option whose text and value are shorter than the target fails the four exact and contains rules |
| SelectMatch.ShortOptionsRejected | content.js:85-99 | the same for every option of a list |
| SelectMatch.YearRangeExample | content.js:101-112 | "3 to 5 years" selects the option "3-5" from a 3-5 / 5-10 list |
| Fill.Lookup | content.js:157-160 | an element is found exactly when some element has the id or the name, the first element with the id is preferred, and the first with the name is taken only when no element has the id |
| Fill.Apply | content.js:172-198 | filling keeps the element's identity; a select is skipped exactly when no option matches; the assignment fails exactly for a non-empty value on a file input; a skipped or failed fill leaves the element alone |
| Fill.Record | content.js:168-208 | defines the bookkeeping of one filled element: stored and counted when filled, reported under the instruction's id when failed, nothing when skipped (its properties are `Fill.RecordShape`) |
| Fill.Step | content.js:153-212 | defines one turn of the loop: the not-found error, or the bookkeeping of the resolved element (its properties are `Fill.StepShape`, `Fill.StepFound`, `Fill.StepKeepsOthers`) |
| Fill.FillAll | content.js:143-213 | defines the run of all instructions in order from a zero count and no errors (its properties are `Fill.FillShape`, `Fill.UntouchedElementsUnchanged`, `Fill.LookupDuringFill`) |
| Fill.StepFound | content.js:168-208 | for an instruction whose element is found, the step is the record of filling that element |
| Fill.FillAllSnoc | content.js:153 | the fill of one more instruction is one more step of the fill so far |
| Fill.FillForm | content.js:143-218 | a non-array argument gives the invalid-values error and leaves the document alone; an array gives the count, the errors and the document of the specification run |
| Fill.FillItemInPlace | content.js:153-212 | one instruction applied to the array is one step of the specification run |
| Fill.LookupSameShape | content.js:157-160 | documents that agree on ids and names resolve every identifier alike |
| Fill.FillShape | content.js:153-213 | a fill keeps every element's id and name, and filled fields plus errors never exceed the instructions |
| Fill.StepShape | content.js:168-212 | one step keeps ids and names and adds at most one count or one error |
| Fill.RecordShape | content.js:168-208 | recording one element's outcome keeps ids and names and adds at most one count or one error |
| Fill.StepKeepsOthers | content.js:168-212 | a step changes no element other than the one its identifier resolves to |
| Fill.LookupDuringFill | content.js:157-160 | identifiers resolve the same before and after any fill |
| Fill.UntouchedElementsUnchanged | content.js:153-213 | an element that no instruction resolves to is unchanged after the fill |
| Fill.MissingFieldReported | content.js:209-212 | an instruction whose element is missing adds exactly the not-found error and nothing else |
| Fill.UnknownIdNotFound | content.js:157-164 | an identifier no element carries as id or name is not found |
| Fill.PlainFillCountsAll | content.js:195-203 | instructions that each resolve to a text-like field count every one, with no error |
| Fill.CheckboxFollowsValue | content.js:184-188 | a checkbox counts as filled, is checked exactly when the lower-cased value is one of true, yes, 1, on, checked, and nothing but its checked flag changes |
| Fill.RadioOnlyChecks | content.js:189-194 | a radio counts as filled, is never unchecked, ends checked exactly when it was, its value equals the given one, or the value is "true", and nothing but its checked flag changes |
| Fill.SelectTakesOptionValue | content.js:173-178 | a filled select takes the value of the option the matcher chose, one of its own options, and nothing else changes |
| Fill.SelectEmptyValueSkipped | content.js:80 | a select given the empty value is skipped and unchanged |
| Fill.TextTakesValue | content.js:195-198 | any other control takes the value and counts as filled |
| Fill.HandleMessage | content.js:221-241 | `scan_form` answers one field per kept candidate, in order, each described with its candidate index, and changes nothing; `fill_form` without an array answers the no-values error; with one it answers the specification run's result and leaves its document; other actions go unanswered |
| Background.Project | background.js:43-50 | one projected field per field, carrying exactly id, label, name, type, placeholder and options |
| Background.AllFieldWords | background.js:7 | one lower-cased label-or-name per field |
| Background.FieldWords | background.js:7 | defines a field's words: the lower-cased label, or the name when there is no label (its properties are `Background.NameStandsInForLabel`) |
| Background.LabelHaystack | background.js:7 | defines the joined words of all fields (its properties are `Background.HaystackGrows`, `Background.CoverLetterInHaystack`) |
| Background.DetectFormType | background.js:4-32 | job application exactly when a job indicator is present; survey exactly when a survey indicator is present and no job indicator; contact exactly when only contact indicators are present; general otherwise |
| Background.JobUrlWins | background.js:10-14 | a URL mentioning "job" makes a job application |
| Background.HaystackGrows | background.js:7 | more fields never remove a word from the joined labels |
| Background.AllFieldWordsAppend | background.js:7 | the words of two field lists are those of each, one after the other |
| Background.JobStableUnderMoreFields | background.js:10-15 | adding fields never turns a job application into another type |
| Background.CoverLetterAcrossFields | background.js:7-14 | a field labelled "cover" next to one labelled "letter" makes a job application |
| Background.CoverLetterInHaystack | background.js:7 | such neighbours put "cover letter" into the joined labels |
| Background.NameStandsInForLabel | background.js:7 | a field without label contributes its lower-cased name |
| Background.ExtractObject | background.js:155-160 | there is an object exactly when a `{` comes before a `}`, and the object is a slice from a `{` to a `}` |
| Background.ExtractIdempotent | background.js:155-160 | the object starts with `{` and ends with `}`, and extracting again gives it back |
| Background.ExtractRunsToLastBrace | background.js:155 | from "{a} {b}" the whole text is extracted |
| Background.Rephrase | background.js:167-169 | the message never mentions JSON; one that did not is passed on unchanged, and one that did becomes the generic invalid-response message |
| Background.ProfileMissing | background.js:39 | defines the profile check: no profile, or one without a non-empty name (used by `Background.HolisticFills`) |
| Background.ContextError | background.js:53 | the page context gives no error exactly when it is present with both a URL and a title |
| Background.ApiErrorText | background.js:140-143 | an error member gives `Claude API Error: ` followed by its message, or `undefined` when it has none; a missing error member gives the `TypeError` of reading `message` from `undefined` |
| Background.Attempt | background.js:122-163 | values come only from a successful JSON reply with a text, and they are what the parser makes of the object extracted from that text |
| Background.TransportFailurePassedOn | background.js:125-145 | a rejected request, or a reply whose body is not JSON, fails with that rejection's message, for error and success replies alike |
| Background.TransportFailureReworded | background.js:125-171 | such a failure reaches the caller as its message reworded by the JSON rule |
| Background.RequestFor | background.js:43-53 | the request carries the projected fields, the form type detected from the URL, title and projected fields, the key, the profile and the page |
| Background.HolisticFills | background.js:34-172 | a missing key is reported first, then a missing profile or name, then a missing page context, URL or title as its `TypeError`, and no error after the checks mentions JSON |
| Background.ContextErrorAvoidsJson | background.js:53 | the `TypeError` of a missing page context does not mention JSON |
| Background.FailureNeverMentionsJson | background.js:165-171 | no error of `getHolisticFills` mentions JSON |
| Background.ChecksPrecedeRequest | background.js:35-53 | when a check fails or the page context is incomplete, neither the API's answer nor the parser affects the result |
| Background.NoObjectSurfacesAsGeneric | background.js:156-168 | a reply text without an object surfaces as the generic invalid-response message |
| Background.NoObjectMessageMentionsJson | background.js:158 | the no-object message mentions JSON, which is why it gets rephrased |
| Background.ParserSeesExtractedObject | background.js:155-163 | on a successful reply the parser receives exactly the extracted object, and its value or rephrased error is the result |
| Background.FillsOnCompletePage | background.js:53-171 | with the checks passed and a complete page, the result is the attempt on the request built from fields, profile and page, with a failure's message reworded |
| Background.AttemptOnText | background.js:145-163 | on a successful reply with a text, the attempt is the parse of the extracted object, or the no-object error when there is none |
| Background.ApiErrorPassedOn | background.js:140-143 | an error reply passes its error text on unless that mentions JSON |
| Background.MissingTextIsInvalidStructure | background.js:148-150 | a successful reply without a text, or with an empty one, is reported as an invalid structure |
| Background.HandleRequest | background.js:174-191 | only `get_holistic_fills` is answered: values exactly on success, otherwise the failure's message, or `An unexpected error occurred.` when that is empty |
| Popup.MergeProfile | popup.js:41 | the merged profile has every default key and every stored key; stored values win, and missing defaults are "" |
| Popup.MergeProfileIdempotent | popup.js:339 | merging a merged profile again changes nothing |
| Popup.ProfileText | popup.js:52-56 | the summary starts with `Profile: `; it is `Profile: <name or Not set>`, followed by ` (<email>)` exactly when there is an email |
| Popup.EmptyProfileText | popup.js:52-56 | with nothing stored the summary reads `Profile: Not set` |
| Popup.Settle | popup.js:186-191 | a failed or missing scan reply counts as a frame with no fields and no page context; an answer is kept with its frame |
| Popup.SettleAll | popup.js:184-196 | one settled scan per frame, in frame order |
| Popup.TagFields | popup.js:202 | each field of a frame marked with that frame, in order |
| Popup.TopContext | popup.js:205-207 | the page context is empty exactly when no frame-0 scan has one, and otherwise comes from a frame-0 scan |
| Popup.LastTopScan | popup.js:205-207 | the last frame-0 scan with a page context, or none |
| Popup.AllFields | popup.js:200-204 | defines all marked fields, frame after frame (its properties are `Popup.AllFieldsAppend`, `Popup.AllFieldsOne`, `Popup.FrameBlock`) |
| Popup.AllFieldsAppend | popup.js:200-204 | the fields of two runs of frames are those of each, one after the other |
| Popup.AllFieldsOne | popup.js:200-204 | one frame gives its own marked fields |
| Popup.AllFieldsLength | popup.js:200-204 | the number of fields is the sum over frames |
| Popup.FrameBlock | popup.js:200-204 | a frame's fields appear as one block between those of the frames before and after it |
| Popup.NoFieldsIffAllFramesEmpty | popup.js:210-213 | there is no field exactly when no frame has one |
| Popup.FailedFrameContributesNothing | popup.js:187-188 | a failed frame adds no field |
| Popup.AggregateScans | popup.js:196-208 | the loop yields all marked fields frame after frame and the page context of the last frame-0 scan that has one |
| Popup.Distinct | popup.js:237 | the same ids, without repetition |
| Popup.FrameIds | popup.js:237 | the frame of each field, in order |
| Popup.HasWantedSnoc | popup.js:263-268 | one more field adds at most its own frame and id to what is wanted |
| Popup.GroupedAdd | popup.js:264-267 | adding a field with a wanted value keeps the grouping exact |
| Popup.GroupedSkip | popup.js:264 | a field without a wanted value keeps the grouping exact |
| Popup.AddValue | popup.js:264-267 | the chosen value is stored under the field's frame and id, the frame's other entries and the other frames are kept, and the frame exists afterwards |
| Popup.GroupByFrame | popup.js:262-268 | a frame holds an id exactly when some field of that frame with that id has a non-empty value; the stored value is that value; no frame is empty |
| Popup.SettleFill | popup.js:276-283 | a runtime error gives one error `Frame <id>: <message>`, a missing reply one error `Frame <id>: No response from content script.`, both with nothing filled; an answer is kept as it is |
| Popup.TotalFilled | popup.js:294-297 | defines the sum of the counts (its properties are `Popup.TotalPositiveIffSomeFrameFilled`) |
| Popup.AllErrors | popup.js:294-297 | defines the errors of all results in order (its properties are `Popup.FirstErrorFromFirstFailingResult`, `Popup.NoErrorsBefore`) |
| Popup.FramesFilled | popup.js:298-300 | defines the frames that filled something, in order (its properties are `Popup.FramesFilledExactly`, `Popup.SomeFrameFilled`) |
| Popup.MergeFills | popup.js:288-301 | the loop yields the total count, all errors in order, and the frames that filled something |
| Popup.FramesFilledExactly | popup.js:298-300 | a frame is recorded exactly when one of its results filled something |
| Popup.FirstErrorFromFirstFailingResult | popup.js:295-304 | the reported error is the first error of the first result that has errors |
| Popup.NoErrorsBefore | popup.js:295-297 | results without errors merge into no errors |
| Popup.TotalPositiveIffSomeFrameFilled | popup.js:294-300 | with non-negative counts, the total is positive exactly when some frame is recorded |
| Popup.FillStatus | popup.js:303-313 | an error gives `Error: <first error>` with undo hidden; otherwise the success text exactly when the total is positive, else the nothing-filled text, with undo hidden exactly when the total is zero |
| Popup.UndoOfferedIffFilled | popup.js:303-313 | with no errors and non-negative counts, undo is offered exactly when some frame filled something |
| Popup.AiFailureStatus | popup.js:224-232 | defines the status after an AI failure: `Error: ` with the runtime message or `Unknown error`, or `AI Error: ` with the reply's error (used by `Popup.PopupState.StartAutofill`) |
| Popup.SettleAnswers | popup.js:276-283 | one settled result per answering frame, each read through the given reading of the answer |
| Popup.SomeFrameFilled | popup.js:298-300 | some frame is recorded exactly when some result has a positive count |
| Popup.FillAnswerAsWritten | popup.js:294 | the handler's reading of a content answer keeps its errors but reads its count as 0 |
| Popup.FillAnswerOf | popup.js:294 | the intended reading keeps the content answer's count and errors |
| Popup.FilledCountLostAsWritten | popup.js:288-313 | as written, a fill without errors always reports that nothing was filled, hides undo and records no frame |
| Popup.FilledCountKept | popup.js:288-313 | read as intended, undo is offered exactly when some content script filled something, and exactly those frames are recorded |
| Popup.PopupState.constructor | popup.js:33-35 | a new popup starts with the default profile and no frames |
| Popup.PopupState.LoadProfile | popup.js:38-44 | a stored profile replaces the current one, merged over the defaults; without one nothing changes |
| Popup.PopupState.ProfileChanged | popup.js:337-342 | the new value, or nothing, merged over the defaults becomes the profile |
| Popup.PopupState.ProfileDisplay | popup.js:52-56 | defines the summary of the current profile as `Popup.ProfileText` of it |
| Popup.PopupState.StartAutofill | popup.js:163-249 | in order: no key gives the key prompt; no tab gives the tab message; no field gives the no-fields message; an AI failure gives its error status; otherwise the preview holds all fields, the values and the page context, the status asks for review and every frame of a field is recorded once; each early stop keeps the recorded frames |
| Popup.PopupState.FinishFill | popup.js:288-313 | the recorded frames are those that filled something, and the status and undo visibility are those of the merged results |

## Left out

- Browser plumbing is not modelled: the messaging, storage, tab and frame queries. The replies a component receives are parameters, already settled and in `Promise.all` order.
- `fetch`, the prompt text, the model name and the request headers are not modelled. The API is a function parameter from the request's inputs to the HTTP reply.
- `JSON.parse` is a parameter of the model.
- Logging is not modelled.
- Case mapping covers ASCII letters only. `toLowerCase` on other scripts is not modelled.
- White space follows ECMAScript's `trim` and `\s` classes. `\d` is ASCII digits.
- The `querySelector` fallbacks of the lookup (`[name="…"]`, then `#…`) are not modelled, nor are the exceptions they throw for identifiers that are not valid CSS. They can find elements the first two lookups miss: in a quirks-mode document `#id` matches ids without regard to case, and `[name="…"]` matches elements outside the HTML namespace. The model resolves an identifier by `getElementById` and `getElementsByName(…)[0]` only.
- The label lookup builds the selector `label[for="<id>"]` from the element's id. An id holding `"` or `\` makes that selector invalid, `querySelector` throws, and the whole scan fails. The model treats every id as a plain string to compare.
- The `input` and `change` events a fill dispatches are not modelled.
- Fill.TextTakesValue: the value is stored verbatim. The browser's sanitisation of values for `number`, `date`, `email`, `color`, `range` and similar input types, which can turn the stored value into something else or the empty string, is not modelled.
- The options' `selected` flags after a select is filled are not modelled. A select records only its new `value`.
- The browser's unchecking of the other radios of a group is not modelled. Only the filled element changes.
- The browser's exception for a file input is modelled by one fixed message. The browser's own wording may differ.
- A select whose `options` collection is missing is not modelled; every select has a list of options, possibly empty.
- Values other than strings, in instructions and in the profile, are not modelled.
- `Object.keys` ordering of the fill requests is not modelled. The fill replies are taken in the order they are given.
- The page context is a string in the popup and a URL/title pair in the service worker, as each file uses it. In the popup a missing page context is the empty string. In the service worker a missing context, URL or title is modelled: it raises a `TypeError` before the request, outside the `try`, and that message is answered unchanged. A URL or title that is present but not a string, and a `fields` member that is missing, are not modelled.
- The `error` member of an API error reply is either absent or an object with an optional string `message`. An `error` that is `null` or a primitive is not modelled.
- The "Found N fields" intermediate status is not modelled. The spinner, the preview list, notifications, `saveProfile`, `populateProfileInputs`, undo, history and highlighting are not modelled either.
- The initial visibility of the undo button comes from the page's markup. The constructor takes it as a parameter.
- The messages between the three parts do not agree. Each part is modelled as its own file is written:
  - the popup asks for `get_ai_fills` but the service worker answers only `get_holistic_fills`;
  - the popup sends the page context as a string and the service worker reads `url` and `title` from it;
  - the popup sends each frame's values as an object, which the content script rejects as not an array.

  Only the `filled`/`filledCount` mismatch is taken up under Findings.
- `options.js` is not part of this model.
- SelectMatch.Cascade: its own contract says only that there is an answer exactly when some rule fires and that the answer is one of the options. Which option it is, is stated separately by `SelectMatch.CascadeReaches`.
- SelectMatch.FindBestSelectOption: its own contract gives the empty cases and membership. The rule order is stated by `ExactValueWins`, `CascadeReaches`, `GenderRuleShadowed` and the year examples.

## Findings

| source | as written | input that shows it | evidently intended | confidence | as-written member | corrected member |
|---|---|---|---|---|---|---|
| popup.js:294-298 | The confirm handler reads `res.filled`, but the content script answers `{ filledCount, errors }` (content.js:217). Every count reads as 0. | One frame answers `{ filledCount: 2, errors: [] }`. The status is "No fields were filled. Check if the form is compatible.", undo stays hidden and no frame is recorded. | Read `filledCount`: "Successfully filled 2 fields!", undo shown, frame recorded. | high; not executed | Popup.FilledCountLostAsWritten | Popup.FilledCountKept |
