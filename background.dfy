/** The service worker (background.js): the form-type classifier and the
    parts of `getHolisticFills` around the call to the language-model API —
    the checks made before any request, the projection of the fields, the
    extraction of the JSON object from the reply text and the rewording of
    error messages — and the answer of the `get_holistic_fills` listener.
    The API and `JSON.parse` are parameters. */
module Background {
  import opened Text
  import opened Wrappers
  import opened Content

  /** The four form types the classifier reports. */
  datatype FormType = JobApplication | Survey | ContactRegistration | GeneralForm

  const JobUrlWords: seq<string> := ["job", "career", "apply"]
  const JobTitleWords: seq<string> := ["job", "career", "application"]
  const JobFieldWords: seq<string> := ["resume", "cover letter", "salary", "experience", "skills"]
  const SurveyUrlWords: seq<string> := ["survey", "feedback", "poll"]
  const SurveyTitleWords: seq<string> := ["survey", "feedback"]
  const SurveyFieldWords: seq<string> := ["gender", "age", "ethnicity"]
  const ContactUrlWords: seq<string> := ["contact", "register", "signup"]
  const ContactTitleWords: seq<string> := ["contact", "register", "sign up"]

  /** A field as it is sent to the API: only these six properties of the
      scanned field are kept. */
  datatype SimpleField = SimpleField(
    id: string,
    labelText: string,
    name: string,
    fieldType: string,
    placeholder: string,
    options: Option<seq<SelectOption>>)

  /** `fields.map(field => ({ id, label, name, type, placeholder, options }))`. */
  function Project(fields: seq<Field>): (r: seq<SimpleField>)
    ensures |r| == |fields|
    ensures forall i :: 0 <= i < |r| ==>
              r[i].id == fields[i].id && r[i].labelText == fields[i].labelText && r[i].name == fields[i].name
              && r[i].fieldType == fields[i].fieldType && r[i].placeholder == fields[i].placeholder
              && r[i].options == fields[i].options
  {
    seq(|fields|, i requires 0 <= i < |fields| =>
      SimpleField(fields[i].id, fields[i].labelText, fields[i].name, fields[i].fieldType,
                  fields[i].placeholder, fields[i].options))
  }

  /** `(f.label || f.name || '').toLowerCase()`. */
  function FieldWords(f: SimpleField): string
  {
    Lower(if f.labelText != "" then f.labelText else f.name)
  }

  /** The words of every field, in order. */
  function AllFieldWords(fields: seq<SimpleField>): (ws: seq<string>)
    ensures |ws| == |fields| && forall i :: 0 <= i < |fields| ==> ws[i] == FieldWords(fields[i])
  {
    seq(|fields|, i requires 0 <= i < |fields| => FieldWords(fields[i]))
  }

  /** The words of all fields joined with single spaces. */
  function LabelHaystack(fields: seq<SimpleField>): string
  {
    Join(AllFieldWords(fields), " ")
  }

  /** `s` contains one of `words`. */
  predicate MentionsAny(s: string, words: seq<string>)
  {
    exists w :: w in words && Contains(s, w)
  }

  predicate JobIndicated(url: string, title: string, fields: seq<SimpleField>)
  {
    MentionsAny(Lower(url), JobUrlWords) || MentionsAny(Lower(title), JobTitleWords)
    || MentionsAny(LabelHaystack(fields), JobFieldWords)
  }

  predicate SurveyIndicated(url: string, title: string, fields: seq<SimpleField>)
  {
    MentionsAny(Lower(url), SurveyUrlWords) || MentionsAny(Lower(title), SurveyTitleWords)
    || MentionsAny(LabelHaystack(fields), SurveyFieldWords)
  }

  predicate ContactIndicated(url: string, title: string)
  {
    MentionsAny(Lower(url), ContactUrlWords) || MentionsAny(Lower(title), ContactTitleWords)
  }

  /** `detectFormType`: job indicators beat survey indicators, which beat
      contact indicators; the general type means that no indicator is
      present. */
  function DetectFormType(url: string, title: string, fields: seq<SimpleField>): (r: FormType)
    ensures r == JobApplication <==> JobIndicated(url, title, fields)
    ensures r == Survey <==> !JobIndicated(url, title, fields) && SurveyIndicated(url, title, fields)
    ensures r == ContactRegistration <==>
              !JobIndicated(url, title, fields) && !SurveyIndicated(url, title, fields) && ContactIndicated(url, title)
    ensures r == GeneralForm <==>
              !JobIndicated(url, title, fields) && !SurveyIndicated(url, title, fields) && !ContactIndicated(url, title)
  {
    if JobIndicated(url, title, fields) then JobApplication
    else if SurveyIndicated(url, title, fields) then Survey
    else if ContactIndicated(url, title) then ContactRegistration
    else GeneralForm
  }

  /** A URL that mentions a job makes the form a job application, whatever
      its title and fields say. */
  lemma JobUrlWins(url: string, title: string, fields: seq<SimpleField>)
    requires Contains(Lower(url), "job")
    ensures DetectFormType(url, title, fields) == JobApplication
  {
    assert "job" in JobUrlWords;
  }

  /** Whatever the words of some fields contain, the words of more fields
      contain too. */
  lemma HaystackGrows(fields: seq<SimpleField>, more: seq<SimpleField>, w: string)
    requires Contains(LabelHaystack(fields), w)
    ensures Contains(LabelHaystack(fields + more), w)
  {
    AllFieldWordsAppend(fields, more);
    JoinAppendContains(AllFieldWords(fields), AllFieldWords(more), " ", w);
  }

  /** The words of two lists of fields, one after the other. */
  lemma AllFieldWordsAppend(fields: seq<SimpleField>, more: seq<SimpleField>)
    ensures AllFieldWords(fields + more) == AllFieldWords(fields) + AllFieldWords(more)
  {
  }

  /** Adding fields never takes a form out of the job-application type. */
  lemma JobStableUnderMoreFields(url: string, title: string, fields: seq<SimpleField>, more: seq<SimpleField>)
    requires DetectFormType(url, title, fields) == JobApplication
    ensures DetectFormType(url, title, fields + more) == JobApplication
  {
    if MentionsAny(LabelHaystack(fields), JobFieldWords) {
      var w :| w in JobFieldWords && Contains(LabelHaystack(fields), w);
      HaystackGrows(fields, more, w);
      assert MentionsAny(LabelHaystack(fields + more), JobFieldWords);
    }
  }

  /** Because the field words are joined with spaces, "cover letter" is found
      when one field is labelled "cover" and the next one "letter". */
  lemma CoverLetterAcrossFields(url: string, title: string, fields: seq<SimpleField>, k: nat)
    requires k + 1 < |fields|
    requires FieldWords(fields[k]) == "cover" && FieldWords(fields[k + 1]) == "letter"
    ensures DetectFormType(url, title, fields) == JobApplication
  {
    CoverLetterInHaystack(fields, k);
    assert "cover letter" in JobFieldWords;
    assert MentionsAny(LabelHaystack(fields), JobFieldWords);
  }

  /** The joined words hold "cover letter" when neighbouring fields say
      "cover" and "letter". */
  lemma CoverLetterInHaystack(fields: seq<SimpleField>, k: nat)
    requires k + 1 < |fields|
    requires FieldWords(fields[k]) == "cover" && FieldWords(fields[k + 1]) == "letter"
    ensures Contains(LabelHaystack(fields), "cover letter")
  {
    var ws := AllFieldWords(fields);
    JoinContainsParts(ws, " ", k);
    assert ws[k] == "cover" && ws[k + 1] == "letter";
    CoverLetterSpelled();
  }

  /** The two words with a space between them spell the phrase. */
  lemma CoverLetterSpelled()
    ensures "cover" + " " + "letter" == "cover letter"
  {
  }

  /** A field without a label is classified by its name. */
  lemma NameStandsInForLabel(f: SimpleField)
    requires f.labelText == ""
    ensures Contains(LabelHaystack([f]), Lower(f.name))
  {
    JoinContainsParts(AllFieldWords([f]), " ", 0);
  }

  // ---------------------------------------------------------------------
  // getHolisticFills.
  // ---------------------------------------------------------------------

  const ApiKeyMessage := "API Key " + "is not set. " + "Please " + "configure it " + "in settings."
  const ProfileMessage := "User profile " + "is empty. " + "Please " + "complete your " + "profile in " + "settings."
  const ApiErrorPrefix := "Claude API Error: "
  const InvalidStructureMessage := "Invalid response " + "structure from " + "Claude API."
  const NoObjectMessage := "The AI " + "returned a " + "response " + "that did not " + "contain a " + "valid " + "JSON" + " object."
  const InvalidResponseMessage := "The AI " + "returned an " + "invalid " + "response. " + "Please " + "try again."
  const UnexpectedErrorMessage := "An unexpected error occurred."

  /** The message of the `TypeError` raised when property `prop` is read
      from `undefined`. */
  function UndefinedRead(prop: string): string
  {
    "Cannot read " + "properties of " + "undefined " + "(reading '" + prop + "')"
  }

  /** The message raised when an error reply has no `error` member. */
  const MissingErrorMessage := UndefinedRead("message")

  /** The page the fields come from, as the message carries it: either
      property may be missing. */
  datatype PageContext = PageContext(url: Option<string>, title: Option<string>)

  /** A page context whose properties are both present. */
  function Page(url: string, title: string): Option<PageContext>
  {
    Some(PageContext(Some(url), Some(title)))
  }

  /** The `TypeError` that reading `pageContext.url` and `.title` and
      lower-casing them raises, before the request and outside its `try`:
      a missing context fails on reading `url`, a missing URL or title on
      `toLowerCase`. */
  function ContextError(context: Option<PageContext>): (r: Option<string>)
    ensures r.None? <==> context.Some? && context.value.url.Some? && context.value.title.Some?
  {
    match context
    case None => Some(UndefinedRead("url"))
    case Some(c) => if c.url.None? || c.title.None? then Some(UndefinedRead("toLowerCase")) else None
  }

  /** Everything the request to the API is built from. */
  datatype ResolverRequest = ResolverRequest(
    apiKey: string,
    formType: FormType,
    fields: seq<SimpleField>,
    profile: map<string, string>,
    url: string,
    title: string)

  /** The `error` member of a JSON reply: absent, or an object with its
      `message`, if any. */
  datatype ErrorMember = Absent | Present(message: Option<string>)

  /** The body of an HTTP reply: not JSON (with the parser's message), or a
      JSON object with its `error` member and its `content[0].text`, if
      any. */
  datatype ReplyBody = NotJson(parseError: string) | Json(error: ErrorMember, firstText: Option<string>)

  /** What `fetch` gives: a rejection with its message, or an HTTP reply. */
  datatype ApiReply = FetchRejected(message: string) | Http(ok: bool, body: ReplyBody)

  /** `!profile || !profile.name`. */
  predicate ProfileMissing(profile: Option<map<string, string>>)
  {
    profile.None? || "name" !in profile.value || profile.value["name"] == ""
  }

  /** `text.match(/\{[\s\S]*\}/s)[0]`: from the first `{` to the last `}`,
      both included, or nothing when no `}` follows the first `{`. */
  function ExtractObject(s: string): (r: Option<string>)
    ensures r.Some? <==> exists i, j :: 0 <= i < j < |s| && s[i] == '{' && s[j] == '}'
    ensures r.Some? ==> exists i, j :: 0 <= i < j < |s| && s[i] == '{' && s[j] == '}' && r.value == s[i..j + 1]
                                       && (forall k :: 0 <= k < i ==> s[k] != '{')
                                       && (forall k :: j < k < |s| ==> s[k] != '}')
  {
    match IndexOf(s, '{')
    case None => None
    case Some(i) =>
      match LastIndexOf(s, '}')
      case None => None
      case Some(j) =>
        if i < j then
          Some(s[i..j + 1])
        else None
  }

  /** The extracted text starts with `{` and ends with `}`, so extracting
      again changes nothing. */
  lemma ExtractIdempotent(s: string)
    requires ExtractObject(s).Some?
    ensures var o := ExtractObject(s).value; |o| >= 2 && o[0] == '{' && o[|o| - 1] == '}'
    ensures ExtractObject(ExtractObject(s).value) == ExtractObject(s)
  {
    var o := ExtractObject(s).value;
    assert o[0] == '{' && o[|o| - 1] == '}';
    assert IndexOf(o, '{') == Some(0);
    assert LastIndexOf(o, '}') == Some(|o| - 1);
    assert o[0..|o|] == o;
  }

  /** The extraction runs to the last `}`, not to the brace that closes the
      first object: two objects in a row come out together. */
  lemma ExtractRunsToLastBrace()
    ensures ExtractObject("{a} {b}") == Some("{a} {b}")
  {
    var s := "{a} {b}";
    assert IndexOf(s, '{') == Some(0);
    assert LastIndexOf(s, '}') == Some(6);
    assert s[0..7] == s;
  }

  /** `error.message.includes('JSON') ? <generic message> : error.message`. */
  function Rephrase(m: string): (r: string)
    ensures !Contains(r, "JSON")
    ensures !Contains(m, "JSON") ==> r == m
    ensures Contains(m, "JSON") ==> r == InvalidResponseMessage
  {
    if Contains(m, "JSON") then
      InvalidResponseAvoidsJson();
      InvalidResponseMessage
    else m
  }

  /** The generic message does not mention JSON. */
  lemma InvalidResponseAvoidsJson()
    ensures !Contains(InvalidResponseMessage, "JSON")
  {
    assert Avoids("The AI ", 'J');
    assert Avoids("returned an ", 'J');
    assert Avoids("invalid ", 'J');
    assert Avoids("response. ", 'J');
    assert Avoids("Please ", 'J');
    assert Avoids("try again.", 'J');
    AvoidsConcat("The AI ", "returned an ", 'J');
    AvoidsConcat("The AI " + "returned an ", "invalid ", 'J');
    AvoidsConcat("The AI " + "returned an " + "invalid ", "response. ", 'J');
    AvoidsConcat("The AI " + "returned an " + "invalid " + "response. ", "Please ", 'J');
    AvoidsConcat("The AI " + "returned an " + "invalid " + "response. " + "Please ", "try again.", 'J');
    AvoidsNotContains(InvalidResponseMessage, "JSON");
  }

  /** The text of `Claude API Error: ${errorBody.error.message}`, or the
      `TypeError` of reading `message` from a missing `error`. */
  function ApiErrorText(err: ErrorMember): (r: string)
    ensures err.Present? ==> r == ApiErrorPrefix + (if err.message.Some? then err.message.value else "undefined")
    ensures err.Absent? ==> r == MissingErrorMessage
  {
    match err
    case Absent => MissingErrorMessage
    case Present(None) => ApiErrorPrefix + "undefined"
    case Present(Some(m)) => ApiErrorPrefix + m
  }

  /** The part of `getHolisticFills` inside its `try`: the reply of the API
      turned into the parsed values or an error message. Values come only
      from parsing the object extracted from the text of a successful
      reply. */
  function Attempt<V>(request: ResolverRequest, resolver: ResolverRequest -> ApiReply,
                      parse: string -> Result<V, string>): (r: Result<V, string>)
    ensures r.Success? ==>
              var reply := resolver(request);
              reply.Http? && reply.ok && reply.body.Json? && reply.body.firstText.Some?
              && ExtractObject(reply.body.firstText.value).Some?
              && r == parse(ExtractObject(reply.body.firstText.value).value)
  {
    match resolver(request)
    case FetchRejected(m) => Failure(m)
    case Http(ok, body) =>
      match body
      case NotJson(m) => Failure(m)
      case Json(err, text) =>
        if !ok then Failure(ApiErrorText(err))
        else if text.None? || text.value == "" then Failure(InvalidStructureMessage)
        else match ExtractObject(text.value)
          case None => Failure(NoObjectMessage)
          case Some(js) => parse(js)
  }

  /** `getHolisticFills`: a missing API key is reported first, then a missing
      profile, both before any request, then a missing page context or
      property of it, as the `TypeError` it raises; otherwise the API is
      asked and its reply turned into values, with every error message from
      the request onwards reworded if it mentions JSON. */
  function HolisticFills<V>(fields: seq<Field>, profile: Option<map<string, string>>, apiKey: string,
                            context: Option<PageContext>, resolver: ResolverRequest -> ApiReply,
                            parse: string -> Result<V, string>): (r: Result<V, string>)
    ensures apiKey == "" ==> r == Failure(ApiKeyMessage)
    ensures apiKey != "" && ProfileMissing(profile) ==> r == Failure(ProfileMessage)
    ensures apiKey != "" && !ProfileMissing(profile) && ContextError(context).Some? ==>
              r == Failure(ContextError(context).value)
    ensures apiKey != "" && !ProfileMissing(profile) && r.Failure? ==> !Contains(r.error, "JSON")
  {
    if apiKey == "" then Failure(ApiKeyMessage)
    else if ProfileMissing(profile) then Failure(ProfileMessage)
    else match ContextError(context)
      case Some(e) =>
        ContextErrorAvoidsJson(context);
        Failure(e)
      case None =>
        var request := RequestFor(fields, profile.value, apiKey, context.value.url.value, context.value.title.value);
        match Attempt(request, resolver, parse)
        case Success(v) => Success(v)
        case Failure(m) => Failure(Rephrase(m))
  }

  /** The `TypeError` messages of a missing page context do not mention
      JSON. */
  lemma ContextErrorAvoidsJson(context: Option<PageContext>)
    requires ContextError(context).Some?
    ensures !Contains(ContextError(context).value, "JSON")
  {
    assert Avoids("url", 'J');
    assert Avoids("toLowerCase", 'J');
    UndefinedReadAvoidsJson(if context.None? then "url" else "toLowerCase");
  }

  /** A `TypeError` message about a property without `J` does not mention
      JSON. */
  lemma UndefinedReadAvoidsJson(prop: string)
    requires Avoids(prop, 'J')
    ensures !Contains(UndefinedRead(prop), "JSON")
  {
    var a := "Cannot read " + "properties of " + "undefined " + "(reading '";
    assert Avoids("Cannot read ", 'J');
    assert Avoids("properties of ", 'J');
    assert Avoids("undefined ", 'J');
    assert Avoids("(reading '", 'J');
    assert Avoids("')", 'J');
    AvoidsConcat("Cannot read ", "properties of ", 'J');
    AvoidsConcat("Cannot read " + "properties of ", "undefined ", 'J');
    AvoidsConcat("Cannot read " + "properties of " + "undefined ", "(reading '", 'J');
    AvoidsConcat(a, prop, 'J');
    AvoidsConcat(a + prop, "')", 'J');
    AvoidsNotContains(UndefinedRead(prop), "JSON");
  }

  /** The message of the key check does not mention JSON. */
  lemma ApiKeyMessageAvoidsJson()
    ensures !Contains(ApiKeyMessage, "JSON")
  {
    assert Avoids("API Key ", 'J');
    assert Avoids("is not set. ", 'J');
    assert Avoids("Please ", 'J');
    assert Avoids("configure it ", 'J');
    assert Avoids("in settings.", 'J');
    AvoidsConcat("API Key ", "is not set. ", 'J');
    AvoidsConcat("API Key " + "is not set. ", "Please ", 'J');
    AvoidsConcat("API Key " + "is not set. " + "Please ", "configure it ", 'J');
    AvoidsConcat("API Key " + "is not set. " + "Please " + "configure it ", "in settings.", 'J');
    AvoidsNotContains(ApiKeyMessage, "JSON");
  }

  /** The message of the profile check does not mention JSON. */
  lemma ProfileMessageAvoidsJson()
    ensures !Contains(ProfileMessage, "JSON")
  {
    assert Avoids("User profile ", 'J');
    assert Avoids("is empty. ", 'J');
    assert Avoids("Please ", 'J');
    assert Avoids("complete your ", 'J');
    assert Avoids("profile in ", 'J');
    assert Avoids("settings.", 'J');
    AvoidsConcat("User profile ", "is empty. ", 'J');
    AvoidsConcat("User profile " + "is empty. ", "Please ", 'J');
    AvoidsConcat("User profile " + "is empty. " + "Please ", "complete your ", 'J');
    AvoidsConcat("User profile " + "is empty. " + "Please " + "complete your ", "profile in ", 'J');
    AvoidsConcat("User profile " + "is empty. " + "Please " + "complete your " + "profile in ", "settings.", 'J');
    AvoidsNotContains(ProfileMessage, "JSON");
  }

  /** No error that `getHolisticFills` reports mentions JSON. */
  lemma FailureNeverMentionsJson<V>(fields: seq<Field>, profile: Option<map<string, string>>, apiKey: string,
                                    context: Option<PageContext>, resolver: ResolverRequest -> ApiReply,
                                    parse: string -> Result<V, string>)
    ensures var r := HolisticFills(fields, profile, apiKey, context, resolver, parse);
            r.Failure? ==> !Contains(r.error, "JSON")
  {
    ApiKeyMessageAvoidsJson();
    ProfileMessageAvoidsJson();
  }

  /** The request the API receives: the projected fields, the detected form
      type, the profile and the page. */
  function RequestFor(fields: seq<Field>, profile: map<string, string>, apiKey: string,
                      url: string, title: string): (r: ResolverRequest)
    ensures r.formType == DetectFormType(url, title, r.fields) && r.fields == Project(fields)
    ensures r.apiKey == apiKey && r.profile == profile && r.url == url && r.title == title
  {
    var simple := Project(fields);
    ResolverRequest(apiKey, DetectFormType(url, title, simple), simple, profile, url, title)
  }

  /** When a check fails, neither the API nor the parser has any say in the
      outcome. */
  lemma ChecksPrecedeRequest<V>(fields: seq<Field>, profile: Option<map<string, string>>, apiKey: string,
                                context: Option<PageContext>, r1: ResolverRequest -> ApiReply, r2: ResolverRequest -> ApiReply,
                                p1: string -> Result<V, string>, p2: string -> Result<V, string>)
    requires apiKey == "" || ProfileMissing(profile) || ContextError(context).Some?
    ensures HolisticFills(fields, profile, apiKey, context, r1, p1) == HolisticFills(fields, profile, apiKey, context, r2, p2)
  {
  }

  /** With the checks passed and the page complete, the result is the
      attempt on the request built from the fields, the profile and the page,
      with a failure's message reworded. */
  lemma FillsOnCompletePage<V>(fields: seq<Field>, profile: map<string, string>, apiKey: string,
                               url: string, title: string, resolver: ResolverRequest -> ApiReply,
                               parse: string -> Result<V, string>)
    requires apiKey != "" && !ProfileMissing(Some(profile))
    ensures var a := Attempt(RequestFor(fields, profile, apiKey, url, title), resolver, parse);
            HolisticFills(fields, Some(profile), apiKey, Page(url, title), resolver, parse)
            == if a.Success? then a else Failure(Rephrase(a.error))
  {
  }

  /** A rejected request, or a reply whose body is not JSON, fails with the
      message of that rejection, whether the reply was an error or not. */
  lemma TransportFailurePassedOn<V>(request: ResolverRequest, resolver: ResolverRequest -> ApiReply,
                                    parse: string -> Result<V, string>, m: string)
    requires resolver(request) == FetchRejected(m) || (resolver(request).Http? && resolver(request).body == NotJson(m))
    ensures Attempt(request, resolver, parse) == Failure(m)
  {
  }

  /** Such a failure reaches the caller reworded like any other. */
  lemma TransportFailureReworded<V>(fields: seq<Field>, profile: map<string, string>, apiKey: string,
                                    url: string, title: string, resolver: ResolverRequest -> ApiReply,
                                    parse: string -> Result<V, string>, m: string)
    requires apiKey != "" && !ProfileMissing(Some(profile))
    requires var reply := resolver(RequestFor(fields, profile, apiKey, url, title));
             reply == FetchRejected(m) || (reply.Http? && reply.body == NotJson(m))
    ensures HolisticFills(fields, Some(profile), apiKey, Page(url, title), resolver, parse) == Failure(Rephrase(m))
  {
    TransportFailurePassedOn(RequestFor(fields, profile, apiKey, url, title), resolver, parse, m);
    FillsOnCompletePage(fields, profile, apiKey, url, title, resolver, parse);
  }

  /** On a successful reply with a text, the attempt is the parse of the
      extracted object, or the no-object error when there is none. */
  lemma AttemptOnText<V>(request: ResolverRequest, resolver: ResolverRequest -> ApiReply,
                         parse: string -> Result<V, string>, err: ErrorMember, text: string)
    requires text != "" && resolver(request) == Http(true, Json(err, Some(text)))
    ensures Attempt(request, resolver, parse)
            == if ExtractObject(text).None? then Failure(NoObjectMessage) else parse(ExtractObject(text).value)
  {
  }

  /** A reply text holding no object surfaces as the generic message, not as
      the "did not contain a valid JSON object" message thrown for it. */
  lemma NoObjectSurfacesAsGeneric<V>(fields: seq<Field>, profile: map<string, string>, apiKey: string,
                                     url: string, title: string, resolver: ResolverRequest -> ApiReply,
                                     parse: string -> Result<V, string>, err: ErrorMember, text: string)
    requires apiKey != "" && !ProfileMissing(Some(profile))
    requires text != "" && ExtractObject(text).None?
    requires resolver(RequestFor(fields, profile, apiKey, url, title)) == Http(true, Json(err, Some(text)))
    ensures HolisticFills(fields, Some(profile), apiKey, Page(url, title), resolver, parse) == Failure(InvalidResponseMessage)
  {
    AttemptOnText(RequestFor(fields, profile, apiKey, url, title), resolver, parse, err, text);
    FillsOnCompletePage(fields, profile, apiKey, url, title, resolver, parse);
    NoObjectMessageMentionsJson();
  }

  /** The message thrown for a reply without an object mentions JSON. */
  lemma NoObjectMessageMentionsJson()
    ensures Contains(NoObjectMessage, "JSON")
  {
    var a := "The AI " + "returned a " + "response " + "that did not " + "contain a " + "valid ";
    var b := "JSON";
    assert b[0..4] == b;
    ContainsAt(b, "JSON", 0);
    ContainsExtend(a, b, " object.", "JSON");
  }

  /** On a successful reply, the parser is given exactly the extracted object
      and its result is returned, with a failure's message reworded. */
  lemma ParserSeesExtractedObject<V>(fields: seq<Field>, profile: map<string, string>, apiKey: string,
                                     url: string, title: string, resolver: ResolverRequest -> ApiReply,
                                     parse: string -> Result<V, string>, err: ErrorMember, text: string)
    requires apiKey != "" && !ProfileMissing(Some(profile))
    requires text != "" && ExtractObject(text).Some?
    requires resolver(RequestFor(fields, profile, apiKey, url, title)) == Http(true, Json(err, Some(text)))
    ensures var parsed := parse(ExtractObject(text).value);
            HolisticFills(fields, Some(profile), apiKey, Page(url, title), resolver, parse)
            == if parsed.Success? then parsed else Failure(Rephrase(parsed.error))
  {
    AttemptOnText(RequestFor(fields, profile, apiKey, url, title), resolver, parse, err, text);
    FillsOnCompletePage(fields, profile, apiKey, url, title, resolver, parse);
  }

  /** An error reply from the API passes its error text on, unless that
      mentions JSON. */
  lemma ApiErrorPassedOn<V>(fields: seq<Field>, profile: map<string, string>, apiKey: string,
                            url: string, title: string, resolver: ResolverRequest -> ApiReply,
                            parse: string -> Result<V, string>, err: ErrorMember, text: Option<string>)
    requires apiKey != "" && !ProfileMissing(Some(profile))
    requires resolver(RequestFor(fields, profile, apiKey, url, title)) == Http(false, Json(err, text))
    requires !Contains(ApiErrorText(err), "JSON")
    ensures HolisticFills(fields, Some(profile), apiKey, Page(url, title), resolver, parse)
            == Failure(ApiErrorText(err))
  {
    FillsOnCompletePage(fields, profile, apiKey, url, title, resolver, parse);
  }

  /** A successful reply without a text is reported as an invalid
      structure, whatever its error member says. */
  lemma MissingTextIsInvalidStructure<V>(fields: seq<Field>, profile: map<string, string>, apiKey: string,
                                         url: string, title: string, resolver: ResolverRequest -> ApiReply,
                                         parse: string -> Result<V, string>, err: ErrorMember, text: Option<string>)
    requires apiKey != "" && !ProfileMissing(Some(profile))
    requires text.None? || text.value == ""
    requires resolver(RequestFor(fields, profile, apiKey, url, title)) == Http(true, Json(err, text))
    ensures HolisticFills(fields, Some(profile), apiKey, Page(url, title), resolver, parse)
            == Failure(InvalidStructureMessage)
  {
    FillsOnCompletePage(fields, profile, apiKey, url, title, resolver, parse);
    InvalidStructureAvoidsJson();
  }

  /** The structure message does not mention JSON. */
  lemma InvalidStructureAvoidsJson()
    ensures !Contains(InvalidStructureMessage, "JSON")
  {
    assert Avoids("Invalid response ", 'J');
    assert Avoids("structure from ", 'J');
    assert Avoids("Claude API.", 'J');
    AvoidsConcat("Invalid response ", "structure from ", 'J');
    AvoidsConcat("Invalid response " + "structure from ", "Claude API.", 'J');
    AvoidsNotContains(InvalidStructureMessage, "JSON");
  }

  // ---------------------------------------------------------------------
  // The get_holistic_fills listener.
  // ---------------------------------------------------------------------

  /** `{ values }` or `{ error }`. */
  datatype FillsReply<V> = ValuesReply(values: V) | ErrorReply(error: string)

  /** The listener's answer to `get_holistic_fills`: the values, or the error
      message with a fixed fallback for an empty one. Other actions get no
      answer. */
  function HandleRequest<V>(action: string, fields: seq<Field>, profile: Option<map<string, string>>,
                            apiKey: string, context: Option<PageContext>, resolver: ResolverRequest -> ApiReply,
                            parse: string -> Result<V, string>): (r: Option<FillsReply<V>>)
    ensures r.Some? <==> action == "get_holistic_fills"
    ensures r.Some? ==>
              var fills := HolisticFills(fields, profile, apiKey, context, resolver, parse);
              (r.value.ValuesReply? <==> fills.Success?)
              && (fills.Success? ==> r.value.values == fills.value)
              && (r.value.ErrorReply? ==> r.value.error != "")
              && (fills.Failure? && fills.error != "" ==> r.value.error == fills.error)
              && (fills.Failure? && fills.error == "" ==> r.value.error == UnexpectedErrorMessage)
  {
    if action != "get_holistic_fills" then None
    else match HolisticFills(fields, profile, apiKey, context, resolver, parse)
      case Success(v) => Some(ValuesReply(v))
      case Failure(m) => Some(ErrorReply(if m != "" then m else UnexpectedErrorMessage))
  }
}
