/**
 * The contact form: four text fields, per-field validation on submit, and a
 * submit that hands the message to the visitor's mail client through a
 * `mailto:` link instead of sending it anywhere.
 */
module Contact {
  import opened Wrappers
  import opened Text
  import EmailPattern
  import UriEncoding

  datatype Field = Name | Email | Subject | Message

  /** The form's four values (`formData`). */
  datatype FormData = FormData(name: string, email: string, subject: string, message: string)
  {
    function Get(f: Field): string {
      match f
      case Name => name
      case Email => email
      case Subject => subject
      case Message => message
    }

    /** `{ ...formData, [f]: v }`: field f replaced, the other three kept. */
    function With(f: Field, v: string): (r: FormData)
      ensures r.Get(f) == v
      ensures forall g :: g != f ==> r.Get(g) == Get(g)
    {
      match f
      case Name => this.(name := v)
      case Email => this.(email := v)
      case Subject => this.(subject := v)
      case Message => this.(message := v)
    }
  }

  const EmptyForm := FormData("", "", "", "")

  // The messages the form shows under a field.
  const NameRequired := "Name is required"
  const NameTooShort := "Name must be at least 2 characters"
  const EmailRequired := "Email is required"
  const EmailInvalid := "Please enter a valid email address"
  const SubjectRequired := "Subject is required"
  const SubjectTooShort := "Subject must be at least 5 characters"
  const MessageRequired := "Message is required"
  const MessageTooShort := "Message must be at least 10 characters"

  /** The name rule: required, then at least 2 characters once trimmed. */
  function NameError(name: string): (r: Option<string>)
    ensures r == Some(NameRequired) <==> AllSpace(name)
    ensures r == Some(NameTooShort)
      <==> !AllSpace(name) && Utf16Length(Trim(name)) < 2
    ensures r == None <==> Utf16Length(Trim(name)) >= 2
  {
    if Trim(name) == [] then Some(NameRequired)
    else if Utf16Length(Trim(name)) < 2 then Some(NameTooShort)
    else None
  }

  /** The email rule: required once trimmed, then the address pattern,
      which is tested against the value as typed, not the trimmed one. */
  function EmailError(email: string): (r: Option<string>)
    ensures r == Some(EmailRequired) <==> AllSpace(email)
    ensures r == Some(EmailInvalid)
      <==> !AllSpace(email) && !EmailPattern.Pattern(email)
    ensures r == None <==> EmailPattern.Pattern(email)
  {
    EmailPattern.PatternNotBlank(email);
    if Trim(email) == [] then Some(EmailRequired)
    else if !EmailPattern.Matches(email) then Some(EmailInvalid)
    else None
  }

  /** The subject rule: required, then at least 5 characters once trimmed. */
  function SubjectError(subject: string): (r: Option<string>)
    ensures r == Some(SubjectRequired) <==> AllSpace(subject)
    ensures r == Some(SubjectTooShort)
      <==> !AllSpace(subject) && Utf16Length(Trim(subject)) < 5
    ensures r == None <==> Utf16Length(Trim(subject)) >= 5
  {
    if Trim(subject) == [] then Some(SubjectRequired)
    else if Utf16Length(Trim(subject)) < 5 then Some(SubjectTooShort)
    else None
  }

  /** The message rule: required, then at least 10 characters once trimmed. */
  function MessageError(message: string): (r: Option<string>)
    ensures r == Some(MessageRequired) <==> AllSpace(message)
    ensures r == Some(MessageTooShort)
      <==> !AllSpace(message) && Utf16Length(Trim(message)) < 10
    ensures r == None <==> Utf16Length(Trim(message)) >= 10
  {
    if Trim(message) == [] then Some(MessageRequired)
    else if Utf16Length(Trim(message)) < 10 then Some(MessageTooShort)
    else None
  }

  /** The rule of field f applied to its value. */
  function FieldError(form: FormData, f: Field): Option<string> {
    match f
    case Name => NameError(form.name)
    case Email => EmailError(form.email)
    case Subject => SubjectError(form.subject)
    case Message => MessageError(form.message)
  }

  /** Every field satisfies its rule. */
  ghost predicate AllValid(form: FormData) {
    Utf16Length(Trim(form.name)) >= 2 && EmailPattern.Pattern(form.email)
    && Utf16Length(Trim(form.subject)) >= 5 && Utf16Length(Trim(form.message)) >= 10
  }

  /** `validateForm`: every field is checked, whatever the others give; the
      result holds exactly the failing fields, each with its rule's message. */
  function ValidateForm(form: FormData): (errors: map<Field, string>)
    ensures forall f :: f in errors <==> FieldError(form, f).Some?
    ensures forall f :: f in errors ==> FieldError(form, f) == Some(errors[f])
  {
    map f | f in {Name, Email, Subject, Message} && FieldError(form, f).Some? :: FieldError(form, f).value
  }

  /** `validateForm` reports no error exactly when every field is valid. */
  lemma ValidateFormEmpty(form: FormData)
    ensures |ValidateForm(form)| == 0 <==> AllValid(form)
  {
    var errors := ValidateForm(form);
    assert AllValid(form) <==> (NameError(form.name).None? && EmailError(form.email).None? &&
                                SubjectError(form.subject).None? && MessageError(form.message).None?);
    assert Name in errors <==> NameError(form.name).Some?;
    assert Email in errors <==> EmailError(form.email).Some?;
    assert Subject in errors <==> SubjectError(form.subject).Some?;
    assert Message in errors <==> MessageError(form.message).Some?;
    if |errors| != 0 {
      var f :| f in errors;
      assert f == Name || f == Email || f == Subject || f == Message;
    }
  }

  /** A form at the boundary lengths passes every rule: a name of 2
      characters, a message of 10. */
  lemma BoundaryFormValid()
    ensures ValidateForm(FormData("Al", "a@b.co", "Hello there", "1234567890")) == map[]
  {
    BoundaryFieldsValid();
    ValidateFormEmpty(FormData("Al", "a@b.co", "Hello there", "1234567890"));
  }

  lemma BoundaryFieldsValid()
    ensures AllValid(FormData("Al", "a@b.co", "Hello there", "1234567890"))
  {
    BoundaryName();
    BoundaryMessage();
    BoundarySubject();
    ExampleAddress();
  }

  lemma BoundaryName()
    ensures Utf16Length(Trim("Al")) >= 2
  {
    var name := "Al";
    assert name[0] == 'A' && name[1] == 'l';
    LengthOfPlain(name);
  }

  lemma BoundaryMessage()
    ensures Utf16Length(Trim("1234567890")) >= 10
  {
    LengthOfPlain("1234567890");
  }

  lemma BoundarySubject()
    ensures Utf16Length(Trim("Hello there")) >= 5
  {
    LengthOfTrimmed("Hello there");
  }

  lemma LengthOfPlain(s: string)
    requires forall i :: 0 <= i < |s| ==> !IsSpace(s[i])
    ensures Utf16Length(Trim(s)) >= |s|
  {
    TrimNoSpace(s);
  }

  lemma LengthOfTrimmed(s: string)
    requires Trimmed(s)
    ensures Utf16Length(Trim(s)) >= |s|
  {
    TrimCore([], s, []);
    assert [] + s + [] == s;
  }

  lemma ExampleAddress()
    ensures EmailPattern.Pattern("a@b.co")
  {
    var email := "a@b.co";
    assert email[..1] == "a" && email[2..3] == "b" && email[4..] == "co";
    assert EmailPattern.SplitAt(email, 1, 3);
  }

  /** A form failing every rule gets every field's message: the required
      message for the empty name, the others' second messages. */
  lemma FailingFormMessages()
    ensures forall f :: f in ValidateForm(FormData("", "bad", "hi", "short"))
    ensures ValidateForm(FormData("", "bad", "hi", "short"))[Name] == NameRequired
    ensures ValidateForm(FormData("", "bad", "hi", "short"))[Email] == EmailInvalid
    ensures ValidateForm(FormData("", "bad", "hi", "short"))[Subject] == SubjectTooShort
    ensures ValidateForm(FormData("", "bad", "hi", "short"))[Message] == MessageTooShort
  {
    assert AllSpace("");
    ShortPlain("hi", 5);
    ShortPlain("short", 10);
    BadAddress();
    FailingFields(FormData("", "bad", "hi", "short"));
  }

  lemma FailingFields(form: FormData)
    requires AllSpace(form.name)
    requires !AllSpace(form.email) && !EmailPattern.Pattern(form.email)
    requires !AllSpace(form.subject) && Utf16Length(Trim(form.subject)) < 5
    requires !AllSpace(form.message) && Utf16Length(Trim(form.message)) < 10
    ensures forall f :: f in ValidateForm(form)
    ensures ValidateForm(form)[Name] == NameRequired
    ensures ValidateForm(form)[Email] == EmailInvalid
    ensures ValidateForm(form)[Subject] == SubjectTooShort
    ensures ValidateForm(form)[Message] == MessageTooShort
  {
    assert FieldError(form, Name) == Some(NameRequired);
    assert FieldError(form, Email) == Some(EmailInvalid);
    assert FieldError(form, Subject) == Some(SubjectTooShort);
    assert FieldError(form, Message) == Some(MessageTooShort);
  }

  lemma ShortPlain(s: string, n: nat)
    requires s != [] && |s| < n
    requires forall i :: 0 <= i < |s| ==> !IsSpace(s[i]) && s[i] as int < 0x1_0000
    ensures !AllSpace(s) && Utf16Length(Trim(s)) < n
  {
    TrimNoSpace(s);
    assert !IsSpace(s[0]);
  }

  lemma BadAddress()
    ensures !AllSpace("bad") && !EmailPattern.Pattern("bad")
  {
    var email := "bad";
    assert !IsSpace(email[0]);
    assert forall k :: 0 <= k < |email| ==> email[k] != '@';
  }

  /** An address with whitespace before or after it is refused as invalid,
      because the pattern sees the value untrimmed. */
  lemma EmailWithSurroundingSpace(email: string)
    requires !AllSpace(email)
    requires IsSpace(email[0]) || IsSpace(email[|email| - 1])
    ensures EmailError(email) == Some(EmailInvalid)
  {
    EmailPattern.PatternNotBlank(email);
  }

  const MailtoPrefix := "mailto:V8236014408@gmail.com?subject="
  const BodyKey := "&body="

  /** The text the mail client is given as the message body: the labelled
      name and email, then the message, which ends it. */
  function MessageBody(form: FormData): (r: string)
    ensures |r| == |form.name| + |form.email| + |form.message| + 25
    ensures r[..6] == "Name: "
    ensures r[|r| - |form.message|..] == form.message
  {
    "Name: " + form.name + "\nEmail: " + form.email + "\n\nMessage:\n" + form.message
  }

  /** The index of the first c in s. */
  function IndexOf(s: string, c: char): (r: Option<nat>)
    ensures r.Some? ==> r.value < |s| && s[r.value] == c
    ensures r.Some? ==> forall k :: 0 <= k < r.value ==> s[k] != c
    ensures r.None? ==> forall k :: 0 <= k < |s| ==> s[k] != c
  {
    if s == [] then None
    else if s[0] == c then Some(0)
    else match IndexOf(s[1..], c)
      case None => None
      case Some(k) => Some(k + 1)
  }

  /** p is a prefix of s. */
  predicate StartsWith(s: string, p: string) {
    |p| <= |s| && s[..|p|] == p
  }

  /** How a mail client reads the link back: the subject and body it
      carries, None when the link does not have the form's shape. */
  function ParseMailto(link: string): Option<(string, string)> {
    if StartsWith(link, MailtoPrefix) then ParseQuery(link[|MailtoPrefix|..]) else None
  }

  /** The query after `?subject=`: the subject runs to the first `&`, which
      must open `&body=`; both parts must decode. */
  function ParseQuery(query: string): Option<(string, string)> {
    match IndexOf(query, '&')
    case None => None
    case Some(k) =>
      if !StartsWith(query[k..], BodyKey) then None
      else
        match (UriEncoding.Decode(query[..k]), UriEncoding.Decode(query[k + |BodyKey|..]))
        case (Some(subject), Some(body)) => Some((subject, body))
        case _ => None
  }

  /** The `mailto:` link a valid submit navigates to: the fixed recipient,
      then the encoded subject and the encoded body as its two parameters. */
  function MailtoLink(form: FormData): (r: string)
    ensures |r| >= |MailtoPrefix| + |form.subject| + |BodyKey| + |MessageBody(form)|
    ensures r[..|MailtoPrefix|] == MailtoPrefix
  {
    MailtoPrefix + UriEncoding.EncodeURIComponent(form.subject)
      + BodyKey + UriEncoding.EncodeURIComponent(MessageBody(form))
  }

  /** The link is addressed to the fixed recipient and, after that, carries
      only characters a URI query can hold as they are. */
  lemma MailtoLinkShape(form: FormData)
    ensures |MailtoLink(form)| > |MailtoPrefix|
    ensures MailtoLink(form)[..|MailtoPrefix|] == MailtoPrefix
    ensures forall k :: |MailtoPrefix| <= k < |MailtoLink(form)| ==> IsQueryChar(MailtoLink(form)[k])
  {
    var subject := UriEncoding.EncodeURIComponent(form.subject);
    var body := UriEncoding.EncodeURIComponent(MessageBody(form));
    var query := subject + BodyKey + body;
    assert MailtoLink(form) == MailtoPrefix + query;
    QueryChars(subject, body);
    PrefixThen(MailtoPrefix, query);
  }

  lemma PrefixThen(prefix: string, rest: string)
    ensures (prefix + rest)[..|prefix|] == prefix
    ensures forall k :: |prefix| <= k < |prefix + rest| ==> (prefix + rest)[k] == rest[k - |prefix|]
  {
  }

  /** A character a URI query carries as it is, or one of the link's own
      delimiters. */
  predicate IsQueryChar(c: char) {
    UriEncoding.IsUnescaped(c) || c in "%&="
  }

  lemma QueryChars(subject: string, body: string)
    requires forall k :: 0 <= k < |subject| ==> UriEncoding.IsUnescaped(subject[k]) || subject[k] == '%'
    requires forall k :: 0 <= k < |body| ==> UriEncoding.IsUnescaped(body[k]) || body[k] == '%'
    ensures forall k :: 0 <= k < |subject + BodyKey + body| ==> IsQueryChar((subject + BodyKey + body)[k])
  {
    var query := subject + BodyKey + body;
    forall k | 0 <= k < |query|
      ensures IsQueryChar(query[k])
    {
      if k < |subject| {
        assert query[k] == subject[k];
      } else if k < |subject| + |BodyKey| {
        assert query[k] == BodyKey[k - |subject|];
      } else {
        assert query[k] == body[k - |subject| - |BodyKey|];
      }
    }
  }

  /** The mail client reads back exactly the subject and the body the form
      put in the link. */
  lemma MailtoRoundTrip(form: FormData)
    ensures ParseMailto(MailtoLink(form)) == Some((form.subject, MessageBody(form)))
  {
    var subject := UriEncoding.EncodeURIComponent(form.subject);
    var body := UriEncoding.EncodeURIComponent(MessageBody(form));
    var query := subject + BodyKey + body;
    assert MailtoLink(form) == MailtoPrefix + query;
    ParseMailtoPrefix(query);
    EncodedHasNoAmpersand(form.subject);
    QueryParses(subject, body);
    UriEncoding.DecodeEncode(form.subject);
    UriEncoding.DecodeEncode(MessageBody(form));
  }

  lemma EncodedHasNoAmpersand(s: string)
    ensures forall k :: 0 <= k < |UriEncoding.EncodeURIComponent(s)| ==>
      UriEncoding.EncodeURIComponent(s)[k] != '&'
  {
    assert !UriEncoding.IsUnescaped('&');
  }

  lemma ParseMailtoPrefix(query: string)
    ensures ParseMailto(MailtoPrefix + query) == ParseQuery(query)
  {
    var link := MailtoPrefix + query;
    assert link[..|MailtoPrefix|] == MailtoPrefix;
    assert link[|MailtoPrefix|..] == query;
  }

  /** A subject free of `&` is read back up to `&body=`. */
  lemma QueryParses(subject: string, body: string)
    requires forall k :: 0 <= k < |subject| ==> subject[k] != '&'
    ensures ParseQuery(subject + BodyKey + body) ==
      match (UriEncoding.Decode(subject), UriEncoding.Decode(body))
      case (Some(s), Some(b)) => Some((s, b))
      case _ => None
  {
    var query := subject + (BodyKey + body);
    assert subject + BodyKey + body == query;
    IndexOfAfter(subject, '&', BodyKey + body);
    assert query[|subject|..] == BodyKey + body;
    assert (BodyKey + body)[..|BodyKey|] == BodyKey;
    assert query[..|subject|] == subject;
    assert query[|subject| + |BodyKey|..] == body;
  }

  /** The first c in `prefix + rest` is the first of rest when prefix has none. */
  lemma {:induction false} IndexOfAfter(prefix: string, c: char, rest: string)
    requires forall k :: 0 <= k < |prefix| ==> prefix[k] != c
    requires |rest| > 0 && rest[0] == c
    ensures IndexOf(prefix + rest, c) == Some(|prefix|)
  {
    if prefix != [] {
      assert (prefix + rest)[1..] == prefix[1..] + rest;
      IndexOfAfter(prefix[1..], c, rest);
    }
  }

  /** Every error message on display (a non-empty entry) is the message
      its field's rule gives for the field's current value. */
  ghost predicate ErrorsCurrent(form: FormData, errors: map<Field, string>) {
    forall f :: f in errors && errors[f] != "" ==> FieldError(form, f) == Some(errors[f])
  }

  /** `setErrors(prev => ({ ...prev, [f]: '' }))` when `errors[f]` is shown:
      that one entry is blanked, its key kept; nothing else changes. */
  function ClearError(errors: map<Field, string>, f: Field): (r: map<Field, string>)
    ensures r.Keys == errors.Keys
    ensures f in r ==> r[f] == ""
    ensures forall g :: g in r && g != f ==> r[g] == errors[g]
  {
    if f in errors && errors[f] != "" then errors[f := ""] else errors
  }

  /** Editing a field keeps every message on display current. */
  lemma EditKeepsErrorsCurrent(form: FormData, errors: map<Field, string>, f: Field, value: string)
    requires ErrorsCurrent(form, errors)
    ensures ErrorsCurrent(form.With(f, value), ClearError(errors, f))
  {
    var form' := form.With(f, value);
    var errors' := ClearError(errors, f);
    forall g | g in errors' && errors'[g] != ""
      ensures FieldError(form', g) == Some(errors'[g])
    {
      assert g != f;
      assert form'.Get(g) == form.Get(g);
      FieldErrorOfValue(form, form', g);
    }
  }

  /** A field's error depends on that field's value alone. */
  lemma FieldErrorOfValue(a: FormData, b: FormData, f: Field)
    requires a.Get(f) == b.Get(f)
    ensures FieldError(a, f) == FieldError(b, f)
  {
  }

  /** The result of validation is current by construction. */
  lemma ValidationErrorsCurrent(form: FormData)
    ensures ErrorsCurrent(form, ValidateForm(form))
  {
  }

  /** No error message is on display (every entry is blank). */
  ghost predicate NoErrorShown(errors: map<Field, string>) {
    forall f :: f in errors ==> errors[f] == ""
  }

  /** When every field is valid no message is on display. */
  lemma ValidFormShowsNoErrors(form: FormData, errors: map<Field, string>)
    requires ErrorsCurrent(form, errors) && |ValidateForm(form)| == 0
    ensures NoErrorShown(errors)
  {
  }

  /** With no message on display the errors are current for any form, the
      emptied one included. */
  lemma NoErrorShownIsCurrent(form: FormData, errors: map<Field, string>)
    requires NoErrorShown(errors)
    ensures ErrorsCurrent(form, errors)
  {
  }

  /** `submitStatus`: null, 'success' or 'error'. */
  datatype Status = Unset | Success | Error

  /** The component's state between two events: its four pieces of React
      state, the status-clearing timeouts scheduled and not yet fired, and
      the links assigned to `window.location.href`, oldest first. */
  datatype Snapshot = Snapshot(formData: FormData, errors: map<Field, string>,
                               isSubmitting: bool, submitStatus: Status,
                               pendingClears: nat, navigations: seq<string>)

  const Initial := Snapshot(EmptyForm, map[], false, Unset, 0, [])

  /** Nothing is submitting, and every error shown is the message its
      field's rule gives for the field's current value. */
  ghost predicate Consistent(s: Snapshot) {
    !s.isSubmitting && ErrorsCurrent(s.formData, s.errors)
  }

  /** `handleInputChange` as a change of state. */
  function Edit(s: Snapshot, f: Field, value: string): (r: Snapshot)
    ensures r.formData.Get(f) == value
    ensures forall g :: g != f ==> r.formData.Get(g) == s.formData.Get(g)
    ensures r.errors.Keys == s.errors.Keys
    ensures r.isSubmitting == s.isSubmitting && r.submitStatus == s.submitStatus
    ensures r.pendingClears == s.pendingClears && r.navigations == s.navigations
  {
    s.(formData := s.formData.With(f, value), errors := ClearError(s.errors, f))
  }

  /** `handleSubmit` as a change of state; `navigationThrows` says whether
      assigning the link to `window.location.href` throws. */
  function Submit(s: Snapshot, navigationThrows: bool): (r: Snapshot)
    ensures !r.isSubmitting
    ensures r.pendingClears == s.pendingClears || r.pendingClears == s.pendingClears + 1
    ensures r.navigations == s.navigations || r.navigations == s.navigations + [MailtoLink(s.formData)]
    ensures r.navigations != s.navigations ==> r.submitStatus == Success && r.formData == EmptyForm
    ensures r.submitStatus == Unset <==> |ValidateForm(s.formData)| > 0
  {
    var formErrors := ValidateForm(s.formData);
    if |formErrors| > 0 then
      s.(errors := formErrors, isSubmitting := false, submitStatus := Unset)
    else if navigationThrows then
      s.(isSubmitting := false, submitStatus := Error, pendingClears := s.pendingClears + 1)
    else
      s.(formData := EmptyForm, isSubmitting := false, submitStatus := Success,
         pendingClears := s.pendingClears + 1,
         navigations := s.navigations + [MailtoLink(s.formData)])
  }

  /** A scheduled timeout fires: `setSubmitStatus(null)`. */
  function Timeout(s: Snapshot): (r: Snapshot)
    requires s.pendingClears > 0
    ensures r.submitStatus == Unset && r.pendingClears == s.pendingClears - 1
    ensures r.formData == s.formData && r.errors == s.errors
    ensures r.isSubmitting == s.isSubmitting && r.navigations == s.navigations
    ensures Consistent(s) ==> Consistent(r)
  {
    s.(submitStatus := Unset, pendingClears := s.pendingClears - 1)
  }

  lemma InitialConsistent()
    ensures Consistent(Initial)
  {
  }

  /** An edit changes the edited field alone, blanks that field's shown
      error and leaves every other message, the status and the history as
      they were; messages on display stay current. */
  lemma EditSpec(s: Snapshot, f: Field, value: string)
    requires Consistent(s)
    ensures Consistent(Edit(s, f, value))
    ensures Edit(s, f, value).formData.Get(f) == value
    ensures forall g :: g != f ==> Edit(s, f, value).formData.Get(g) == s.formData.Get(g)
    ensures Edit(s, f, value).errors.Keys == s.errors.Keys
    ensures f in s.errors ==> Edit(s, f, value).errors[f] == ""
    ensures forall g :: g in s.errors && g != f ==> Edit(s, f, value).errors[g] == s.errors[g]
    ensures Edit(s, f, value).submitStatus == s.submitStatus
    ensures Edit(s, f, value).navigations == s.navigations
  {
    EditKeepsErrorsCurrent(s.formData, s.errors, f, value);
  }

  /** A submit with a failing field shows exactly the validation result,
      keeps what was typed, clears the status and sends nothing. */
  lemma SubmitRejects(s: Snapshot, navigationThrows: bool)
    requires Consistent(s) && !AllValid(s.formData)
    ensures Consistent(Submit(s, navigationThrows))
    ensures Submit(s, navigationThrows).errors == ValidateForm(s.formData)
    ensures |Submit(s, navigationThrows).errors| > 0
    ensures Submit(s, navigationThrows).formData == s.formData
    ensures Submit(s, navigationThrows).submitStatus == Unset
    ensures Submit(s, navigationThrows).navigations == s.navigations
    ensures Submit(s, navigationThrows).pendingClears == s.pendingClears
  {
    ValidateFormEmpty(s.formData);
    ValidationErrorsCurrent(s.formData);
  }

  /** A submit with every field valid sends the browser to the form's
      `mailto:` link, reports success, empties the form and schedules one
      status-clearing timeout; no error message is on display after it. */
  lemma SubmitDelivers(s: Snapshot)
    requires Consistent(s) && AllValid(s.formData)
    ensures Consistent(Submit(s, false))
    ensures NoErrorShown(Submit(s, false).errors)
    ensures Submit(s, false).navigations == s.navigations + [MailtoLink(s.formData)]
    ensures Submit(s, false).submitStatus == Success
    ensures Submit(s, false).formData == EmptyForm
    ensures Submit(s, false).pendingClears == s.pendingClears + 1
  {
    ValidateFormEmpty(s.formData);
    ValidFormShowsNoErrors(s.formData, s.errors);
    NoErrorShownIsCurrent(EmptyForm, s.errors);
  }

  /** When the navigation throws on a valid form the status is error, the
      form keeps what was typed and a timeout is still scheduled. */
  lemma SubmitFails(s: Snapshot)
    requires Consistent(s) && AllValid(s.formData)
    ensures Consistent(Submit(s, true))
    ensures Submit(s, true).navigations == s.navigations
    ensures Submit(s, true).submitStatus == Error
    ensures Submit(s, true).formData == s.formData
    ensures Submit(s, true).pendingClears == s.pendingClears + 1
  {
    ValidateFormEmpty(s.formData);
  }

  /** The two outcomes of a submit on a form whose fields all pass. */
  lemma SubmitValid(s: Snapshot, navigationThrows: bool)
    requires |ValidateForm(s.formData)| == 0
    ensures !navigationThrows ==>
              Submit(s, navigationThrows) ==
              Snapshot(EmptyForm, s.errors, false, Success, s.pendingClears + 1,
                       s.navigations + [MailtoLink(s.formData)])
    ensures navigationThrows ==>
              Submit(s, navigationThrows) ==
              Snapshot(s.formData, s.errors, false, Error, s.pendingClears + 1, s.navigations)
  {
  }

  /** Every submit ends with nothing submitting and the messages current. */
  lemma SubmitConsistent(s: Snapshot, navigationThrows: bool)
    requires Consistent(s)
    ensures Consistent(Submit(s, navigationThrows))
  {
    if !AllValid(s.formData) {
      SubmitRejects(s, navigationThrows);
    } else if navigationThrows {
      SubmitFails(s);
    } else {
      SubmitDelivers(s);
    }
  }

  /** The contact form's state and its two event handlers. */
  class ContactForm {
    var formData: FormData
    var errors: map<Field, string>
    var isSubmitting: bool
    var submitStatus: Status
    /** Status-clearing timeouts scheduled and not yet fired. */
    var pendingClears: nat
    /** The links assigned to `window.location.href`, oldest first. */
    var navigations: seq<string>

    function State(): Snapshot
      reads this
    {
      Snapshot(formData, errors, isSubmitting, submitStatus, pendingClears, navigations)
    }

    ghost predicate Valid()
      reads this
    {
      Consistent(State())
    }

    constructor ()
      ensures Valid() && State() == Initial
    {
      formData := EmptyForm;
      errors := map[];
      isSubmitting := false;
      submitStatus := Unset;
      pendingClears := 0;
      navigations := [];
      InitialConsistent();
    }

    /** `handleInputChange`: the edited field takes the new value, and its
        error, when one is shown, is blanked (the key stays). */
    method HandleInputChange(field: Field, value: string)
      requires Valid()
      modifies this
      ensures State() == Edit(old(State()), field, value) && Valid()
    {
      EditSpec(State(), field, value);
      formData := formData.With(field, value);
      if field in errors && errors[field] != "" {
        errors := errors[field := ""];
      }
    }

    /** `handleSubmit`: submitting starts and the status is cleared; with a
        failing field the errors are replaced by the validation result;
        otherwise the link is assigned to `window.location.href`, and then
        the status becomes success and the form is emptied, or, when that
        assignment throws, the status becomes error. Either way a
        status-clearing timeout is scheduled, and submitting ends. */
    method HandleSubmit(navigationThrows: bool)
      requires Valid()
      modifies this
      ensures State() == Submit(old(State()), navigationThrows) && Valid()
    {
      ghost var before := State();
      SubmitConsistent(before, navigationThrows);
      isSubmitting := true;
      submitStatus := Unset;

      var formErrors := ValidateForm(formData);
      if |formErrors| > 0 {
        errors := formErrors;
        isSubmitting := false;
        assert State() == Submit(before, navigationThrows);
        return;
      }

      SubmitValid(before, navigationThrows);
      var link := MailtoLink(formData);
      if !navigationThrows {
        navigations := navigations + [link];
        submitStatus := Success;
        formData := EmptyForm;
        pendingClears := pendingClears + 1;
      } else {
        submitStatus := Error;
        pendingClears := pendingClears + 1;
      }
      isSubmitting := false;
    }

    /** A scheduled timeout fires: the status is cleared, whichever submit
        set it. */
    method StatusTimeout()
      requires Valid() && pendingClears > 0
      modifies this
      ensures State() == Timeout(old(State())) && Valid()
    {
      submitStatus := Unset;
      pendingClears := pendingClears - 1;
    }

    /** Types each field of `data` into the form. */
    method Fill(data: FormData)
      requires Valid()
      modifies this
      ensures Valid() && formData == data
      ensures submitStatus == old(submitStatus) && pendingClears == old(pendingClears)
      ensures navigations == old(navigations)
    {
      HandleInputChange(Name, data.name);
      HandleInputChange(Email, data.email);
      HandleInputChange(Subject, data.subject);
      HandleInputChange(Message, data.message);
    }
  }

  /** Two valid submits in a row, then the first submit's timeout: the
      second submit's success is already cleared while its own timeout is
      still pending, since earlier timeouts are never cancelled. */
  method EarlierTimeoutClearsLaterStatus(first: FormData, second: FormData)
    returns (status: Status, pending: nat)
    requires AllValid(first) && AllValid(second)
    ensures status == Unset && pending == 1
  {
    var form := new ContactForm();
    form.Fill(first);
    SubmitDelivers(form.State());
    form.HandleSubmit(false);
    form.Fill(second);
    SubmitDelivers(form.State());
    form.HandleSubmit(false);
    form.StatusTimeout();
    status, pending := form.submitStatus, form.pendingClears;
  }
}
