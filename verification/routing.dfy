/**
 * Per-event routing of the LINE webhook: for one inbound text message, which
 * reply is sent and what is written to the `userMap` and `messages`
 * collections. Everything here is a pure function of the two stores, the
 * read-only `employees` collection, the event and the write time; the class
 * in module Webhook performs the same step on mutable state.
 */
module Routing {
  import opened Wrappers
  import opened EcmaString
  import opened NumberParsing

  type UserId = string
  type EmpId = string

  /** A server-assigned write time, supplied by the caller and otherwise opaque. */
  type Stamp = nat

  /** A `userMap` document. The webhook writes only `lastEmpId` and `updatedAt`;
      every other field of the document is kept in `otherFields`. */
  datatype Binding = Binding(lastEmpId: Option<string>, updatedAt: Option<Stamp>, otherFields: map<string, string>)

  /** An `employees` document; an absent field is `None`. */
  datatype Profile = Profile(
    name: Option<string>,
    empId: Option<string>,
    department: Option<string>,
    status: Option<string>,
    safetyPatrolRecord: Option<string>,
    photoUrl: Option<string>)

  /** A `messages` document. */
  datatype Note = Note(ts: Stamp, userId: UserId, empId: EmpId, message: string, source: string)

  /** A LINE reply message: text, or an image given by its two URLs. */
  datatype Reply = Text(text: string) | Image(originalContentUrl: string, previewImageUrl: string)

  /** A webhook event: a text message, or anything else (another message type, a follow, a postback, ...). */
  datatype Event = TextMessage(replyToken: string, userId: UserId, text: string) | OtherEvent

  /** One call of the reply API. */
  datatype Outbound = Outbound(replyToken: string, message: Reply)

  /** The two collections the webhook writes. */
  datatype Stores = Stores(userMap: map<UserId, Binding>, messages: seq<Note>)

  /** The stores after one event, and the reply sent for it, if any. */
  datatype Outcome = Outcome(stores: Stores, sent: Option<Outbound>)

  /** The stores after a batch, and the replies sent, in order. */
  datatype Trace = Trace(stores: Stores, sent: seq<Outbound>)

  // Fixed texts and values of the handler.
  const InfoKeyword := "ข้อมูล"
  const ProfileKeyword := "โปรไฟล์"
  const PictureKeyword := "รูปภาพ"
  const ViewPictureKeyword := "ดูรูป"
  const ImagePlaceholder := "https://placehold.co/1200x780"
  const NoteSource := "LINE_VERCEL"
  const AckText := "ได้รับคำขอแก้ไขข้อมูลของคุณแล้ว" + " (บันทึกใน Firebase)"
  const NotFoundText := "ไม่พบข้อมูลพนักงาน" + "ที่ผูกกับรหัสของคุณในระบบหลัก"
  const PromptText := "บัญชียังไม่ได้ผูกกับรหัสพนักงาน " + "กรุณาส่งรหัสพนักงาน (ตัวเลข 4-8 หลัก) เพื่อเริ่มต้น"
  const BindSuccessPrefix := "ผูกบัญชีสำเร็จ! รหัสพนักงาน "
  const BindSuccessSuffix := " ถูกบันทึกแล้ว"

  function BindSuccessText(code: string): string {
    BindSuccessPrefix + code + BindSuccessSuffix
  }

  /** The text (lower-cased by the caller) asks for the profile. */
  predicate AsksForProfile(text: string) {
    Includes(text, InfoKeyword) || Includes(text, ProfileKeyword)
  }

  /** The text (lower-cased by the caller) asks for the photo. */
  predicate AsksForImage(text: string) {
    Includes(text, PictureKeyword) || Includes(text, ViewPictureKeyword)
  }

  /** The candidate employee-code test: parseInt is not NaN and the JavaScript
      length is more than 3 and less than 9. */
  predicate IsCandidateCode(text: string) {
    ParseInt(text).Some? && Utf16Length(text) > 3 && Utf16Length(text) < 9
  }

  /** The sender's linked employee id when the stored `lastEmpId` is truthy:
      a missing document, a missing field and the empty string all count as unbound. */
  function BoundEmpId(userMap: map<UserId, Binding>, userId: UserId): Option<EmpId> {
    if userId in userMap && userMap[userId].lastEmpId.Some? && userMap[userId].lastEmpId.value != ""
    then userMap[userId].lastEmpId
    else None
  }

  /** A field as a template literal renders it: an absent field becomes "undefined". */
  function Render(field: Option<string>): string {
    match field
    case Some(s) => s
    case None => "undefined"
  }

  /** The multi-line profile summary. */
  function ProfileText(p: Profile): string {
    "[Employee Profile]\nชื่อ: " + (Render(p.name) +
    ("\nรหัส: " + (Render(p.empId) +
    ("\nฝ่าย: " + (Render(p.department) +
    ("\nStatus: " + (Render(p.status) +
    ("\n\nSafety Record: " + Render(p.safetyPatrolRecord)))))))))
  }

  /** `photoUrl || placeholder`: an absent or empty photo URL falls back to the placeholder. */
  function ImageUrl(p: Profile): string {
    if p.photoUrl.Some? && p.photoUrl.value != "" then p.photoUrl.value else ImagePlaceholder
  }

  /** Which branch of the handler a text message takes. */
  datatype Intent =
    | Bind                        // unbound sender, candidate code
    | AskForCode                  // unbound sender, anything else
    | NoProfile                   // bound, but no employee record for the linked id
    | ShowProfile(profile: Profile)
    | ShowImage(profile: Profile)
    | Rebind                      // bound, no keyword, candidate code
    | RecordNote(empId: EmpId)    // bound, nothing else matched

  /** The branch taken for trimmed text `text` from a sender whose binding is `bound`.
      Keywords are looked up in the lower-cased text, first match wins. */
  function Classify(bound: Option<EmpId>, employees: map<EmpId, Profile>, text: string): Intent {
    if bound.None? then
      if IsCandidateCode(text) then Bind else AskForCode
    else if bound.value !in employees then NoProfile
    else
      var lower := ToLowerCase(text);
      if AsksForProfile(lower) then ShowProfile(employees[bound.value])
      else if AsksForImage(lower) then ShowImage(employees[bound.value])
      else if IsCandidateCode(text) then Rebind
      else RecordNote(bound.value)
  }

  /** `set({lastEmpId, updatedAt}, {merge: true})` on the sender's `userMap` document:
      the two fields are overwritten, the document is created if absent, other fields stay. */
  function Upsert(userMap: map<UserId, Binding>, userId: UserId, code: EmpId, now: Stamp): map<UserId, Binding> {
    var others := if userId in userMap then userMap[userId].otherFields else map[];
    userMap[userId := Binding(Some(code), Some(now), others)]
  }

  /** The write a branch performs: an upsert, an appended note, or nothing. */
  function Apply(st: Stores, intent: Intent, userId: UserId, text: string, now: Stamp): Stores {
    match intent
    case Bind => Stores(Upsert(st.userMap, userId, text, now), st.messages)
    case Rebind => Stores(Upsert(st.userMap, userId, text, now), st.messages)
    case RecordNote(empId) => Stores(st.userMap, st.messages + [Note(now, userId, empId, text, NoteSource)])
    case _ => st
  }

  /** The reply a branch sends. */
  function ReplyFor(intent: Intent, text: string): Reply {
    match intent
    case Bind => Text(BindSuccessText(text))
    case Rebind => Text(BindSuccessText(text))
    case AskForCode => Text(PromptText)
    case NoProfile => Text(NotFoundText)
    case ShowProfile(p) => Text(ProfileText(p))
    case ShowImage(p) => Image(ImageUrl(p), ImageUrl(p))
    case RecordNote(_) => Text(AckText)
  }

  /** A text message whose text has been trimmed: classified, written and answered
      with one reply to its reply token. */
  function Dispatch(st: Stores, employees: map<EmpId, Profile>, token: string, userId: UserId, text: string, now: Stamp): Outcome {
    var intent := Classify(BoundEmpId(st.userMap, userId), employees, text);
    Outcome(Apply(st, intent, userId, text, now), Some(Outbound(token, ReplyFor(intent, text))))
  }

  /** One event: a text message is trimmed and dispatched; any other event is ignored. */
  function Step(st: Stores, employees: map<EmpId, Profile>, e: Event, now: Stamp): Outcome {
    match e
    case OtherEvent => Outcome(st, None)
    case TextMessage(token, userId, raw) => Dispatch(st, employees, token, userId, Trim(raw), now)
  }

  /** The events of a batch handled one after another, the i-th write stamped `stamps[i]`. */
  function Run(st: Stores, employees: map<EmpId, Profile>, events: seq<Event>, stamps: seq<Stamp>): Trace
    requires |stamps| == |events|
    decreases |events|
  {
    if events == [] then Trace(st, [])
    else
      var before := Run(st, employees, events[..|events| - 1], stamps[..|stamps| - 1]);
      var o := Step(before.stores, employees, events[|events| - 1], stamps[|stamps| - 1]);
      Trace(o.stores, before.sent + (if o.sent.Some? then [o.sent.value] else []))
  }

  /** The reply tokens of the text messages of a batch, in order. */
  function TextTokens(events: seq<Event>): seq<string>
    decreases |events|
  {
    if events == [] then []
    else
      var last := events[|events| - 1];
      TextTokens(events[..|events| - 1]) + (if last.TextMessage? then [last.replyToken] else [])
  }

  /** Running one more event of a batch is one more `Step` after the run so far. */
  lemma {:induction false} RunOneMore(st: Stores, employees: map<EmpId, Profile>, events: seq<Event>, stamps: seq<Stamp>, i: nat)
    requires |stamps| == |events| && i < |events|
    ensures var before := Run(st, employees, events[..i], stamps[..i]);
      var o := Step(before.stores, employees, events[i], stamps[i]);
      Run(st, employees, events[..i + 1], stamps[..i + 1])
      == Trace(o.stores, before.sent + (if o.sent.Some? then [o.sent.value] else []))
  {
    assert events[..i + 1][..i] == events[..i] && stamps[..i + 1][..i] == stamps[..i];
  }

  /** The reply tokens the replies were addressed to, in order. */
  function ReplyTokens(sent: seq<Outbound>): seq<string> {
    seq(|sent|, k requires 0 <= k < |sent| => sent[k].replyToken)
  }

  /** `m1` and `m2` hold the same thing under `key`. */
  predicate AgreeAt(m1: map<UserId, Binding>, m2: map<UserId, Binding>, key: UserId) {
    (key in m1 <==> key in m2) && (key in m1 ==> m1[key] == m2[key])
  }

  /** The `parts` occur in `s` one after another, without overlapping. */
  ghost predicate InOrder(s: string, parts: seq<string>)
    decreases |parts|
  {
    parts == [] || exists i :: OccursAt(s, parts[0], i) && InOrder(s[i + |parts[0]|..], parts[1..])
  }

  // ---------------------------------------------------------------------------
  // The candidate-code test

  /** On trimmed text, a candidate code is text of JavaScript length 4 to 8 that
      starts, after an optional sign, with a decimal digit, or with "0x"/"0X"
      and a hex digit; it is never empty. */
  lemma {:induction false} CandidateCodeIff(text: string)
    requires Trim(text) == text
    ensures IsCandidateCode(text) <==> 4 <= Utf16Length(text) <= 8 && StartsWithInteger(text)
    ensures IsCandidateCode(text) ==> text != ""
  {
    TrimIdempotent(text);
    ParseIntNaN(text);
  }

  /** For text that starts with something other than white space and has no code point above
      U+FFFF, the JavaScript length is the number of code points. */
  lemma {:induction false} CandidateCodeOfPlainText(text: string)
    requires text == [] || !IsWhiteSpace(text[0])
    requires forall i | 0 <= i < |text| :: text[i] as int < 0x1_0000
    ensures IsCandidateCode(text) <==> 4 <= |text| <= 8 && StartsWithInteger(text)
  {
    assert Utf16Length(text) == |text|;
    assert TrimStart(text) == text;
    ParseIntNaN(text);
    assert ParseInt(text).Some? <==> StartsWithInteger(text);
  }

  /** Digits followed by letters are a code: parseInt reads the digits and ignores the rest. */
  lemma {:induction false} CodeMayEndInLetters()
    ensures IsCandidateCode("12ab")
  {
    CandidateCodeOfPlainText("12ab");
  }

  /** A signed number is a code; the sign counts towards the length. */
  lemma {:induction false} CodeMayCarrySign()
    ensures IsCandidateCode("-123")
  {
    CandidateCodeOfPlainText("-123");
  }

  /** A hex number is a code. */
  lemma {:induction false} HexCodeAccepted()
    ensures IsCandidateCode("0x1f")
  {
    CandidateCodeOfPlainText("0x1f");
  }

  /** A hex prefix without a hex digit after it is no code. */
  lemma {:induction false} HexPrefixAloneRejected()
    ensures !IsCandidateCode("0xg1")
  {
    CandidateCodeOfPlainText("0xg1");
  }

  /** Three digits are too short. */
  lemma {:induction false} ThreeDigitsTooShort()
    ensures !IsCandidateCode("123")
  {
    CandidateCodeOfPlainText("123");
  }

  /** A slash after the leading digits does not stop a code: parseInt reads only the "1". */
  lemma {:induction false} CodeMayHoldSlash()
    ensures IsCandidateCode("1/23")
  {
    CandidateCodeOfPlainText("1/23");
  }

  /** A code point above U+FFFF counts twice towards the length: two digits and one emoji
      are a code of length 4. */
  lemma {:induction false} AstralCharCountsTwice()
    ensures IsCandidateCode("12\U{1F600}")
  {
    Utf16LengthAppend("12", "\U{1F600}");
    Utf16LengthOfChar('\U{1F600}');
    assert Utf16Length("12\U{1F600}") == 4;
    ParseIntReadsLeadingDigits("", "12", "\U{1F600}");
    assert "" + ("12" + "\U{1F600}") == "12\U{1F600}";
  }

  /** One digit and one emoji have length 3, too short for a code. */
  lemma {:induction false} AstralCharStillTooShort()
    ensures !IsCandidateCode("1\U{1F600}")
  {
    Utf16LengthAppend("1", "\U{1F600}");
    Utf16LengthOfChar('\U{1F600}');
    assert Utf16Length("1\U{1F600}") == 3;
  }

  /** Nine digits are too long. */
  lemma {:induction false} NineDigitsTooLong()
    ensures !IsCandidateCode("123456789")
  {
    CandidateCodeOfPlainText("123456789");
  }

  // ---------------------------------------------------------------------------
  // Keywords

  /** The keywords contain no letter that lower-casing changes, so looking them up
      in the lower-cased text gives the same answer as in the text itself. */
  lemma {:induction false} KeywordsIgnoreCase(text: string)
    ensures AsksForProfile(ToLowerCase(text)) == AsksForProfile(text)
    ensures AsksForImage(ToLowerCase(text)) == AsksForImage(text)
  {
    LowerCaseKeepsCaselessMatch(text, InfoKeyword);
    LowerCaseKeepsCaselessMatch(text, ProfileKeyword);
    LowerCaseKeepsCaselessMatch(text, PictureKeyword);
    LowerCaseKeepsCaselessMatch(text, ViewPictureKeyword);
  }

  // ---------------------------------------------------------------------------
  // Replies

  /** The profile summary names the name, code, department, status and safety record, in that order. */
  lemma {:induction false} ProfileTextListsFields(p: Profile)
    ensures InOrder(ProfileText(p),
      [Render(p.name), Render(p.empId), Render(p.department), Render(p.status), Render(p.safetyPatrolRecord)])
  {
    var name, code, dept, status, safety :=
      Render(p.name), Render(p.empId), Render(p.department), Render(p.status), Render(p.safetyPatrolRecord);
    var afterStatus := "\n\nSafety Record: " + safety;
    var afterDept := "\nStatus: " + (status + afterStatus);
    var afterCode := "\nฝ่าย: " + (dept + afterDept);
    var afterName := "\nรหัส: " + (code + afterCode);
    assert ProfileText(p) == "[Employee Profile]\nชื่อ: " + (name + afterName);
    assert InOrder("", []);
    InOrderAfter("\n\nSafety Record: ", safety, "", []);
    assert "\n\nSafety Record: " + (safety + "") == afterStatus;
    assert [safety] + [] == [safety];
    InOrderAfter("\nStatus: ", status, afterStatus, [safety]);
    assert [status] + [safety] == [status, safety];
    InOrderAfter("\nฝ่าย: ", dept, afterDept, [status, safety]);
    assert [dept] + [status, safety] == [dept, status, safety];
    InOrderAfter("\nรหัส: ", code, afterCode, [dept, status, safety]);
    assert [code] + [dept, status, safety] == [code, dept, status, safety];
    InOrderAfter("[Employee Profile]\nชื่อ: ", name, afterName, [code, dept, status, safety]);
    assert [name] + [code, dept, status, safety] == [name, code, dept, status, safety];
  }

  lemma {:induction false} InOrderAfter(gap: string, part: string, rest: string, parts: seq<string>)
    requires InOrder(rest, parts)
    ensures InOrder(gap + (part + rest), [part] + parts)
  {
    var s := gap + (part + rest);
    assert s[|gap|..|gap| + |part|] == part;
    assert OccursAt(s, part, |gap|);
    assert s[|gap| + |part|..] == rest;
    assert ([part] + parts)[0] == part && ([part] + parts)[1..] == parts;
  }

  /** The bind-success reply echoes the code. */
  lemma {:induction false} BindSuccessEchoesCode(code: string)
    ensures Includes(BindSuccessText(code), code)
  {
    var s := BindSuccessText(code);
    assert s[|BindSuccessPrefix|..|BindSuccessPrefix| + |code|] == code;
    assert OccursAt(s, code, |BindSuccessPrefix|);
    IncludesIffOccurs(s, code);
  }

  // ---------------------------------------------------------------------------
  // One event

  /** Every text message gets exactly one reply, addressed to its reply token; any
      other event gets none and changes nothing. */
  lemma {:induction false} StepRepliesToTextMessagesOnly(st: Stores, employees: map<EmpId, Profile>, e: Event, now: Stamp)
    ensures Step(st, employees, e, now).sent.Some? <==> e.TextMessage?
    ensures e.TextMessage? ==> Step(st, employees, e, now).sent.value.replyToken == e.replyToken
    ensures e.OtherEvent? ==> Step(st, employees, e, now).stores == st
  {
  }

  /** A branch writes at most once, and only the sender's `userMap` key. */
  lemma {:induction false} ApplyWritesAtMostOnce(st: Stores, intent: Intent, userId: UserId, text: string, now: Stamp)
    ensures var after := Apply(st, intent, userId, text, now);
      && (after.userMap == st.userMap || after.messages == st.messages)
      && st.messages <= after.messages && |after.messages| <= |st.messages| + 1
      && forall key :: key != userId ==> AgreeAt(st.userMap, after.userMap, key)
  {
  }

  /** An event writes at most once: it either leaves `messages` alone or `userMap` alone,
      appends at most one note, and changes no `userMap` key but the sender's. */
  lemma {:induction false} StepWritesAtMostOnce(st: Stores, employees: map<EmpId, Profile>, e: Event, now: Stamp)
    ensures var after := Step(st, employees, e, now).stores;
      && (after.userMap == st.userMap || after.messages == st.messages)
      && st.messages <= after.messages && |after.messages| <= |st.messages| + 1
      && forall key :: (e.OtherEvent? || key != e.userId) ==> AgreeAt(st.userMap, after.userMap, key)
  {
    match e
    case OtherEvent =>
    case TextMessage(token, userId, raw) =>
      var text := Trim(raw);
      ApplyWritesAtMostOnce(st, Classify(BoundEmpId(st.userMap, userId), employees, text), userId, text, now);
  }

  /** The merge upsert binds the sender to the code and touches no other key. */
  lemma {:induction false} UpsertBinds(userMap: map<UserId, Binding>, userId: UserId, code: EmpId, now: Stamp)
    requires code != ""
    ensures var after := Upsert(userMap, userId, code, now);
      && userId in after
      && after[userId].lastEmpId == Some(code)
      && after[userId].updatedAt == Some(now)
      && after[userId].otherFields == (if userId in userMap then userMap[userId].otherFields else map[])
      && BoundEmpId(after, userId) == Some(code)
      && (forall key :: key != userId ==> AgreeAt(userMap, after, key))
  {
  }

  /** Unbound sender, candidate code: the sender's document gets `lastEmpId` = the text and
      `updatedAt` = now, its other fields stay, the sender is now bound to the text, no other
      key changes, `messages` is unchanged and the reply is the bind-success text echoing the code. */
  lemma {:induction false} DispatchBindsUnboundSender(st: Stores, employees: map<EmpId, Profile>,
                                                      token: string, userId: UserId, text: string, now: Stamp)
    requires BoundEmpId(st.userMap, userId).None?
    requires IsCandidateCode(text)
    ensures var o := Dispatch(st, employees, token, userId, text, now);
      && o.sent == Some(Outbound(token, Text(BindSuccessText(text))))
      && Includes(BindSuccessText(text), text)
      && o.stores.messages == st.messages
      && userId in o.stores.userMap
      && o.stores.userMap[userId].lastEmpId == Some(text)
      && o.stores.userMap[userId].updatedAt == Some(now)
      && o.stores.userMap[userId].otherFields == (if userId in st.userMap then st.userMap[userId].otherFields else map[])
      && BoundEmpId(o.stores.userMap, userId) == Some(text)
      && (forall key :: key != userId ==> AgreeAt(st.userMap, o.stores.userMap, key))
  {
    BindSuccessEchoesCode(text);
    assert Classify(BoundEmpId(st.userMap, userId), employees, text) == Bind;
    UpsertBinds(st.userMap, userId, text, now);
  }

  /** Unbound sender, anything but a candidate code: the fixed prompt, and no write. */
  lemma {:induction false} DispatchPromptsUnboundSender(st: Stores, employees: map<EmpId, Profile>,
                                                        token: string, userId: UserId, text: string, now: Stamp)
    requires BoundEmpId(st.userMap, userId).None?
    requires !IsCandidateCode(text)
    ensures Dispatch(st, employees, token, userId, text, now) == Outcome(st, Some(Outbound(token, Text(PromptText))))
  {
    assert Classify(BoundEmpId(st.userMap, userId), employees, text) == AskForCode;
  }

  /** Bound sender whose employee record is missing: the fixed "not found" text and no write,
      whatever the message says. */
  lemma {:induction false} DispatchReportsMissingProfile(st: Stores, employees: map<EmpId, Profile>,
                                                         token: string, userId: UserId, text: string, now: Stamp)
    requires BoundEmpId(st.userMap, userId).Some?
    requires BoundEmpId(st.userMap, userId).value !in employees
    ensures Dispatch(st, employees, token, userId, text, now) == Outcome(st, Some(Outbound(token, Text(NotFoundText))))
  {
    assert Classify(BoundEmpId(st.userMap, userId), employees, text) == NoProfile;
  }

  /** For a sender with an employee record, the branch is decided on the text as sent:
      profile keyword, then image keyword, then candidate code, then note. */
  lemma {:induction false} ClassifyBoundSender(bound: Option<EmpId>, employees: map<EmpId, Profile>, text: string)
    requires bound.Some? && bound.value in employees
    ensures var p := employees[bound.value];
      Classify(bound, employees, text)
      == if AsksForProfile(text) then ShowProfile(p)
         else if AsksForImage(text) then ShowImage(p)
         else if IsCandidateCode(text) then Rebind
         else RecordNote(bound.value)
  {
    KeywordsIgnoreCase(text);
  }

  /** A profile keyword wins over everything else (an image keyword, a candidate code):
      the reply is the profile summary and nothing is written. */
  lemma {:induction false} DispatchShowsProfileFirst(st: Stores, employees: map<EmpId, Profile>,
                                                     token: string, userId: UserId, text: string, now: Stamp)
    requires BoundEmpId(st.userMap, userId).Some?
    requires BoundEmpId(st.userMap, userId).value in employees
    requires AsksForProfile(text)
    ensures Dispatch(st, employees, token, userId, text, now)
         == Outcome(st, Some(Outbound(token, Text(ProfileText(employees[BoundEmpId(st.userMap, userId).value])))))
  {
    ClassifyBoundSender(BoundEmpId(st.userMap, userId), employees, text);
  }

  /** An image keyword without a profile keyword: an image reply whose two URLs are equal,
      the photo URL when it is non-empty and the placeholder otherwise; nothing is written. */
  lemma {:induction false} DispatchShowsImage(st: Stores, employees: map<EmpId, Profile>,
                                              token: string, userId: UserId, text: string, now: Stamp)
    requires BoundEmpId(st.userMap, userId).Some?
    requires BoundEmpId(st.userMap, userId).value in employees
    requires !AsksForProfile(text) && AsksForImage(text)
    ensures var p := employees[BoundEmpId(st.userMap, userId).value];
      var o := Dispatch(st, employees, token, userId, text, now);
      && o.stores == st
      && o.sent.Some? && o.sent.value.replyToken == token
      && o.sent.value.message.Image?
      && o.sent.value.message.originalContentUrl == o.sent.value.message.previewImageUrl
      && o.sent.value.message.originalContentUrl
         == (if p.photoUrl.Some? && p.photoUrl.value != "" then p.photoUrl.value else ImagePlaceholder)
  {
    ClassifyBoundSender(BoundEmpId(st.userMap, userId), employees, text);
  }

  /** Bound sender, no keyword, candidate code: `lastEmpId` and `updatedAt` are overwritten,
      the rest of the binding is kept, and `messages` is unchanged. */
  lemma {:induction false} DispatchRebinds(st: Stores, employees: map<EmpId, Profile>,
                                           token: string, userId: UserId, text: string, now: Stamp)
    requires BoundEmpId(st.userMap, userId).Some?
    requires BoundEmpId(st.userMap, userId).value in employees
    requires !AsksForProfile(text) && !AsksForImage(text)
    requires IsCandidateCode(text)
    ensures userId in st.userMap
    ensures Dispatch(st, employees, token, userId, text, now)
         == Outcome(Stores(st.userMap[userId := st.userMap[userId].(lastEmpId := Some(text), updatedAt := Some(now))], st.messages),
                    Some(Outbound(token, Text(BindSuccessText(text)))))
  {
    ClassifyBoundSender(BoundEmpId(st.userMap, userId), employees, text);
  }

  /** Bound sender, nothing matched: exactly one note with the sender, the linked id as it was
      before, the trimmed text and the source tag is appended; `userMap` is unchanged and the
      reply is the fixed acknowledgement. */
  lemma {:induction false} DispatchRecordsNote(st: Stores, employees: map<EmpId, Profile>,
                                               token: string, userId: UserId, text: string, now: Stamp)
    requires BoundEmpId(st.userMap, userId).Some?
    requires BoundEmpId(st.userMap, userId).value in employees
    requires !AsksForProfile(text) && !AsksForImage(text)
    requires !IsCandidateCode(text)
    ensures Dispatch(st, employees, token, userId, text, now)
         == Outcome(Stores(st.userMap, st.messages + [Note(now, userId, BoundEmpId(st.userMap, userId).value, text, "LINE_VERCEL")]),
                    Some(Outbound(token, Text(AckText))))
  {
    ClassifyBoundSender(BoundEmpId(st.userMap, userId), employees, text);
  }

  /** Upserting the same code again changes nothing but the write time. */
  lemma {:induction false} UpsertIdempotent(userMap: map<UserId, Binding>, userId: UserId, code: EmpId, t1: Stamp, t2: Stamp)
    ensures Upsert(Upsert(userMap, userId, code, t1), userId, code, t2) == Upsert(userMap, userId, code, t2)
  {
  }

  /** A sender bound to `code` who sends `code` again: "not found" when the code has no
      employee record, the profile or the image when the code holds a keyword, a rebind when
      it is a candidate code and a note otherwise; only the rebind repeats the bind-success text. */
  lemma {:induction false} ResendClassifies(employees: map<EmpId, Profile>, code: EmpId)
    ensures var i := Classify(Some(code), employees, code);
      && (i.NoProfile? <==> code !in employees)
      && (i.Rebind? <==> code in employees && !AsksForProfile(code) && !AsksForImage(code) && IsCandidateCode(code))
      && (i.Rebind? || i.RecordNote? <==> code in employees && !AsksForProfile(code) && !AsksForImage(code))
      && (ReplyFor(i, code) == Text(BindSuccessText(code)) <==> i.Rebind?)
  {
    var i := Classify(Some(code), employees, code);
    if code in employees {
      ClassifyBoundSender(Some(code), employees, code);
    }
    assert !i.Bind?;
    OnlyBindingRepliesBindSuccess(i, code);
  }

  /** The bind-success text is sent by a bind or a rebind and by no other branch. */
  lemma {:induction false} OnlyBindingRepliesBindSuccess(intent: Intent, text: string)
    ensures ReplyFor(intent, text) == Text(BindSuccessText(text)) <==> intent.Bind? || intent.Rebind?
  {
    match intent
    case ShowProfile(p) => BindSuccessStandsOut(p, text);
    case _ => BindSuccessStandsOut(Profile(None, None, None, None, None, None), text);
  }

  /** The bind-success text is neither a profile summary, nor the "not found" text, nor the
      acknowledgement of a note, nor the prompt. */
  lemma {:induction false} BindSuccessStandsOut(p: Profile, code: string)
    ensures ProfileText(p) != BindSuccessText(code)
    ensures NotFoundText != BindSuccessText(code)
    ensures AckText != BindSuccessText(code)
    ensures PromptText != BindSuccessText(code)
  {
    assert BindSuccessText(code)[0] == BindSuccessPrefix[0] == '\U{0E1C}';
    assert ProfileText(p)[0] == '[';
    assert NotFoundText[0] == '\U{0E44}';
    assert AckText[0] == '\U{0E44}';
    assert PromptText[0] == '\U{0E1A}';
  }

  /** A message that binds or rebinds the sender upserts the text and sends the bind-success
      text; the sender is then bound to a code that would not be taken for a note. */
  lemma {:induction false} BindingDispatch(st: Stores, employees: map<EmpId, Profile>,
                                           token: string, userId: UserId, text: string, now: Stamp)
    requires var i := Classify(BoundEmpId(st.userMap, userId), employees, text); i.Bind? || i.Rebind?
    ensures && Dispatch(st, employees, token, userId, text, now)
         == Outcome(Stores(Upsert(st.userMap, userId, text, now), st.messages), Some(Outbound(token, Text(BindSuccessText(text)))))
      && BoundEmpId(Upsert(st.userMap, userId, text, now), userId) == Some(text)
      && !Classify(Some(text), employees, text).RecordNote?
  {
    assert IsCandidateCode(text);
    UpsertBinds(st.userMap, userId, text, now);
  }

  /** A bound sender resending the code they are bound to, when that code is not taken for
      a note: the binding stays, `messages` is unchanged, `userMap` is unchanged or renewed,
      and the reply is the bind-success text exactly when the code is a rebind. */
  lemma {:induction false} ResendDispatch(st: Stores, employees: map<EmpId, Profile>,
                                          token: string, userId: UserId, code: EmpId, now: Stamp)
    requires BoundEmpId(st.userMap, userId) == Some(code)
    requires !Classify(Some(code), employees, code).RecordNote?
    ensures var o := Dispatch(st, employees, token, userId, code, now);
      && BoundEmpId(o.stores.userMap, userId) == Some(code)
      && o.stores.messages == st.messages
      && (o.stores.userMap == st.userMap || o.stores.userMap == Upsert(st.userMap, userId, code, now))
      && (o.sent == Some(Outbound(token, Text(BindSuccessText(code))))
          <==> code in employees && !AsksForProfile(code) && !AsksForImage(code))
  {
    ResendClassifies(employees, code);
    var i := Classify(Some(code), employees, code);
    if i.Rebind? {
      assert Apply(st, i, userId, code, now) == Stores(Upsert(st.userMap, userId, code, now), st.messages);
      UpsertBinds(st.userMap, userId, code, now);
    } else {
      assert i.NoProfile? || i.ShowProfile? || i.ShowImage?;
      assert Apply(st, i, userId, code, now) == st;
    }
  }

  /** The same code sent twice, when the first message bound or rebound the sender: the sender
      stays bound to the code, no note is written, the second write (if any) only renews
      `updatedAt`, and the second reply is the bind-success text exactly when the code has an
      employee record and the text holds no keyword (otherwise "not found", profile or image). */
  lemma {:induction false} SameCodeTwice(st: Stores, employees: map<EmpId, Profile>,
                                         token1: string, token2: string, userId: UserId, code: string, t1: Stamp, t2: Stamp)
    requires var i := Classify(BoundEmpId(st.userMap, userId), employees, code); i.Bind? || i.Rebind?
    ensures var o1 := Dispatch(st, employees, token1, userId, code, t1);
      var o2 := Dispatch(o1.stores, employees, token2, userId, code, t2);
      && BoundEmpId(o1.stores.userMap, userId) == Some(code)
      && BoundEmpId(o2.stores.userMap, userId) == Some(code)
      && o2.stores.messages == st.messages
      && (o2.stores.userMap == o1.stores.userMap || o2.stores.userMap == Upsert(o1.stores.userMap, userId, code, t2))
      && (o2.sent == Some(Outbound(token2, Text(BindSuccessText(code))))
          <==> code in employees && !AsksForProfile(code) && !AsksForImage(code))
  {
    BindingDispatch(st, employees, token1, userId, code, t1);
    ResendDispatch(Stores(Upsert(st.userMap, userId, code, t1), st.messages), employees, token2, userId, code, t2);
  }

  // ---------------------------------------------------------------------------
  // A batch

  /** Handling a batch in order sends one reply per text message, addressed to the text
      messages' reply tokens in the order of the events. */
  lemma {:induction false} RunRepliesOncePerTextMessage(st: Stores, employees: map<EmpId, Profile>, events: seq<Event>, stamps: seq<Stamp>)
    requires |stamps| == |events|
    ensures ReplyTokens(Run(st, employees, events, stamps).sent) == TextTokens(events)
    ensures |Run(st, employees, events, stamps).sent| == |TextTokens(events)|
    decreases |events|
  {
    if events != [] {
      var n := |events| - 1;
      var before := Run(st, employees, events[..n], stamps[..n]);
      var o := Step(before.stores, employees, events[n], stamps[n]);
      var added := if o.sent.Some? then [o.sent.value] else [];
      assert Run(st, employees, events, stamps).sent == before.sent + added;
      assert TextTokens(events) == TextTokens(events[..n]) + (if events[n].TextMessage? then [events[n].replyToken] else []);
      RunRepliesOncePerTextMessage(st, employees, events[..n], stamps[..n]);
      StepRepliesToTextMessagesOnly(before.stores, employees, events[n], stamps[n]);
      OneReplyToken(events[n], o.sent);
      ReplyTokensAppend(before.sent, added);
    }
  }

  /** The reply tokens one event adds to a batch's replies: its own, if it is a text message
      (given a reply that is sent exactly for text messages, to their reply token). */
  lemma {:induction false} OneReplyToken(e: Event, sent: Option<Outbound>)
    requires sent.Some? <==> e.TextMessage?
    requires sent.Some? ==> sent.value.replyToken == e.replyToken
    ensures ReplyTokens(if sent.Some? then [sent.value] else []) == (if e.TextMessage? then [e.replyToken] else [])
  {
    if sent.Some? {
      var tokens := ReplyTokens([sent.value]);
      assert |tokens| == 1 && tokens[0] == e.replyToken;
    }
  }

  lemma {:induction false} ReplyTokensAppend(a: seq<Outbound>, b: seq<Outbound>)
    ensures ReplyTokens(a + b) == ReplyTokens(a) + ReplyTokens(b)
  {
    var l, r := ReplyTokens(a + b), ReplyTokens(a) + ReplyTokens(b);
    assert |l| == |r|;
    forall k | 0 <= k < |l| ensures l[k] == r[k] {
      if k < |a| {
        assert (a + b)[k] == a[k];
      } else {
        assert (a + b)[k] == b[k - |a|];
      }
    }
  }
}
