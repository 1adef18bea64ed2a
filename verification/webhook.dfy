/**
 * The webhook's per-event callback as the handler runs it: a store holding the
 * `userMap` and `messages` collections, updated in place, and the read-only
 * `employees` collection. Each method is proved to do what the functions in
 * module Routing specify.
 */
module Webhook {
  import opened Wrappers
  import opened EcmaString
  import opened Routing

  class Store {
    /** The `userMap` collection: one binding document per LINE user. */
    var userMap: map<UserId, Binding>
    /** The `messages` collection, in the order the notes were added. */
    var messages: seq<Note>
    /** The `employees` collection, which the webhook only reads. */
    const employees: map<EmpId, Profile>

    constructor (userMap: map<UserId, Binding>, messages: seq<Note>, employees: map<EmpId, Profile>)
      ensures this.userMap == userMap && this.messages == messages && this.employees == employees
    {
      this.userMap := userMap;
      this.messages := messages;
      this.employees := employees;
    }

    /** The two writable collections as a value. */
    function Snapshot(): Stores
      reads this
    {
      Stores(userMap, messages)
    }

    /** `set({lastEmpId: code, updatedAt: now}, {merge: true})` on the sender's document. */
    method MergeBinding(userId: UserId, code: EmpId, now: Stamp)
      modifies this
      ensures userMap == Upsert(old(userMap), userId, code, now)
      ensures messages == old(messages)
    {
      var others := map[];
      if userId in userMap {
        others := userMap[userId].otherFields;
      }
      userMap := userMap[userId := Binding(Some(code), Some(now), others)];
    }

    /** `add(note)` on the `messages` collection. */
    method AddNote(note: Note)
      modifies this
      ensures messages == old(messages) + [note]
      ensures userMap == old(userMap)
    {
      messages := messages + [note];
    }

    /** One webhook event. A text message is trimmed, routed by the sender's binding, the
        employee record, keywords and the candidate-code test, written at most once, and
        answered with exactly one reply to its reply token; any other event is ignored. */
    method HandleEvent(e: Event, now: Stamp) returns (sent: Option<Outbound>)
      modifies this
      ensures Outcome(Snapshot(), sent) == Step(old(Snapshot()), employees, e, now)
      ensures sent.Some? <==> e.TextMessage?
      ensures e.TextMessage? ==> sent.value.replyToken == e.replyToken
      ensures old(messages) <= messages && |messages| <= |old(messages)| + 1
      ensures userMap == old(userMap) || messages == old(messages)
      ensures forall key :: (e.OtherEvent? || key != e.userId) ==> AgreeAt(old(userMap), userMap, key)
    {
      ghost var before := Snapshot();
      StepWritesAtMostOnce(before, employees, e, now);
      StepRepliesToTextMessagesOnly(before, employees, e, now);
      if e.OtherEvent? {
        return None;
      }
      var messageText := Trim(e.text);
      var replyMessage := Route(e.replyToken, e.userId, messageText, now);
      sent := Some(Outbound(e.replyToken, replyMessage));
    }

    /** The branches of the callback for trimmed text `messageText` from `userId`: each
        branch performs its write and chooses the reply to send to `replyToken`. */
    method Route(replyToken: string, userId: UserId, messageText: string, now: Stamp) returns (replyMessage: Reply)
      modifies this
      ensures Outcome(Snapshot(), Some(Outbound(replyToken, replyMessage)))
           == Dispatch(old(Snapshot()), employees, replyToken, userId, messageText, now)
    {
      ghost var before := Snapshot();
      var empId := BoundEmpId(userMap, userId);
      ghost var intent := Classify(empId, employees, messageText);
      if empId.Some? {
        if empId.value in employees {
          var employeeData := employees[empId.value];
          var lowerCaseMsg := ToLowerCase(messageText);
          if AsksForProfile(lowerCaseMsg) {
            assert intent == ShowProfile(employeeData);
            replyMessage := Text(ProfileText(employeeData));
          } else if AsksForImage(lowerCaseMsg) {
            assert intent == ShowImage(employeeData);
            var imageUrl := ImageUrl(employeeData);
            replyMessage := Image(imageUrl, imageUrl);
          } else if IsCandidateCode(messageText) {
            assert intent == Rebind;
            MergeBinding(userId, messageText, now);
            replyMessage := Text(BindSuccessText(messageText));
          } else {
            assert intent == RecordNote(empId.value);
            AddNote(Note(now, userId, empId.value, messageText, NoteSource));
            replyMessage := Text(AckText);
          }
        } else {
          assert intent == NoProfile;
          replyMessage := Text(NotFoundText);
        }
      } else {
        if IsCandidateCode(messageText) {
          assert intent == Bind;
          MergeBinding(userId, messageText, now);
          replyMessage := Text(BindSuccessText(messageText));
        } else {
          assert intent == AskForCode;
          replyMessage := Text(PromptText);
        }
      }
      assert Snapshot() == Apply(before, intent, userId, messageText, now);
      assert replyMessage == ReplyFor(intent, messageText);
    }

    /** A batch of events, handled one after another; the i-th event's writes are stamped
        `stamps[i]`. One reply is sent per text message, in the order of the events. */
    method HandleBatch(events: seq<Event>, stamps: seq<Stamp>) returns (sent: seq<Outbound>)
      requires |stamps| == |events|
      modifies this
      ensures Trace(Snapshot(), sent) == Run(old(Snapshot()), employees, events, stamps)
      ensures ReplyTokens(sent) == TextTokens(events)
      ensures |sent| == |TextTokens(events)|
    {
      ghost var initial := Snapshot();
      sent := [];
      var i := 0;
      while i < |events|
        invariant 0 <= i <= |events|
        invariant Trace(Snapshot(), sent) == Run(initial, employees, events[..i], stamps[..i])
      {
        RunOneMore(initial, employees, events, stamps, i);
        var reply := HandleEvent(events[i], stamps[i]);
        if reply.Some? {
          sent := sent + [reply.value];
        }
        i := i + 1;
      }
      assert events[..i] == events && stamps[..i] == stamps;
      RunRepliesOncePerTextMessage(initial, employees, events, stamps);
    }
  }
}
