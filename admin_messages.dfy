/** The admin's message inbox: the list of senders with their message counts, the conversation
    pane of the chosen teacher, and the reply box. */
module AdminMessages {
  import opened Wrappers
  import opened Records
  import opened Seqs
  import opened JsString

  /** One button of the "Teachers with Messages" list. */
  datatype SenderGroup = SenderGroup(teacherId: int, teacherName: string, messageCount: nat)

  function SenderIds(ms: seq<Message>): (r: seq<int>)
    ensures |r| == |ms| && forall i :: 0 <= i < |ms| ==> r[i] == ms[i].senderId
  {
    seq(|ms|, i requires 0 <= i < |ms| => ms[i].senderId)
  }

  /** `messages.filter(m => m.sender_id === id).length`. */
  function CountFrom(ms: seq<Message>, id: int): nat {
    |Filter(ms, (m: Message) => m.senderId == id)|
  }

  /** `teachers.find(t => t.id === id)`: the first teacher with that id. */
  function FindTeacher(teachers: seq<Teacher>, id: int): Option<Teacher> {
    FindFirst(teachers, (t: Teacher) => t.id, id)
  }

  /** `teachers.find(t => t.id === id)?.name || "Unknown Teacher"`: never empty, the name of a
      teacher with that id or the placeholder, and the placeholder when no teacher has it. */
  function TeacherName(teachers: seq<Teacher>, id: int): (r: string)
    ensures r != ""
    ensures r == "Unknown Teacher"
         || exists k :: 0 <= k < |teachers| && teachers[k].id == id && teachers[k].name == r
    ensures (forall i :: 0 <= i < |teachers| ==> teachers[i].id != id) ==> r == "Unknown Teacher"
    ensures FindTeacher(teachers, id).Some? && FindTeacher(teachers, id).value.name != ""
         ==> r == FindTeacher(teachers, id).value.name
    ensures FindTeacher(teachers, id).Some? && FindTeacher(teachers, id).value.name == ""
         ==> r == "Unknown Teacher"
  {
    match FindTeacher(teachers, id)
    case Some(t) => OrDefault(t.name, "Unknown Teacher")
    case None => "Unknown Teacher"
  }

  /** `Array.from(new Map(messages.map(msg => [msg.sender_id, {...}])).values())`: one entry
      per sender id, in order of the sender's first message. A later message of the same
      sender overwrites an entry with equal contents and keeps its place. */
  function SenderGroups(ms: seq<Message>, teachers: seq<Teacher>): seq<SenderGroup> {
    var ids := Distinct(SenderIds(ms));
    seq(|ids|, i requires 0 <= i < |ids| => SenderGroup(ids[i], TeacherName(teachers, ids[i]), CountFrom(ms, ids[i])))
  }

  function GroupIds(groups: seq<SenderGroup>): (r: seq<int>)
    ensures |r| == |groups| && forall i :: 0 <= i < |groups| ==> r[i] == groups[i].teacherId
  {
    seq(|groups|, i requires 0 <= i < |groups| => groups[i].teacherId)
  }

  /** One group per distinct sender id, in order of first message, each named after the
      teacher with that id and counting that sender's messages, at least one. */
  lemma SenderGroupsSpec(ms: seq<Message>, teachers: seq<Teacher>)
    ensures var groups := SenderGroups(ms, teachers);
      GroupIds(groups) == Distinct(SenderIds(ms))
      && NoDuplicates(GroupIds(groups))
      && (forall id :: id in GroupIds(groups) <==> id in SenderIds(ms))
      && (forall i :: 0 <= i < |groups| ==>
            groups[i].teacherName == TeacherName(teachers, groups[i].teacherId)
            && groups[i].messageCount == CountFrom(ms, groups[i].teacherId) && groups[i].messageCount >= 1)
  {
    var groups := SenderGroups(ms, teachers);
    var ids := Distinct(SenderIds(ms));
    assert GroupIds(groups) == ids;
    forall i | 0 <= i < |groups| ensures groups[i].messageCount >= 1 {
      var id := ids[i];
      assert id in SenderIds(ms);
      var k :| 0 <= k < |ms| && SenderIds(ms)[k] == id;
      CountFromPositive(ms, k);
    }
  }

  /** A sender of some message has a count of at least one. */
  lemma {:induction false} CountFromPositive(ms: seq<Message>, k: nat)
    requires k < |ms|
    ensures CountFrom(ms, ms[k].senderId) >= 1
  {
    var n := |ms| - 1;
    if k < n {
      var init := ms[..n];
      assert init[k] == ms[k];
      CountFromPositive(init, k);
      CountFromStep(ms, ms[k].senderId);
    } else {
      CountFromStep(ms, ms[k].senderId);
    }
  }

  lemma CountFromStep(ms: seq<Message>, id: int)
    requires ms != []
    ensures CountFrom(ms, id) == CountFrom(ms[..|ms| - 1], id) + (if ms[|ms| - 1].senderId == id then 1 else 0)
  {
  }

  /** The counts of the given ids added up. */
  function CountsOf(ids: seq<int>, ms: seq<Message>): nat {
    if ids == [] then 0 else CountsOf(ids[..|ids| - 1], ms) + CountFrom(ms, ids[|ids| - 1])
  }

  lemma {:induction false} CountsOfStep(ids: seq<int>, ms: seq<Message>)
    requires ms != [] && NoDuplicates(ids)
    ensures CountsOf(ids, ms)
         == CountsOf(ids, ms[..|ms| - 1]) + (if ms[|ms| - 1].senderId in ids then 1 else 0)
  {
    if ids != [] {
      var init := ids[..|ids| - 1];
      assert NoDuplicates(init);
      CountsOfStep(init, ms);
      CountFromStep(ms, ids[|ids| - 1]);
      assert ids == init + [ids[|ids| - 1]];
    }
  }

  /** An id that sent nothing has a count of zero. */
  lemma {:induction false} CountFromAbsent(ms: seq<Message>, id: int)
    requires id !in SenderIds(ms)
    ensures CountFrom(ms, id) == 0
  {
    if ms != [] {
      var init := ms[..|ms| - 1];
      assert SenderIds(init) == SenderIds(ms)[..|ms| - 1];
      CountFromAbsent(init, id);
      CountFromStep(ms, id);
    }
  }

  /** The counts over the distinct senders add up to the number of messages. */
  lemma {:induction false} CountsAddUp(ms: seq<Message>)
    ensures CountsOf(Distinct(SenderIds(ms)), ms) == |ms|
  {
    if ms != [] {
      var init := ms[..|ms| - 1];
      var id := ms[|ms| - 1].senderId;
      var d := Distinct(SenderIds(init));
      CountsAddUp(init);
      SenderIdsSnoc(ms);
      DistinctSnoc(SenderIds(init), id);
      CountsOfStep(d, ms);
      if id !in d {
        CountsOfSnoc(d, id, ms);
        CountFromAbsent(init, id);
        CountFromStep(ms, id);
      }
    }
  }

  lemma SenderIdsSnoc(ms: seq<Message>)
    requires ms != []
    ensures SenderIds(ms) == SenderIds(ms[..|ms| - 1]) + [ms[|ms| - 1].senderId]
  {
  }

  lemma CountsOfSnoc(ids: seq<int>, id: int, ms: seq<Message>)
    ensures CountsOf(ids + [id], ms) == CountsOf(ids, ms) + CountFrom(ms, id)
  {
    assert (ids + [id])[..|ids|] == ids;
  }



  /** The message counts on the sender list add up to the number of messages. */
  lemma GroupCountsSum(ms: seq<Message>, teachers: seq<Teacher>)
    ensures SumCounts(SenderGroups(ms, teachers)) == |ms|
  {
    var ids := Distinct(SenderIds(ms));
    CountsAddUp(ms);
    SumCountsOfIds(ids, ms, teachers);
  }

  function SumCounts(groups: seq<SenderGroup>): nat {
    if groups == [] then 0 else SumCounts(groups[..|groups| - 1]) + groups[|groups| - 1].messageCount
  }

  lemma {:induction false} SumCountsOfIds(ids: seq<int>, ms: seq<Message>, teachers: seq<Teacher>)
    ensures SumCounts(seq(|ids|, i requires 0 <= i < |ids| =>
              SenderGroup(ids[i], TeacherName(teachers, ids[i]), CountFrom(ms, ids[i]))))
         == CountsOf(ids, ms)
  {
    var groups := seq(|ids|, i requires 0 <= i < |ids| =>
                    SenderGroup(ids[i], TeacherName(teachers, ids[i]), CountFrom(ms, ids[i])));
    if ids != [] {
      var init := ids[..|ids| - 1];
      SumCountsOfIds(init, ms, teachers);
      assert groups[..|groups| - 1] == seq(|init|, i requires 0 <= i < |init| =>
               SenderGroup(init[i], TeacherName(teachers, init[i]), CountFrom(ms, init[i])));
    }
  }

  /** `selectedTeacher ? messages.filter(m => m.sender_id === selectedTeacher) : []`, as written:
      the messages whose sender id is the chosen teacher's id. */
  function TeacherMessages(ms: seq<Message>, selected: Option<int>): (r: seq<Message>)
    ensures !IsChosen(selected) ==> r == []
    ensures IsChosen(selected) ==>
      forall m :: multiset(r)[m] == if m.senderId == selected.value then multiset(ms)[m] else 0
  {
    if IsChosen(selected) then
      var fromSelected := (m: Message) => m.senderId == selected.value;
      FilterElements(ms, fromSelected);
      Filter(ms, fromSelected)
    else []
  }

  /** `handleReply`: nothing happens when the reply is blank or no teacher is chosen; otherwise
      the untrimmed reply is sent from the stored admin id (or "1"), read by `parseInt` with no
      radix, to the chosen teacher, and the reply box is cleared when the server accepts it. */
  function HandleReply(input: string, selected: Option<int>, storedAdminId: Option<string>, reply: Reply)
    : (r: (string, Option<MessageRequest>))
    ensures r.1.Some? <==> !IsBlank(input) && IsChosen(selected)
    ensures r.1.Some? ==>
      r.1.value.content == input && r.1.value.receiverId == selected
      && r.1.value.senderType == "admin" && r.1.value.receiverType == "teacher"
    ensures r.1.Some? ==>
      r.1.value.senderId
        == ParseIntAnyRadix(if storedAdminId.Some? && storedAdminId.value != "" then storedAdminId.value else "1")
    ensures r.0 == if r.1.Some? && reply.Accepted? then "" else input
  {
    if IsBlank(input) || !IsChosen(selected) then (input, None)
    else
      var adminId := if storedAdminId.Some? && storedAdminId.value != "" then storedAdminId.value else "1";
      var request := MessageRequest(ParseIntAnyRadix(adminId), "admin", selected, "teacher", input);
      (if reply.Accepted? then "" else input, Some(request))
  }

  /** Without a stored admin id, or with an empty one, a reply is sent as admin 1. */
  lemma {:induction false} ReplyFromDefaultAdmin(input: string, selected: Option<int>, storedAdminId: Option<string>, reply: Reply)
    requires storedAdminId.None? || storedAdminId.value == ""
    requires HandleReply(input, selected, storedAdminId, reply).1.Some?
    ensures HandleReply(input, selected, storedAdminId, reply).1.value.senderId == Some(1)
  {
    AnyRadixOne();
  }

  // ---------------------------------------------------------------------------
  // Sender ids of admins and of teachers

  /** Teachers Ana (id 1) and Ben (id 7); Ben writes to the admin, and admin 1 replies. */
  const Ana := Teacher(1, "Ana", "", "")
  const Ben := Teacher(7, "Ben", "", "")
  const FromBen := Message(1, 7, "teacher", None, "admin", "hello", "")
  const ToBen := Message(2, 1, "admin", Some(7), "teacher", "noted", "")

  /** The inbox holds the admin's replies too, and an admin id is not a teacher id. Grouping by
      sender id alone lists the admin as a sender under the name of whichever teacher has the
      same id, and the conversation pane shows the admin's reply to one teacher in another
      teacher's pane while leaving it out of the pane of the teacher it was sent to. */
  lemma GroupingMixesAdminReplies()
    ensures SenderGroups([FromBen, ToBen], [Ana, Ben]) == [SenderGroup(7, "Ben", 1), SenderGroup(1, "Ana", 1)]
    ensures TeacherMessages([FromBen, ToBen], Some(1)) == [ToBen]
    ensures TeacherMessages([FromBen, ToBen], Some(7)) == [FromBen]
  {
    ExampleGroups();
    ExamplePanes();
  }

  lemma ExamplePanes()
    ensures TeacherMessages([FromBen, ToBen], Some(1)) == [ToBen]
    ensures TeacherMessages([FromBen, ToBen], Some(7)) == [FromBen]
  {
  }

  lemma ExampleGroups()
    ensures SenderGroups([FromBen, ToBen], [Ana, Ben]) == [SenderGroup(7, "Ben", 1), SenderGroup(1, "Ana", 1)]
  {
    ExampleSenders();
    ExampleCounts();
    ExampleNames();
  }

  lemma ExampleNames()
    ensures TeacherName([Ana, Ben], 7) == "Ben" && TeacherName([Ana, Ben], 1) == "Ana"
  {
    var ts := [Ana, Ben];
    assert ts[0].id == 1 && ts[1].id == 7;
    assert FindTeacher(ts, 7) == Some(Ben);
    assert FindTeacher(ts, 1) == Some(Ana);
  }

  lemma ExampleSenders()
    ensures Distinct(SenderIds([FromBen, ToBen])) == [7, 1]
  {
    assert SenderIds([FromBen, ToBen]) == [7, 1];
    assert [7, 1][..1] == [7] && [7][..0] == [];
  }

  lemma ExampleCounts()
    ensures CountFrom([FromBen, ToBen], 7) == 1 && CountFrom([FromBen, ToBen], 1) == 1
  {
    var ms := [FromBen, ToBen];
    assert ms[..1] == [FromBen] && [FromBen][..0] == [];
    CountFromStep(ms, 7);
    CountFromStep(ms, 1);
    CountFromStep([FromBen], 7);
    CountFromStep([FromBen], 1);
  }

  predicate FromTeacher(m: Message) {
    m.senderType == "teacher"
  }

  /** In the conversation with teacher t: what t sent, and what the admin sent to t. */
  predicate InConversation(m: Message, t: int) {
    (FromTeacher(m) && m.senderId == t) || (m.senderType == "admin" && m.receiverId == Some(t))
  }

  /** The conversation pane of the chosen teacher: the teacher's messages and the admin's
      replies to that teacher, in inbox order. */
  function Conversation(ms: seq<Message>, selected: Option<int>): (r: seq<Message>)
    ensures !IsChosen(selected) ==> r == []
    ensures IsChosen(selected) ==>
      forall m :: multiset(r)[m] == if InConversation(m, selected.value) then multiset(ms)[m] else 0
  {
    if IsChosen(selected) then
      var withSelected := (m: Message) => InConversation(m, selected.value);
      FilterElements(ms, withSelected);
      Filter(ms, withSelected)
    else []
  }

  /** The sender list built from the teachers' messages only. */
  function TeacherGroups(ms: seq<Message>, teachers: seq<Teacher>): seq<SenderGroup> {
    var isTeacher := (m: Message) => FromTeacher(m);
    SenderGroups(Filter(ms, isTeacher), teachers)
  }

  /** The ids of the teachers who sent at least one message. */
  function TeacherSenders(ms: seq<Message>): set<int> {
    set m | m in ms && FromTeacher(m) :: m.senderId
  }

  /** Exactly the teachers who sent a message are listed, once each, and the counts add up to
      the number of teacher messages. */
  lemma TeacherGroupsSpec(ms: seq<Message>, teachers: seq<Teacher>)
    ensures var groups := TeacherGroups(ms, teachers);
      NoDuplicates(GroupIds(groups))
      && (forall id :: id in GroupIds(groups) <==> id in TeacherSenders(ms))
      && SumCounts(groups) == |Filter(ms, (m: Message) => FromTeacher(m))|
  {
    var isTeacher := (m: Message) => FromTeacher(m);
    var sent := Filter(ms, isTeacher);
    SenderGroupsSpec(sent, teachers);
    GroupCountsSum(sent, teachers);
    FilterElements(ms, isTeacher);
    forall id ensures id in SenderIds(sent) <==> id in TeacherSenders(ms) {
      if id in TeacherSenders(ms) {
        var m :| m in ms && FromTeacher(m) && m.senderId == id;
        assert m in multiset(sent);
        var j :| 0 <= j < |sent| && sent[j] == m;
        assert SenderIds(sent)[j] == id;
      }
      if id in SenderIds(sent) {
        var k :| 0 <= k < |sent| && SenderIds(sent)[k] == id;
        assert sent[k] in multiset(ms);
      }
    }
  }
}
