/** The verification table's list updates. Approving or adjusting a submission rewrites the
    records whose `id` matches and leaves every other record as it was. The local list changes
    only when the server accepted the request. */
module AdminVerify {
  import opened Wrappers
  import opened Records
  import opened Seqs
  import opened AdminSummary

  /** `localSubmissions.map(s => s.id === id ? { ...s, status: "Verified" } : s)`. */
  function MarkVerified(subs: seq<Submission>, id: int): (r: seq<Submission>)
    ensures |r| == |subs|
    ensures forall i :: 0 <= i < |subs| ==>
      r[i] == if subs[i].id == id then subs[i].(status := "Verified") else subs[i]
  {
    if subs == [] then []
    else
      var s := subs[0];
      [if s.id == id then s.(status := "Verified") else s] + MarkVerified(subs[1..], id)
  }

  /** `handleApprove`: the list after the approve request got its reply. */
  function Approve(subs: seq<Submission>, id: int, reply: Reply): (r: seq<Submission>)
    ensures reply.Accepted? ==> r == MarkVerified(subs, id)
    ensures !reply.Accepted? ==> r == subs
  {
    if reply.Accepted? then MarkVerified(subs, id) else subs
  }

  /** Approving twice is approving once. */
  lemma ApproveIdempotent(subs: seq<Submission>, id: int)
    ensures MarkVerified(MarkVerified(subs, id), id) == MarkVerified(subs, id)
  {
  }

  predicate UniqueIds(subs: seq<Submission>) {
    forall i, j :: 0 <= i < j < |subs| ==> subs[i].id != subs[j].id
  }

  /** With unique ids, approving rewrites exactly the one record with that id. */
  lemma ApproveOne(subs: seq<Submission>, k: nat)
    requires UniqueIds(subs) && k < |subs|
    ensures MarkVerified(subs, subs[k].id) == subs[k := subs[k].(status := "Verified")]
  {
  }

  /** Approving the only pending record with that id moves one record from the pending count
      to the verified count. */
  lemma ApproveCounts(subs: seq<Submission>, k: nat)
    requires UniqueIds(subs) && k < |subs| && subs[k].status == "Submitted"
    ensures var r := MarkVerified(subs, subs[k].id);
      CountStatus(r, "Submitted") == CountStatus(subs, "Submitted") - 1
      && CountStatus(r, "Verified") == CountStatus(subs, "Verified") + 1
  {
    ApproveOne(subs, k);
    var v := subs[k].(status := "Verified");
    FilterUpdate(subs, k, v, (s: Submission) => s.status == "Submitted");
    FilterUpdate(subs, k, v, (s: Submission) => s.status == "Verified");
  }

  /** `localSubmissions.find(s => s.id === id)`: the first record with that id. */
  function Find(subs: seq<Submission>, id: int): Option<Submission> {
    FindFirst(subs, (s: Submission) => s.id, id)
  }

  /** `localSubmissions.map(s => s.id === id ? { ...s, hours_taught, status: "Verified" } : s)`. */
  function SetHours(subs: seq<Submission>, id: int, hours: real): (r: seq<Submission>)
    ensures |r| == |subs|
    ensures forall i :: 0 <= i < |subs| ==>
      r[i] == if subs[i].id == id then subs[i].(hoursTaught := hours, status := "Verified") else subs[i]
  {
    if subs == [] then []
    else
      var s := subs[0];
      [if s.id == id then s.(hoursTaught := hours, status := "Verified") else s]
        + SetHours(subs[1..], id, hours)
  }

  /** `handleAdjust`: the record sent to the server (the first with that id, with the new hours
      and status), and the list after the reply. Nothing is sent when the prompt was cancelled
      or left empty, or when no record has that id; `parseFloat` is taken as given. */
  function Adjust(subs: seq<Submission>, id: int, hoursInput: Option<string>,
                  parseFloat: string -> real, reply: Reply): (r: (seq<Submission>, Option<Submission>))
    ensures r.1.Some? <==>
      hoursInput.Some? && hoursInput.value != "" && exists i :: 0 <= i < |subs| && subs[i].id == id
    ensures r.1.Some? ==>
      var found := Find(subs, id).value;
      r.1.value == found.(hoursTaught := parseFloat(hoursInput.value), status := "Verified")
    ensures r.0 == if r.1.Some? && reply.Accepted? then SetHours(subs, id, parseFloat(hoursInput.value)) else subs
  {
    if hoursInput.None? || hoursInput.value == "" then (subs, None)
    else
      match Find(subs, id)
      case None => (subs, None)
      case Some(s) =>
        var hours := parseFloat(hoursInput.value);
        (if reply.Accepted? then SetHours(subs, id, hours) else subs,
         Some(s.(hoursTaught := hours, status := "Verified")))
  }

  /** An adjusted record is already verified, so approving it afterwards changes nothing. */
  lemma ApproveAfterAdjust(subs: seq<Submission>, id: int, hours: real)
    ensures MarkVerified(SetHours(subs, id, hours), id) == SetHours(subs, id, hours)
  {
  }

  /** With unique ids, adjusting rewrites exactly the one record with that id. */
  lemma AdjustOne(subs: seq<Submission>, k: nat, hours: real)
    requires UniqueIds(subs) && k < |subs|
    ensures SetHours(subs, subs[k].id, hours) == subs[k := subs[k].(hoursTaught := hours, status := "Verified")]
  {
  }
}
