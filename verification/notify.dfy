/** `cronjobNotifyPendingApprove`: the daily chat message listing every
    approval item still waiting, one line per item. */
module Notify {
  import opened Outcomes
  import opened Records
  import opened Text
  import opened Selection

  /** Status id 1 is "waiting for action". */
  const PendingStatus: int := 1

  /** The fixed first lines: "daily notification" and "items awaiting
      approval:" followed by a blank line. */
  const Header: string := "แจ้งเตือนประจำวัน \n รายการที่รออนุมัติ:\n\n"

  /** What the job does: nothing to send, or send this message. */
  datatype Notice = NothingPending | Send(message: string)

  /** The row is waiting for action. */
  predicate IsPending(x: ApproveList) {
    x.statusApproveId == Some(PendingStatus)
  }

  /** `findMany({ where: { statusApproveId: 1 } })`, in storage order. */
  function Pending(s: Store): (p: seq<ApproveList>)
    ensures forall x :: x in p <==> x in s && IsPending(x)
    ensures forall x :: multiset(p)[x] == if IsPending(x) then multiset(s)[x] else 0
  {
    Select(s, IsPending)
  }

  /** The row's `user` relation is present: it names a known user. */
  predicate HasUser(x: ApproveList, users: map<Id, User>) {
    x.userId.Some? && x.userId.value in users
  }

  /** `- ${title} (${firstName} ${lastName})\n`; a null name renders as
      the text "null". */
  function Line(x: ApproveList, u: User): string {
    "- " + x.title + " (" + ColumnText(u.firstName) + " " + ColumnText(u.lastName) + ")\n"
  }

  /** The lines of `ps`, in order. */
  function Lines(ps: seq<ApproveList>, users: map<Id, User>): string
    requires forall i :: 0 <= i < |ps| ==> HasUser(ps[i], users)
  {
    if |ps| == 0 then ""
    else
      var last := ps[|ps| - 1];
      assert HasUser(last, users);
      Lines(ps[..|ps| - 1], users) + Line(last, users[last.userId.value])
  }

  /** The lines of two runs of rows are the lines of the first followed by
      the lines of the second. */
  lemma {:induction false} LinesAppend(a: seq<ApproveList>, b: seq<ApproveList>, users: map<Id, User>)
    requires forall i :: 0 <= i < |a| ==> HasUser(a[i], users)
    requires forall i :: 0 <= i < |b| ==> HasUser(b[i], users)
    ensures forall i :: 0 <= i < |a + b| ==> HasUser((a + b)[i], users)
    ensures Lines(a + b, users) == Lines(a, users) + Lines(b, users)
  {
    if |b| == 0 {
      assert a + b == a;
    } else {
      var b' := b[..|b| - 1];
      assert (a + b)[..|a + b| - 1] == a + b';
      LinesAppend(a, b', users);
    }
  }

  /** Each row's line occurs in the lines of the run that holds it. */
  lemma LineOfEveryRow(ps: seq<ApproveList>, users: map<Id, User>, i: int)
    requires forall k :: 0 <= k < |ps| ==> HasUser(ps[k], users)
    requires 0 <= i < |ps|
    ensures Occurs(Lines(ps, users), Line(ps[i], users[ps[i].userId.value]))
  {
    var x := ps[i];
    assert HasUser(x, users);
    var before, after := ps[..i], ps[i + 1..];
    assert ps == before + ([x] + after);
    LinesAppend([x], after, users);
    LinesAppend(before, [x] + after, users);
    var t := Line(x, users[x.userId.value]);
    assert Lines([x], users) == t by {
      assert [x][..0] == [];
    }
    var a, b := Lines(before, users), Lines(after, users);
    assert Lines(ps, users) == a + (t + b);
    assert a + (t + b) == a + t + b;
    OccursInContext(a, t, b);
  }

  /** The message as the handler builds it: the header, then one `+=` per
      row in `forEach` order. */
  method BuildMessage(ps: seq<ApproveList>, users: map<Id, User>) returns (message: string)
    requires forall i :: 0 <= i < |ps| ==> HasUser(ps[i], users)
    ensures message == Header + Lines(ps, users)
  {
    message := Header;
    var i := 0;
    while i < |ps|
      invariant 0 <= i <= |ps|
      invariant message == Header + Lines(ps[..i], users)
    {
      var x := ps[i];
      assert ps[..i + 1][..i] == ps[..i];
      message := message + Line(x, users[x.userId.value]);
      i := i + 1;
    }
    assert ps[..|ps|] == ps;
  }

  /** `cronjobNotifyPendingApprove`. `users` is the user table the `user`
      relation reads. A pending row without a user makes the line's
      `approve.user.firstName` throw, which the catch block turns into 500
      before anything is sent. */
  function NotifyPendingApprove(s: Store, users: map<Id, User>): (r: Result<Notice>)
    ensures r == Ok(NothingPending) <==> forall x :: x in s ==> !IsPending(x)
    ensures r.Err? <==> exists x :: x in s && IsPending(x) && !HasUser(x, users)
    ensures r.Err? ==> r.failure == Internal
    ensures r.Ok? && r.value.Send? ==>
      && (forall x :: x in Pending(s) ==> HasUser(x, users))
      && r.value.message == Header + Lines(Pending(s), users)
  {
    var ps := Pending(s);
    if |ps| == 0 then
      assert forall x :: x in s ==> !IsPending(x);
      Ok(NothingPending)
    else if exists i :: 0 <= i < |ps| && !HasUser(ps[i], users) then
      Err(Internal)
    else
      assert ps[0] in ps;
      Ok(Send(Header + Lines(ps, users)))
  }

  /** When something is sent, the message names every pending row, with
      its owner's first and last name. */
  lemma MessageListsEveryPending(s: Store, users: map<Id, User>, x: ApproveList)
    requires x in s && IsPending(x)
    requires NotifyPendingApprove(s, users).Ok?
    ensures NotifyPendingApprove(s, users).value.Send?
    ensures HasUser(x, users)
    ensures Occurs(NotifyPendingApprove(s, users).value.message, Line(x, users[x.userId.value]))
  {
    var ps := Pending(s);
    var i :| 0 <= i < |ps| && ps[i] == x;
    LineOfEveryRow(ps, users, i);
    var lines := Lines(ps, users);
    var k :| 0 <= k <= |lines| && StartsWith(lines[k..], Line(x, users[x.userId.value]));
    var m := Header + lines;
    assert m[|Header| + k..] == lines[k..];
  }

  /** Concatenation regrouped; stated apart so the long header literal is
      never unfolded. */
  lemma SeqAssoc(a: string, b: string, c: string)
    ensures a + (b + c) == a + b + c
  {
  }

  /** A pending row added at the end of the table is the last pending row. */
  lemma PendingAppend(s: Store, x: ApproveList)
    requires IsPending(x)
    ensures Pending(s + [x]) == Pending(s) + [x]
  {
    SelectAppend(s, [x], IsPending);
    assert Select([x], IsPending) == [x];
  }

  /** One more row adds its line after the lines of the rows before it. */
  lemma LinesSnoc(ps: seq<ApproveList>, users: map<Id, User>, x: ApproveList)
    requires forall i :: 0 <= i < |ps| ==> HasUser(ps[i], users)
    requires HasUser(x, users)
    ensures forall i :: 0 <= i < |ps + [x]| ==> HasUser((ps + [x])[i], users)
    ensures Lines(ps + [x], users) == Lines(ps, users) + Line(x, users[x.userId.value])
  {
    assert (ps + [x])[..|ps|] == ps;
  }

  /** Pending rows are listed in storage order: a row that becomes pending
      at the end of the table adds its line at the end of the message. */
  lemma NewPendingRowGoesLast(s: Store, users: map<Id, User>, x: ApproveList, m: string)
    requires IsPending(x) && HasUser(x, users)
    requires NotifyPendingApprove(s, users) == Ok(Send(m))
    ensures NotifyPendingApprove(s + [x], users) == Ok(Send(m + Line(x, users[x.userId.value])))
  {
    var ps := Pending(s);
    assert forall i :: 0 <= i < |ps| ==> HasUser(ps[i], users) by {
      forall i | 0 <= i < |ps| ensures HasUser(ps[i], users) {
        assert ps[i] in ps;
      }
    }
    assert m == Header + Lines(ps, users);
    PendingAppend(s, x);
    LinesSnoc(ps, users, x);
    var ps' := ps + [x];
    var lines, line := Lines(ps, users), Line(x, users[x.userId.value]);
    SeqAssoc(Header, lines, line);
    assert |ps'| != 0;
  }
}
