/** The GitHub issue wrapper `QlIssue` of wrapper/github.py: an issue keeps
    a snapshot of its assignees and closed flag taken when it is built, and
    `update()` derives the GitHub mutations from the difference between that
    snapshot and the current (possibly edited) fields. */
module GitHubIssue {
  import opened Outcomes

  /** A `QlUser` object. `QlUser` defines no equality of its own, so two
      users are the same only when they are the same object; `handle`
      stands for that object identity. Two users may share an `id` and still
      be different values. */
  datatype User = User(handle: nat, id: string, login: string)

  /** One element of `assignees.nodes` in a GraphQL response. */
  datatype RawUser = RawUser(id: string, login: string)

  /** The `assignees` entry of a response: missing altogether (as in the
      `createIssue` payload), or present with or without a `nodes` list. */
  datatype RawAssignees = NoAssignees | Assignees(nodes: Option<seq<RawUser>>)

  /** The body of an issue node as returned by GitHub. */
  datatype RawIssue = RawIssue(
    assignees: RawAssignees,
    id: string,
    title: string,
    closed: bool,
    bodyText: string,
    createdAt: string,
    updatedAt: string,
    closedAt: Option<string>)

  /** A `QlIssue`: the editable fields plus the snapshot taken at
      construction (`prevAssignees`, `prevClosed`). Editing an issue is a
      datatype update of `title`, `bodyText`, `closed` or `assignees`; the
      snapshot fields have no setter. */
  datatype Issue = Issue(
    id: string,
    title: string,
    closed: bool,
    bodyText: string,
    createdAt: string,
    updatedAt: string,
    closedAt: Option<string>,
    assignees: seq<User>,
    prevAssignees: seq<User>,
    prevClosed: bool)
  {
    /** Neither the assignees nor the closed flag moved since construction. */
    predicate Unmodified() {
      assignees == prevAssignees && closed == prevClosed
    }
  }

  datatype IssueState = Open | Closed

  /** The GraphQL mutations `update()` sends, as abstract records. */
  datatype Mutation =
    | UpdateIssue(issueId: string, title: string, body: string, state: Option<IssueState>)
    | RemoveAssignees(assignableId: string, assigneeIds: seq<string>)
    | AddAssignees(assignableId: string, assigneeIds: seq<string>)

  /** The assignee nodes the constructor reads: an absent `assignees` or an
      absent `nodes` both mean no assignees. */
  function RawAssigneeNodes(a: RawAssignees): seq<RawUser>
  {
    match a
    case NoAssignees => []
    case Assignees(None) => []
    case Assignees(Some(nodes)) => nodes
  }

  /** Builds one `QlUser` object per node; the objects get the consecutive
      identities `firstHandle`, `firstHandle + 1`, ... They are new objects
      when every identity already handed out is below `firstHandle`, which
      callers keep true by passing on `Built.next` (`BuiltUsersAreNew`). */
  function MakeUsers(nodes: seq<RawUser>, firstHandle: nat): (users: seq<User>)
    ensures |users| == |nodes|
    ensures forall i :: 0 <= i < |users| ==>
      users[i] == User(firstHandle + i, nodes[i].id, nodes[i].login)
    decreases |nodes|
  {
    if |nodes| == 0 then []
    else [User(firstHandle, nodes[0].id, nodes[0].login)] + MakeUsers(nodes[1..], firstHandle + 1)
  }

  /** A built issue and the first identity its construction left unused. */
  datatype Built = Built(issue: Issue, next: nat)

  /** `QlIssue.__init__`: the users built from the response become both the
      current assignee list and its snapshot, and the closed flag is
      snapshotted likewise. The users take the identities from
      `firstHandle` up to, not including, `next`. */
  function FromRaw(raw: RawIssue, firstHandle: nat): (b: Built)
    ensures b.next == firstHandle + |RawAssigneeNodes(raw.assignees)|
    ensures forall u :: u in b.issue.assignees ==> firstHandle <= u.handle < b.next
    ensures forall i :: 0 <= i < |b.issue.assignees| ==> b.issue.assignees[i].handle == firstHandle + i
    ensures var issue := b.issue;
      && issue.Unmodified()
      && issue.id == raw.id && issue.title == raw.title && issue.closed == raw.closed
      && issue.bodyText == raw.bodyText && issue.closedAt == raw.closedAt
      && issue.createdAt == raw.createdAt && issue.updatedAt == raw.updatedAt
      && |issue.assignees| == |RawAssigneeNodes(raw.assignees)|
      && forall i :: 0 <= i < |issue.assignees| ==>
           issue.assignees[i].id == RawAssigneeNodes(raw.assignees)[i].id &&
           issue.assignees[i].login == RawAssigneeNodes(raw.assignees)[i].login
  {
    var nodes := RawAssigneeNodes(raw.assignees);
    var users := MakeUsers(nodes, firstHandle);
    Built(Issue(raw.id, raw.title, raw.closed, raw.bodyText, raw.createdAt, raw.updatedAt,
                raw.closedAt, users, users, raw.closed),
          firstHandle + |nodes|)
  }

  /** Users built from `firstHandle` on are none of the users that already
      exist, provided every existing identity is below `firstHandle`. */
  lemma BuiltUsersAreNew(raw: RawIssue, firstHandle: nat, existing: seq<User>)
    requires forall u :: u in existing ==> u.handle < firstHandle
    ensures forall u :: u in FromRaw(raw, firstHandle).issue.assignees ==> u !in existing
  {
  }

  /** Two issues built one after the other, the second from the identity
      the first left unused, share no user object, even when their
      responses name the same accounts. */
  lemma SuccessiveBuildsShareNoUser(raw1: RawIssue, raw2: RawIssue, firstHandle: nat)
    ensures var b1 := FromRaw(raw1, firstHandle);
      forall u :: u in b1.issue.assignees ==> u !in FromRaw(raw2, b1.next).issue.assignees
  {
  }

  /** Moving the assignees of one built issue onto the next one built counts
      as a change in both directions: the next issue's own users are
      removed, and the moved users are added, even for the same accounts. */
  lemma MovedAssigneesAreChanges(raw1: RawIssue, raw2: RawIssue, firstHandle: nat)
    requires |RawAssigneeNodes(raw1.assignees)| > 0 && |RawAssigneeNodes(raw2.assignees)| > 0
    ensures var b1 := FromRaw(raw1, firstHandle);
      var moved := FromRaw(raw2, b1.next).issue.(assignees := b1.issue.assignees);
      SomeRemoved(moved) && SomeAdded(moved) && |Update(moved)| == 3
  {
    var b1 := FromRaw(raw1, firstHandle);
    var b2 := FromRaw(raw2, b1.next);
    var moved := b2.issue.(assignees := b1.issue.assignees);
    var u1 := b1.issue.assignees[0];
    var u2 := b2.issue.assignees[0];
    assert u1.handle < b1.next <= u2.handle;
    assert u1 in moved.assignees && u1 !in moved.prevAssignees by {
      assert forall u :: u in b2.issue.prevAssignees ==> b1.next <= u.handle;
    }
    assert u2 in moved.prevAssignees && u2 !in moved.assignees by {
      assert forall u :: u in b1.issue.assignees ==> u.handle < b1.next;
    }
  }

  /** The users of `xs` that are not in `ys`, in the order of `xs` and with
      their multiplicity in `xs` (Python's `filter(lambda u: u not in ys, xs)`). */
  function Without(xs: seq<User>, ys: seq<User>): (r: seq<User>)
    ensures forall u :: u in r <==> u in xs && u !in ys
    decreases |xs|
  {
    if |xs| == 0 then []
    else if xs[0] in ys then Without(xs[1..], ys)
    else [xs[0]] + Without(xs[1..], ys)
  }

  /** Filtering keeps the multiplicity in `xs` of each user it keeps. */
  lemma {:induction false} WithoutMultiplicity(xs: seq<User>, ys: seq<User>, u: User)
    ensures multiset(Without(xs, ys))[u] == if u in ys then 0 else multiset(xs)[u]
    decreases |xs|
  {
    if |xs| > 0 {
      WithoutMultiplicity(xs[1..], ys, u);
      assert xs == [xs[0]] + xs[1..];
    }
  }

  /** Filtering keeps the order of `xs`. */
  lemma {:induction false} WithoutKeepsOrder(xs: seq<User>, ys: seq<User>)
    ensures IsSubsequence(Without(xs, ys), xs)
    decreases |xs|
  {
    if |xs| > 0 {
      WithoutKeepsOrder(xs[1..], ys);
      if xs[0] in ys {
        SubsequenceDropHead(Without(xs[1..], ys), xs);
      } else {
        var r := Without(xs, ys);
        assert r[0] == xs[0] && r[1..] == Without(xs[1..], ys);
      }
    }
  }

  /** `a` is `b` with some elements left out, the rest kept in order. */
  predicate IsSubsequence(a: seq<User>, b: seq<User>)
    decreases |b|
  {
    if |a| == 0 then true
    else if |b| == 0 then false
    else (a[0] == b[0] && IsSubsequence(a[1..], b[1..])) || IsSubsequence(a, b[1..])
  }

  lemma SubsequenceDropHead(a: seq<User>, b: seq<User>)
    requires |b| > 0 && IsSubsequence(a, b[1..])
    ensures IsSubsequence(a, b)
  {
  }

  /** The ids of a list of users, in order. */
  function Ids(users: seq<User>): (ids: seq<string>)
    ensures |ids| == |users|
    ensures forall i :: 0 <= i < |users| ==> ids[i] == users[i].id
  {
    seq(|users|, i requires 0 <= i < |users| => users[i].id)
  }

  /** Some snapshot user is no longer assigned. */
  predicate SomeRemoved(issue: Issue)
  {
    exists u :: u in issue.prevAssignees && u !in issue.assignees
  }

  /** Some assigned user was not in the snapshot. */
  predicate SomeAdded(issue: Issue)
  {
    exists u :: u in issue.assignees && u !in issue.prevAssignees
  }

  /** The issue state `update()` sends: only when the closed flag differs
      from the snapshot, and then CLOSED exactly when the issue is closed. */
  function StateChange(issue: Issue): (s: Option<IssueState>)
    ensures s.Some? <==> issue.closed != issue.prevClosed
    ensures s == Some(Closed) <==> issue.closed && !issue.prevClosed
    ensures s == Some(Open) <==> !issue.closed && issue.prevClosed
  {
    if issue.closed != issue.prevClosed then Some(if issue.closed then Closed else Open)
    else None
  }

  /** `QlIssue.update()`: the mutations sent, in order. The update-issue
      input comes first; then a remove-assignees call carrying the ids of
      the snapshot users no longer assigned, if there are any; then an
      add-assignees call carrying the ids of ALL current assignees, if any
      current assignee is new. */
  function Update(issue: Issue): (r: seq<Mutation>)
    ensures 1 <= |r| <= 3
    ensures |r| == 1 + (if SomeRemoved(issue) then 1 else 0) + (if SomeAdded(issue) then 1 else 0)
    ensures r[0] == UpdateIssue(issue.id, issue.title, issue.bodyText, StateChange(issue))
    ensures forall k :: 1 <= k < |r| ==> !r[k].UpdateIssue?
    ensures SomeRemoved(issue) ==>
      r[1] == RemoveAssignees(issue.id, Ids(Without(issue.prevAssignees, issue.assignees)))
    ensures SomeAdded(issue) ==> r[|r| - 1] == AddAssignees(issue.id, Ids(issue.assignees))
  {
    var removed := Ids(Without(issue.prevAssignees, issue.assignees));
    var added := Ids(Without(issue.assignees, issue.prevAssignees));
    var update := [UpdateIssue(issue.id, issue.title, issue.bodyText, StateChange(issue))];
    var remove := if removed != [] then [RemoveAssignees(issue.id, removed)] else [];
    var add := if added != [] then [AddAssignees(issue.id, Ids(issue.assignees))] else [];
    EmittedWhenNonEmpty(issue);
    update + remove + add
  }

  /** A filtered id list is non-empty exactly when some user moved. */
  lemma EmittedWhenNonEmpty(issue: Issue)
    ensures Ids(Without(issue.prevAssignees, issue.assignees)) != [] <==> SomeRemoved(issue)
    ensures Ids(Without(issue.assignees, issue.prevAssignees)) != [] <==> SomeAdded(issue)
  {
    WithoutEmpty(issue.prevAssignees, issue.assignees);
    WithoutEmpty(issue.assignees, issue.prevAssignees);
  }

  /** The filtered list is empty exactly when every user of `xs` is in `ys`. */
  lemma WithoutEmpty(xs: seq<User>, ys: seq<User>)
    ensures Without(xs, ys) != [] <==> exists u :: u in xs && u !in ys
  {
  }

  /** No assignee call of `update()` carries an empty id list. */
  lemma AssigneeCallsNonEmpty(issue: Issue)
    ensures forall k :: 1 <= k < |Update(issue)| ==> |Update(issue)[k].assigneeIds| > 0
  {
  }

  /** An issue built without an `assignees` entry (a freshly created one)
      has no assignees and an empty snapshot. */
  lemma CreatedIssueHasNoAssignees(raw: RawIssue, firstHandle: nat)
    requires raw.assignees == NoAssignees || raw.assignees == Assignees(None)
    ensures FromRaw(raw, firstHandle).issue.assignees == []
    ensures FromRaw(raw, firstHandle).issue.prevAssignees == []
    ensures FromRaw(raw, firstHandle).next == firstHandle
  {
  }

  /** The users built from one response are distinct objects, even when two
      nodes carry the same id. */
  lemma MadeUsersDistinct(nodes: seq<RawUser>, firstHandle: nat)
    ensures forall i, j :: 0 <= i < j < |nodes| ==>
      MakeUsers(nodes, firstHandle)[i] != MakeUsers(nodes, firstHandle)[j]
  {
  }

  /** An issue whose assignees and closed flag still equal the snapshot sends
      one update-issue call without a state, and no assignee call. */
  lemma UnmodifiedSendsOnlyUpdate(issue: Issue)
    requires issue.Unmodified()
    ensures Update(issue) == [UpdateIssue(issue.id, issue.title, issue.bodyText, None)]
  {
  }

  /** Updating an issue straight after building it, with only its title or
      body edited, sends exactly one update-issue call. */
  lemma FreshIssueSendsOnlyUpdate(raw: RawIssue, firstHandle: nat, title: string, body: string)
    ensures Update(FromRaw(raw, firstHandle).issue.(title := title, bodyText := body))
         == [UpdateIssue(raw.id, title, body, None)]
  {
  }

  /** Replacing the one assignee `a` by a different user `b` sends the
      update, one removal of `a` and one addition of `b`. */
  lemma {:induction false} ReassignSendsRemoveThenAdd(issue: Issue, a: User, b: User)
    requires issue.prevAssignees == [a] && issue.assignees == [b] && a.handle != b.handle
    ensures Update(issue) == [
      UpdateIssue(issue.id, issue.title, issue.bodyText, StateChange(issue)),
      RemoveAssignees(issue.id, [a.id]),
      AddAssignees(issue.id, [b.id])]
  {
    assert SomeRemoved(issue) by { assert a in issue.prevAssignees && a !in issue.assignees; }
    assert SomeAdded(issue) by { assert b in issue.assignees && b !in issue.prevAssignees; }
    assert Without(issue.prevAssignees, issue.assignees) == [a];
    assert Ids([a]) == [a.id];
    assert Ids([b]) == [b.id];
  }

  /** Because users compare by identity, putting back a freshly fetched
      object for the SAME GitHub account still counts as a change: the
      account is removed and then added again. */
  lemma RefetchedUserIsReassigned(issue: Issue, a: User, b: User)
    requires issue.prevAssignees == [a] && issue.assignees == [b]
    requires a.id == b.id && a.handle != b.handle
    ensures |Update(issue)| == 3
    ensures Update(issue)[1] == RemoveAssignees(issue.id, [a.id])
    ensures Update(issue)[2] == AddAssignees(issue.id, [a.id])
  {
    ReassignSendsRemoveThenAdd(issue, a, b);
  }

  /** The add-assignees payload lists every current assignee, kept ones
      included, and not only the new ones. */
  lemma AddPayloadIsWholeList(issue: Issue, u: User)
    requires SomeAdded(issue) && u in issue.assignees
    ensures u.id in Update(issue)[|Update(issue)| - 1].assigneeIds
  {
  }

  /** The removal payload holds exactly the ids of snapshot users that are no
      longer assigned. */
  lemma RemovePayloadIsDroppedUsers(issue: Issue, x: string)
    requires SomeRemoved(issue)
    ensures x in Update(issue)[1].assigneeIds <==>
      exists u :: u in issue.prevAssignees && u !in issue.assignees && u.id == x
  {
  }
}
