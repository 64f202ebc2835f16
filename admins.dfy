/** What an admin does to users: `Admin.view_pending_users`,
    `Admin.approve_user` and `Admin.reset_user_password` of
    Item_resurrected.py. */
module Admins {
  import opened Users
  import OrderedDict
  import Sequences

  /** A user waiting for approval: not verified and not an admin. */
  predicate IsPending(u: User)
    reads u
  {
    !u.isVerified && u.role != AdminRole
  }

  /** `view_pending_users(users)`: the pending users, in the dict's order. */
  function PendingUsers(users: Users): (r: seq<User>)
    reads Objects(users)
    ensures forall u :: u in r ==> u in Objects(users)
    ensures forall u :: u in r ==> IsPending(u)
    ensures forall i :: 0 <= i < |users| ==> (users[i].1 in r <==> IsPending(users[i].1))
    ensures Sequences.IsSubsequence(r, OrderedDict.Values(users))
  {
    if users == [] then []
    else
      var rest := PendingUsers(users[1..]);
      assert OrderedDict.Values(users)[1..] == OrderedDict.Values(users[1..]);
      if IsPending(users[0].1) then
        assert ([users[0].1] + rest)[1..] == rest;
        [users[0].1] + rest
      else rest
  }

  /** A user filed after all the others comes last among the pending users
      when pending, and not at all otherwise. */
  lemma {:induction false} PendingAppend(users: Users, k: int, u: User)
    ensures PendingUsers(users + [(k, u)]) == PendingUsers(users) + if IsPending(u) then [u] else []
  {
    if users != [] {
      assert (users + [(k, u)])[1..] == users[1..] + [(k, u)];
      PendingAppend(users[1..], k, u);
    }
  }

  /** The message of `approve_user`. */
  function ApprovalMessage(name: string): string {
    "用户 " + name + " 已审核通过。"
  }

  /** The message of `reset_user_password`. */
  function ResetMessage(name: string, password: string): string {
    "用户 " + name + " 的密码已重置为 '" + password + "'。"
  }

  /** `approve_user(user)`: the user ends verified with the same password, and
      the message depends only on the name, so approving twice changes nothing
      the second time and says the same thing. */
  method ApproveUser(u: User) returns (msg: string)
    modifies u
    ensures u.isVerified && u.password == old(u.password)
    ensures old(u.isVerified) ==> unchanged(u)
    ensures msg == ApprovalMessage(u.name)
  {
    if u.isVerified {
      return ApprovalMessage(u.name);
    }
    u.Verify();
    return ApprovalMessage(u.name);
  }

  /** `reset_user_password(user, p)`: afterwards exactly `p` passes
      `check_password`, the approval state is kept, and the message names
      the user and the new password. */
  method ResetUserPassword(u: User, p: string) returns (msg: string)
    modifies u
    ensures u.password == p && u.isVerified == old(u.isVerified)
    ensures forall q :: u.CheckPassword(q) <==> q == p
    ensures msg == ResetMessage(u.name, p)
  {
    u.SetPassword(p);
    msg := ResetMessage(u.name, p);
  }
}
