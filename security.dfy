/** platforum_project/func/security.py: the ownership guard the edit and delete
    views run before touching a message. */
module Security {
  import opened Schema

  /** `user_permission(element, caller)`: PermissionDenied unless the element's
      author reference equals the caller. The forum views compare accounts, the
      private views users; both may be absent (a removed author, a caller without
      an account). */
  function UserPermission<R(==)>(author: Option<R>, caller: Option<R>): (r: Outcome)
    ensures r == Pass <==> author == caller
    ensures r != Pass ==> r == Fail(PermissionDenied)
  {
    if author != caller then Fail(PermissionDenied) else Pass
  }

  /** There is no moderator override: a forum master who did not write the
      element is refused like anybody else. */
  lemma NoModeratorOverride(accounts: map<AccountId, Account>, author: Option<AccountId>,
                            caller: AccountId)
    requires caller in accounts && accounts[caller].forumMaster
    requires author != Some(caller)
    ensures UserPermission(author, Some(caller)) == Fail(PermissionDenied)
  {
  }
}
