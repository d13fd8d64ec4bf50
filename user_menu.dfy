/** The signed-in user's name and avatar letter shown in the header menu. */
module UserMenu {
  import opened Wrappers
  import opened JsText

  /** The fields of the authentication provider's user record the menu reads. */
  datatype AuthUser = AuthUser(displayName: Option<string>, email: Option<string>)

  const FallbackName: string := "User"

  /** `currentUser?.email?.split('@')[0]`, or "" when there is no e-mail address. */
  function EmailLocalPart(user: Option<AuthUser>): (local: string)
    ensures user.Some? && user.value.email.Some? ==> local <= user.value.email.value
    ensures forall k :: 0 <= k < |local| ==> local[k] != '@'
    ensures user.Some? && user.value.email.Some? ==>
              |local| == |user.value.email.value| || user.value.email.value[|local|] == '@'
    ensures user.None? || user.value.email.None? ==> local == ""
  {
    if user.Some? && user.value.email.Some? then
      var email := user.value.email.value;
      var local := SplitOn(email, "@")[0];
      NoCharWhereAbsent(local, '@');
      SplitAtFirst(email, "@");
      assert |local| < |email| ==> email[|local|..|local| + 1] == "@" || |local| == |email|;
      local
    else ""
  }

  /**
   * `displayName`: the provider's display name when it is non-empty, else
   * the part of the e-mail address before the first `@` when that is
   * non-empty, else "User". It is never empty.
   */
  function DisplayName(user: Option<AuthUser>): (name: string)
    ensures name != []
    ensures user.Some? && user.value.displayName.Some? && user.value.displayName.value != []
            ==> name == user.value.displayName.value
    ensures (user.None? || user.value.displayName.None? || user.value.displayName.value == []) && EmailLocalPart(user) != []
            ==> name == EmailLocalPart(user)
    ensures name == FallbackName <==>
              (user.Some? && user.value.displayName == Some(FallbackName))
              || ((user.None? || user.value.displayName.None? || user.value.displayName.value == [])
                  && (EmailLocalPart(user) == [] || EmailLocalPart(user) == FallbackName))
  {
    if user.Some? && user.value.displayName.Some? && user.value.displayName.value != [] then
      user.value.displayName.value
    else if EmailLocalPart(user) != [] then
      EmailLocalPart(user)
    else
      FallbackName
  }

  /** `name.charAt(0).toUpperCase()`. */
  function AvatarInitial(name: string): (r: string)
    ensures |r| == if name == [] then 0 else 1
    ensures name != [] ==> r[0] == UpperAscii(name[0]) && !('a' <= r[0] <= 'z')
  {
    if name == [] then "" else [UpperAscii(name[0])]
  }

  /** The avatar always shows exactly one letter, the upper-cased first letter of the display name. */
  lemma AvatarShowsOneLetter(user: Option<AuthUser>)
    ensures |AvatarInitial(DisplayName(user))| == 1
    ensures AvatarInitial(DisplayName(user))[0] == UpperAscii(DisplayName(user)[0])
  {
  }

  /** A user with neither a display name nor an e-mail address is shown as "User" with avatar "U". */
  lemma AnonymousUser()
    ensures DisplayName(Some(AuthUser(None, None))) == FallbackName
    ensures DisplayName(None) == FallbackName
    ensures AvatarInitial(DisplayName(None)) == "U"
  {
  }
}
