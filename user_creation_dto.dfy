/** The validation rules of the registration request. */
module UserCreationDto {
  import opened Outcomes
  import opened Entities

  /** String.trim, front half: drops the leading characters up to U+0020. */
  function TrimStart(s: string): (r: string)
    ensures |r| <= |s| && r == s[|s| - |r|..]
    ensures r == [] || r[0] > ' '
    ensures forall i :: 0 <= i < |s| - |r| ==> s[i] <= ' '
  {
    if |s| > 0 && s[0] <= ' ' then
      var r := TrimStart(s[1..]);
      assert forall i :: 1 <= i < |s| - |r| ==> s[i] == s[1..][i - 1];
      r
    else s
  }

  /** String.trim, back half: drops the trailing characters up to U+0020. */
  function TrimEnd(s: string): (r: string)
    ensures |r| <= |s| && r == s[..|r|]
    ensures r == [] || r[|r| - 1] > ' '
    ensures forall i :: |r| <= i < |s| ==> s[i] <= ' '
  {
    if |s| > 0 && s[|s| - 1] <= ' ' then
      var r := TrimEnd(s[..|s| - 1]);
      assert forall i :: |r| <= i < |s| - 1 ==> s[i] == s[..|s| - 1][i];
      r
    else s
  }

  /** String.trim: both ends stripped of characters up to U+0020. */
  function Trim(s: string): (r: string)
    ensures |r| <= |s|
    ensures r == [] || (r[0] > ' ' && r[|r| - 1] > ' ')
  {
    TrimEnd(TrimStart(s))
  }

  /**
   * @NotBlank: something is left once the string is trimmed, which happens
   * exactly when the string holds a character above U+0020.
   */
  predicate NotBlank(s: string): (r: bool)
    ensures r <==> exists i :: 0 <= i < |s| && s[i] > ' '
  {
    TrimKeepsVisible(s);
    |Trim(s)| > 0
  }

  /** Trimming empties a string exactly when all its characters are at most U+0020. */
  lemma TrimKeepsVisible(s: string)
    ensures |Trim(s)| > 0 <==> exists i :: 0 <= i < |s| && s[i] > ' '
  {
    var t := TrimStart(s);
    var d := |s| - |t|;
    if |Trim(s)| > 0 {
      assert Trim(s)[0] == t[0] == s[d];
    }
    if i :| 0 <= i < |s| && s[i] > ' ' {
      assert d <= i && t[i - d] == s[i];
    }
  }

  /**
   * The request is valid when the username is not blank and has 2 to 50
   * characters, the email is not blank and well-formed (the mailbox grammar is a
   * parameter), and the password is not blank and has at least 8 characters.
   * The roles carry no rule, and the sizes count the untrimmed strings.
   */
  predicate IsValid(dto: UserCreation, isEmail: string -> bool): (r: bool)
    ensures r ==> isEmail(dto.email) && 2 <= |dto.username| <= 50 && 8 <= |dto.password|
    ensures r ==> forall f :: f in {dto.username, dto.email, dto.password} ==> exists i :: 0 <= i < |f| && f[i] > ' '
  {
    && NotBlank(dto.username) && 2 <= |dto.username| <= 50
    && NotBlank(dto.email) && isEmail(dto.email)
    && NotBlank(dto.password) && 8 <= |dto.password|
  }

  /** Length alone does not make a password acceptable: eight spaces are blank. */
  lemma BlankPasswordRejected(dto: UserCreation, isEmail: string -> bool)
    requires dto.password == "        "
    ensures |dto.password| == 8 && !IsValid(dto, isEmail)
  {
  }

  /** Whether a request is valid never depends on its roles, absent or empty included. */
  lemma RolesUnconstrained(dto: UserCreation, isEmail: string -> bool, roles: Option<set<Role>>)
    ensures IsValid(dto, isEmail) == IsValid(dto.(roles := roles), isEmail)
  {
  }
}
