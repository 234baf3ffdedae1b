/** A registered user: a username restricted to ASCII letters, digits and underscores,
    a non-empty display name, and a password stored as given. */
module UserModel {
  import opened Wrappers

  datatype User = User(username: string, name: string, password: Option<string>,
                       entityId: Option<int>, created: Option<string>)

  /** The class `[a-zA-Z0-9_]` of the username pattern. */
  predicate IsWordChar(c: char)
  {
    ('a' <= c <= 'z') || ('A' <= c <= 'Z') || ('0' <= c <= '9') || c == '_'
  }

  predicate AllWordChars(s: string)
  {
    |s| > 0 && forall k :: 0 <= k < |s| ==> IsWordChar(s[k])
  }

  /** `re.match(r"^[a-zA-Z0-9_]+$", s)`: Python's `$` also matches just before a final
      newline, so one trailing "\n" is let through. */
  predicate UsernameMatches(s: string)
  {
    AllWordChars(s) || (|s| > 1 && s[|s| - 1] == '\n' && AllWordChars(s[..|s| - 1]))
  }

  /** `User(username, name, password, entity_id=None, created=None)`: the username is checked
      before the name; the password is not checked at all. */
  function NewUser(username: string, name: string, password: Option<string>,
                   entityId: Option<int>, created: Option<string>): (r: Result<User>)
    ensures r.Ok? <==> UsernameMatches(username) && name != ""
    ensures r.Ok? ==> r.value == User(username, name, password, entityId, created)
    ensures !UsernameMatches(username) ==>
      r == Err(ValueError("Username must only contain letters, numbers, and underscores"))
    ensures UsernameMatches(username) && name == "" ==> r == Err(ValueError("Name must be a non-empty string"))
  {
    if !UsernameMatches(username) then Err(ValueError("Username must only contain letters, numbers, and underscores"))
    else if name == "" then Err(ValueError("Name must be a non-empty string"))
    else Ok(User(username, name, password, entityId, created))
  }

  /** What the pattern accepts: one or more word characters, optionally followed by a single
      newline; in particular it never accepts the empty name, a space or a dot. */
  lemma UsernameExamples()
    ensures UsernameMatches("john_doe42") && UsernameMatches("john\n")
    ensures !UsernameMatches("") && !UsernameMatches("\n") && !UsernameMatches("john doe")
    ensures !UsernameMatches("j.doe") && !UsernameMatches("john\n\n")
  {
    assert !IsWordChar(' ') && !IsWordChar('.') && !IsWordChar('\n');
    assert !AllWordChars("\n") by { assert "\n"[0] == '\n'; }
    assert !AllWordChars("john doe") by { assert "john doe"[4] == ' '; }
    assert !AllWordChars("j.doe") by { assert "j.doe"[1] == '.'; }
    var t := "john\n\n";
    assert !AllWordChars(t) by { assert t[5] == '\n'; }
    assert !AllWordChars(t[..6]) by { assert t[..6][4] == '\n'; }
  }

  /** Only the last character may be the newline: every other character is a word character. */
  lemma UsernameShape(s: string)
    requires UsernameMatches(s)
    ensures forall k :: 0 <= k < |s| - 1 ==> IsWordChar(s[k])
    ensures IsWordChar(s[|s| - 1]) || s[|s| - 1] == '\n'
  {
  }
}
