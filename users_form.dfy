/**
 * The client-side form check of frontend/src/pages/Users.tsx (`validate`):
 * the form state, JavaScript's notion of whitespace (shared by
 * String.prototype.trim and the regular-expression class \s), the email
 * pattern ^[^\s@]+@[^\s@]+\.[^\s@]+$ stated as a rule on characters, and the
 * field-keyed error map.
 */
module UsersForm {
  import opened Maybe

  /** MAX_FILE_SIZE: 5 MiB. */
  const MaxFileSize: nat := 5 * 1024 * 1024

  /** A picked file, as far as the check looks at it: its MIME type and size in bytes. */
  datatype File = File(mimeType: string, size: nat)

  /** The form state: the two text inputs, the picked file and the preview URL shown. */
  datatype Form = Form(name: string, email: string, avatar: Option<File>, avatarPreview: Option<string>)

  /** The keys of the error record. */
  datatype Field = NameField | EmailField | AvatarField

  function EmptyForm(): Form {
    Form("", "", None, None)
  }

  // ---------------------------------------------------------------------
  // Whitespace and trim
  // ---------------------------------------------------------------------

  /** WhiteSpace and LineTerminator of ECMAScript: what trim removes and \s matches. */
  predicate IsSpace(c: char) {
    || c == ' ' || c == '\t' || c == '\n' || c == '\r'
    || c == '\U{000B}' || c == '\U{000C}' || c == '\U{00A0}' || c == '\U{1680}'
    || ('\U{2000}' <= c <= '\U{200A}')
    || c == '\U{2028}' || c == '\U{2029}' || c == '\U{202F}' || c == '\U{205F}'
    || c == '\U{3000}' || c == '\U{FEFF}'
  }

  /** Nothing but whitespace (the empty string included). */
  predicate Blank(s: string) {
    forall k | 0 <= k < |s| :: IsSpace(s[k])
  }

  function TrimStart(s: string): (r: string)
    ensures |r| <= |s|
    ensures r != "" ==> !IsSpace(r[0])
  {
    if s != [] && IsSpace(s[0]) then TrimStart(s[1..]) else s
  }

  function TrimEnd(s: string): (r: string)
    ensures |r| <= |s| && r == s[..|r|]
    ensures r != "" ==> !IsSpace(r[|r| - 1])
  {
    if s != [] && IsSpace(s[|s| - 1]) then TrimEnd(s[..|s| - 1]) else s
  }

  /** String.prototype.trim. */
  function Trim(s: string): (r: string)
    ensures |r| <= |s|
    ensures r != "" ==> !IsSpace(r[0]) && !IsSpace(r[|r| - 1])
  {
    var t := TrimStart(s);
    var r := TrimEnd(t);
    assert r != "" ==> r[0] == t[0];
    r
  }

  lemma {:induction false} TrimStartBlank(s: string)
    ensures TrimStart(s) == "" <==> Blank(s)
  {
    if s != [] && IsSpace(s[0]) {
      TrimStartBlank(s[1..]);
      assert Blank(s) <==> Blank(s[1..]) by {
        if Blank(s[1..]) {
          forall k | 0 <= k < |s| ensures IsSpace(s[k]) {
            if k > 0 {
              assert s[k] == s[1..][k - 1];
            }
          }
        }
      }
    }
  }

  lemma {:induction false} TrimEndBlank(s: string)
    ensures TrimEnd(s) == "" <==> Blank(s)
  {
    if s != [] && IsSpace(s[|s| - 1]) {
      var init := s[..|s| - 1];
      TrimEndBlank(init);
      assert Blank(s) <==> Blank(init) by {
        if Blank(init) {
          forall k | 0 <= k < |s| ensures IsSpace(s[k]) {
            if k < |s| - 1 {
              assert s[k] == init[k];
            }
          }
        }
      }
    }
  }

  /** `!s.trim()` holds exactly of blank strings. */
  lemma TrimEmptyIffBlank(s: string)
    ensures Trim(s) == "" <==> Blank(s)
  {
    TrimStartBlank(s);
    var t := TrimStart(s);
    TrimEndBlank(t);
    if t != "" {
      assert !Blank(t);
    }
  }

  // ---------------------------------------------------------------------
  // The email pattern
  // ---------------------------------------------------------------------

  /** [^\s@]: neither whitespace nor '@'. */
  predicate Plain(c: char) {
    !IsSpace(c) && c != '@'
  }

  predicate AllPlain(s: string) {
    forall k | 0 <= k < |s| :: Plain(s[k])
  }

  /**
   * ^[^\s@]+@[^\s@]+\.[^\s@]+$ by its structure: a non-empty plain run, '@',
   * a non-empty plain run, '.', a non-empty plain run, and nothing else.
   */
  ghost predicate MatchesEmailRegex(s: string)
    ensures MatchesEmailRegex(s) ==> |s| >= 5 && !Blank(s)
  {
    exists i, j | 0 < i && i + 1 < j && j + 1 < |s| ::
      && s[i] == '@' && s[j] == '.'
      && AllPlain(s[..i]) && AllPlain(s[i + 1..j]) && AllPlain(s[j + 1..])
  }

  /**
   * The same rule character by character: no whitespace anywhere; exactly one
   * '@', and not the first character (the local part is non-empty); and in the
   * domain after it a '.' that is neither its first nor its last character.
   */
  predicate IsEmailAddress(s: string)
    ensures IsEmailAddress(s) ==> |s| >= 5 && !Blank(s)
  {
    && (forall k | 0 <= k < |s| :: !IsSpace(s[k]))
    && exists a | 0 < a < |s| && s[a] == '@' ::
         && (forall b | 0 <= b < |s| && s[b] == '@' :: b == a)
         && (exists j | a + 1 < j < |s| - 1 :: s[j] == '.')
  }

  /** The character rule accepts exactly the strings the regular expression matches. */
  lemma EmailRuleMatchesRegex(s: string)
    ensures IsEmailAddress(s) <==> MatchesEmailRegex(s)
  {
    if IsEmailAddress(s) {
      var a :| 0 < a < |s| && s[a] == '@'
               && (forall b | 0 <= b < |s| && s[b] == '@' :: b == a)
               && (exists j | a + 1 < j < |s| - 1 :: s[j] == '.');
      var j :| a + 1 < j < |s| - 1 && s[j] == '.';
      assert AllPlain(s[..a]) by {
        forall k | 0 <= k < a ensures Plain(s[..a][k]) {
          assert s[..a][k] == s[k];
        }
      }
      var domainHead, topLevel := s[a + 1..j], s[j + 1..];
      forall k | 0 <= k < |domainHead| ensures Plain(domainHead[k]) {
        assert domainHead[k] == s[a + 1 + k];
      }
      forall k | 0 <= k < |topLevel| ensures Plain(topLevel[k]) {
        assert topLevel[k] == s[j + 1 + k];
      }
    }
    if MatchesEmailRegex(s) {
      var i, j :| 0 < i && i + 1 < j && j + 1 < |s|
                  && s[i] == '@' && s[j] == '.'
                  && AllPlain(s[..i]) && AllPlain(s[i + 1..j]) && AllPlain(s[j + 1..]);
      forall k | 0 <= k < |s| ensures Plain(s[k]) || k == i || k == j {
        if k < i {
          assert s[k] == s[..i][k];
        } else if i < k < j {
          assert s[k] == s[i + 1..j][k - i - 1];
        } else if j < k {
          assert s[k] == s[j + 1..][k - j - 1];
        }
      }
      assert forall b | 0 <= b < |s| && s[b] == '@' :: b == i;
      assert i + 1 < j < |s| - 1 && s[j] == '.';
    }
  }

  // ---------------------------------------------------------------------
  // validate
  // ---------------------------------------------------------------------

  function NameError(name: string): (r: Option<string>)
    ensures r.None? <==> !Blank(name) && |name| >= 3
    ensures Blank(name) ==> r == Some("Name is required")
  {
    TrimEmptyIffBlank(name);
    if Trim(name) == "" then Some("Name is required")
    else if |name| < 3 then Some("Minimum 3 characters")
    else None
  }

  function EmailError(email: string): (r: Option<string>)
    ensures r.None? <==> MatchesEmailRegex(email)
    ensures Blank(email) ==> r == Some("Email is required")
  {
    TrimEmptyIffBlank(email);
    EmailRuleMatchesRegex(email);
    if Trim(email) == "" then Some("Email is required")
    else if !IsEmailAddress(email) then Some("Invalid email address")
    else None
  }

  predicate StartsWith(s: string, prefix: string) {
    |prefix| <= |s| && s[..|prefix|] == prefix
  }

  function AvatarError(avatar: Option<File>): (r: Option<string>)
    ensures r.None? <==> avatar.None? || (StartsWith(avatar.value.mimeType, "image/") && avatar.value.size <= MaxFileSize)
    ensures r.Some? && !StartsWith(avatar.value.mimeType, "image/") ==> r == Some("Only image files allowed")
  {
    if avatar.None? then None
    else if !StartsWith(avatar.value.mimeType, "image/") then Some("Only image files allowed")
    else if avatar.value.size > MaxFileSize then Some("Image must be less than 5MB")
    else None
  }

  /** One field's message, when it has one, added to an error record. */
  function WithError(e: map<Field, string>, field: Field, message: Option<string>): map<Field, string> {
    if message.Some? then e[field := message.value] else e
  }

  /** `validate`: the error record it builds (and stores in `errors`). */
  function Validate(f: Form): (r: map<Field, string>)
    ensures NameField in r <==> NameError(f.name).Some?
    ensures EmailField in r <==> EmailError(f.email).Some?
    ensures AvatarField in r <==> AvatarError(f.avatar).Some?
    ensures forall field | field in r :: r[field] != ""
  {
    var e := WithError(map[], NameField, NameError(f.name));
    var e := WithError(e, EmailField, EmailError(f.email));
    WithError(e, AvatarField, AvatarError(f.avatar))
  }

  /** What the form must satisfy for the check to pass, stated without trim or the character rule. */
  ghost predicate Acceptable(f: Form) {
    && !Blank(f.name) && |f.name| >= 3
    && MatchesEmailRegex(f.email)
    && (f.avatar.Some? ==> StartsWith(f.avatar.value.mimeType, "image/") && f.avatar.value.size <= MaxFileSize)
  }

  /**
   * Each field carries at most one message, chosen in the source's order:
   * blank name, then a name shorter than 3; blank email, then one the pattern
   * rejects; a non-image file whatever its size, then an image over 5 MiB.
   */
  lemma ValidateMessages(f: Form)
    ensures var e := Validate(f);
      && e.Keys <= {NameField, EmailField, AvatarField}
      && (NameField in e <==> Blank(f.name) || |f.name| < 3)
      && (Blank(f.name) ==> e[NameField] == "Name is required")
      && (!Blank(f.name) && |f.name| < 3 ==> e[NameField] == "Minimum 3 characters")
      && (EmailField in e <==> !MatchesEmailRegex(f.email))
      && (Blank(f.email) ==> e[EmailField] == "Email is required")
      && (!Blank(f.email) && !MatchesEmailRegex(f.email) ==> e[EmailField] == "Invalid email address")
      && (AvatarField in e <==>
            f.avatar.Some? && (!StartsWith(f.avatar.value.mimeType, "image/") || f.avatar.value.size > MaxFileSize))
      && (f.avatar.Some? && !StartsWith(f.avatar.value.mimeType, "image/") ==>
            e[AvatarField] == "Only image files allowed")
      && (f.avatar.Some? && StartsWith(f.avatar.value.mimeType, "image/") && f.avatar.value.size > MaxFileSize ==>
            e[AvatarField] == "Image must be less than 5MB")
  {
    TrimEmptyIffBlank(f.name);
    TrimEmptyIffBlank(f.email);
    EmailRuleMatchesRegex(f.email);
  }

  /** `validate` returns true (an empty record) exactly when the form is acceptable. */
  lemma ValidateEmptyIffAcceptable(f: Form)
    ensures Validate(f) == map[] <==> Acceptable(f)
  {
    ValidateMessages(f);
    var e := Validate(f);
    if Acceptable(f) {
      assert e.Keys == {};
    }
  }

  /** The size bound is inclusive: exactly 5 MiB passes, one byte more does not. */
  lemma SizeBoundary(mimeType: string)
    requires StartsWith(mimeType, "image/")
    ensures AvatarError(Some(File(mimeType, MaxFileSize))) == None
    ensures AvatarError(Some(File(mimeType, MaxFileSize + 1))) == Some("Image must be less than 5MB")
    ensures forall t: string, size: nat | !StartsWith(t, "image/") ::
      AvatarError(Some(File(t, size))) == Some("Only image files allowed")
    ensures forall size: nat :: AvatarError(Some(File("application/pdf", size))) == Some("Only image files allowed")
  {
    assert !StartsWith("application/pdf", "image/") by {
      assert "application/pdf"[0] != "image/"[0];
    }
  }

  /** "foo@bar" has no '.' in its domain; "foo@bar.com" passes. */
  lemma EmailExamples()
    ensures EmailError("foo@bar") == Some("Invalid email address")
    ensures EmailError("foo@bar.com") == None
  {
    var bad, good := "foo@bar", "foo@bar.com";
    assert !IsSpace(bad[0]);
    TrimEmptyIffBlank(bad);
    assert !IsEmailAddress(bad) by {
      forall a | 0 < a < |bad| && bad[a] == '@' ensures !(exists j | a + 1 < j < |bad| - 1 :: bad[j] == '.') {
        assert a == 3;
      }
    }
    assert !IsSpace(good[0]);
    TrimEmptyIffBlank(good);
    assert IsEmailAddress(good) by {
      assert good[3] == '@' && good[7] == '.';
      forall b | 0 <= b < |good| && good[b] == '@' ensures b == 3 { }
      forall k | 0 <= k < |good| ensures !IsSpace(good[k]) { }
    }
  }

  /** "Al" is too short, "Ale" is enough. */
  lemma NameExamples()
    ensures NameError("Al") == Some("Minimum 3 characters")
    ensures NameError("Ale") == None
  {
    assert !IsSpace("Al"[0]) && !IsSpace("Ale"[0]);
    TrimEmptyIffBlank("Al");
    TrimEmptyIffBlank("Ale");
  }
}
