/** Password rules. Hashing and checking are BCrypt's and are passed in as
    functions; only the length rule is the application's own. */
module PasswordUtil {
  import opened Wrappers
  import JavaText

  const MIN_PASSWORD_LENGTH: nat := 6

  /** `isValidPassword`: present and at least six UTF-16 code units long, as
      `String.length()` counts. Nothing else about the content matters. */
  function IsValidPassword(password: Option<string>): (valid: bool)
    ensures valid ==> password.Some? && |password.value| >= MIN_PASSWORD_LENGTH / 2
    ensures password.Some? && |password.value| >= MIN_PASSWORD_LENGTH ==> valid
  {
    match password
    case None => false
    case Some(p) => !(JavaText.Utf16Length(p) < MIN_PASSWORD_LENGTH)
  }

  /** For text in the Basic Multilingual Plane the rule is "at least six
      characters", in both directions. */
  lemma ValidPasswordBmp(p: string)
    requires forall i :: 0 <= i < |p| ==> p[i] as int <= 0xFFFF
    ensures IsValidPassword(Some(p)) <==> |p| >= MIN_PASSWORD_LENGTH
  {
    JavaText.Utf16LengthBmp(p);
  }

  /** Characters outside that plane count twice: three emoji pass. */
  lemma ThreeAstralCharactersPass()
    ensures IsValidPassword(Some("\U{1F600}\U{1F600}\U{1F600}"))
    ensures !IsValidPassword(Some("abcde"))
  {
    var s := "\U{1F600}\U{1F600}\U{1F600}";
    assert s[..2][..1] == s[..1];
    assert s[..1][..0] == [];
    assert JavaText.Utf16Length(s[..1]) == 2;
    assert JavaText.Utf16Length(s[..2]) == 4;
    ValidPasswordBmp("abcde");
  }

  /** Lengthening a valid password keeps it valid. */
  lemma ValidPasswordExtends(p: string, more: string)
    requires IsValidPassword(Some(p))
    ensures IsValidPassword(Some(p + more))
  {
    JavaText.Utf16LengthAppend(p, more);
  }

  /** Only the length counts: two passwords of equal UTF-16 length are both
      valid or both invalid, whatever characters they hold. */
  lemma ValidityDependsOnlyOnLength(p: string, q: string)
    requires JavaText.Utf16Length(p) == JavaText.Utf16Length(q)
    ensures IsValidPassword(Some(p)) == IsValidPassword(Some(q))
  {
  }

  /** `verifyPassword`: BCrypt's check, where any exception counts as a
      mismatch; a null password or a null stored hash makes BCrypt throw. */
  function VerifyPassword(plain: Option<string>, hashed: Option<string>, check: (string, string) -> bool): (ok: bool)
    ensures ok <==> plain.Some? && hashed.Some? && check(plain.value, hashed.value)
  {
    match (plain, hashed)
    case (Some(p), Some(h)) => check(p, h)
    case _ => false
  }
}
