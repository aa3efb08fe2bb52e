/**
 * The Jakarta Bean Validation constraints the backend declares, as Hibernate
 * Validator checks them.  Whether a text is a well-formed e-mail address
 * (Hibernate's `@Email` pattern) is an oracle `isEmail`, and whether it is a
 * URL `java.net.URL` accepts (Hibernate's `@URL`) an oracle `isUrl`; every
 * other check is written out.
 */
module BeanValidation {
  import opened Wrappers
  import opened Text

  /** Some character of `s` lies above U+0020, so Java's `trim()` leaves
   *  something (see `NotBlankIsTrimNonEmpty`). */
  predicate HasVisible(s: string)
  {
    |s| > 0 && (s[0] > ' ' || HasVisible(s[1..]))
  }

  /** `@NotBlank`: present, and something is left after Java's `trim()`. */
  predicate NotBlank(s: Option<string>)
  {
    s.Some? && HasVisible(s.value)
  }

  lemma {:induction false} HasVisibleIffSome(s: string)
    ensures HasVisible(s) <==> exists i | 0 <= i < |s| :: s[i] > ' '
  {
    if |s| > 0 {
      HasVisibleIffSome(s[1..]);
      if s[0] <= ' ' && (exists i | 0 <= i < |s| :: s[i] > ' ') {
        var i :| 0 <= i < |s| && s[i] > ' ';
        assert s[1..][i - 1] > ' ';
      }
    }
  }

  /** The definition above is Java's: `trim()` of the value is non-empty. */
  lemma NotBlankIsTrimNonEmpty(s: string)
    ensures NotBlank(Some(s)) <==> JavaTrim(s) != []
  {
    HasVisibleIffSome(s);
  }

  /** `@Size(min, max)` on a text: an absent value passes; lengths count
   *  characters. */
  predicate SizeWithin(s: Option<string>, min: nat, max: nat)
  {
    s.None? || min <= |s.value| <= max
  }

  /** `@Email`: an absent or empty value passes; anything else must satisfy
   *  the address pattern. */
  predicate EmailShaped(isEmail: string -> bool, s: Option<string>)
  {
    s.None? || s.value == [] || isEmail(s.value)
  }

  /** `@URL` with no protocol, host or port required: an absent or empty
   *  value passes; anything else must parse as a URL. */
  predicate UrlShaped(isUrl: string -> bool, s: Option<string>)
  {
    s.None? || s.value == [] || isUrl(s.value)
  }

  /** `@NotEmpty` on a list: present and holding something. */
  predicate NotEmptyList<T>(l: Option<seq<T>>)
  {
    l.Some? && l.value != []
  }

  /** `List<@NotBlank @Email String>`: an absent list passes; otherwise every
   *  element is a non-blank well-formed address. */
  predicate AllAddresses(isEmail: string -> bool, l: Option<seq<string>>)
  {
    l.None? || forall i | 0 <= i < |l.value| :: NotBlank(Some(l.value[i])) && EmailShaped(isEmail, Some(l.value[i]))
  }

  /** `@NotBlank` holds exactly when some character lies above U+0020. */
  lemma NotBlankIffVisibleCharacter(s: string)
    ensures NotBlank(Some(s)) <==> exists i | 0 <= i < |s| :: s[i] > ' '
    ensures !NotBlank(None)
  {
    HasVisibleIffSome(s);
  }

  /** `@NotBlank` (trimming) and `isBlank` (`Character.isWhitespace`) are two
   *  different notions of blank: a NUL character is blank to the first only,
   *  an em space to the second only. */
  lemma BlanknessNotionsDiffer()
    ensures !NotBlank(Some("\0")) && !IsJavaBlank("\0")
    ensures NotBlank(Some("\U{2003}")) && IsJavaBlank("\U{2003}")
  {
    assert !IsJavaWhitespace("\0"[0]);
    assert HasVisible("\U{2003}") by {
      assert "\U{2003}"[0] > ' ';
    }
  }

  /** `@Email` only judges what is there: the empty text passes whatever
   *  the pattern says. */
  lemma EmptyPassesEmail(isEmail: string -> bool)
    ensures EmailShaped(isEmail, Some("")) && EmailShaped(isEmail, None)
    ensures forall s | s != [] :: EmailShaped(isEmail, Some(s)) <==> isEmail(s)
  {
  }
}
