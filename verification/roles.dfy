/**
 * User roles.  Both backend generations declare the same three roles with the
 * same display names; they differ in how a display name is looked up: the
 * current generation lower-cases the name and looks it up in a table keyed by
 * lower-cased display names, the legacy one scans the roles in declaration
 * order comparing with `equalsIgnoreCase`.  Java's case mapping is modelled
 * on ASCII and on the four characters outside ASCII whose upper or lower
 * case is an ASCII letter (dotless i, long s, capital I with dot above and
 * the Kelvin sign); every other character keeps itself, which changes no
 * comparison with an all-ASCII display name.
 */
module Roles {
  import opened Wrappers
  import opened Text
  import opened Errors

  datatype Role = User | Admin | Developer

  /** Declaration order. */
  const AllRoles: seq<Role> := [User, Admin, Developer]

  lemma EveryRoleListed(r: Role)
    ensures r in AllRoles
  {
    match r
    case User => assert AllRoles[0] == User;
    case Admin => assert AllRoles[1] == Admin;
    case Developer => assert AllRoles[2] == Developer;
  }

  function DisplayName(r: Role): string
  {
    match r
    case User => "User"
    case Admin => "Admin"
    case Developer => "Developer"
  }

  /** `Role.name()`: the enum constant's identifier, as stored in the
   *  database and used for authorities. */
  function ConstantName(r: Role): string
  {
    match r
    case User => "USER"
    case Admin => "ADMIN"
    case Developer => "DEVELOPER"
  }

  /** The cached list of display names used in error messages. */
  function AvailableRoles(): (s: string)
    ensures s == "User, Admin, Developer"
  {
    Join([DisplayName(User), DisplayName(Admin), DisplayName(Developer)], ", ")
  }

  /** Display names are distinct even ignoring case, so the lookup table of
   *  lower-cased names loses no role. */
  lemma LowerDisplayNamesDistinct(a: Role, b: Role)
    requires Lower(DisplayName(a)) == Lower(DisplayName(b))
    ensures a == b
  {
  }

  const NullDisplayName := "Display name cannot be null."

  /** `Character.toLowerCase`: ASCII capitals, capital I with dot above and
   *  the Kelvin sign become ASCII letters. */
  function JavaLowerChar(c: char): (r: char)
    ensures 'A' <= c <= 'Z' ==> r == LowerChar(c)
    ensures r != c ==> ('A' <= c <= 'Z' || c == '\U{0130}' || c == '\U{212A}')
  {
    if 'A' <= c <= 'Z' then LowerChar(c)
    else if c == '\U{0130}' then 'i'
    else if c == '\U{212A}' then 'k'
    else c
  }

  /** `Character.toUpperCase`: ASCII small letters, dotless i and long s
   *  become ASCII capitals. */
  function JavaUpperChar(c: char): (r: char)
    ensures 'a' <= c <= 'z' ==> r == UpperChar(c)
    ensures r != c ==> ('a' <= c <= 'z' || c == '\U{0131}' || c == '\U{017F}')
  {
    if 'a' <= c <= 'z' then UpperChar(c)
    else if c == '\U{0131}' then 'I'
    else if c == '\U{017F}' then 'S'
    else c
  }

  /** `String.toLowerCase()` outside a Turkic locale: as the character
   *  mapping, except that capital I with dot above becomes an i followed by
   *  a combining dot above. */
  function JavaLowerCase(s: string): (r: string)
    ensures |r| >= |s|
    ensures (forall i | 0 <= i < |s| :: s[i] != '\U{0130}') ==> |r| == |s| && forall i | 0 <= i < |s| :: r[i] == JavaLowerChar(s[i])
  {
    if s == [] then []
    else (if s[0] == '\U{0130}' then "i\U{0307}" else [JavaLowerChar(s[0])]) + JavaLowerCase(s[1..])
  }

  /** Text of ASCII small letters other than k, as every lower-cased
   *  display name is. */
  predicate PlainKey(t: string)
  {
    forall i | 0 <= i < |t| :: 'a' <= t[i] <= 'z' && t[i] != 'k'
  }

  lemma LowerDisplayNamePlain(r: Role)
    ensures PlainKey(Lower(DisplayName(r)))
  {
    match r
    case User => assert Lower("User") == "user";
    case Admin => assert Lower("Admin") == "admin";
    case Developer => assert Lower("Developer") == "developer";
  }

  /** Against a key of ASCII small letters without k, Java's lower-casing
   *  matches exactly when lower-casing ASCII letters alone does: no
   *  character outside ASCII lower-cases into such a key. */
  lemma {:induction false} JavaLowerCaseMatchesAscii(s: string, t: string)
    requires PlainKey(t)
    ensures JavaLowerCase(s) == t <==> Lower(s) == t
  {
    if s != [] {
      var rest := JavaLowerCase(s[1..]);
      assert Lower(s) == [LowerChar(s[0])] + Lower(s[1..]);
      if t != [] {
        assert PlainKey(t[1..]);
        JavaLowerCaseMatchesAscii(s[1..], t[1..]);
      }
      if s[0] == '\U{0130}' {
        assert JavaLowerCase(s)[1] == '\U{0307}';
        if |t| > 0 { assert Lower(s)[0] != t[0]; }
      } else {
        assert JavaLowerCase(s) == [JavaLowerChar(s[0])] + rest;
        if t != [] {
          assert JavaLowerChar(s[0]) == t[0] <==> LowerChar(s[0]) == t[0];
          assert JavaLowerCase(s) == t <==> JavaLowerChar(s[0]) == t[0] && rest == t[1..];
          assert Lower(s) == t <==> LowerChar(s[0]) == t[0] && Lower(s[1..]) == t[1..];
        }
      }
    }
  }

  /** `Role.fromDisplayName` (current generation): null is a
   *  NullPointerException, an unknown name an IllegalArgumentException that
   *  lists the available roles.  Although Java lower-cases the whole of
   *  Unicode, a name is accepted exactly when it spells a display name up
   *  to the case of ASCII letters. */
  function FromDisplayName(name: Option<string>): (r: Result<Role, Exc>)
    ensures name.None? ==> r == Err(Exc(NullPointer, NullDisplayName))
    ensures r.Ok? ==> name.Some? && Lower(name.value) == Lower(DisplayName(r.value))
    ensures forall role: Role | name.Some? && Lower(name.value) == Lower(DisplayName(role)) :: r == Ok(role)
    ensures name.Some? && r.Err? ==>
              r.error == Exc(IllegalArgument, "Invalid role: '" + name.value + "'. Available roles: " + AvailableRoles())
  {
    if name.None? then Err(Exc(NullPointer, NullDisplayName))
    else
      var key := JavaLowerCase(name.value);
      forall role: Role ensures key == Lower(DisplayName(role)) <==> Lower(name.value) == Lower(DisplayName(role)) {
        LowerDisplayNamePlain(role);
        JavaLowerCaseMatchesAscii(name.value, Lower(DisplayName(role)));
      }
      if key == Lower(DisplayName(User)) then Ok(User)
      else if key == Lower(DisplayName(Admin)) then Ok(Admin)
      else if key == Lower(DisplayName(Developer)) then Ok(Developer)
      else Err(Exc(IllegalArgument, "Invalid role: '" + name.value + "'. Available roles: " + AvailableRoles()))
  }

  /** The display name reads back as its role. */
  lemma DisplayNameRoundTrip(r: Role)
    ensures FromDisplayName(Some(DisplayName(r))) == Ok(r)
  {
  }

  /** The lookup ignores case: a name and its lower-cased form find the same role. */
  lemma FromDisplayNameIgnoresCase(s: string)
    ensures FromDisplayName(Some(s)).Ok? <==> FromDisplayName(Some(Lower(s))).Ok?
    ensures FromDisplayName(Some(s)).Ok? ==> FromDisplayName(Some(s)).value == FromDisplayName(Some(Lower(s))).value
  {
    LowerIdempotent(s);
  }

  /** `fromDisplayNameForJson`: request bodies name roles exactly as the
   *  lookup reads them. */
  function FromJson(name: Option<string>): (r: Result<Role, Exc>)
    ensures forall role: Role :: r == Ok(role) <==> name.Some? && Lower(name.value) == Lower(DisplayName(role))
  {
    FromDisplayName(name)
  }

  // ----- legacy generation -----

  /** `String.equalsIgnoreCase` on one pair of characters: equal, equal
   *  upper cases, or equal lower cases of the upper cases. */
  predicate SameIgnoringCase(a: char, b: char)
  {
    a == b || JavaUpperChar(a) == JavaUpperChar(b)
    || JavaLowerChar(JavaUpperChar(a)) == JavaLowerChar(JavaUpperChar(b))
  }

  predicate EqualsIgnoreCase(a: string, b: string)
  {
    |a| == |b| && forall i | 0 <= i < |a| :: SameIgnoringCase(a[i], b[i])
  }

  /** The case fold `equalsIgnoreCase` compares by in the end. */
  function Fold(c: char): char
  {
    JavaLowerChar(JavaUpperChar(c))
  }

  function Folded(s: string): (r: string)
    ensures |r| == |s|
  {
    seq(|s|, i requires 0 <= i < |s| => Fold(s[i]))
  }

  lemma SameIgnoringCaseIsFoldEqual(a: char, b: char)
    ensures SameIgnoringCase(a, b) <==> Fold(a) == Fold(b)
  {
  }

  /** `equalsIgnoreCase` is equality of the folded forms. */
  lemma EqualsIgnoreCaseIsFoldEqual(a: string, b: string)
    ensures EqualsIgnoreCase(a, b) <==> Folded(a) == Folded(b)
  {
    if |a| == |b| {
      forall i | 0 <= i < |a| ensures SameIgnoringCase(a[i], b[i]) <==> Folded(a)[i] == Folded(b)[i] {
        SameIgnoringCaseIsFoldEqual(a[i], b[i]);
      }
      if Folded(a) == Folded(b) {
        assert forall i | 0 <= i < |a| :: Folded(a)[i] == Folded(b)[i];
      }
    }
  }

  /** The characters outside ASCII that fold onto an ASCII letter other
   *  than k: dotless i, long s and capital I with dot above. */
  predicate FoldsOntoAscii(c: char)
  {
    c == '\U{0131}' || c == '\U{017F}' || c == '\U{0130}'
  }

  /** Away from those three characters, folding and lower-casing ASCII
   *  letters agree on every comparison with a plain key. */
  lemma FoldedMatchesLower(s: string, t: string)
    requires PlainKey(t)
    requires forall i | 0 <= i < |s| :: !FoldsOntoAscii(s[i])
    ensures Folded(s) == t <==> Lower(s) == t
  {
    if |s| == |t| {
      forall i | 0 <= i < |s| ensures Folded(s)[i] == t[i] <==> Lower(s)[i] == t[i] {
        assert 'a' <= t[i] <= 'z' && t[i] != 'k';
      }
      if Folded(s) == t { assert forall i | 0 <= i < |s| :: Lower(s)[i] == t[i]; }
      if Lower(s) == t { assert forall i | 0 <= i < |s| :: Folded(s)[i] == t[i]; }
    }
  }

  /** The first role, in `roles` order, whose display name equals `name`
   *  ignoring case. */
  function FirstMatching(roles: seq<Role>, name: string): (r: Option<Role>)
    ensures r.Some? ==> r.value in roles && EqualsIgnoreCase(DisplayName(r.value), name)
    ensures r.None? ==> forall role | role in roles :: !EqualsIgnoreCase(DisplayName(role), name)
  {
    if roles == [] then None
    else if EqualsIgnoreCase(DisplayName(roles[0]), name) then Some(roles[0])
    else FirstMatching(roles[1..], name)
  }

  /** `Role.fromDisplayName` (legacy generation): null is an
   *  IllegalArgumentException, an unknown name a NoSuchElementException. */
  function LegacyFromDisplayName(name: Option<string>): (r: Result<Role, Exc>)
    ensures name.None? ==> r == Err(Exc(IllegalArgument, NullDisplayName))
    ensures r.Ok? ==> name.Some? && EqualsIgnoreCase(DisplayName(r.value), name.value)
    ensures name.Some? && r.Err? ==>
              r.error == Exc(NoSuchElement, "No role found for display name: " + name.value)
              && forall role: Role :: !EqualsIgnoreCase(DisplayName(role), name.value)
  {
    if name.None? then Err(Exc(IllegalArgument, NullDisplayName))
    else match FirstMatching(AllRoles, name.value)
      case Some(role) => Ok(role)
      case None =>
        assert forall role: Role :: role in AllRoles by {
          forall role: Role ensures role in AllRoles { EveryRoleListed(role); }
        }
        Err(Exc(NoSuchElement, "No role found for display name: " + name.value))
  }

  /** Folding a display name gives its lower-cased form. */
  lemma FoldedDisplayName(r: Role)
    ensures Folded(DisplayName(r)) == Lower(DisplayName(r))
  {
    match r
    case User => assert Folded("User") == "user";
    case Admin => assert Folded("Admin") == "admin";
    case Developer => assert Folded("Developer") == "developer";
  }

  /** For a name free of dotless i, long s and capital I with dot above,
   *  the two generations accept the same display names and map them to the
   *  same role; they differ only in the exception for a bad name. */
  lemma GenerationsAgree(s: string)
    requires forall i | 0 <= i < |s| :: !FoldsOntoAscii(s[i])
    ensures FromDisplayName(Some(s)).Ok? <==> LegacyFromDisplayName(Some(s)).Ok?
    ensures FromDisplayName(Some(s)).Ok? ==> FromDisplayName(Some(s)).value == LegacyFromDisplayName(Some(s)).value
  {
    forall role: Role ensures EqualsIgnoreCase(DisplayName(role), s) <==> Lower(s) == Lower(DisplayName(role)) {
      EqualsIgnoreCaseIsFoldEqual(DisplayName(role), s);
      FoldedDisplayName(role);
      LowerDisplayNamePlain(role);
      FoldedMatchesLower(s, Lower(DisplayName(role)));
    }
    var legacy := LegacyFromDisplayName(Some(s));
    if legacy.Ok? {
      assert Lower(s) == Lower(DisplayName(legacy.value));
    }
  }

  /** The generations part on the characters outside ASCII that Java folds
   *  onto ASCII letters: a name that folds onto a display name and holds
   *  dotless i, long s or capital I with dot above is taken by the legacy
   *  lookup and refused by the current one. */
  lemma GenerationsDifferOn(s: string, role: Role)
    requires Folded(s) == Lower(DisplayName(role))
    requires exists i | 0 <= i < |s| :: FoldsOntoAscii(s[i])
    ensures LegacyFromDisplayName(Some(s)) == Ok(role)
    ensures FromDisplayName(Some(s)).Err?
  {
    EqualsIgnoreCaseIsFoldEqual(DisplayName(role), s);
    FoldedDisplayName(role);
    var legacy := LegacyFromDisplayName(Some(s));
    var other := legacy.value;
    EqualsIgnoreCaseIsFoldEqual(DisplayName(other), s);
    FoldedDisplayName(other);
    LowerDisplayNamesDistinct(other, role);
    var i :| 0 <= i < |s| && FoldsOntoAscii(s[i]);
    forall r: Role ensures Lower(s) != Lower(DisplayName(r)) {
      LowerDisplayNamePlain(r);
      assert Lower(s)[i] == s[i];
    }
  }

  /** "Admın", with a dotless i: the legacy lookup takes it as Admin. */
  lemma DotlessIParts()
    ensures LegacyFromDisplayName(Some("Adm\U{0131}n")) == Ok(Admin) && FromDisplayName(Some("Adm\U{0131}n")).Err?
  {
    assert Folded("Adm\U{0131}n") == "admin" by {
      assert Fold('\U{0131}') == 'i';
    }
    assert FoldsOntoAscii("Adm\U{0131}n"[3]);
    GenerationsDifferOn("Adm\U{0131}n", Admin);
  }

  /** "AdmİN", with a capital I with dot above: the legacy lookup takes it
   *  as Admin, while `toLowerCase` turns it into "admi\u0307n". */
  lemma DottedCapitalIParts()
    ensures LegacyFromDisplayName(Some("Adm\U{0130}N")) == Ok(Admin) && FromDisplayName(Some("Adm\U{0130}N")).Err?
  {
    assert Folded("Adm\U{0130}N") == "admin" by {
      assert Fold('\U{0130}') == 'i';
    }
    assert FoldsOntoAscii("Adm\U{0130}N"[3]);
    GenerationsDifferOn("Adm\U{0130}N", Admin);
  }

  /** "Uſer", with a long s: the legacy lookup takes it as User. */
  lemma LongSParts()
    ensures LegacyFromDisplayName(Some("U\U{017F}er")) == Ok(User) && FromDisplayName(Some("U\U{017F}er")).Err?
  {
    assert Folded("U\U{017F}er") == "user" by {
      assert Fold('\U{017F}') == 's';
    }
    assert FoldsOntoAscii("U\U{017F}er"[1]);
    GenerationsDifferOn("U\U{017F}er", User);
  }
}
