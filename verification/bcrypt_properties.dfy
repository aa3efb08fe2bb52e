/**
 * The `bcrypt` configuration properties, their declared constraints, and
 * the start-up check of the strength.
 */
module BcryptProperties {
  import opened Wrappers
  import opened Errors

  datatype BcryptProperties = BcryptProperties(strength: Option<int>, mode: Option<string>, debugLoggingEnabled: bool)

  const Defaults := BcryptProperties(Some(12), Some("STANDARD"), false)

  const StrengthNull := "bcrypt.strength must not be null"
  const StrengthLow := "bcrypt.strength must be at least 4"
  const StrengthHigh := "bcrypt.strength must be at most 31"
  const ModeInvalid := "bcrypt.mode must be either 'STANDARD' or 'LEGACY'"
  const DebugRefused := "Debug logging can only be enabled when strength is 10 or less"
  const StrengthOutOfRange := "bcrypt.strength must be between 4 and 31"

  /** `isDebugAllowed`. */
  predicate IsDebugAllowed(p: BcryptProperties)
  {
    !p.debugLoggingEnabled || (p.strength.Some? && p.strength.value <= 10)
  }

  /** The messages of the constraints the properties break; an unset mode
   *  satisfies its pattern. */
  function Violations(p: BcryptProperties): (v: set<string>)
    ensures StrengthNull in v <==> p.strength.None?
    ensures StrengthLow in v <==> p.strength.Some? && p.strength.value < 4
    ensures StrengthHigh in v <==> p.strength.Some? && p.strength.value > 31
    ensures ModeInvalid in v <==> p.mode.Some? && p.mode.value != "STANDARD" && p.mode.value != "LEGACY"
    ensures DebugRefused in v <==> !IsDebugAllowed(p)
    ensures v <= {StrengthNull, StrengthLow, StrengthHigh, ModeInvalid, DebugRefused}
  {
    (if p.strength.None? then {StrengthNull} else {})
    + (if p.strength.Some? && p.strength.value < 4 then {StrengthLow} else {})
    + (if p.strength.Some? && p.strength.value > 31 then {StrengthHigh} else {})
    + (if p.mode.Some? && p.mode.value != "STANDARD" && p.mode.value != "LEGACY" then {ModeInvalid} else {})
    + (if !IsDebugAllowed(p) then {DebugRefused} else {})
  }

  /** `validateBcryptStrength`: unboxing an unset strength throws, and a
   *  strength outside 4..31 is refused. */
  function ValidateStrength(p: BcryptProperties): (r: Result<int, Exc>)
    ensures r.Ok? <==> p.strength.Some? && 4 <= p.strength.value <= 31
    ensures r.Ok? ==> r.value == p.strength.value
    ensures p.strength.None? ==> r.Err? && r.error.kind == NullPointer
    ensures p.strength.Some? && r.Err? ==> r.error == Exc(IllegalArgument, StrengthOutOfRange)
  {
    match p.strength
    case None => Err(Exc(NullPointer, "strength"))
    case Some(s) => if s < 4 || s > 31 then Err(Exc(IllegalArgument, StrengthOutOfRange)) else Ok(s)
  }

  /** The defaults satisfy every constraint; properties that satisfy them
   *  pass the start-up check, and the start-up check accepts exactly the
   *  strengths the declared constraints accept. */
  lemma ConstraintsAgreeWithStartup(p: BcryptProperties)
    ensures Violations(Defaults) == {}
    ensures Violations(p) == {} ==> ValidateStrength(p).Ok?
    ensures ValidateStrength(p).Ok? <==> StrengthNull !in Violations(p) && StrengthLow !in Violations(p) && StrengthHigh !in Violations(p)
    ensures p.debugLoggingEnabled && p.strength == Some(11) ==> Violations(p) == {DebugRefused} + (if p.mode.Some? && p.mode.value != "STANDARD" && p.mode.value != "LEGACY" then {ModeInvalid} else {})
  {
    assert StrengthNull !in Violations(Defaults);
    assert Violations(Defaults) == {};
  }
}
