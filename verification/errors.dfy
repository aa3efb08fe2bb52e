/**
 * The Java exception classes the backend throws or catches, flattened into one
 * enumeration, with the subclass relations the `catch` clauses depend on.
 */
module Errors {

  datatype Kind =
    | IllegalArgument        // java.lang.IllegalArgumentException
    | IllegalState           // java.lang.IllegalStateException
    | NullPointer            // java.lang.NullPointerException
    | NoSuchElement          // java.util.NoSuchElementException
    | Runtime                // java.lang.RuntimeException itself
    | Checked                // any checked exception (IOException, MessagingException, ...)
    | UsernameNotFound       // Spring Security, an AuthenticationException
    | BadCredentials         // Spring Security, an AuthenticationException
    | Disabled               // Spring Security, an AccountStatusException
    | Locked                 // Spring Security, an AccountStatusException
    | OtherAuthentication    // any further AuthenticationException subclass
    | DataIntegrityViolation // Spring DAO
    | DuplicateKey           // Spring DAO, a DataIntegrityViolationException
    | ExpiredJwt             // JJWT, a JwtException
    | Signature              // JJWT, a JwtException
    | Malformed              // JJWT, a JwtException
    | WeakKey                // JJWT, a JwtException
    | ConstraintViolation    // Jakarta Bean Validation, a ValidationException
    | TransactionSystem      // Spring, a TransactionException (a failed commit)
    | ResponseStatus(status: int) // Spring web, carries an HTTP status

  datatype Exc = Exc(kind: Kind, message: string)

  /** `catch (AuthenticationException e)` */
  predicate IsAuthentication(k: Kind)
  {
    k.UsernameNotFound? || k.BadCredentials? || k.Disabled? || k.Locked? || k.OtherAuthentication?
  }

  /** `catch (JwtException e)` */
  predicate IsJwt(k: Kind)
  {
    k.ExpiredJwt? || k.Signature? || k.Malformed? || k.WeakKey?
  }

  /** `catch (DataIntegrityViolationException e)` */
  predicate IsDataIntegrity(k: Kind)
  {
    k == DataIntegrityViolation || k == DuplicateKey
  }

  /** `catch (RuntimeException e)`: everything except a checked exception. */
  predicate IsRuntime(k: Kind)
  {
    k != Checked
  }
}
