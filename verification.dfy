/**
 * One verification call, `password_matches` (src/main.rs:118-149): parse the
 * archive, resolve the target member, open it with the candidate password
 * and read one byte. The `zip` crate's parsing, decryption and reading are
 * not modelled; their results enter as the fields of an `Archive` value.
 */
module Verification {
  import opened Wrappers
  import opened Resolver

  /** What `by_index_decrypt` returned for the target member. */
  datatype DecryptResult =
    | Decrypted                      // Ok(file)
    | InvalidPassword                // Err(ZipError::InvalidPassword)
    | DecryptFailed(detail: string)  // any other Err(error)

  /** A byte count that fits the one-byte buffer of src/main.rs:144. */
  type OneByteCount = n: nat | n <= 1

  /** What reading into the one-byte buffer returned: the byte count, or an I/O error. */
  datatype ReadResult = ReadOk(count: OneByteCount) | ReadFailed(detail: string)

  /** Why a verification could not reach a verdict; each becomes the `Err` printed at src/main.rs:75. */
  datatype Reason =
    | ArchiveUnreadable              // ZipArchive::new failed
    | NoTarget(error: ResolveError)  // resolution failed
    | DecryptError(detail: string)
    | ReadError(detail: string)

  /** `Ok(true)`, `Ok(false)` and `Err(_)` of `password_matches`. */
  datatype Verdict = Match | NoMatch | Error(reason: Reason)

  /**
   * The two `match`es of src/main.rs:138-148. Only the bad-password signal
   * means NoMatch; every other decryption failure and every read failure is
   * an Error carrying its detail, and a read that succeeds (whatever its byte
   * count) is a Match.
   */
  function Classify(d: DecryptResult, read: ReadResult): (v: Verdict)
    ensures v == NoMatch <==> d == InvalidPassword
    ensures v == Match <==> d == Decrypted && read.ReadOk?
    ensures v.Error? <==> d.DecryptFailed? || (d == Decrypted && read.ReadFailed?)
    ensures d.DecryptFailed? ==> v == Error(DecryptError(d.detail))
    ensures d == Decrypted && read.ReadFailed? ==> v == Error(ReadError(read.detail))
  {
    match d
    case InvalidPassword => NoMatch
    case DecryptFailed(detail) => Error(DecryptError(detail))
    case Decrypted =>
      match read
      case ReadOk(_) => Match
      case ReadFailed(detail) => Error(ReadError(detail))
  }

  /**
   * The immutable archive every verification sees: whether it parses, its
   * member table, and what decrypting and reading member `i` with a password
   * yields.
   */
  datatype Archive = Archive(
    parses: bool,
    entries: seq<Entry>,
    decrypt: (nat, string) -> DecryptResult,
    read: (nat, string) -> ReadResult)

  /**
   * `password_matches`. A verdict about the password (Match or NoMatch) is only
   * given for a parsed archive and a resolved member, and is then the
   * classification of decrypting and reading that member; a parse or
   * resolution failure is an Error whatever the password.
   */
  function PasswordMatches(a: Archive, password: string, target: Option<string>): (v: Verdict)
    ensures !a.parses ==> v == Error(ArchiveUnreadable)
    ensures a.parses && Resolve(a.entries, target).Unresolved? ==>
              v == Error(NoTarget(Resolve(a.entries, target).error))
    ensures (v.Match? || v.NoMatch?) ==> a.parses && Resolve(a.entries, target).Resolved?
    ensures a.parses && Resolve(a.entries, target).Resolved? ==>
              var i := Resolve(a.entries, target).index;
              (v == NoMatch <==> a.decrypt(i, password) == InvalidPassword) &&
              (v == Match <==> a.decrypt(i, password) == Decrypted && a.read(i, password).ReadOk?)
  {
    if !a.parses then Error(ArchiveUnreadable)
    else
      match Resolve(a.entries, target)
      case Unresolved(e) => Error(NoTarget(e))
      case Resolved(i) => Classify(a.decrypt(i, password), a.read(i, password))
  }
}
