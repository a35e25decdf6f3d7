/** Remote failures as they travel from the native mail layer
    (`src-tauri/src/net/errors.rs`) through `src/remote/errors.ts`. */
module RemoteErrors {
  import opened Base

  datatype Kind =
    | Auth | Network | Unavailable | Protocol | MalformedRemoteData | StateInvalid
    | Conflict | Unsupported | RateLimited | TooLarge | Rejected | Unexpected

  datatype Retry = Never | SafeImmediate | SafeBackoff | Reconcile

  datatype Disposition = Keep | Expire

  datatype Outcome = NotApplicable | KnownNotApplied | Unknown

  datatype RemoteError = RemoteError(kind: Kind, retry: Retry, session: Disposition, outcome: Outcome)
  {
    predicate RetrySafe() {
      retry.SafeImmediate? || retry.SafeBackoff?
    }

    /** The failure leaves open whether the remote applied the operation. */
    predicate Ambiguous() {
      outcome.Unknown? || retry.Reconcile?
    }

    /** The failures after which some runner schedules another attempt. Everything
        proved about duplicates rests on these, and only these, being truthful. */
    predicate InvitesRetry() {
      RetrySafe() && !outcome.Unknown?
    }
  }

  /** What the outbox takes as proof that a mutation was not applied. */
  predicate CertainlyNotApplied(error: RemoteError) {
    !error.outcome.Unknown?
  }

  /** A report of a remote mutation is truthful about retries: it invites one only if the mutation
      had no effect. */
  predicate TellsTruth(failure: Option<RemoteError>, effect: bool) {
    failure.Some? && failure.value.InvitesRetry() ==> !effect
  }

  // The constructors of `NativeMailErrorDto`.
  const UNAVAILABLE := RemoteError(Unavailable, SafeBackoff, Expire, KnownNotApplied)
  const AUTH := RemoteError(Auth, Never, Expire, KnownNotApplied)
  const PROTOCOL := RemoteError(Protocol, Never, Expire, KnownNotApplied)
  const STATE_INVALID := RemoteError(StateInvalid, Never, Keep, KnownNotApplied)
  const CONFLICT := RemoteError(Conflict, SafeImmediate, Keep, KnownNotApplied)
  const REJECTED := RemoteError(Rejected, Never, Keep, KnownNotApplied)
  const TRANSIENT := RemoteError(Unavailable, SafeBackoff, Keep, KnownNotApplied)
  const TOO_LARGE := RemoteError(TooLarge, Never, Keep, KnownNotApplied)
  const AMBIGUOUS := RemoteError(Network, Reconcile, Keep, Unknown)

  const NATIVE_ERRORS: set<RemoteError> :=
    {UNAVAILABLE, AUTH, PROTOCOL, STATE_INVALID, CONFLICT, REJECTED, TRANSIENT, TOO_LARGE, AMBIGUOUS}

  /** What each error of the native layer tells the outbox and the session: three may be tried
      again, one leaves everything open, three end the session. */
  lemma NativeErrorsSay(error: RemoteError)
    requires error in NATIVE_ERRORS
    ensures error.InvitesRetry() <==> error in {UNAVAILABLE, TRANSIENT, CONFLICT}
    ensures error.Ambiguous() <==> error == AMBIGUOUS
    ensures CertainlyNotApplied(error) <==> error != AMBIGUOUS
    ensures error.session.Expire? <==> error in {UNAVAILABLE, AUTH, PROTOCOL}
    ensures error.kind == Auth <==> error == AUTH
    ensures error.kind in {Network, Unavailable} <==> error in {UNAVAILABLE, TRANSIENT, AMBIGUOUS}
  {
  }
}
