/** `start_session` and `end_session` over gncli's module-global `session`. The
    GnuCash backend (opening a book, saving it) is an outcome supplied by the caller. */
module Session {
  import opened Errors
  import opened Flags
  import opened BackendMessage

  /** What the backend call does: succeed, or raise GnuCashBackendException with a message. */
  datatype BackendOutcome = Succeeds | Fails(message: string)

  /** An open GnuCash session, as `gnucash.Session(...)` was asked to open it. */
  datatype BookSession = BookSession(connectionString: string, isNew: bool, ignoreLock: bool)

  const InvalidConnectionString :=
    Error("InvalidConnectionString", "A connection string must be supplied",
          map["field" := "connection_string"])
  const InvalidIsNew :=
    Error("InvalidIsNew", "is_new must be true or false", map["field" := "is_new"])
  const InvalidIgnoreLock :=
    Error("InvalidIgnoreLock", "ignore_lock must be true or false", map["field" := "ignore_lock"])
  const SessionExists := Error("SessionExists", "The session already exists", map[])
  const SessionDoesNotExist := Error("SessionDoesNotExist", "The session does not exist", map[])

  const StartFailedMessage := "There was an error starting the session"
  const SaveFailedMessage := "There was an error saving the session"

  /** The failure raised for a backend exception with message `m`: an Error carrying the
      message and the code parsed out of it, unless the parse itself crashes. */
  function BackendFailure(message: string, m: string): (f: Raised)
    ensures f.AppError? <==> ParseGnucashBackendException(m).Some?
    ensures f.AppError? ==>
      f.error.tag == "GnuCashBackendException" && f.error.message == message &&
      f.error.data == map["message" := m, "code" := ParseGnucashBackendException(m).value]
    ensures f.Uncaught? ==> f.exception == "AttributeError"
  {
    match ParseGnucashBackendException(m)
    case None => Uncaught("AttributeError")
    case Some(code) =>
      AppError(Error("GnuCashBackendException", message, map["message" := m, "code" := code]))
  }

  /** All three arguments are the empty string: the case where `start_session` consults
      the undefined global `app` and raises NameError. */
  predicate AllBlank(connectionString: string, isNew: Arg, ignoreLock: Arg) {
    connectionString == "" && isNew == Text("") && ignoreLock == Text("")
  }

  /** gncli's module globals. */
  class Gncli {
    var session: Option<BookSession>

    /** The module as loaded: `session = None`. */
    constructor ()
      ensures session == None
    {
      session := None;
    }

    /** `start_session`: the checks run in a fixed order, each failure leaves `session`
        as it was, and `session` is set exactly when every check passes and the backend
        opens the book. */
    method StartSession(connectionString: string, isNew: Arg, ignoreLock: Arg, backend: BackendOutcome)
      returns (r: Result<BookSession, Raised>)
      modifies this
      ensures AllBlank(connectionString, isNew, ignoreLock) ==> r == Err(Uncaught("NameError"))
      ensures connectionString == "" && !AllBlank(connectionString, isNew, ignoreLock) ==>
        r == Err(AppError(InvalidConnectionString))
      ensures connectionString != "" && ParseFlag(isNew).None? ==> r == Err(AppError(InvalidIsNew))
      ensures connectionString != "" && ParseFlag(isNew).Some? && ParseFlag(ignoreLock).None? ==>
        r == Err(AppError(InvalidIgnoreLock))
      ensures connectionString != "" && ParseFlag(isNew).Some? && ParseFlag(ignoreLock).Some? ==>
        r == if old(session).Some? then Err(AppError(SessionExists))
             else match backend
               case Succeeds =>
                 Ok(BookSession(connectionString, ParseFlag(isNew).value, ParseFlag(ignoreLock).value))
               case Fails(m) => Err(BackendFailure(StartFailedMessage, m))
      ensures session == if r.Ok? then Some(r.value) else old(session)
    {
      if AllBlank(connectionString, isNew, ignoreLock) {
        return Err(Uncaught("NameError"));
      }
      if connectionString == "" {
        return Err(AppError(InvalidConnectionString));
      }
      var newBook := ParseFlag(isNew);
      if newBook.None? {
        return Err(AppError(InvalidIsNew));
      }
      var noLock := ParseFlag(ignoreLock);
      if noLock.None? {
        return Err(AppError(InvalidIgnoreLock));
      }
      if session.Some? {
        return Err(AppError(SessionExists));
      }
      match backend {
        case Fails(m) =>
          return Err(BackendFailure(StartFailedMessage, m));
        case Succeeds =>
          session := Some(BookSession(connectionString, newBook.value, noLock.value));
          return Ok(session.value);
      }
    }

    /** `end_session`: without a session it raises SessionDoesNotExist; a failed save
        raises and keeps the session; a successful save ends it and clears `session`. */
    method EndSession(save: BackendOutcome) returns (r: Result<(), Raised>)
      modifies this
      ensures old(session).None? ==> r == Err(AppError(SessionDoesNotExist))
      ensures old(session).Some? ==>
        r == match save
          case Succeeds => Ok(())
          case Fails(m) => Err(BackendFailure(SaveFailedMessage, m))
      ensures session == if r.Ok? then None else old(session)
    {
      if session == None {
        return Err(AppError(SessionDoesNotExist));
      }
      match save {
        case Fails(m) =>
          return Err(BackendFailure(SaveFailedMessage, m));
        case Succeeds =>
          session := None;
          return Ok(());
      }
    }
  }
}
