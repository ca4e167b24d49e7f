/** `executeCmd`: dispatching one command on a session through a fresh
    exec channel. Opening and connecting the channel are transport calls,
    modelled by a `ChannelAttempt` value saying how they turn out. */
module SshCommands {
  import opened Wrappers
  import opened JavaText
  import opened SshCredentials
  import opened SshSessions

  /** How the transport answers: `openChannel("exec")` throws, or it yields a
      channel whose `connect()` then throws or succeeds. */
  datatype ChannelAttempt = OpenThrows | ConnectThrows(handle: nat) | Opens(handle: nat)

  /** An exec channel bound to one command. No input stream is ever attached
      to it, so the remote command cannot read input. */
  datatype Channel = Channel(handle: nat, command: string, connected: bool)

  /** Exceptions `executeCmd` throws: the two argument checks, the transport's
      own failures rethrown, and the NullPointerException raised by calling
      `disconnect()` on a channel that was never opened. */
  datatype ExecError =
    | NullSession
    | NullCommand
    | ChannelOpenFailed
    | ChannelConnectFailed(released: Channel)
    | NullDereference

  /** `executeCmd` exactly as the source reads: when `openChannel` throws, the
      catch block still calls `channel.disconnect()` on the null channel. A
      disconnected session yields `Success(None)` (a null return). */
  function ExecuteCmdAsWritten(session: Option<Session>, cmd: Option<string>, attempt: ChannelAttempt): (r: Result<Option<Channel>, ExecError>)
    ensures session.None? ==> r == Failure(NullSession)
    ensures session.Some? && cmd.None? ==> r == Failure(NullCommand)
    ensures session.Some? && cmd.Some? && !session.value.connected ==> r == Success(None)
    ensures r.Success? && r.value.Some? ==> session.Some? && session.value.connected
  {
    if session.None? then Failure(NullSession)
    else if cmd.None? then Failure(NullCommand)
    else if !session.value.connected then Success(None)
    else match attempt
      case OpenThrows => Failure(NullDereference)
      case ConnectThrows(h) => Failure(ChannelConnectFailed(Channel(h, cmd.value, false)))
      case Opens(h) => Success(Some(Channel(h, cmd.value, true)))
  }

  /** The defect: with a connected session, a failing `openChannel` reaches the
      caller as a NullPointerException, and the transport's own exception is lost. */
  lemma OpenFailureAsWritten(session: Session, cmd: string)
    requires session.connected
    ensures ExecuteCmdAsWritten(Some(session), Some(cmd), OpenThrows) == Failure(NullDereference)
  {
  }

  /** The failure the transport raised, as `executeCmd` is meant to rethrow it. */
  predicate RethrowsCause(attempt: ChannelAttempt, e: ExecError) {
    match attempt
    case OpenThrows => e == ChannelOpenFailed
    case ConnectThrows(h) => e.ChannelConnectFailed? && e.released.handle == h && !e.released.connected
    case Opens(_) => false
  }

  /** `executeCmd` with the release step guarded by "a channel was opened":
      both null checks come first; a channel is opened only on a connected
      session and is handed back connected and bound to `cmd`; every transport
      failure is rethrown as itself, after the channel (if any) is released. */
  function ExecuteCmd(session: Option<Session>, cmd: Option<string>, attempt: ChannelAttempt): (r: Result<Option<Channel>, ExecError>)
    ensures session.None? ==> r == Failure(NullSession)
    ensures session.Some? && cmd.None? ==> r == Failure(NullCommand)
    ensures session.Some? && cmd.Some? && !session.value.connected ==> r == Success(None)
    ensures r.Success? && r.value.Some? ==>
              session.Some? && session.value.connected && cmd.Some?
              && r.value.value.command == cmd.value && r.value.value.connected
    ensures session.Some? && cmd.Some? && session.value.connected ==>
              (r.Failure? <==> !attempt.Opens?) && (r.Failure? ==> RethrowsCause(attempt, r.error))
    ensures r.Failure? ==> !r.error.NullDereference?
  {
    if session.None? then Failure(NullSession)
    else if cmd.None? then Failure(NullCommand)
    else if !session.value.connected then Success(None)
    else match attempt
      case OpenThrows => Failure(ChannelOpenFailed)
      case ConnectThrows(h) => Failure(ChannelConnectFailed(Channel(h, cmd.value, false)))
      case Opens(h) => Success(Some(Channel(h, cmd.value, true)))
  }

  /** The correction changes nothing but the failed-open case. */
  lemma ExecuteCmdAgreesElsewhere(session: Option<Session>, cmd: Option<string>, attempt: ChannelAttempt)
    requires !(session.Some? && session.value.connected && cmd.Some? && attempt.OpenThrows?)
    ensures ExecuteCmd(session, cmd, attempt) == ExecuteCmdAsWritten(session, cmd, attempt)
  {
  }

  /** Only `null` is refused: an empty command passes the argument checks and
      is sent down a channel like any other. */
  lemma EmptyCommandNotRejected(session: Session, handle: nat)
    requires session.connected
    ensures ExecuteCmd(Some(session), Some(""), Opens(handle)) == Success(Some(Channel(handle, "", true)))
  {
  }

  /** End to end: a well-formed entry loaded into the table, resolved by ip,
      connected through an empty session map and given a command, yields a
      connected channel for that command on a session for exactly that entry's
      user, host and port. */
  lemma LoadConnectExecute(props: map<string, string>, loaded: Table, ip: string, user: string, password: string,
                           port: Int32, handle: nat, cmd: string, channel: nat)
    requires Loads(map[], props, loaded)
    requires ip in props && props[ip] == FormatEntry(user, password, port)
    requires '|' !in user && '|' !in password
    ensures var a := ConnectInfo(map[], GetSshInfo(loaded, ip), Accepted(handle));
            && a.outcome == Success(Session(handle, user, password, ip, port, true))
            && a.pool == map[SessionKey(user, ip, port) := a.outcome.value]
            && ExecuteCmd(Some(a.outcome.value), Some(cmd), Opens(channel)) == Success(Some(Channel(channel, cmd, true)))
  {
    WellFormedEntryResolves(props, loaded, ip, user, password, port);
    ConnectToEmptyPool(user, password, ip, port, handle);
  }
}
