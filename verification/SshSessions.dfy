/** The static session map of the SSH service and the two `connect` overloads
    that consult it. The transport is not modelled: whether a handshake would
    succeed is handed in as a `Transport` value. */
module SshSessions {
  import opened Wrappers
  import opened JavaText
  import opened SshCredentials

  /** An authenticated transport session. `handle` stands for the object's
      identity; `connected` is what `isConnected()` reports right now. */
  datatype Session = Session(handle: nat, user: string, password: string, host: string, port: Int32, connected: bool)

  /** The process-wide session map, keyed by `SessionKey`. */
  type Pool = map<string, Session>

  /** What establishing a new session would do: `getSession` answers null, the
      30-second `connect` throws, or the handshake succeeds with a new handle. */
  datatype Transport = NoSession | Refused | Accepted(handle: nat)

  /** Exceptions `connect` throws: the null-argument check, an unset field of
      the record (the unboxing of its null port), a null session from the
      library, a failed handshake. */
  datatype ConnectError = InfoIsNull | FieldIsNull | SessionIsNull | ConnectFailed

  /** The map after a call, and what the call returned or threw. */
  datatype Acquired = Acquired(pool: Pool, outcome: Result<Session, ConnectError>)

  /** The cache key: `user + "_" + host + "_" + port`. The password is not part of it. */
  function SessionKey(user: string, host: string, port: Int32): string {
    user + "_" + host + "_" + IntToString(port)
  }

  /** Every cached session sits under the key of its own user, host and port. */
  ghost predicate WellKeyed(pool: Pool) {
    forall k :: k in pool ==> k == SessionKey(pool[k].user, pool[k].host, pool[k].port)
  }

  /** `connect(user, passwd, host, port)`: a cached session that is still
      connected is returned as is; a disconnected one is dropped from the map;
      then a new session is established and cached only if the handshake works. */
  function Connect(pool: Pool, user: string, password: string, host: string, port: Int32, transport: Transport): (a: Acquired)
    ensures a.outcome.Success? ==> a.outcome.value.connected
    ensures a.outcome.Success? ==> var key := SessionKey(user, host, port);
              key in a.pool && a.pool[key] == a.outcome.value
    ensures a.outcome.Failure? ==> SessionKey(user, host, port) !in a.pool
    ensures forall k :: k != SessionKey(user, host, port) ==>
              (k in a.pool <==> k in pool) && (k in pool ==> a.pool[k] == pool[k])
    ensures var key := SessionKey(user, host, port);
            key in pool && pool[key].connected ==> a.pool == pool && a.outcome == Success(pool[key])
    ensures var key := SessionKey(user, host, port);
            !(key in pool && pool[key].connected) ==>
              (a.outcome.Success? <==> transport.Accepted?)
              && (a.outcome.Success? ==> a.outcome.value == Session(transport.handle, user, password, host, port, true))
              && (transport.NoSession? ==> a.outcome == Failure(SessionIsNull))
              && (transport.Refused? ==> a.outcome == Failure(ConnectFailed))
  {
    var key := SessionKey(user, host, port);
    if key in pool && pool[key].connected then Acquired(pool, Success(pool[key]))
    else
      var evicted := pool - {key};
      match transport
      case NoSession => Acquired(evicted, Failure(SessionIsNull))
      case Refused => Acquired(evicted, Failure(ConnectFailed))
      case Accepted(h) =>
        var session := Session(h, user, password, host, port, true);
        Acquired(evicted[key := session], Success(session))
  }

  /** `connect(user, passwd, host, port)` with its two `isConnected()` reads
      kept apart: the transport's own thread may drop the cached session after
      the eviction check and before the reuse check (`dropsBetween`). The
      eviction is then skipped, the reuse check fails, and the now-dead
      session stays in the map unless a new handshake overwrites it. */
  function ConnectObserved(pool: Pool, user: string, password: string, host: string, port: Int32,
                           dropsBetween: bool, transport: Transport): (a: Acquired)
    ensures !dropsBetween ==> a == Connect(pool, user, password, host, port, transport)
    ensures a.outcome.Success? ==> a.outcome.value.connected
    ensures a.outcome.Success? ==> var key := SessionKey(user, host, port);
              key in a.pool && a.pool[key] == a.outcome.value
    ensures forall k :: k != SessionKey(user, host, port) ==>
              (k in a.pool <==> k in pool) && (k in pool ==> a.pool[k] == pool[k])
  {
    var key := SessionKey(user, host, port);
    var firstRead := key in pool && pool[key].connected;
    var secondRead := firstRead && !dropsBetween;
    if secondRead then Acquired(pool, Success(pool[key]))
    else
      var kept :=
        if !(key in pool) then pool
        else if firstRead then pool[key := pool[key].(connected := false)]
        else pool - {key};
      match transport
      case NoSession => Acquired(kept, Failure(SessionIsNull))
      case Refused => Acquired(kept, Failure(ConnectFailed))
      case Accepted(h) =>
        var session := Session(h, user, password, host, port, true);
        Acquired(kept[key := session], Success(session))
  }

  /** A session that drops between the two reads is not evicted: when the new
      handshake then fails, the dead session is still cached under its key. */
  lemma DropBetweenReadsKeepsDeadSession(pool: Pool, user: string, password: string, host: string, port: Int32,
                                         transport: Transport)
    requires SessionKey(user, host, port) in pool && pool[SessionKey(user, host, port)].connected
    requires !transport.Accepted?
    ensures var a := ConnectObserved(pool, user, password, host, port, true, transport);
            var key := SessionKey(user, host, port);
            a.outcome.Failure? && key in a.pool && !a.pool[key].connected
            && a.pool[key].handle == pool[key].handle
  {
  }

  /** `connect(SshInfo)`: rejects a null record, fails on an ip-only record
      (its unset port cannot be unboxed), and otherwise connects with the
      record's user, password, ip and port. */
  function ConnectInfo(pool: Pool, info: Option<SshInfo>, transport: Transport): (a: Acquired)
    ensures info.None? ==> a == Acquired(pool, Failure(InfoIsNull))
    ensures info.Some? && info.value.port.None? ==> a == Acquired(pool, Failure(FieldIsNull))
    ensures a.outcome.Success? ==> info.Some? && info.value.port.Some?
    ensures info.Some? && info.value.user.Some? && info.value.password.Some? && info.value.port.Some? ==>
              a == Connect(pool, info.value.user.value, info.value.password.value, info.value.ip, info.value.port.value, transport)
  {
    match info
    case None => Acquired(pool, Failure(InfoIsNull))
    case Some(i) =>
      if i.port.None? || i.user.None? || i.password.None? then Acquired(pool, Failure(FieldIsNull))
      else Connect(pool, i.user.value, i.password.value, i.ip, i.port.value, transport)
  }

  /** The first connect to a host establishes a session and caches it as the
      only entry of the map. */
  lemma ConnectToEmptyPool(user: string, password: string, host: string, port: Int32, handle: nat)
    ensures var s := Session(handle, user, password, host, port, true);
            Connect(map[], user, password, host, port, Accepted(handle))
            == Acquired(map[SessionKey(user, host, port) := s], Success(s))
  {
    var empty: Pool := map[];
    assert empty - {SessionKey(user, host, port)} == empty;
  }

  /** Connecting keeps every session filed under its own key, and what it
      returns is filed under the requested key. */
  lemma ConnectPreservesWellKeyed(pool: Pool, user: string, password: string, host: string, port: Int32, transport: Transport)
    requires WellKeyed(pool)
    ensures WellKeyed(Connect(pool, user, password, host, port, transport).pool)
    ensures var a := Connect(pool, user, password, host, port, transport);
            a.outcome.Success? ==>
              SessionKey(a.outcome.value.user, a.outcome.value.host, a.outcome.value.port) == SessionKey(user, host, port)
  {
    var a := Connect(pool, user, password, host, port, transport);
    if a.outcome.Success? {
      assert a.pool[SessionKey(user, host, port)] == a.outcome.value;
    }
  }

  /** Reuse: once a connect succeeds, connecting again with the same user,
      host and port (whatever the password or the transport would do) returns
      the same session and performs no new handshake. */
  lemma SecondConnectReuses(pool: Pool, user: string, password: string, host: string, port: Int32,
                            first: Transport, password2: string, second: Transport)
    requires Connect(pool, user, password, host, port, first).outcome.Success?
    ensures var a := Connect(pool, user, password, host, port, first);
            Connect(a.pool, user, password2, host, port, second) == a
  {
  }

  /** A cached session that has dropped is replaced by the fresh session the
      next connect establishes. */
  lemma DroppedSessionReplaced(pool: Pool, user: string, password: string, host: string, port: Int32, handle: nat)
    requires SessionKey(user, host, port) in pool
    requires !pool[SessionKey(user, host, port)].connected
    ensures var a := Connect(pool, user, password, host, port, Accepted(handle));
            a.outcome == Success(Session(handle, user, password, host, port, true))
            && a.pool == pool[SessionKey(user, host, port) := Session(handle, user, password, host, port, true)]
  {
  }

  /** A dropped session is evicted even when re-establishing it fails: the
      failed call leaves no entry at all under the key. */
  lemma FailedReconnectEvicts(pool: Pool, user: string, password: string, host: string, port: Int32, transport: Transport)
    requires SessionKey(user, host, port) in pool
    requires !pool[SessionKey(user, host, port)].connected
    requires !transport.Accepted?
    ensures Connect(pool, user, password, host, port, transport).pool == pool - {SessionKey(user, host, port)}
  {
  }

  /** The key does not separate users from hosts: user `a_b` on host `c` and
      user `a` on host `b_c` share one cache entry, so the second caller is
      handed the first caller's session. */
  lemma KeyCollisionSharesSession(port: Int32, handle: nat, password: string, password2: string, second: Transport)
    ensures SessionKey("a_b", "c", port) == SessionKey("a", "b_c", port)
    ensures var first := Connect(map[], "a_b", password, "c", port, Accepted(handle));
            var a := Connect(first.pool, "a", password2, "b_c", port, second);
            a.outcome.Success? && a.outcome.value.user == "a_b" && a.outcome.value.host == "c"
  {
    assert SessionKey("a_b", "c", port) == SessionKey("a", "b_c", port);
  }

  /** Cutting at the first occurrence of a separator absent from both heads. */
  lemma {:induction false} SplitAtFirst(a: string, x: string, b: string, y: string, c: char)
    requires c !in a && c !in b
    requires a + [c] + x == b + [c] + y
    ensures a == b && x == y
  {
    var s := a + [c] + x;
    assert s[|a|] == c && (b + [c] + y)[|b|] == c;
    assert forall i :: 0 <= i < |b| ==> s[i] == b[i] != c;
    assert forall i :: 0 <= i < |a| ==> s[i] == a[i] != c;
    assert |a| == |b|;
    assert a == s[..|a|];
    assert b == (b + [c] + y)[..|b|];
    assert x == s[|a| + 1..];
    assert y == (b + [c] + y)[|b| + 1..];
  }

  /** Cutting at the last occurrence of a separator absent from both tails. */
  lemma {:induction false} SplitAtLast(x: string, a: string, y: string, b: string, c: char)
    requires c !in a && c !in b
    requires x + [c] + a == y + [c] + b
    ensures x == y && a == b
  {
    var s := x + [c] + a;
    var t := y + [c] + b;
    assert s == t;
    assert s[|x|] == c && t[|y|] == c;
    assert forall i :: |x| < i < |s| ==> s[i] == a[i - |x| - 1] != c;
    assert forall i :: |y| < i < |t| ==> t[i] == b[i - |y| - 1] != c;
    assert |x| == |y|;
    assert a == s[|x| + 1..];
    assert b == t[|y| + 1..];
    assert x == s[..|x|];
    assert y == t[..|y|];
  }

  /** When user names contain no underscore the key does identify the
      connection: equal keys mean equal user, host and port. */
  lemma SessionKeyInjective(user1: string, host1: string, port1: Int32, user2: string, host2: string, port2: Int32)
    requires '_' !in user1 && '_' !in user2
    requires SessionKey(user1, host1, port1) == SessionKey(user2, host2, port2)
    ensures user1 == user2 && host1 == host2 && port1 == port2
  {
    var d1 := IntToString(port1);
    var d2 := IntToString(port2);
    assert SessionKey(user1, host1, port1) == user1 + ['_'] + (host1 + ['_'] + d1);
    assert SessionKey(user2, host2, port2) == user2 + ['_'] + (host2 + ['_'] + d2);
    SplitAtFirst(user1, host1 + ['_'] + d1, user2, host2 + ['_'] + d2, '_');
    SplitAtLast(host1, d1, host2, d2, '_');
    IntToStringInjective(port1, port2);
  }
}
