/** The client's half of SunnyQUIC authentication: the command may go out as 0-RTT
    data, which the server may discard, and is then sent once more. */
module SunnyQuicClient {

  datatype SendResult = Sent | Rejected0RTT | SendFailed

  /** A QUIC connection that is usable before its handshake completes. When the
      server rejects 0-RTT, what was sent early is lost and further sends fail
      until the connection has been switched to 1-RTT. */
  class EarlyConn {
    var complete: bool
    var switched: bool
    /** Whether the dial offered 0-RTT, and whether the server accepts it. */
    const offers0RTT: bool
    const accepts0RTT: bool
    /** Authentication commands written as early data, and after the handshake. */
    ghost var early: nat
    ghost var late: nat
    /** Whether the connection, or the caller waiting for it, has failed some step. */
    ghost var failed: bool

    /** Without 0-RTT the dial returns when the handshake is complete. */
    constructor (offers0RTT: bool, accepts0RTT: bool)
      ensures Usable() && !switched && early == 0 && late == 0 && !failed
      ensures this.offers0RTT == offers0RTT && this.accepts0RTT == accepts0RTT
    {
      this.offers0RTT, this.accepts0RTT := offers0RTT, accepts0RTT;
      complete, switched, early, late, failed := !offers0RTT, false, 0, 0, false;
    }

    predicate Usable()
      reads this
    {
      offers0RTT || complete
    }

    /** Early data is lost and sends fail until the switch. */
    predicate Rejects()
      reads this
    {
      complete && offers0RTT && !accepts0RTT && !switched
    }

    /** A look at HandshakeComplete(); time passes. */
    method PollHandshake() returns (done: bool)
      modifies this`complete
      ensures done == complete && (old(complete) ==> complete)
    {
      var arrives: bool := *;
      complete := complete || arrives;
      done := complete;
    }

    /** Waits for the handshake, or for the connection or the caller to give up. */
    method AwaitHandshake() returns (ok: bool)
      modifies this`complete, this`failed
      ensures ok ==> complete
      ensures old(complete) ==> complete
      ensures failed == (old(failed) || !ok)
    {
      ok := *;
      complete, failed := complete || ok, failed || !ok;
    }

    /** sendAuthenticationCommand: early as long as the handshake is not complete. */
    method Send() returns (r: SendResult)
      modifies this`complete, this`early, this`late, this`failed
      ensures old(complete) ==> complete
      ensures r == Sent ==> || (early == old(early) + 1 && late == old(late) && !old(complete))
                            || (late == old(late) + 1 && early == old(early) && complete && !Rejects())
      ensures r != Sent ==> early == old(early) && late == old(late)
      ensures r == Rejected0RTT ==> Rejects()
      ensures failed == (old(failed) || r == SendFailed)
    {
      var done := PollHandshake();
      var fails: bool := *;
      if fails {
        failed := true;
        return SendFailed;
      }
      if !done {
        early := early + 1;
        return Sent;
      }
      if Rejects() {
        return Rejected0RTT;
      }
      late := late + 1;
      r := Sent;
    }

    method NextConnection() returns (ok: bool)
      requires complete
      modifies this`switched, this`failed
      ensures ok ==> switched
      ensures failed == (old(failed) || !ok)
    {
      ok := *;
      switched, failed := switched || ok, failed || !ok;
    }
  }

  /** When authenticating succeeds, a command reached the server: one written after the
      handshake, or early data that the server accepts. At most two were written, and nothing but a failing connection
      makes it fail. */
  method Authenticate(conn: EarlyConn) returns (ok: bool)
    requires conn.Usable() && conn.early == 0 && conn.late == 0 && !conn.switched
    modifies conn
    ensures ok ==> conn.complete && (conn.late > 0 || (conn.early > 0 && conn.offers0RTT && conn.accepts0RTT))
    ensures ok || conn.failed
    ensures conn.early + conn.late <= 2
  {
    var done := conn.PollHandshake();
    var sentAs0RTT := !done;
    var r := conn.Send();
    if r == SendFailed {
      return false;
    }
    var shaken := conn.AwaitHandshake();
    if !shaken {
      return false;
    }
    var used0RTT := conn.offers0RTT && conn.accepts0RTT;
    if r == Rejected0RTT || (sentAs0RTT && !used0RTT) {
      var next := conn.NextConnection();
      if !next {
        return false;
      }
      r := conn.Send();
      return r == Sent;
    }
    ok := true;
  }
}
