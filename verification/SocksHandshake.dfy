/** The SOCKS5 server handshake (sections 3 and 4 of RFC 1928, section 2 of RFC 1929)
    behind the dispatcher that reads a connection's first byte and puts it back. */
module SocksHandshake {
  import opened Bytes
  import opened Streams
  import opened SocksAddress
  import PreloadConn

  const VERSION4: byte := 4
  const VERSION5: byte := 5
  const NO_AUTH: byte := 0
  const USER_PASS: byte := 2
  const NO_METHOD: byte := 0xFF
  const AUTH_VERSION: byte := 1
  const CONNECT: byte := 1

  datatype AuthInfo = AuthInfo(username: seq<byte>, password: seq<byte>)
  {
    predicate IsEmpty() {
      username == [] && password == []
    }
  }

  // ------------------------------------------------------------------
  // The conversation of an acceptable client

  datatype Client = Client(methods: seq<byte>, username: seq<byte>, password: seq<byte>, reserved: byte,
                           addr: SocketAddress)

  function Prefixed(bs: seq<byte>): (r: seq<byte>)
    requires |bs| <= 255
  {
    [|bs|] + bs
  }

  predicate Sized(c: Client)
  {
    |c.methods| <= 255 && |c.username| <= 255 && |c.password| <= 255 && Representable(c.addr)
  }

  /** A connect request, then `rest`. */
  function Connect(c: Client, rest: seq<byte>): (bs: seq<byte>)
  {
    [VERSION5, CONNECT, c.reserved] + (EncodeAddress(c.addr) + rest)
  }

  /** A username/password request, then `rest`. */
  function Credentials(c: Client, rest: seq<byte>): (bs: seq<byte>)
    requires Sized(c)
  {
    [AUTH_VERSION] + (Prefixed(c.username) + (Prefixed(c.password) + rest))
  }

  /** The negotiation of an entitled client, then its request. */
  function Hello(auth: AuthInfo, c: Client, request: seq<byte>): (bs: seq<byte>)
    requires Sized(c)
  {
    [VERSION5] + (Prefixed(c.methods) + if auth.IsEmpty() then request else Credentials(c, request))
  }

  /** Everything the client says, with `payload` behind its request. */
  function Says(auth: AuthInfo, c: Client, payload: seq<byte>): (bs: seq<byte>)
    requires Sized(c)
  {
    Hello(auth, c, Connect(c, payload))
  }

  predicate Offered(auth: AuthInfo, methods: seq<byte>)
  {
    if auth.IsEmpty() then NO_AUTH in methods else USER_PASS in methods
  }

  /** The client offered the configured method and, when credentials are set, knows them. */
  predicate Entitled(auth: AuthInfo, c: Client)
  {
    Offered(auth, c.methods) && (auth.IsEmpty() || (c.username == auth.username && c.password == auth.password))
  }

  /** An entitled client's words in bytes (sections 3 and 4 of RFC 1928, section 2 of
      RFC 1929). */
  lemma SaysInBytes(auth: AuthInfo, c: Client, payload: seq<byte>)
    requires Sized(c)
    ensures |auth.username| + |auth.password| == 0 ==>
      Says(auth, c, payload) == [5, |c.methods|] + c.methods + ([5, 1, c.reserved] + (EncodeAddress(c.addr) + payload))
    ensures |auth.username| + |auth.password| > 0 ==>
      Says(auth, c, payload) == [5, |c.methods|] + c.methods
                                + ([1, |c.username|] + c.username + ([|c.password|] + c.password
                                   + ([5, 1, c.reserved] + (EncodeAddress(c.addr) + payload))))
    ensures Entitled(auth, c) <==>
      if |auth.username| + |auth.password| == 0 then 0 in c.methods
      else 2 in c.methods && c.username == auth.username && c.password == auth.password
  {
    var request := Connect(c, payload);
    InBytes(5, c.methods, if auth.IsEmpty() then request else Credentials(c, request));
    InBytes(1, c.username, [|c.password|] + c.password + request);
  }

  lemma InBytes(version: byte, field: seq<byte>, rest: seq<byte>)
    requires |field| <= 255
    ensures [version] + (Prefixed(field) + rest) == [version, |field|] + field + rest
  {
  }

  // ------------------------------------------------------------------
  // What the server makes of a byte stream

  datatype Field = Field(bs: seq<byte>, rest: seq<byte>) | Short

  /** ReadByUint8. */
  function TakeField(bs: seq<byte>): (f: Field)
  {
    if |bs| == 0 || |bs| < 1 + bs[0] as int then Short
    else Field(bs[1..1 + bs[0] as int], bs[1 + bs[0] as int..])
  }

  datatype Verdict = Forward(addr: SocketAddress, rest: seq<byte>) | Refuse

  /** What the server makes of a byte stream, and everything it replies. */
  datatype Answer = Answer(verdict: Verdict, replies: seq<byte>)

  const SUCCEEDED: seq<byte> := [VERSION5, 0, 0, 1, 0, 0, 0, 0, 0, 0]
  const NOT_SUPPORTED: seq<byte> := [VERSION5, 7, 0, 1, 0, 0, 0, 0, 0]

  function Say(bs: seq<byte>, more: Answer): (a: Answer)
  {
    Answer(more.verdict, bs + more.replies)
  }

  function JudgeConnect(bs: seq<byte>): (a: Answer)
  {
    if |bs| < 3 || bs[0] != VERSION5 then Answer(Refuse, [])
    else if bs[1] != CONNECT then Answer(Refuse, NOT_SUPPORTED)
    else
      match ParseAddress(bs[3..])
      case Malformed => Answer(Refuse, [])
      case Address(addr, rest) => Answer(Forward(addr, rest), SUCCEEDED)
  }

  function JudgeCredentials(auth: AuthInfo, bs: seq<byte>): (a: Answer)
  {
    if |bs| == 0 || bs[0] != AUTH_VERSION then Answer(Refuse, [])
    else
      match TakeField(bs[1..])
      case Short => Answer(Refuse, [])
      case Field(username, more) =>
        match TakeField(more)
        case Short => Answer(Refuse, [])
        case Field(password, rest) =>
          if username == auth.username && password == auth.password
          then Say([AUTH_VERSION, 0], JudgeConnect(rest))
          else Answer(Refuse, [AUTH_VERSION, 1])
  }

  /** What a server does about the offered methods. */
  function JudgeMethods(auth: AuthInfo, methods: seq<byte>, rest: seq<byte>): (a: Answer)
  {
    if auth.IsEmpty() && NO_AUTH in methods then Say([VERSION5, NO_AUTH], JudgeConnect(rest))
    else if !auth.IsEmpty() && USER_PASS in methods then Say([VERSION5, USER_PASS], JudgeCredentials(auth, rest))
    else Answer(Refuse, [VERSION5, NO_METHOD])
  }

  function JudgeHello(auth: AuthInfo, bs: seq<byte>): (a: Answer)
  {
    if |bs| == 0 || bs[0] != VERSION5 then Answer(Refuse, [])
    else
      match TakeField(bs[1..])
      case Short => Answer(Refuse, [])
      case Field(methods, rest) =>
        JudgeMethods(auth, methods, rest)
  }

  /** What an entitled client hears before the reply to its request. */
  function Greeting(auth: AuthInfo): (bs: seq<byte>)
  {
    if auth.IsEmpty() then [VERSION5, NO_AUTH] else [VERSION5, USER_PASS] + [AUTH_VERSION, 0]
  }

  lemma TakePrefixed(bs: seq<byte>, rest: seq<byte>)
    requires |bs| <= 255
    ensures TakeField(Prefixed(bs) + rest) == Field(bs, rest)
  {
    var all := Prefixed(bs) + rest;
    assert all[1..1 + |bs|] == bs && all[1 + |bs|..] == rest;
  }

  lemma TakenIsPrefixed(bs: seq<byte>)
    requires TakeField(bs).Field?
    ensures |TakeField(bs).bs| <= 255 && bs == Prefixed(TakeField(bs).bs) + TakeField(bs).rest
  {
  }

  lemma ConnectForwards(c: Client, rest: seq<byte>)
    requires Sized(c)
    ensures JudgeConnect(Connect(c, rest)) == Answer(Forward(c.addr, rest), SUCCEEDED)
  {
    SplitAt([VERSION5, CONNECT, c.reserved], EncodeAddress(c.addr) + rest);
    DecodeEncode(c.addr, rest);
  }

  lemma CredentialsPass(auth: AuthInfo, c: Client, rest: seq<byte>)
    requires Sized(c) && c.username == auth.username && c.password == auth.password
    ensures JudgeCredentials(auth, Credentials(c, rest)) == Say([AUTH_VERSION, 0], JudgeConnect(rest))
  {
    SplitAt([AUTH_VERSION], Prefixed(c.username) + (Prefixed(c.password) + rest));
    TakePrefixed(c.username, Prefixed(c.password) + rest);
    TakePrefixed(c.password, rest);
  }

  /** An entitled client gets through the negotiation, to its request. */
  lemma NegotiationPasses(auth: AuthInfo, c: Client, request: seq<byte>)
    requires Sized(c) && Entitled(auth, c)
    ensures JudgeHello(auth, Hello(auth, c, request)) == Say(Greeting(auth), JudgeConnect(request))
  {
    var rest := if auth.IsEmpty() then request else Credentials(c, request);
    SplitAt([VERSION5], Prefixed(c.methods) + rest);
    TakePrefixed(c.methods, rest);
    if !auth.IsEmpty() {
      CredentialsPass(auth, c, request);
      Assoc([VERSION5, USER_PASS], [AUTH_VERSION, 0], JudgeConnect(request).replies);
    }
  }

  lemma GreetedOffered(auth: AuthInfo, bs: seq<byte>) returns (methods: seq<byte>, rest: seq<byte>)
    requires Greeting(auth) <= JudgeHello(auth, bs).replies
    ensures |methods| <= 255 && Offered(auth, methods) && bs == [VERSION5] + (Prefixed(methods) + rest)
    ensures !auth.IsEmpty() ==> [AUTH_VERSION, 0] <= JudgeCredentials(auth, rest).replies
  {
    assert JudgeHello(auth, bs).replies[1] == Greeting(auth)[1];
    TakenIsPrefixed(bs[1..]);
    assert bs == [VERSION5] + bs[1..];
    methods, rest := TakeField(bs[1..]).bs, TakeField(bs[1..]).rest;
    if !auth.IsEmpty() {
      TailPrefix([VERSION5, USER_PASS], [AUTH_VERSION, 0], JudgeCredentials(auth, rest).replies);
    }
  }

  /** Nobody else does: whoever hears the whole greeting said an entitled client's words. */
  lemma NegotiatedWords(auth: AuthInfo, bs: seq<byte>) returns (c: Client, request: seq<byte>)
    requires Greeting(auth) <= JudgeHello(auth, bs).replies
    ensures Sized(c) && Entitled(auth, c) && bs == Hello(auth, c, request)
    ensures JudgeHello(auth, bs) == Say(Greeting(auth), JudgeConnect(request))
  {
    var methods, rest := GreetedOffered(auth, bs);
    c, request := EntitledClient(auth, methods, rest);
    NegotiationPasses(auth, c, request);
  }

  /** The client behind the words that follow an accepted offer. */
  lemma EntitledClient(auth: AuthInfo, methods: seq<byte>, rest: seq<byte>) returns (c: Client, request: seq<byte>)
    requires |methods| <= 255 && Offered(auth, methods)
    requires !auth.IsEmpty() ==> [AUTH_VERSION, 0] <= JudgeCredentials(auth, rest).replies
    ensures Sized(c) && Entitled(auth, c)
    ensures Hello(auth, c, request) == [VERSION5] + (Prefixed(methods) + rest)
  {
    c, request := Client(methods, [], [], 0, Domain([], 0)), rest;
    if !auth.IsEmpty() {
      var username, password;
      username, password, request := CredentialsWords(auth, rest);
      c := c.(username := username, password := password);
    }
  }

  lemma TailPrefix(a: seq<byte>, b: seq<byte>, c: seq<byte>)
    requires a + b <= a + c
    ensures b <= c
  {
    forall i | 0 <= i < |b|
      ensures b[i] == c[i]
    {
      assert b[i] == (a + b)[|a| + i] && c[i] == (a + c)[|a| + i];
    }
  }

  /** An entitled client is always forwarded, with exactly the bytes behind its
      request, and hears of its success. */
  lemma EntitledIsForwarded(auth: AuthInfo, c: Client, payload: seq<byte>)
    requires Sized(c) && Entitled(auth, c)
    ensures JudgeHello(auth, Says(auth, c, payload)) == Answer(Forward(c.addr, payload), Greeting(auth) + SUCCEEDED)
    ensures Greeting(auth) == if |auth.username| + |auth.password| == 0 then [5, 0] else [5, 2, 1, 0]
  {
    NegotiationPasses(auth, c, Connect(c, payload));
    ConnectForwards(c, payload);
  }

  /** Nobody else is: whatever is forwarded came from an entitled client's words. */
  lemma ForwardedIsEntitled(auth: AuthInfo, bs: seq<byte>) returns (c: Client)
    requires JudgeHello(auth, bs).verdict.Forward?
    ensures Sized(c) && Entitled(auth, c) && c.addr == JudgeHello(auth, bs).verdict.addr
    ensures bs == Says(auth, c, JudgeHello(auth, bs).verdict.rest)
  {
    ForwardedHearsGreeting(auth, bs);
    var request;
    c, request := NegotiatedWords(auth, bs);
    var reserved, addr := ConnectWords(request);
    c := c.(reserved := reserved, addr := addr);
  }

  lemma ForwardedHearsGreeting(auth: AuthInfo, bs: seq<byte>)
    requires JudgeHello(auth, bs).verdict.Forward?
    ensures Greeting(auth) <= JudgeHello(auth, bs).replies
  {
  }

  lemma ConnectWords(bs: seq<byte>) returns (reserved: byte, addr: SocketAddress)
    requires JudgeConnect(bs).verdict.Forward?
    ensures JudgeConnect(bs).verdict.addr == addr && Representable(addr)
    ensures bs == [VERSION5, CONNECT, reserved] + (EncodeAddress(addr) + JudgeConnect(bs).verdict.rest)
  {
    EncodeDecode(bs[3..]);
    reserved, addr := bs[2], ParseAddress(bs[3..]).addr;
    assert bs == [VERSION5, CONNECT, reserved] + bs[3..];
  }

  lemma CredentialsWords(auth: AuthInfo, bs: seq<byte>)
    returns (username: seq<byte>, password: seq<byte>, rest: seq<byte>)
    requires [AUTH_VERSION, 0] <= JudgeCredentials(auth, bs).replies
    ensures username == auth.username && password == auth.password && |username| <= 255 && |password| <= 255
    ensures bs == [AUTH_VERSION] + (Prefixed(username) + (Prefixed(password) + rest))
    ensures JudgeCredentials(auth, bs) == Say([AUTH_VERSION, 0], JudgeConnect(rest))
  {
    assert JudgeCredentials(auth, bs).replies[1] == 0;
    var user := TakeField(bs[1..]);
    TakenIsPrefixed(bs[1..]);
    TakenIsPrefixed(user.rest);
    var pass := TakeField(user.rest);
    assert bs == [AUTH_VERSION] + bs[1..];
    username, password, rest := user.bs, pass.bs, pass.rest;
  }

  // ------------------------------------------------------------------
  // The server

  /** The success reply holds a complete address. The one that refuses a command
      ends a byte early: a client that waits for section 6 of RFC 1928 gets no address. */
  lemma OnlySuccessReplyIsComplete()
    ensures ParseAddress(SUCCEEDED[3..]) == Address(IPv4([0, 0, 0, 0], 0), [])
    ensures ParseAddress(NOT_SUPPORTED[3..]) == Malformed
    ensures SUCCEEDED == [5, 0, 0, 1, 0, 0, 0, 0, 0, 0] && NOT_SUPPORTED == [5, 7, 0, 1, 0, 0, 0, 0, 0]
  {
    assert SUCCEEDED[3..][1..5] == [0, 0, 0, 0];
  }

  /** A request with a command other than CONNECT, behind its version. */
  predicate OtherCommand(bs: seq<byte>)
  {
    |bs| >= 3 && bs[0] == VERSION5 && bs[1] != CONNECT
  }

  lemma ConnectReplies(bs: seq<byte>)
    ensures JudgeConnect(bs).replies == NOT_SUPPORTED <==> OtherCommand(bs)
    ensures JudgeConnect(bs).replies == SUCCEEDED <==> JudgeConnect(bs).verdict.Forward?
  {
    assert SUCCEEDED[1] == 0 && NOT_SUPPORTED[1] == 7;
  }

  /** The short reply goes to exactly the entitled clients that send another command. */
  lemma ShortReplyExactly(auth: AuthInfo, bs: seq<byte>)
    ensures JudgeHello(auth, bs).replies == Greeting(auth) + NOT_SUPPORTED
       <==> exists c, request ::
              Sized(c) && Entitled(auth, c) && OtherCommand(request) && bs == Hello(auth, c, request)
  {
    if JudgeHello(auth, bs).replies == Greeting(auth) + NOT_SUPPORTED {
      var c, request := NegotiatedWords(auth, bs);
      SameTail(Greeting(auth), JudgeConnect(request).replies, NOT_SUPPORTED);
      ConnectReplies(request);
    }
    if c, request :| Sized(c) && Entitled(auth, c) && OtherCommand(request) && bs == Hello(auth, c, request) {
      NegotiationPasses(auth, c, request);
    }
  }

  lemma SameTail(a: seq<byte>, b: seq<byte>, c: seq<byte>)
    requires a + b == a + c
    ensures b == c
  {
    SplitAt(a, b);
    SplitAt(a, c);
  }

  /** The refusal of every method goes to exactly the clients that do not offer the
      configured one. */
  lemma NoMethodExactly(auth: AuthInfo, bs: seq<byte>)
    ensures JudgeHello(auth, bs).replies == [5, 255]
       <==> exists methods, rest ::
              |methods| <= 255 && !Offered(auth, methods) && bs == [VERSION5] + (Prefixed(methods) + rest)
  {
    if JudgeHello(auth, bs).replies == [VERSION5, NO_METHOD] {
      assert JudgeHello(auth, bs).replies[1] == NO_METHOD;
      TakenIsPrefixed(bs[1..]);
      var hello := TakeField(bs[1..]);
      assert !Offered(auth, hello.bs) && bs == [VERSION5] + (Prefixed(hello.bs) + hello.rest);
    }
    if methods, rest :| |methods| <= 255 && !Offered(auth, methods) && bs == [VERSION5] + (Prefixed(methods) + rest) {
      SplitAt([VERSION5], Prefixed(methods) + rest);
      TakePrefixed(methods, rest);
    }
  }

  /** The failure of credentials goes to exactly the clients that state wrong ones. */
  lemma WrongCredentialsExactly(auth: AuthInfo, bs: seq<byte>)
    ensures JudgeCredentials(auth, bs).replies == [1, 1]
       <==> exists c, rest :: Sized(c) && bs == Credentials(c, rest)
                              && !(c.username == auth.username && c.password == auth.password)
  {
    if JudgeCredentials(auth, bs).replies == [AUTH_VERSION, 1] {
      assert JudgeCredentials(auth, bs).replies[1] == 1;
      var user := TakeField(bs[1..]);
      TakenIsPrefixed(bs[1..]);
      TakenIsPrefixed(user.rest);
      var c := Client([], user.bs, TakeField(user.rest).bs, 0, Domain([], 0));
      assert bs == [AUTH_VERSION] + bs[1..];
      assert Sized(c) && bs == Credentials(c, TakeField(user.rest).rest);
    }
    if c, rest :| Sized(c) && bs == Credentials(c, rest)
                  && !(c.username == auth.username && c.password == auth.password) {
      SplitAt([AUTH_VERSION], Prefixed(c.username) + (Prefixed(c.password) + rest));
      TakePrefixed(c.username, Prefixed(c.password) + rest);
      TakePrefixed(c.password, rest);
    }
  }

  /** A client hears nothing, the refusal of its methods, part of the greeting or of the
      check of its credentials, or the greeting and at most one reply. */
  lemma OnlyTheseReplies(auth: AuthInfo, bs: seq<byte>)
    ensures
      var greeting: seq<byte> := if |auth.username| + |auth.password| == 0 then [5, 0] else [5, 2, 1, 0];
      JudgeHello(auth, bs).replies in {[], [5, 255], [5, 2], [5, 2, 1, 1], greeting,
                                       greeting + [5, 0, 0, 1, 0, 0, 0, 0, 0, 0],
                                       greeting + [5, 7, 0, 1, 0, 0, 0, 0, 0]}
  {
    if |bs| > 0 && bs[0] == VERSION5 && TakeField(bs[1..]).Field? {
      var rest := TakeField(bs[1..]).rest;
      if !auth.IsEmpty() {
        CredentialsReplies(auth, rest);
      }
      ConnectSays(rest);
    }
  }

  lemma ConnectSays(bs: seq<byte>)
    ensures JudgeConnect(bs).replies in {[], [5, 0, 0, 1, 0, 0, 0, 0, 0, 0], [5, 7, 0, 1, 0, 0, 0, 0, 0]}
    ensures [5, 0] + JudgeConnect(bs).replies in {[5, 0], [5, 0] + [5, 0, 0, 1, 0, 0, 0, 0, 0, 0],
                                                  [5, 0] + [5, 7, 0, 1, 0, 0, 0, 0, 0]}
  {
    assert [5, 0] + [] == [5, 0];
  }

  lemma CredentialsReplies(auth: AuthInfo, bs: seq<byte>)
    ensures [5, 2] + JudgeCredentials(auth, bs).replies in
            {[5, 2], [5, 2, 1, 1], [5, 2, 1, 0], [5, 2, 1, 0] + [5, 0, 0, 1, 0, 0, 0, 0, 0, 0],
             [5, 2, 1, 0] + [5, 7, 0, 1, 0, 0, 0, 0, 0]}
  {
    assert [5, 2] + [] == [5, 2] && [5, 2] + [1, 1] == [5, 2, 1, 1] && [5, 2, 1, 0] + [] == [5, 2, 1, 0];
    if |bs| > 0 && bs[0] == AUTH_VERSION && TakeField(bs[1..]).Field? {
      var more := TakeField(bs[1..]).rest;
      if TakeField(more).Field? {
        var request := TakeField(more).rest;
        ConnectSays(request);
        Assoc([5, 2], [1, 0], JudgeConnect(request).replies);
        assert [5, 2] + [1, 0] == [5, 2, 1, 0];
      }
    }
  }

  /** What happened is what the words deserve; a failing connection cuts the replies
      short and refuses. */
  ghost predicate Follows(a: Answer, v: Verdict, got: seq<byte>, got': seq<byte>, wrote: bool)
  {
    if wrote then v == a.verdict && got' == got + a.replies
    else v == Refuse && got' <= got + a.replies
  }

  lemma FollowsOn(a: Answer, said: seq<byte>, v: Verdict, got: seq<byte>, got': seq<byte>, got'': seq<byte>,
                  wrote: bool)
    requires got' == got + said && Follows(a, v, got', got'', wrote)
    ensures Follows(Say(said, a), v, got, got'', wrote)
  {
    Assoc(got, said, a.replies);
  }

  method ReadField(conn: PreloadConn.Conn) returns (bs: Option<seq<byte>>)
    requires conn.Valid()
    modifies conn, conn.conn
    ensures conn.Valid()
    ensures TakeField(old(conn.Stream())).Short? <==> bs == None
    ensures bs.Some? ==> TakeField(old(conn.Stream())) == Field(bs.value, conn.Stream())
  {
    var len, s := conn.ReadFull(1);
    if s != Fine {
      return None;
    }
    var body;
    body, s := conn.ReadFull(len[0]);
    bs := if s == Fine then Some(body) else None;
  }

  /** `wrote` tells whether every reply got out. */
  method HandleConnection(conn: PreloadConn.Conn, w: Writer) returns (v: Verdict, wrote: bool)
    requires conn.Valid()
    modifies conn, conn.conn, w
    ensures conn.Valid() && (wrote || w.failed)
    ensures Follows(JudgeConnect(old(conn.Stream())), v, old(w.got), w.got, wrote)
    ensures v.Forward? ==> v.rest == conn.Stream()
  {
    v, wrote := Refuse, true;
    assert w.got + [] == w.got;
    var n, head, s;
    head, s := conn.ReadFull(3);
    if s != Fine || head[0] != VERSION5 {
      return;
    }
    if head[1] != CONNECT {
      n, wrote := w.Write(NOT_SUPPORTED);
      return;
    }
    var addr := ReadAddress(conn);
    if addr == None {
      return;
    }
    n, wrote := w.Write(SUCCEEDED);
    v := if wrote then Forward(addr.value, conn.Stream()) else Refuse;
  }

  method HandleCredentials(auth: AuthInfo, conn: PreloadConn.Conn, w: Writer) returns (ok: bool, wrote: bool)
    requires conn.Valid()
    modifies conn, conn.conn, w
    ensures conn.Valid() && (wrote || w.failed)
    ensures var a := JudgeCredentials(auth, old(conn.Stream()));
            if ok
            then && wrote && w.got == old(w.got) + [AUTH_VERSION, 0]
                 && a == Say([AUTH_VERSION, 0], JudgeConnect(conn.Stream()))
            else Follows(a, Refuse, old(w.got), w.got, wrote)
  {
    ok, wrote := false, true;
    assert w.got + [] == w.got;
    var n, version, s;
    version, s := conn.ReadFull(1);
    if s != Fine || version[0] != AUTH_VERSION {
      return;
    }
    var username := ReadField(conn);
    if username == None {
      return;
    }
    var password := ReadField(conn);
    if password == None {
      return;
    }
    ok := username.value == auth.username && password.value == auth.password;
    n, wrote := w.Write([AUTH_VERSION, if ok then 0 else 1]);
    Assoc(old(w.got), [AUTH_VERSION, 0], JudgeConnect(conn.Stream()).replies);
    ok := ok && wrote;
  }

  /** Version, method choice and, when credentials are set, their check. */
  method Negotiate(auth: AuthInfo, conn: PreloadConn.Conn, w: Writer) returns (ok: bool, wrote: bool)
    requires conn.Valid()
    modifies conn, conn.conn, w
    ensures conn.Valid() && (wrote || w.failed)
    ensures var a := JudgeHello(auth, old(conn.Stream()));
            if ok
            then wrote && a == Say(Greeting(auth), JudgeConnect(conn.Stream())) && w.got == old(w.got) + Greeting(auth)
            else Follows(a, Refuse, old(w.got), w.got, wrote)
  {
    ok, wrote := false, true;
    assert w.got + [] == w.got;
    var version, s;
    version, s := conn.ReadFull(1);
    if s != Fine || version[0] != VERSION5 {
      return;
    }
    var methods := ReadField(conn);
    if methods == None {
      return;
    }
    ok, wrote := ChooseMethod(auth, methods.value, conn, w);
  }

  method ChooseMethod(auth: AuthInfo, methods: seq<byte>, conn: PreloadConn.Conn, w: Writer)
    returns (ok: bool, wrote: bool)
    requires conn.Valid()
    modifies conn, conn.conn, w
    ensures conn.Valid() && (wrote || w.failed)
    ensures var a := JudgeMethods(auth, methods, old(conn.Stream()));
            if ok
            then wrote && a == Say(Greeting(auth), JudgeConnect(conn.Stream())) && w.got == old(w.got) + Greeting(auth)
            else Follows(a, Refuse, old(w.got), w.got, wrote)
  {
    var n;
    ghost var got, rest := w.got, conn.Stream();
    if auth.IsEmpty() && NO_AUTH in methods {
      n, wrote := w.Write([VERSION5, NO_AUTH]);
      Assoc(got, [VERSION5, NO_AUTH], JudgeConnect(rest).replies);
      ok := wrote;
    } else if !auth.IsEmpty() && USER_PASS in methods {
      n, wrote := w.Write([VERSION5, USER_PASS]);
      Assoc(got, [VERSION5, USER_PASS], JudgeCredentials(auth, rest).replies);
      if !wrote {
        return false, false;
      }
      ghost var got' := w.got;
      ok, wrote := HandleCredentials(auth, conn, w);
      if ok {
        Assoc(got, [VERSION5, USER_PASS], [AUTH_VERSION, 0]);
        Assoc([VERSION5, USER_PASS], [AUTH_VERSION, 0], JudgeConnect(conn.Stream()).replies);
      } else {
        FollowsOn(JudgeCredentials(auth, rest), [VERSION5, USER_PASS], Refuse, got, got', w.got, wrote);
      }
    } else {
      n, wrote := w.Write([VERSION5, NO_METHOD]);
      ok := false;
    }
  }

  /** Serve up to the point of forwarding: verdict and replies are what the client's
      words deserve, unless the connection fails under a reply. */
  method Serve(auth: AuthInfo, conn: PreloadConn.Conn, w: Writer) returns (v: Verdict, wrote: bool)
    requires conn.Valid()
    modifies conn, conn.conn, w
    ensures conn.Valid() && (wrote || w.failed)
    ensures Follows(JudgeHello(auth, old(conn.Stream())), v, old(w.got), w.got, wrote)
    ensures v.Forward? ==> v.rest == conn.Stream()
  {
    ghost var got := w.got;
    var ok;
    ok, wrote := Negotiate(auth, conn, w);
    if !ok {
      return Refuse, wrote;
    }
    ghost var got', rest := w.got, conn.Stream();
    v, wrote := HandleConnection(conn, w);
    FollowsOn(JudgeConnect(rest), Greeting(auth), v, got, got', w.got, wrote);
  }

  predicate IsSocks(bs: seq<byte>)
  {
    bs != [] && (bs[0] == VERSION4 || bs[0] == VERSION5)
  }

  /** The dispatcher: reads the first byte, puts it back, and looks at it to tell
      SOCKS from HTTP; either server finds the whole stream. */
  method Dispatch(r: Reader) returns (conn: PreloadConn.Conn?, socks: bool)
    requires r.Valid()
    modifies r
    ensures r.Valid() && (conn == null <==> old(r.data) == [])
    ensures conn != null ==> fresh(conn) && conn.conn == r && conn.Valid() && conn.Stream() == old(r.data)
    ensures conn != null && socks <==> IsSocks(old(r.data))
    ensures conn != null ==> (socks <==> old(r.data)[0] == 4 || old(r.data)[0] == 5)
  {
    var bs, s := r.ReadFull(1);
    if s != Fine {
      return null, false;
    }
    conn := new PreloadConn.Conn(bs, r);
    assert bs + r.data == old(r.data);
    socks := bs[0] == VERSION4 || bs[0] == VERSION5;
  }

  /** Dispatcher and SOCKS server together, for every client byte stream: a target is
      dialled only for an entitled client, at its address, and the put-back connection
      then holds exactly the bytes behind the request. */
  method DispatchAndServe(auth: AuthInfo, r: Reader, w: Writer)
    returns (v: Verdict, conn: PreloadConn.Conn?, wrote: bool, ghost c: Client)
    requires r.Valid()
    modifies r, w
    ensures wrote || w.failed
    ensures v.Forward? ==> conn != null && Sized(c) && Entitled(auth, c) && v.addr == c.addr
    ensures v.Forward? ==> old(r.data) == Says(auth, c, conn.Stream()) && v.rest == conn.Stream()
    ensures IsSocks(old(r.data)) ==> Follows(JudgeHello(auth, old(r.data)), v, old(w.got), w.got, wrote)
    ensures IsSocks(old(r.data)) && wrote ==>
      var a := JudgeHello(auth, old(r.data)); v == a.verdict && w.got == old(w.got) + a.replies
    ensures !IsSocks(old(r.data)) ==> v == Refuse && w.got == old(w.got)
  {
    v, wrote, c := Refuse, true, Client([], [], [], 0, Domain([], 0));
    var socks;
    conn, socks := Dispatch(r);
    if conn == null || !socks {
      return;
    }
    v, wrote := Serve(auth, conn, w);
    if v.Forward? {
      c := ForwardedIsEntitled(auth, old(r.data));
    }
  }
}
