/** The handshake as two processes over two FIFO octet channels: every interleaving, every fragmentation. */
module HandshakeProtocol {
  import opened Bytes
  import opened Wrappers
  import opened HandshakeLayout
  import opened HandshakeMessages
  import opened DH = DiffieHellman

  /** What the ends compute between their reads and writes; all that the interleaving depends on. */
  datatype Ends = Ends(
    kind: byte,
    c1: Message,
    clientAnswer: (byte, Message) -> Option<Answer>,
    clientFinish: (Answer, byte, Message) -> Option<Option<Keys>>,
    negotiate: (byte, Message) -> Option<Terms>,
    serverHello: Terms -> Message,
    serverAnswer: (Terms, Message) -> Option<Answer>,
    serverFinish: (Terms, Answer, Message) -> Option<Option<Keys>>)

  // ---- the processes ----

  // An end first writes what it owes (`out`), then collects what it waits for (`got`), then computes.

  datatype ClientPhase = CHello | CReply(ckind: byte, canswer: Answer) | CDone(ckeys: Option<Keys>) | CFailed

  datatype Client = Client(phase: ClientPhase, out: seq<byte>, got: seq<byte>)

  datatype ServerPhase =
    | SListen
    | SGreet(gterms: Terms, c1: Message)
    | SReply(rterms: Terms, sanswer: Answer)
    | SDone(skeys: Option<Keys>)
    | SFailed

  datatype Server = Server(phase: ServerPhase, out: seq<byte>, got: seq<byte>)

  datatype System = System(client: Client, server: Server, toServer: seq<byte>, toClient: seq<byte>)

  datatype Action =
    | ClientWrite(n: nat) | ClientRead(n: nat) | ClientCompute
    | ServerWrite(n: nat) | ServerRead(n: nat) | ServerCompute

  const HELLO: nat := SIG_SIZE + 1

  function ClientNeeds(p: ClientPhase): nat {
    match p
    case CHello => HELLO
    case CReply(_, _) => SIG_SIZE
    case _ => 0
  }

  function ServerNeeds(p: ServerPhase): nat {
    match p
    case SListen => HELLO
    case SReply(_, _) => SIG_SIZE
    case _ => 0
  }

  predicate Enabled(s: System, a: Action) {
    match a
    case ClientWrite(n) => 1 <= n <= |s.client.out|
    case ClientRead(n) =>
      s.client.out == [] && 1 <= n <= |s.toClient| && |s.client.got| + n <= ClientNeeds(s.client.phase)
    case ClientCompute =>
      s.client.out == [] && |s.client.got| == ClientNeeds(s.client.phase)
      && !s.client.phase.CDone? && !s.client.phase.CFailed?
    case ServerWrite(n) => 1 <= n <= |s.server.out|
    case ServerRead(n) =>
      s.server.out == [] && 1 <= n <= |s.toServer| && |s.server.got| + n <= ServerNeeds(s.server.phase)
    case ServerCompute =>
      s.server.out == [] && |s.server.got| == ServerNeeds(s.server.phase)
      && !s.server.phase.SDone? && !s.server.phase.SFailed?
  }

  function ClientComputes(e: Ends, c: Client): Client
    requires |c.got| == ClientNeeds(c.phase)
  {
    match c.phase
    case CHello =>
      (match e.clientAnswer(c.got[0], c.got[1..])
       case None => Client(CFailed, [], [])
       case Some(a) => Client(CReply(c.got[0], a), a.message, []))
    case CReply(kind, a) =>
      (match e.clientFinish(a, kind, c.got)
       case None => Client(CFailed, [], [])
       case Some(keys) => Client(CDone(keys), [], []))
    case _ => c
  }

  function ServerComputes(e: Ends, v: Server): Server
    requires |v.got| == ServerNeeds(v.phase)
  {
    match v.phase
    case SListen =>
      (match e.negotiate(v.got[0], v.got[1..])
       case None => Server(SFailed, [], [])
       case Some(t) => Server(SGreet(t, v.got[1..]), [t.kind] + e.serverHello(t), []))
    case SGreet(t, c1) =>
      (match e.serverAnswer(t, c1)
       case None => Server(SFailed, [], [])
       case Some(a) => Server(SReply(t, a), a.message, []))
    case SReply(t, a) =>
      (match e.serverFinish(t, a, v.got)
       case None => Server(SFailed, [], [])
       case Some(keys) => Server(SDone(keys), [], []))
    case _ => v
  }

  function Step(e: Ends, s: System, a: Action): System
    requires Enabled(s, a)
  {
    match a
    case ClientWrite(n) =>
      s.(client := s.client.(out := s.client.out[n..]), toServer := s.toServer + s.client.out[..n])
    case ClientRead(n) =>
      s.(client := s.client.(got := s.client.got + s.toClient[..n]), toClient := s.toClient[n..])
    case ClientCompute => s.(client := ClientComputes(e, s.client))
    case ServerWrite(n) =>
      s.(server := s.server.(out := s.server.out[n..]), toClient := s.toClient + s.server.out[..n])
    case ServerRead(n) =>
      s.(server := s.server.(got := s.server.got + s.toServer[..n]), toServer := s.toServer[n..])
    case ServerCompute => s.(server := ServerComputes(e, s.server))
  }

  function Start(e: Ends): System
  {
    System(Client(CHello, [e.kind] + e.c1, []), Server(SListen, [], []), [], [])
  }

  /** The state after a run, if each of its actions was possible when taken. */
  ghost predicate Runs(e: Ends, s: System, run: seq<Action>, end: System)
    decreases |run|
  {
    if run == [] then end == s else Enabled(s, run[0]) && Runs(e, Step(e, s, run[0]), run[1..], end)
  }

  // ---- what is on the wire ----

  /** The one conversation the ends are able to have, each computation meeting the other end's message;
      `c` is all the client ever writes and `s` all the server ever writes. */
  datatype Script = Script(t: Terms, s1: Message, ca: Answer, sa: Answer, ck: Option<Keys>, sk: Option<Keys>,
                           c: seq<byte>, s: seq<byte>)

  ghost predicate Fits(e: Ends, w: Script) {
    && e.negotiate(e.kind, e.c1) == Some(w.t)
    && e.serverHello(w.t) == w.s1
    && e.clientAnswer(w.t.kind, w.s1) == Some(w.ca)
    && e.serverAnswer(w.t, e.c1) == Some(w.sa)
    && e.clientFinish(w.ca, w.t.kind, w.sa.message) == Some(w.ck)
    && e.serverFinish(w.t, w.sa, w.ca.message) == Some(w.sk)
    && w.c == [e.kind] + e.c1 + w.ca.message
    && w.s == [w.t.kind] + w.s1 + w.sa.message
  }

  // How far each end has written and read, counted in octets

  ghost function ClientSent(c: Client): int {
    match c.phase
    case CHello => HELLO - |c.out|
    case _ => HELLO + SIG_SIZE - |c.out|
  }

  ghost function ClientGot(c: Client): int {
    match c.phase
    case CHello => |c.got|
    case CReply(_, _) => HELLO + |c.got|
    case _ => HELLO + SIG_SIZE
  }

  ghost function ServerSent(v: Server): int {
    match v.phase
    case SListen => 0
    case SGreet(_, _) => HELLO - |v.out|
    case _ => HELLO + SIG_SIZE - |v.out|
  }

  ghost function ServerGot(v: Server): int {
    match v.phase
    case SListen => |v.got|
    case SGreet(_, _) => HELLO
    case SReply(_, _) => HELLO + |v.got|
    case _ => HELLO + SIG_SIZE
  }

  ghost predicate ClientInv(w: Script, c: Client)
    requires |w.c| == |w.s| == HELLO + SIG_SIZE
  {
    && |c.got| <= ClientNeeds(c.phase)
    && match c.phase
       case CHello =>
         |c.out| <= HELLO && c.out == w.c[HELLO - |c.out|..HELLO] && c.got == w.s[..|c.got|]
       case CReply(kind, a) =>
         && kind == w.t.kind && a == w.ca && |c.out| <= SIG_SIZE
         && c.out == w.c[HELLO + SIG_SIZE - |c.out|..] && c.got == w.s[HELLO..HELLO + |c.got|]
       case CDone(keys) => c.out == [] && keys == w.ck
       case CFailed => false
  }

  ghost predicate ServerInv(e: Ends, w: Script, v: Server)
    requires |w.c| == |w.s| == HELLO + SIG_SIZE
  {
    && |v.got| <= ServerNeeds(v.phase)
    && match v.phase
       case SListen => v.out == [] && v.got == w.c[..|v.got|]
       case SGreet(t, c1) =>
         t == w.t && c1 == e.c1 && |v.out| <= HELLO && v.out == w.s[HELLO - |v.out|..HELLO]
       case SReply(t, a) =>
         && t == w.t && a == w.sa && |v.out| <= SIG_SIZE
         && v.out == w.s[HELLO + SIG_SIZE - |v.out|..] && v.got == w.c[HELLO..HELLO + |v.got|]
       case SDone(keys) => v.out == [] && keys == w.sk
       case SFailed => false
  }

  /** Neither end failed, and each channel holds exactly what was written and not yet read. */
  ghost predicate Inv(e: Ends, w: Script, s: System) {
    && |w.c| == |w.s| == HELLO + SIG_SIZE
    && ClientInv(w, s.client) && ServerInv(e, w, s.server)
    && ServerGot(s.server) <= ClientSent(s.client)
    && s.toServer == w.c[ServerGot(s.server)..ClientSent(s.client)]
    && ClientGot(s.client) <= ServerSent(s.server)
    && s.toClient == w.s[ClientGot(s.client)..ServerSent(s.server)]
  }

  lemma ClientComputeKeeps(e: Ends, w: Script, c: Client)
    requires Fits(e, w) && ClientInv(w, c)
    requires |c.got| == ClientNeeds(c.phase) && c.out == [] && !c.phase.CDone?
    ensures var d := ClientComputes(e, c);
            && ClientInv(w, d)
            && ClientSent(d) == ClientSent(c) && ClientGot(d) == ClientGot(c) && ClientTasks(d) == ClientTasks(c) - 1
  {
    if c.phase.CHello? {
      assert c.got == [w.t.kind] + w.s1;
      assert c.got[1..] == w.s1;
      assert w.ca.message == w.c[HELLO..];
    } else {
      assert c.got == w.sa.message;
    }
  }

  lemma ServerComputeKeeps(e: Ends, w: Script, v: Server)
    requires Fits(e, w) && ServerInv(e, w, v)
    requires |v.got| == ServerNeeds(v.phase) && v.out == [] && !v.phase.SDone?
    ensures var d := ServerComputes(e, v);
            && ServerInv(e, w, d)
            && ServerSent(d) == ServerSent(v) && ServerGot(d) == ServerGot(v) && ServerTasks(d) == ServerTasks(v) - 1
  {
    match v.phase {
      case SListen =>
        assert v.got == [e.kind] + e.c1;
        assert v.got[1..] == e.c1;
        assert [w.t.kind] + w.s1 == w.s[..HELLO];
      case SGreet(_, _) => assert w.sa.message == w.s[HELLO..];
      case SReply(_, _) => assert v.got == w.ca.message;
      case _ =>
    }
  }

  // Moving `n` octets across the boundary `j` of two adjacent stretches of a stream
  lemma Splice(s: seq<byte>, i: nat, j: nat, k: nat, n: nat)
    requires i <= j <= k <= |s| && n <= k - j
    ensures s[i..j] + s[j..k][..n] == s[i..j + n] && s[j..k][n..] == s[j + n..k]
  {
  }

  lemma ClientWriteKeeps(e: Ends, w: Script, s: System, n: nat)
    requires Inv(e, w, s) && Enabled(s, ClientWrite(n))
    ensures var s' := Step(e, s, ClientWrite(n)); Inv(e, w, s') && Measure(s') == Measure(s) - n
  {
    var sent := ClientSent(s.client);
    Splice(w.c, ServerGot(s.server), sent, sent + |s.client.out|, n);
  }

  lemma ClientReadKeeps(e: Ends, w: Script, s: System, n: nat)
    requires Inv(e, w, s) && Enabled(s, ClientRead(n))
    ensures var s' := Step(e, s, ClientRead(n)); Inv(e, w, s') && Measure(s') == Measure(s) - n
  {
    var got := ClientGot(s.client);
    Splice(w.s, got - |s.client.got|, got, ServerSent(s.server), n);
  }

  lemma ServerWriteKeeps(e: Ends, w: Script, s: System, n: nat)
    requires Inv(e, w, s) && Enabled(s, ServerWrite(n))
    ensures var s' := Step(e, s, ServerWrite(n)); Inv(e, w, s') && Measure(s') == Measure(s) - n
  {
    var sent := ServerSent(s.server);
    Splice(w.s, ClientGot(s.client), sent, sent + |s.server.out|, n);
  }

  lemma ServerReadKeeps(e: Ends, w: Script, s: System, n: nat)
    requires Inv(e, w, s) && Enabled(s, ServerRead(n))
    ensures var s' := Step(e, s, ServerRead(n)); Inv(e, w, s') && Measure(s') == Measure(s) - n
  {
    var got := ServerGot(s.server);
    Splice(w.c, got - |s.server.got|, got, ClientSent(s.client), n);
  }

  lemma StepKeepsInv(e: Ends, w: Script, s: System, a: Action)
    requires Fits(e, w) && Inv(e, w, s) && Enabled(s, a)
    ensures Inv(e, w, Step(e, s, a)) && Measure(Step(e, s, a)) < Measure(s)
  {
    match a {
      case ClientCompute => ClientComputeKeeps(e, w, s.client);
      case ServerCompute => ServerComputeKeeps(e, w, s.server);
      case ClientWrite(n) => ClientWriteKeeps(e, w, s, n);
      case ClientRead(n) => ClientReadKeeps(e, w, s, n);
      case ServerWrite(n) => ServerWriteKeeps(e, w, s, n);
      case ServerRead(n) => ServerReadKeeps(e, w, s, n);
    }
  }

  // ---- progress ----

  ghost function ClientTasks(c: Client): nat {
    match c.phase
    case CHello => 2
    case CReply(_, _) => 1
    case _ => 0
  }

  ghost function ServerTasks(v: Server): nat {
    match v.phase
    case SListen => 3
    case SGreet(_, _) => 2
    case SReply(_, _) => 1
    case _ => 0
  }

  /** Octets still to write, octets still to read, computations still to do. */
  ghost function Measure(s: System): int {
    4 * (HELLO + SIG_SIZE) - ClientSent(s.client) - ClientGot(s.client) - ServerSent(s.server) - ServerGot(s.server)
    + ClientTasks(s.client) + ServerTasks(s.server)
  }

  ghost predicate Finished(s: System) {
    s.client.phase.CDone? && s.server.phase.SDone?
  }

  /** No deadlock: unless both ends returned, one of them can move. */
  lemma SomeoneCanMove(e: Ends, w: Script, s: System) returns (a: Action)
    requires Inv(e, w, s) && !Finished(s)
    ensures Enabled(s, a)
  {
    var c, v := s.client, s.server;
    if c.out != [] {
      a := ClientWrite(1);
    } else if v.out != [] {
      a := ServerWrite(1);
    } else if |c.got| == ClientNeeds(c.phase) && !c.phase.CDone? {
      a := ClientCompute;
    } else if |v.got| == ServerNeeds(v.phase) && !v.phase.SDone? {
      a := ServerCompute;
    } else if !c.phase.CDone? && s.toClient != [] {
      a := ClientRead(1);
    } else {
      a := ServerRead(1);
    }
  }

  lemma EndsStopTogether(e: Ends, w: Script, s: System)
    requires Inv(e, w, s)
    ensures (forall a :: !Enabled(s, a)) <==> Finished(s)
    ensures Finished(s) ==> s.toServer == [] && s.toClient == []
  {
    if !Finished(s) {
      var a := SomeoneCanMove(e, w, s);
    }
  }

  lemma {:induction false} RunKeepsInv(e: Ends, w: Script, s: System, run: seq<Action>, end: System)
    requires Fits(e, w) && Inv(e, w, s) && Runs(e, s, run, end)
    ensures Inv(e, w, end) && |run| + Measure(end) <= Measure(s)
    decreases |run|
  {
    if run != [] {
      StepKeepsInv(e, w, s, run[0]);
      RunKeepsInv(e, w, Step(e, s, run[0]), run[1..], end);
    }
  }

  /** Any two ends with a fitting script complete it: along every interleaving no end fails, the run is bounded, and
      wherever it can no longer be extended both ends returned, with the script's keys and every octet read. */
  lemma ScriptCompletes(e: Ends, w: Script, run: seq<Action>, end: System)
    requires Fits(e, w) && Runs(e, Start(e), run, end)
    ensures !end.client.phase.CFailed? && !end.server.phase.SFailed?
    ensures |run| <= 4 * (HELLO + SIG_SIZE) + 5
    ensures (forall a :: !Enabled(end, a)) <==> Finished(end)
    ensures Finished(end) ==> end.toServer == [] && end.toClient == []
    ensures Finished(end) ==> end.client.phase.ckeys == w.ck && end.server.phase.skeys == w.sk
  {
    RunKeepsInv(e, w, Start(e), run, end);
    EndsStopTogether(e, w, end);
  }

  // ---- HandShake against SHandShake ----

  /** One run's inputs. */
  datatype Config = Config(env: Env, ci: ClientInput, si: ServerInput)

  ghost function EndsOf(cfg: Config): Ends
    requires cfg.env.Valid()
  {
    var c1 := ClientHello(cfg.env, cfg.ci);
    Ends(ClientKind(cfg.ci), c1,
         (kind: byte, s1: Message) => ClientAnswer(cfg.env, cfg.ci, c1, kind, s1),
         (a: Answer, kind: byte, s2: Message) => ClientFinish(cfg.env, cfg.ci, c1, a, kind, s2),
         (kind: byte, c1: Message) => Negotiate(kind, c1),
         (t: Terms) => ServerHello(cfg.env, cfg.si, t),
         (t: Terms, c: Message) => ServerAnswer(cfg.env, cfg.si, t, ServerHello(cfg.env, cfg.si, t), c),
         (t: Terms, a: Answer, c2: Message) => ServerFinish(cfg.env, t, ServerHello(cfg.env, cfg.si, t), a, c2))
  }

  /** Neither end holds session keys, or, when encrypting, they hold those of their two exponents, crossed. */
  ghost predicate KeysMeet(cfg: Config, ck: Option<Keys>, sk: Option<Keys>)
    requires cfg.env.Valid()
  {
    if cfg.ci.mode != Encrypted then ck == sk == None
    else ck.Some? && sk.Some? && SessionKeys(cfg.env, cfg.ci.exponent, cfg.si.exponent, ck.value, sk.value)
  }

  lemma ScriptExists(cfg: Config) returns (w: Script)
    requires cfg.env.Valid()
    ensures Fits(EndsOf(cfg), w)
    ensures KeysMeet(cfg, w.ck, w.sk)
  {
    var t := AgreedTerms(cfg.ci);
    var c1, s1 := ClientHello(cfg.env, cfg.ci), ServerHello(cfg.env, cfg.si, t);
    Negotiated(cfg.env, cfg.ci);
    BothFinish(cfg.env, cfg.ci, cfg.si);
    var ca, sa := ClientAnswer(cfg.env, cfg.ci, c1, t.kind, s1).value, ServerAnswer(cfg.env, cfg.si, t, s1, c1).value;
    w := Script(t, s1, ca, sa, ClientFinish(cfg.env, cfg.ci, c1, ca, t.kind, sa.message).value,
                ServerFinish(cfg.env, t, s1, sa, ca.message).value,
                [ClientKind(cfg.ci)] + c1 + ca.message, [t.kind] + s1 + sa.message);
  }

  /** Completion. For all inputs and modes, along every interleaving no end ever fails, the run is bounded, and
      wherever it can no longer be extended both ends returned TRUE, every octet written was read, and, when
      encrypting, the ends hold the two keystreams of the secret 2^(xy) mod p and of each other's public key, crossed,
      both advanced past the handshake. */
  lemma HandshakeCompletes(cfg: Config, run: seq<Action>, end: System)
    requires cfg.env.Valid() && Runs(EndsOf(cfg), Start(EndsOf(cfg)), run, end)
    ensures !end.client.phase.CFailed? && !end.server.phase.SFailed?
    ensures |run| <= 4 * (HELLO + SIG_SIZE) + 5
    ensures (forall a :: !Enabled(end, a)) <==> Finished(end)
    ensures Finished(end) ==> end.toServer == [] && end.toClient == []
    ensures Finished(end) ==> KeysMeet(cfg, end.client.phase.ckeys, end.server.phase.skeys)
  {
    var w := ScriptExists(cfg);
    ScriptCompletes(EndsOf(cfg), w, run, end);
  }
}
