/** service/ClientService.java: the importing side of the peer-to-peer
    transfer. A server peer's lines go through the handshake until the peer is
    secure; after that they are decrypted and dispatched on their command.
    Outgoing lines are encrypted only for secure peers. The collaborators whose
    code is not part of this model (RSA, StringUtilities.chunk, PeerCommand.get,
    org.json, the SocketMessages texts) arrive as the `Env` record. */
module ClientService {
  import opened JavaLang
  import opened NetworkService

  // ------------------------------------------------------------------ vocabulary

  /** The commands PeerCommand.get can name; `Other` stands for the remaining ones. */
  datatype PeerCommand = TargetTranslation | ProjectArchive | ProjectList | InvalidRequest | Other(name: string)

  /** A JSON member as `has` / `getInt` / `getString` see it. */
  datatype JsonField<T> = Absent | Mistyped | Present(value: T)

  /** The transfer descriptor a server sends before opening a read socket. */
  datatype Descriptor = Descriptor(port: JsonField<int>, size: JsonField<int>, name: JsonField<string>)

  /** One entry of a received project list, classified the way the list loop treats it. */
  datatype ProjectRecord =
    | NotAnObject    // getJSONObject(i) throws
    | MissingKeys    // lacks one of id, project, language, target_languages
    | Malformed      // has the keys, but a nested get throws
    | WellFormed

  /** The texts of the protocol's fixed messages (SocketMessages and PeerCommand names). */
  datatype Messages = Messages(
    publicKey: string, ok: string, invalidRequest: string, exception: string,
    projectList: string, projectArchive: string, targetTranslation: string)

  /** Everything the service calls but whose code is not modelled. */
  datatype Env = Env(
    chunk: string -> seq<string>,                      // StringUtilities.chunk(message, ":")
    decrypt: (Option<string>, string) -> Option<string>, // decryptMessage(privateKey, message); None is null
    encrypt: (string, string) -> string,               // encryptMessage(publicKey, message)
    parsePublicKey: Option<string> -> Option<string>,  // RSAEncryption.getPublicKeyFromString
    commandOf: string -> Option<PeerCommand>,          // PeerCommand.get; None is null
    parseDescriptor: string -> Option<Descriptor>,     // new JSONObject(text); None is a JSONException
    parseProjects: string -> Option<seq<ProjectRecord>>, // new JSONArray(text)
    jsonArray: seq<string> -> string,                  // a JSONArray of strings, as text
    browseLabel: string,                               // the R.string.browse resource
    msgs: Messages)

  /** Why an error reached the listener. */
  datatype Cause = DecryptionFailed | BadJson | InvalidResponse | InvalidRequestReceived | DownloadFailed | ConnectFailed

  /** The listener callbacks, in the order they fire; peers are named by address. */
  datatype Event =
    | ServiceReady
    | ConnectionChanged(peer: string)
    | ConnectionLost(peer: string)
    | ServiceError(cause: Cause)
    | ReceivedTranslations(peer: string, slugs: seq<string>)

  datatype ArchiveKind = TargetTranslationArchive | ProjectArchiveFile

  /** A read socket the service asked to open (openReadSocket). */
  datatype Transfer = Transfer(peer: string, kind: ArchiveKind, port: int, size: int, name: string)

  /** An open or closed server connection and the lines written to it. */
  datatype Connection = Connection(writes: seq<string>, open: bool)

  // PeerStatusKeys: the stored keys only need to be distinct.
  const KEY_PUBLIC_KEY: string := "public_key"
  const KEY_WAITING: string := "waiting"
  const KEY_CONTROL_TEXT: string := "control_text"
  const KEY_PROGRESS: string := "progress"

  const PARAM_PUBLIC_KEY: string := "param_public_key"
  const PARAM_PRIVATE_KEY: string := "param_private_key"

  /** What a peer's handshake and downloads change. */
  datatype PeerState = PeerState(isSecure: bool, keyStore: map<string, StatusValue>)

  /** The service fields a handler reads, and the address of the peer it serves. */
  datatype Context = Context(env: Env, publicKey: Option<string>, privateKey: Option<string>, listener: bool, ip: string)

  /** The effect of one handler on its peer: the new peer state, the lines
      written to the peer's connection, the callbacks, the read sockets asked for,
      and whether an exception escaped. */
  datatype Reaction = Reaction(peer: PeerState, writes: seq<string>, events: seq<Event>, transfers: seq<Transfer>, thrown: bool)

  // ------------------------------------------------------------------ outgoing lines

  /** String concatenation of a possibly null string. */
  function NullableText(s: Option<string>): string {
    if s.Some? then s.value else "null"
  }

  /** keyStore.getString(PUBLIC_KEY): null unless a string is stored there. */
  function StoredKey(ks: map<string, StatusValue>): Option<string> {
    if KEY_PUBLIC_KEY in ks && ks[KEY_PUBLIC_KEY].Text? then Some(ks[KEY_PUBLIC_KEY].text) else None
  }

  /** The line sendMessage writes for `message`. */
  function Wire(env: Env, p: PeerState, message: string): (w: string)
    ensures !p.isSecure ==> w == message
    ensures p.isSecure && env.parsePublicKey(StoredKey(p.keyStore)).None? ==> w == env.msgs.exception
    ensures p.isSecure && env.parsePublicKey(StoredKey(p.keyStore)).Some? ==>
      w == env.encrypt(env.parsePublicKey(StoredKey(p.keyStore)).value, message)
  {
    if !p.isSecure then message
    else
      var key := env.parsePublicKey(StoredKey(p.keyStore));
      if key.Some? then env.encrypt(key.value, message) else env.msgs.exception
  }

  /** The lines sendMessage writes: none without a connection for the peer. */
  function Send(env: Env, p: PeerState, connected: bool, message: string): (ws: seq<string>)
    ensures |ws| <= 1 && (ws != [] <==> connected)
  {
    if connected then [Wire(env, p, message)] else []
  }

  /** Appends `ws` to the connection stored for `ip`. */
  function Deliver(conns: map<string, Connection>, ip: string, ws: seq<string>): (r: map<string, Connection>)
    ensures r.Keys == conns.Keys
    ensures forall other :: other in conns && other != ip ==> r[other] == conns[other]
    ensures ip in conns ==> r[ip] == conns[ip].(writes := conns[ip].writes + ws)
  {
    if ip in conns && ws != [] then conns[ip := conns[ip].(writes := conns[ip].writes + ws)] else conns
  }

  /** A callback fires only when a listener is registered. */
  function Emit(listener: bool, e: Event): (r: seq<Event>)
    ensures |r| <= 1 && (r != [] <==> listener)
  {
    if listener then [e] else []
  }

  // ------------------------------------------------------------------ incoming lines

  function Quiet(p: PeerState): Reaction { Reaction(p, [], [], [], false) }
  function Thrown(p: PeerState): Reaction { Reaction(p, [], [], [], true) }
  function Reported(p: PeerState, listener: bool, cause: Cause): Reaction {
    Reaction(p, [], Emit(listener, ServiceError(cause)), [], false)
  }

  /** handshake: PUBLIC_KEY stores the server's key and makes the peer secure,
      OK answers with the own public key, anything else with INVALID_REQUEST. */
  function HandshakeStep(ctx: Context, p: PeerState, connected: bool, message: string): Reaction {
    var data := ctx.env.chunk(message);
    if |data| == 0 then Thrown(p)
    else if data[0] == ctx.env.msgs.publicKey then
      if |data| < 2 then Thrown(p)
      else
        var ks := p.keyStore[KEY_PUBLIC_KEY := Text(data[1])][KEY_WAITING := Flag(false)][KEY_CONTROL_TEXT := Text(ctx.env.browseLabel)];
        Reaction(PeerState(true, ks), [], Emit(ctx.listener, ConnectionChanged(ctx.ip)), [], false)
    else if data[0] == ctx.env.msgs.ok then
      Reaction(p, Send(ctx.env, p, connected, ctx.env.msgs.publicKey + ":" + NullableText(ctx.publicKey)), [], [], false)
    else
      Reaction(p, Send(ctx.env, p, connected, ctx.env.msgs.invalidRequest), [], [], false)
  }

  /** An archive descriptor: bad JSON or a mistyped member is a JSON error, a
      missing member an invalid response; otherwise a read socket is requested. */
  function DescriptorStep(ctx: Context, p: PeerState, kind: ArchiveKind, args: seq<string>): Reaction {
    if args == [] then Thrown(p)
    else
      var parsed := ctx.env.parseDescriptor(args[0]);
      if parsed.None? then Reported(p, ctx.listener, BadJson)
      else
        var d := parsed.value;
        if d.port.Absent? || d.size.Absent? || d.name.Absent? then Reported(p, ctx.listener, InvalidResponse)
        else if !d.port.Present? || !d.size.Present? || !d.name.Present? then Reported(p, ctx.listener, BadJson)
        else Reaction(p, [], [], [Transfer(ctx.ip, kind, d.port.value, d.size.value, d.name.value)], false)
  }

  /** The error a project-list entry raises, if any (an entry missing keys is only logged). */
  function RecordError(listener: bool, r: ProjectRecord): seq<Event> {
    if r.NotAnObject? || r.Malformed? then Emit(listener, ServiceError(BadJson)) else []
  }

  /** The callbacks of the project-list loop, entry by entry. */
  function RecordErrors(listener: bool, records: seq<ProjectRecord>): seq<Event> {
    if records == [] then []
    else RecordErrors(listener, records[..|records| - 1]) + RecordError(listener, records[|records| - 1])
  }

  /** onCommandReceived. */
  function CommandStep(ctx: Context, p: PeerState, connected: bool, command: PeerCommand, args: seq<string>): Reaction {
    match command
    case TargetTranslation => DescriptorStep(ctx, p, TargetTranslationArchive, args)
    case ProjectArchive => DescriptorStep(ctx, p, ProjectArchiveFile, args)
    case ProjectList =>
      if args == [] then Thrown(p)
      else
        var parsed := ctx.env.parseProjects(args[0]);
        if parsed.None? then Reported(p, ctx.listener, BadJson)
        else Reaction(p, [], RecordErrors(ctx.listener, parsed.value), [], false)
    case InvalidRequest => Reported(p, ctx.listener, InvalidRequestReceived)
    case Other(_) => Reaction(p, Send(ctx.env, p, connected, ctx.env.msgs.invalidRequest), [], [], false)
  }

  /** onMessageReceived: handshake until secure, then decrypt and dispatch. */
  function ReceiveStep(ctx: Context, p: PeerState, connected: bool, message: string): Reaction {
    if !p.isSecure then HandshakeStep(ctx, p, connected, message)
    else
      var plain := ctx.env.decrypt(ctx.privateKey, message);
      if plain.None? then Reported(p, ctx.listener, DecryptionFailed)
      else
        var data := ctx.env.chunk(plain.value);
        if |data| == 0 then Thrown(p)
        else
          var command := ctx.env.commandOf(data[0]);
          if command.None? then Thrown(p)
          else CommandStep(ctx, p, connected, command.value, data[1..])
  }

  /** The lines of one server-thread session handled in order on a live
      connection; an escaping exception ends the session. */
  function Session(ctx: Context, p: PeerState, lines: seq<string>): Reaction
    decreases |lines|
  {
    if lines == [] then Quiet(p)
    else
      var before := Session(ctx, p, lines[..|lines| - 1]);
      if before.thrown then before
      else
        var r := ReceiveStep(ctx, before.peer, true, lines[|lines| - 1]);
        Reaction(r.peer, before.writes + r.writes, before.events + r.events, before.transfers + r.transfers, r.thrown)
  }

  // ------------------------------------------------------------------ properties of the handlers

  /** A secure peer's line is decrypted, never handed to the handshake, and leaves
      the peer's state alone; a failed decryption is one error callback and nothing else. */
  lemma SecureLineLeavesPeer(ctx: Context, p: PeerState, connected: bool, message: string)
    requires p.isSecure
    ensures ReceiveStep(ctx, p, connected, message).peer == p
    ensures ctx.env.decrypt(ctx.privateKey, message).None? ==>
      ReceiveStep(ctx, p, connected, message) == Reaction(p, [], Emit(ctx.listener, ServiceError(DecryptionFailed)), [], false)
  {
  }

  /** A peer that is not secure has its line handled by the handshake. */
  lemma InsecureLineIsHandshake(ctx: Context, p: PeerState, connected: bool, message: string)
    requires !p.isSecure
    ensures ReceiveStep(ctx, p, connected, message) == HandshakeStep(ctx, p, connected, message)
  {
  }

  /** PUBLIC_KEY: the key, WAITING = false and the control text are stored, the
      peer becomes secure, one connection-changed callback, nothing written. */
  lemma PublicKeyHandshake(ctx: Context, p: PeerState, connected: bool, message: string)
    requires !p.isSecure
    requires |ctx.env.chunk(message)| >= 2 && ctx.env.chunk(message)[0] == ctx.env.msgs.publicKey
    ensures var r := ReceiveStep(ctx, p, connected, message);
      && r.peer.isSecure && !r.thrown && r.writes == [] && r.transfers == []
      && r.events == Emit(ctx.listener, ConnectionChanged(ctx.ip))
      && r.peer.keyStore.Keys == p.keyStore.Keys + {KEY_PUBLIC_KEY, KEY_WAITING, KEY_CONTROL_TEXT}
      && r.peer.keyStore[KEY_PUBLIC_KEY] == Text(ctx.env.chunk(message)[1])
      && r.peer.keyStore[KEY_WAITING] == Flag(false)
      && r.peer.keyStore[KEY_CONTROL_TEXT] == Text(ctx.env.browseLabel)
      && forall k :: k in p.keyStore && k !in {KEY_PUBLIC_KEY, KEY_WAITING, KEY_CONTROL_TEXT} ==> r.peer.keyStore[k] == p.keyStore[k]
  {
  }

  /** OK: exactly one line, "PUBLIC_KEY:" and the own key, in plain text since
      the peer is not secure yet; the peer is unchanged. */
  lemma OkHandshake(ctx: Context, p: PeerState, message: string)
    requires !p.isSecure
    requires |ctx.env.chunk(message)| >= 1 && ctx.env.chunk(message)[0] == ctx.env.msgs.ok
    requires ctx.env.msgs.ok != ctx.env.msgs.publicKey
    ensures var r := ReceiveStep(ctx, p, true, message);
      r == Reaction(p, [ctx.env.msgs.publicKey + ":" + NullableText(ctx.publicKey)], [], [], false)
  {
  }

  /** An unknown handshake line is answered with INVALID_REQUEST and changes nothing else. */
  lemma UnknownHandshake(ctx: Context, p: PeerState, connected: bool, message: string)
    requires !p.isSecure
    requires |ctx.env.chunk(message)| >= 1
    requires ctx.env.chunk(message)[0] !in {ctx.env.msgs.ok, ctx.env.msgs.publicKey}
    ensures ReceiveStep(ctx, p, connected, message)
      == Reaction(p, if connected then [ctx.env.msgs.invalidRequest] else [], [], [], false)
  {
  }

  /** An unknown command is answered with INVALID_REQUEST, encrypted for the now
      secure peer; an InvalidRequest command only reports an error. */
  lemma UnknownCommand(ctx: Context, p: PeerState, name: string, args: seq<string>)
    requires p.isSecure
    ensures CommandStep(ctx, p, true, Other(name), args) == Reaction(p, [Wire(ctx.env, p, ctx.env.msgs.invalidRequest)], [], [], false)
    ensures CommandStep(ctx, p, true, InvalidRequest, args) == Reaction(p, [], Emit(ctx.listener, ServiceError(InvalidRequestReceived)), [], false)
  {
  }

  /** A descriptor lacking a member, or carrying bad JSON, yields one error
      callback and no read socket; a read socket is asked for exactly when all
      three members are present with the right types. */
  lemma DescriptorValidation(ctx: Context, p: PeerState, kind: ArchiveKind, args: seq<string>)
    requires args != []
    ensures var r := DescriptorStep(ctx, p, kind, args);
      var parsed := ctx.env.parseDescriptor(args[0]);
      && r.peer == p && r.writes == [] && !r.thrown
      && (r.transfers != [] <==> parsed.Some? && parsed.value.port.Present? && parsed.value.size.Present? && parsed.value.name.Present?)
      && (r.transfers == [] ==> |r.events| == if ctx.listener then 1 else 0)
      && (r.transfers != [] ==> r.events == [] && r.transfers[0].kind == kind && r.transfers[0].port == parsed.value.port.value)
  {
  }

  /** Once a peer is secure it stays secure, never returns to the handshake and
      nothing later in the session changes its state. */
  lemma {:induction false} SecureIsFinal(ctx: Context, p: PeerState, lines: seq<string>, k: nat)
    requires k <= |lines|
    requires Session(ctx, p, lines[..k]).peer.isSecure
    ensures Session(ctx, p, lines).peer == Session(ctx, p, lines[..k]).peer
    decreases |lines|
  {
    if k < |lines| {
      var front := lines[..|lines| - 1];
      assert front[..k] == lines[..k];
      SecureIsFinal(ctx, p, front, k);
      var before := Session(ctx, p, front);
      if !before.thrown {
        SecureLineLeavesPeer(ctx, before.peer, true, lines[|lines| - 1]);
      }
    } else {
      assert lines[..k] == lines;
    }
  }

  /** A peer that is already secure stays exactly as it is for the whole session. */
  lemma {:induction false} SecureIsMonotone(ctx: Context, p: PeerState, lines: seq<string>)
    requires p.isSecure
    ensures Session(ctx, p, lines).peer == p
  {
    assert lines[..0] == [];
    SecureIsFinal(ctx, p, lines, 0);
  }

  // ------------------------------------------------------------------ download progress

  /** Sum of the byte counts. */
  function Sum(counts: seq<int>): int {
    if counts == [] then 0 else Sum(counts[..|counts| - 1]) + counts[|counts| - 1]
  }

  predicate AllPositive(counts: seq<int>) {
    forall i :: 0 <= i < |counts| ==> counts[i] > 0
  }

  /** totalCount after the counts: an int, so every addition wraps. */
  function TotalOf(counts: seq<int>): int {
    if counts == [] then 0 else Wrap32(TotalOf(counts[..|counts| - 1]) + counts[|counts| - 1])
  }

  /** The PROGRESS value written for a running total: totalCount / ((int) size) * 100 in int arithmetic. */
  function ProgressAfter(total: int, s32: int): int
    requires s32 != 0
  {
    Wrap32(JavaDiv(total, s32) * 100)
  }

  /** Every PROGRESS value the loop writes, one per read. */
  function ProgressLog(counts: seq<int>, s32: int): (r: seq<int>)
    requires s32 != 0
    ensures |r| == |counts|
  {
    if counts == [] then [] else ProgressLog(counts[..|counts| - 1], s32) + [ProgressAfter(TotalOf(counts), s32)]
  }

  lemma {:induction false} SumPrefixBounded(counts: seq<int>, k: nat)
    requires AllPositive(counts) && k <= |counts|
    ensures 0 <= Sum(counts[..k]) <= Sum(counts)
    decreases |counts|
  {
    if k < |counts| {
      var front := counts[..|counts| - 1];
      assert front[..k] == counts[..k];
      assert AllPositive(front);
      SumPrefixBounded(front, k);
    } else {
      assert counts[..k] == counts;
      if counts != [] {
        var front := counts[..|counts| - 1];
        assert AllPositive(front);
        SumPrefixBounded(front, |front|);
        assert front[..|front|] == front;
      }
    }
  }

  /** Without overflow the running int total is the plain sum. */
  lemma {:induction false} TotalOfIsSum(counts: seq<int>)
    requires AllPositive(counts) && Sum(counts) <= INT_MAX
    ensures TotalOf(counts) == Sum(counts)
  {
    if counts != [] {
      var front := counts[..|counts| - 1];
      assert AllPositive(front);
      SumPrefixBounded(counts, |front|);
      assert counts[..|front|] == front;
      TotalOfIsSum(front);
    }
  }

  /** Entry i of the log is the progress after the first i + 1 counts. */
  lemma {:induction false} ProgressLogAt(counts: seq<int>, s32: int, i: nat)
    requires s32 != 0 && i < |counts|
    ensures ProgressLog(counts, s32)[i] == ProgressAfter(TotalOf(counts[..i + 1]), s32)
    decreases |counts|
  {
    var front := counts[..|counts| - 1];
    if i < |front| {
      ProgressLogAt(front, s32, i);
      assert front[..i + 1] == counts[..i + 1];
    } else {
      assert counts[..i + 1] == counts;
    }
  }

  /** Every recorded PROGRESS is (totalCount / size) * 100 in integer division:
      zero while fewer than `size` bytes arrived, always a multiple of 100
      (for a positive int size and no overflow). */
  lemma ProgressIsWholePercent(counts: seq<int>, size: int, i: nat)
    requires 0 < size <= INT_MAX && AllPositive(counts) && Sum(counts) <= INT_MAX
    requires i < |counts| && Sum(counts[..i + 1]) / size * 100 <= INT_MAX
    ensures var p := ProgressLog(counts, size)[i];
      && p == Sum(counts[..i + 1]) / size * 100
      && p % 100 == 0 && p >= 0
      && (Sum(counts[..i + 1]) < size ==> p == 0)
  {
    var prefix := counts[..i + 1];
    ProgressLogAt(counts, size, i);
    SumPrefixBounded(counts, i + 1);
    assert AllPositive(prefix);
    TotalOfIsSum(prefix);
    WholePercent(Sum(prefix), size);
  }

  lemma WholePercent(total: int, size: int)
    requires 0 <= total && 0 < size <= INT_MAX && total / size * 100 <= INT_MAX
    ensures ProgressAfter(total, size) == total / size * 100
    ensures total / size * 100 % 100 == 0 && total / size * 100 >= 0
    ensures total < size ==> total / size * 100 == 0
  {
    var q := total / size;
    DivFacts(total, size);
    HundredFold(q);
    assert JavaDiv(total, size) == q;
    assert IsInt32(q * 100);
  }

  /** Kept apart from WholePercent: in that lemma's context the solver does
      not find these two division facts. */
  lemma DivFacts(total: int, size: int)
    requires 0 <= total && 0 < size
    ensures total / size >= 0
    ensures total < size ==> total / size == 0
  {
  }

  lemma HundredFold(q: int)
    requires q >= 0
    ensures q * 100 >= 0 && q * 100 % 100 == 0
  {
  }

  /** Reading 100 bytes in two halves records 0 and then 100: as written, the
      progress shows nothing at the halfway point. */
  lemma HalfwayShowsNoProgress()
    ensures ProgressLog([50, 50], 100) == [0, 100]
  {
    assert [50, 50][..1] == [50];
    assert TotalOf([50]) == 50;
    assert TotalOf([50, 50]) == 100;
    assert JavaDiv(50, 100) == 0;
    assert JavaDiv(100, 100) == 1;
  }

  /** The evidently intended progress, totalCount * 100 / size: the share of
      the archive received so far, as a whole percentage. */
  function PercentDone(total: int, size: int): (p: int)
    requires 0 <= total <= size && 0 < size
    ensures 0 <= p <= 100
    ensures p == 100 <==> total == size
    ensures p * size <= total * 100 < (p + 1) * size
  {
    PercentFacts(total, size);
    total * 100 / size
  }

  lemma PercentFacts(total: int, size: int)
    requires 0 <= total <= size && 0 < size
    ensures var p := total * 100 / size;
      && p * size <= total * 100 < (p + 1) * size
      && 0 <= p <= 100
      && (p == 100 <==> total == size)
  {
    var n := total * 100;
    var p := n / size;
    assert 0 <= p && p * size <= n < (p + 1) * size;
    MulMono(total, size, 100);
    assert n <= 100 * size;
    MulCancel(p, 100, size);
    if total == size {
      MulCancel(100, p, size);
    }
    if p == 100 {
      MulCancel(size, total, 100);
    }
  }

  lemma MulMono(a: int, b: int, c: int)
    requires a <= b && 0 <= c
    ensures a * c <= b * c
  {
  }

  /** a * c <= b * c < (b + 1) * c cancels to a <= b for a positive c. */
  lemma MulCancel(a: int, b: int, c: int)
    requires 0 < c && a * c < (b + 1) * c
    ensures a <= b
  {
    if a > b {
      MulMono(b + 1, a, c);
    }
  }

  /** The corrected progress never goes back while more bytes arrive. */
  lemma PercentDoneGrows(t1: int, t2: int, size: int)
    requires 0 <= t1 <= t2 <= size && 0 < size
    ensures PercentDone(t1, size) <= PercentDone(t2, size)
  {
    var p1 := PercentDone(t1, size);
    var p2 := PercentDone(t2, size);
    if p1 > p2 {
      MulMono(p2 + 1, p1, size);
      MulMono(t1, t2, 100);
    }
  }

  /** The callbacks of n progress updates. */
  function Changes(listener: bool, ip: string, n: nat): (r: seq<Event>)
    ensures |r| == if listener then n else 0
    ensures forall e :: e in r ==> e == ConnectionChanged(ip)
  {
    if !listener || n == 0 then [] else Changes(listener, ip, n - 1) + [ConnectionChanged(ip)]
  }

  /** The callback after a finished download: only a target translation is
      imported, and only a successful import is reported. */
  function Imported(listener: bool, ip: string, kind: ArchiveKind, imported: Option<seq<string>>): seq<Event> {
    if kind == TargetTranslationArchive && imported.Some? then Emit(listener, ReceivedTranslations(ip, imported.value)) else []
  }

  // ------------------------------------------------------------------ the service

  datatype Extra = KeyExtra(material: string) | TextExtra(text: string) | NullExtra
  datatype Intent = Intent(extras: Option<map<string, Extra>>)

  /** The intent carries both key extras. */
  predicate HasKeys(intent: Option<Intent>) {
    intent.Some? && intent.value.extras.Some?
    && PARAM_PRIVATE_KEY in intent.value.extras.value && PARAM_PUBLIC_KEY in intent.value.extras.value
  }

  /** The (PrivateKey) cast of an extra that is a key or null. */
  function KeyOf(e: Extra): Option<string> {
    if e.KeyExtra? then Some(e.material) else None
  }

  /** Bundle.getString: null for an extra that is not a string. */
  function TextOf(e: Extra): Option<string> {
    if e.TextExtra? then Some(e.text) else None
  }

  class Client {
    var listener: bool
    var events: seq<Event>
    var connections: map<string, Connection>
    var transfers: seq<Transfer>
    var privateKey: Option<string>
    var publicKey: Option<string>
    /** A static field of the service class, shared by every instance; one
        service object is modelled, so it is kept here. */
    var isRunning: bool
    /** The peer registry this service inherits. */
    const registry: Service

    constructor (registry: Service)
      ensures this.registry == registry
      ensures !listener && events == [] && connections == map[] && transfers == []
      ensures privateKey == None && publicKey == None && !isRunning
    {
      this.registry := registry;
      listener := false;
      events := [];
      connections := map[];
      transfers := [];
      privateKey := None;
      publicKey := None;
      isRunning := false;
    }

    function Ctx(env: Env, ip: string): Context
      reads this
    {
      Context(env, publicKey, privateKey, listener, ip)
    }

    method Notify(e: Event)
      modifies this`events
      ensures events == old(events) + Emit(listener, e)
    {
      if listener {
        events := events + [e];
      }
    }

    /** setOnClientEventListener: a running service announces itself to a new listener. */
    method SetOnClientEventListener(present: bool)
      modifies this`listener, this`events
      ensures listener == present
      ensures events == old(events) + (if isRunning && present then [ServiceReady] else [])
    {
      listener := present;
      if isRunning && listener {
        Notify(ServiceReady);
      }
    }

    /** stopService: closes every connection (they stay in the map) and clears isRunning. */
    method StopService()
      modifies this`connections, this`isRunning
      ensures !isRunning
      ensures connections.Keys == old(connections).Keys
      ensures forall ip :: ip in connections ==> connections[ip] == old(connections)[ip].(open := false)
    {
      var left := connections.Keys;
      while left != {}
        invariant left <= connections.Keys == old(connections).Keys
        invariant forall ip :: ip in connections && ip !in left ==> connections[ip] == old(connections)[ip].(open := false)
        invariant forall ip :: ip in left ==> connections[ip] == old(connections)[ip]
        decreases |left|
      {
        var ip :| ip in left;
        connections := connections[ip := connections[ip].(open := false)];
        left := left - {ip};
      }
      isRunning := false;
    }

    /** onStartCommand: with both key extras the keys are taken and the service
        reports ready and runs (sticky); otherwise it stops (not sticky). A
        private-key extra that is not a key fails the cast. */
    method OnStartCommand(intent: Option<Intent>) returns (sticky: bool, thrown: bool)
      modifies this`privateKey, this`publicKey, this`isRunning, this`events, this`connections
      ensures thrown <==> HasKeys(intent) && intent.value.extras.value[PARAM_PRIVATE_KEY].TextExtra?
      ensures sticky <==> HasKeys(intent) && !thrown
      ensures sticky ==> isRunning && events == old(events) + Emit(listener, ServiceReady) && connections == old(connections)
      ensures sticky ==> privateKey == KeyOf(intent.value.extras.value[PARAM_PRIVATE_KEY])
      ensures sticky ==> publicKey == TextOf(intent.value.extras.value[PARAM_PUBLIC_KEY])
      ensures !HasKeys(intent) ==> !isRunning && events == old(events)
      ensures !HasKeys(intent) ==> connections.Keys == old(connections).Keys
      ensures !HasKeys(intent) ==> forall ip :: ip in connections ==> connections[ip] == old(connections)[ip].(open := false)
      ensures thrown ==> unchanged(this)
    {
      sticky := false;
      thrown := false;
      if intent.Some? && intent.value.extras.Some? {
        var args := intent.value.extras.value;
        if PARAM_PRIVATE_KEY in args && PARAM_PUBLIC_KEY in args {
          var priv := args[PARAM_PRIVATE_KEY];
          if priv.TextExtra? {
            thrown := true;
            return;
          }
          privateKey := KeyOf(priv);
          publicKey := TextOf(args[PARAM_PUBLIC_KEY]);
          Notify(ServiceReady);
          isRunning := true;
          sticky := true;
          return;
        }
      }
      StopService();
    }

    /** sendMessage: nothing without a connection; a secure peer gets the
        encrypted line, or MSG_EXCEPTION when its stored key does not parse. */
    method SendMessage(env: Env, server: Peer, message: string)
      modifies this`connections
      ensures connections == Deliver(old(connections), server.ipAddress,
        Send(env, PeerState(server.isSecure, server.keyStore), server.ipAddress in old(connections), message))
    {
      if server.ipAddress in connections {
        var line := message;
        if server.isSecure {
          var key := env.parsePublicKey(StoredKey(server.keyStore));
          if key.Some? {
            line := env.encrypt(key.value, line);
          } else {
            line := env.msgs.exception;
          }
        }
        var c := connections[server.ipAddress];
        connections := connections[server.ipAddress := c.(writes := c.writes + [line])];
      }
    }

    method RequestProjectList(env: Env, server: Peer, preferredLanguages: seq<string>)
      modifies this`connections
      ensures connections == Deliver(old(connections), server.ipAddress,
        Send(env, PeerState(server.isSecure, server.keyStore), server.ipAddress in old(connections),
          env.msgs.projectList + ":" + env.jsonArray(preferredLanguages)))
    {
      SendMessage(env, server, env.msgs.projectList + ":" + env.jsonArray(preferredLanguages));
    }

    method RequestProjectArchive(env: Env, server: Peer, languagesJson: string)
      modifies this`connections
      ensures connections == Deliver(old(connections), server.ipAddress,
        Send(env, PeerState(server.isSecure, server.keyStore), server.ipAddress in old(connections),
          env.msgs.projectArchive + ":" + languagesJson))
    {
      SendMessage(env, server, env.msgs.projectArchive + ":" + languagesJson);
    }

    method RequestTargetTranslation(env: Env, server: Peer, targetTranslationSlug: string)
      modifies this`connections
      ensures connections == Deliver(old(connections), server.ipAddress,
        Send(env, PeerState(server.isSecure, server.keyStore), server.ipAddress in old(connections),
          env.msgs.targetTranslation + ":" + targetTranslationSlug))
    {
      SendMessage(env, server, env.msgs.targetTranslation + ":" + targetTranslationSlug);
    }

    /** handshake, proved against HandshakeStep. */
    method Handshake(env: Env, server: Peer, message: string) returns (thrown: bool)
      modifies this`connections, this`events, server`isSecure, server`keyStore
      ensures var r := HandshakeStep(old(Ctx(env, server.ipAddress)), old(PeerState(server.isSecure, server.keyStore)),
          server.ipAddress in old(connections), message);
        && PeerState(server.isSecure, server.keyStore) == r.peer
        && connections == Deliver(old(connections), server.ipAddress, r.writes)
        && events == old(events) + r.events && r.transfers == [] && thrown == r.thrown
    {
      var data := env.chunk(message);
      if |data| == 0 {
        return true;
      }
      if data[0] == env.msgs.publicKey {
        if |data| < 2 {
          return true;
        }
        server.keyStore := server.keyStore[KEY_PUBLIC_KEY := Text(data[1])];
        server.keyStore := server.keyStore[KEY_WAITING := Flag(false)];
        server.keyStore := server.keyStore[KEY_CONTROL_TEXT := Text(env.browseLabel)];
        server.isSecure := true;
        Notify(ConnectionChanged(server.ipAddress));
      } else if data[0] == env.msgs.ok {
        SendMessage(env, server, env.msgs.publicKey + ":" + NullableText(publicKey));
      } else {
        SendMessage(env, server, env.msgs.invalidRequest);
      }
      return false;
    }

    /** The descriptor branch of onCommandReceived, proved against DescriptorStep. */
    method ReceiveDescriptor(env: Env, server: Peer, kind: ArchiveKind, args: seq<string>) returns (thrown: bool)
      modifies this`events, this`transfers
      ensures var r := DescriptorStep(old(Ctx(env, server.ipAddress)), PeerState(server.isSecure, server.keyStore), kind, args);
        events == old(events) + r.events && transfers == old(transfers) + r.transfers && thrown == r.thrown && r.writes == []
    {
      if args == [] {
        return true;
      }
      var parsed := env.parseDescriptor(args[0]);
      if parsed.None? {
        Notify(ServiceError(BadJson));
        return false;
      }
      var d := parsed.value;
      if d.port.Absent? || d.size.Absent? || d.name.Absent? {
        Notify(ServiceError(InvalidResponse));
      } else if !d.port.Present? || !d.size.Present? || !d.name.Present? {
        Notify(ServiceError(BadJson));
      } else {
        transfers := transfers + [Transfer(server.ipAddress, kind, d.port.value, d.size.value, d.name.value)];
      }
      return false;
    }

    /** onCommandReceived, proved against CommandStep; the project-list loop
        raises one error per unreadable entry. */
    method OnCommandReceived(env: Env, server: Peer, command: PeerCommand, args: seq<string>) returns (thrown: bool)
      modifies this`connections, this`events, this`transfers
      ensures var r := CommandStep(old(Ctx(env, server.ipAddress)), PeerState(server.isSecure, server.keyStore),
          server.ipAddress in old(connections), command, args);
        && connections == Deliver(old(connections), server.ipAddress, r.writes)
        && events == old(events) + r.events && transfers == old(transfers) + r.transfers && thrown == r.thrown
    {
      thrown := false;
      match command
      case TargetTranslation =>
        thrown := ReceiveDescriptor(env, server, TargetTranslationArchive, args);
      case ProjectArchive =>
        thrown := ReceiveDescriptor(env, server, ProjectArchiveFile, args);
      case ProjectList =>
        if args == [] {
          return true;
        }
        var parsed := env.parseProjects(args[0]);
        if parsed.None? {
          Notify(ServiceError(BadJson));
          return false;
        }
        var records := parsed.value;
        var i := 0;
        while i < |records|
          invariant 0 <= i <= |records|
          invariant events == old(events) + RecordErrors(listener, records[..i])
          invariant connections == old(connections) && transfers == old(transfers)
        {
          assert records[..i + 1][..i] == records[..i];
          if records[i].NotAnObject? || records[i].Malformed? {
            Notify(ServiceError(BadJson));
          }
          i := i + 1;
        }
        assert records[..i] == records;
      case InvalidRequest =>
        Notify(ServiceError(InvalidRequestReceived));
      case Other(_) =>
        SendMessage(env, server, env.msgs.invalidRequest);
    }

    /** onMessageReceived, proved against ReceiveStep. */
    method OnMessageReceived(env: Env, server: Peer, message: string) returns (thrown: bool, ghost r: Reaction)
      modifies this`connections, this`events, this`transfers, server`isSecure, server`keyStore
      ensures r == ReceiveStep(old(Ctx(env, server.ipAddress)), old(PeerState(server.isSecure, server.keyStore)),
          server.ipAddress in old(connections), message)
      ensures PeerState(server.isSecure, server.keyStore) == r.peer
        && connections == Deliver(old(connections), server.ipAddress, r.writes)
        && events == old(events) + r.events && transfers == old(transfers) + r.transfers && thrown == r.thrown
    {
      r := ReceiveStep(Ctx(env, server.ipAddress), PeerState(server.isSecure, server.keyStore), server.ipAddress in connections, message);
      if server.isSecure {
        var plain := env.decrypt(privateKey, message);
        if plain.Some? {
          var data := env.chunk(plain.value);
          if |data| == 0 {
            thrown := true;
            return;
          }
          var command := env.commandOf(data[0]);
          if command.None? {
            thrown := true;
            return;
          }
          thrown := OnCommandReceived(env, server, command.value, data[1..]);
        } else {
          Notify(ServiceError(DecryptionFailed));
          thrown := false;
        }
      } else {
        thrown := Handshake(env, server, message);
      }
    }

    /** ServerThread.run: connect, handle lines until the stream ends, then close,
        forget the connection and the peer and report the loss. An exception that
        escapes a handler ends the thread without that cleanup. */
    method RunServerThread(env: Env, server: Peer, connectOk: bool, lines: seq<string>) returns (crashed: bool)
      requires registry.Valid()
      modifies this`connections, this`events, this`transfers, server`isSecure, server`keyStore, registry
      ensures registry.Valid()
      ensures !connectOk ==> !crashed && connections == old(connections) && transfers == old(transfers)
      ensures !connectOk ==> events == old(events) + Emit(listener, ServiceError(ConnectFailed))
      ensures !connectOk ==> registry.peers == old(registry.peers)
      ensures !connectOk ==> PeerState(server.isSecure, server.keyStore) == old(PeerState(server.isSecure, server.keyStore))
      ensures connectOk ==> var s := Session(old(Ctx(env, server.ipAddress)), old(PeerState(server.isSecure, server.keyStore)), lines);
        crashed == s.thrown && PeerState(server.isSecure, server.keyStore) == s.peer && transfers == old(transfers) + s.transfers
      ensures connectOk && crashed ==> var s := Session(old(Ctx(env, server.ipAddress)), old(PeerState(server.isSecure, server.keyStore)), lines);
        connections == old(connections)[server.ipAddress := Connection(s.writes, true)] && events == old(events) + s.events
      ensures connectOk && crashed ==> registry.peers == old(registry.peers)
      ensures connectOk && !crashed ==> connections == old(connections) - {server.ipAddress}
      ensures connectOk && !crashed ==> registry.peers == old(registry.peers) - {server.ipAddress}
      ensures connectOk && !crashed ==> var s := Session(old(Ctx(env, server.ipAddress)), old(PeerState(server.isSecure, server.keyStore)), lines);
        events == old(events) + s.events + Emit(listener, ConnectionLost(server.ipAddress))
    {
      crashed := false;
      if !connectOk {
        Notify(ServiceError(ConnectFailed));
        return;
      }
      var ip := server.ipAddress;
      connections := connections[ip := Connection([], true)];
      crashed := ServeLines(env, server, lines);
      if crashed {
        return;
      }
      connections := connections[ip := connections[ip].(open := false)];
      connections := connections - {ip};
      registry.RemovePeer(server);
      Notify(ConnectionLost(ip));
    }

    /** The read loop of the server thread on a fresh connection for the peer. */
    method ServeLines(env: Env, server: Peer, lines: seq<string>) returns (crashed: bool)
      requires server.ipAddress in connections && connections[server.ipAddress] == Connection([], true)
      modifies this`connections, this`events, this`transfers, server`isSecure, server`keyStore
      ensures var s := Session(old(Ctx(env, server.ipAddress)), old(PeerState(server.isSecure, server.keyStore)), lines);
        && crashed == s.thrown && PeerState(server.isSecure, server.keyStore) == s.peer
        && events == old(events) + s.events && transfers == old(transfers) + s.transfers
        && connections == old(connections)[server.ipAddress := Connection(s.writes, true)]
    {
      var ip := server.ipAddress;
      ghost var ctx := Ctx(env, ip);
      ghost var p0 := PeerState(server.isSecure, server.keyStore);
      ghost var s := Quiet(p0);
      var i := 0;
      while i < |lines|
        invariant 0 <= i <= |lines|
        invariant ctx == Ctx(env, ip)
        invariant s == Session(ctx, p0, lines[..i]) && !s.thrown
        invariant PeerState(server.isSecure, server.keyStore) == s.peer
        invariant connections == old(connections)[ip := Connection(s.writes, true)]
        invariant events == old(events) + s.events && transfers == old(transfers) + s.transfers
      {
        var thrown, r := OnMessageReceived(env, server, lines[i]);
        SessionStep(ctx, p0, lines, i, s, r);
        Assoc(old(events), s.events, r.events);
        Assoc(old(transfers), s.transfers, r.transfers);
        DeliverUpdated(old(connections), ip, Connection(s.writes, true), r.writes);
        s := Reaction(r.peer, s.writes + r.writes, s.events + r.events, s.transfers + r.transfers, r.thrown);
        if thrown {
          SessionStaysThrown(ctx, p0, lines, i + 1);
          return true;
        }
        i := i + 1;
      }
      assert lines[..i] == lines;
      return false;
    }

    /** connectToServer: a session starts only for an address without a connection. */
    method ConnectToServer(env: Env, server: Peer, connectOk: bool, lines: seq<string>) returns (started: bool)
      requires registry.Valid()
      modifies this`connections, this`events, this`transfers, server`isSecure, server`keyStore, registry
      ensures registry.Valid()
      ensures started <==> server.ipAddress !in old(connections)
      ensures !started ==> connections == old(connections) && events == old(events) && transfers == old(transfers)
      ensures !started ==> registry.peers == old(registry.peers)
      ensures !started ==> PeerState(server.isSecure, server.keyStore) == old(PeerState(server.isSecure, server.keyStore))
      ensures started && !connectOk ==> (
        && connections == old(connections) && transfers == old(transfers)
        && events == old(events) + Emit(listener, ServiceError(ConnectFailed)) && registry.peers == old(registry.peers)
        && PeerState(server.isSecure, server.keyStore) == old(PeerState(server.isSecure, server.keyStore)))
      ensures started && connectOk ==> var s := Session(old(Ctx(env, server.ipAddress)), old(PeerState(server.isSecure, server.keyStore)), lines);
        PeerState(server.isSecure, server.keyStore) == s.peer && transfers == old(transfers) + s.transfers
      ensures started && connectOk ==> var s := Session(old(Ctx(env, server.ipAddress)), old(PeerState(server.isSecure, server.keyStore)), lines);
        s.thrown ==> (
          && connections == old(connections)[server.ipAddress := Connection(s.writes, true)]
          && events == old(events) + s.events && registry.peers == old(registry.peers))
      ensures started && connectOk ==> var s := Session(old(Ctx(env, server.ipAddress)), old(PeerState(server.isSecure, server.keyStore)), lines);
        !s.thrown ==> (
          && connections == old(connections) - {server.ipAddress} && registry.peers == old(registry.peers) - {server.ipAddress}
          && events == old(events) + s.events + Emit(listener, ConnectionLost(server.ipAddress)))
    {
      started := server.ipAddress !in connections;
      if started {
        var _ := RunServerThread(env, server, connectOk, lines);
      }
    }

    /** The copy loop of the read-socket callback: each read adds its count to
        the int total and publishes PROGRESS; a zero `(int) size` makes the first
        division throw. */
    method CopyStream(server: Peer, s32: int, counts: seq<int>) returns (recorded: seq<int>, crashed: bool)
      modifies server`keyStore, this`events
      ensures crashed <==> s32 == 0 && counts != []
      ensures crashed ==> recorded == [] && server.keyStore == old(server.keyStore) && events == old(events)
      ensures s32 != 0 ==> recorded == ProgressLog(counts, s32)
      ensures !crashed ==> |recorded| == |counts|
      ensures !crashed ==> events == old(events) + Changes(listener, server.ipAddress, |counts|)
      ensures !crashed ==> (server.keyStore ==
        if counts == [] then old(server.keyStore) else old(server.keyStore)[KEY_PROGRESS := Number(recorded[|recorded| - 1])])
    {
      recorded := [];
      crashed := false;
      var totalCount := 0;
      var i := 0;
      while i < |counts|
        invariant 0 <= i <= |counts|
        invariant i > 0 ==> s32 != 0
        invariant totalCount == TotalOf(counts[..i])
        invariant s32 != 0 ==> recorded == ProgressLog(counts[..i], s32)
        invariant |recorded| == i
        invariant server.keyStore == (if i == 0 then old(server.keyStore) else old(server.keyStore)[KEY_PROGRESS := Number(recorded[i - 1])])
        invariant events == old(events) + Changes(listener, server.ipAddress, i)
      {
        assert counts[..i + 1][..i] == counts[..i];
        totalCount := Wrap32(totalCount + counts[i]);
        if s32 == 0 {
          crashed := true;
          return;
        }
        var progress := Wrap32(JavaDiv(totalCount, s32) * 100);
        server.keyStore := server.keyStore[KEY_PROGRESS := Number(progress)];
        recorded := recorded + [progress];
        Notify(ConnectionChanged(server.ipAddress));
        i := i + 1;
      }
      assert counts[..i] == counts;
    }

    /** The body of the read-socket callback: download the archive while
        writing PROGRESS, reset it at the end of the stream, then import a target
        translation (its temporary file is deleted whether or not the import
        succeeds) or keep a project archive. `counts` are the positive counts
        in.read returns; `setupOk` is false when creating the file fails and
        `readError` when the stream fails instead of ending. */
    method ReceiveArchive(server: Peer, t: Transfer, setupOk: bool, counts: seq<int>, readError: bool,
                          imported: Option<seq<string>>) returns (recorded: seq<int>, fileLeft: bool, crashed: bool)
      requires forall i :: 0 <= i < |counts| ==> 0 < counts[i] <= 8192
      modifies server`keyStore, this`events
      ensures crashed <==> setupOk && Wrap32(t.size) == 0 && counts != []
      ensures !setupOk ==> recorded == [] && !fileLeft && server.keyStore == old(server.keyStore)
      ensures !setupOk ==> events == old(events) + Emit(listener, ServiceError(DownloadFailed))
      ensures crashed ==> recorded == [] && fileLeft && server.keyStore == old(server.keyStore) && events == old(events)
      ensures setupOk && Wrap32(t.size) != 0 ==> recorded == ProgressLog(counts, Wrap32(t.size))
      ensures setupOk && !crashed && readError ==> !fileLeft
      ensures setupOk && !crashed && readError ==> (server.keyStore ==
        if counts == [] then old(server.keyStore) else old(server.keyStore)[KEY_PROGRESS := Number(recorded[|recorded| - 1])])
      ensures setupOk && !crashed && readError ==>
        events == old(events) + Changes(listener, server.ipAddress, |counts|) + Emit(listener, ServiceError(DownloadFailed))
      ensures setupOk && !crashed && !readError ==> server.keyStore == old(server.keyStore)[KEY_PROGRESS := Number(0)]
      ensures setupOk && !crashed && !readError ==> fileLeft == (t.kind == ProjectArchiveFile)
      ensures setupOk && !crashed && !readError ==>
        events == old(events) + Changes(listener, server.ipAddress, |counts| + 1) + Imported(listener, server.ipAddress, t.kind, imported)
    {
      recorded := [];
      fileLeft := false;
      crashed := false;
      if !setupOk {
        Notify(ServiceError(DownloadFailed));
        return;
      }
      var s32 := Wrap32(t.size);
      recorded, crashed := CopyStream(server, s32, counts);
      if crashed {
        fileLeft := true;
        return;
      }
      if readError {
        Notify(ServiceError(DownloadFailed));
        return;
      }
      server.keyStore := server.keyStore[KEY_PROGRESS := Number(0)];
      Notify(ConnectionChanged(server.ipAddress));
      assert Changes(listener, server.ipAddress, |counts| + 1) == Changes(listener, server.ipAddress, |counts|) + Emit(listener, ConnectionChanged(server.ipAddress));
      if t.kind == TargetTranslationArchive {
        if imported.Some? {
          Notify(ReceivedTranslations(server.ipAddress, imported.value));
        }
      } else {
        fileLeft := true;
      }
    }
  }

  /** One more line extends a live session by that line's reaction. */
  lemma SessionStep(ctx: Context, p: PeerState, lines: seq<string>, i: nat, s: Reaction, r: Reaction)
    requires i < |lines| && s == Session(ctx, p, lines[..i]) && !s.thrown
    requires r == ReceiveStep(ctx, s.peer, true, lines[i])
    ensures Session(ctx, p, lines[..i + 1]) == Reaction(r.peer, s.writes + r.writes, s.events + r.events, s.transfers + r.transfers, r.thrown)
  {
    assert lines[..i + 1][..i] == lines[..i];
  }

  lemma Assoc<T>(a: seq<T>, b: seq<T>, c: seq<T>)
    ensures a + b + c == a + (b + c)
  {
  }

  lemma DeliverUpdated(m: map<string, Connection>, ip: string, c: Connection, ws: seq<string>)
    ensures Deliver(m[ip := c], ip, ws) == m[ip := c.(writes := c.writes + ws)]
  {
    if ws == [] {
      assert c.writes + ws == c.writes;
    }
  }

  /** A session that threw keeps its result for every longer line list. */
  lemma {:induction false} SessionStaysThrown(ctx: Context, p: PeerState, lines: seq<string>, k: nat)
    requires k <= |lines| && Session(ctx, p, lines[..k]).thrown
    ensures Session(ctx, p, lines) == Session(ctx, p, lines[..k])
    decreases |lines|
  {
    if k < |lines| {
      var front := lines[..|lines| - 1];
      assert front[..k] == lines[..k];
      SessionStaysThrown(ctx, p, front, k);
    } else {
      assert lines[..k] == lines;
    }
  }
}
