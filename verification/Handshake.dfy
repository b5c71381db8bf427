/** The order of the handshake messages (silkroad-network/src/security_setup.rs). */
module Handshake {
  import opened Wrappers
  import opened Words
  import opened PowMod
  import opened Security

  /** What the client sends; a closed or broken stream is the end of the list. */
  datatype ClientMessage = HandshakeChallenge(b: u32, key: Block) | HandshakeAccepted | OtherPacket

  /** What the server sends, with the field names of the protocol. */
  datatype Stage =
    | InitializeStage(blowfishSeed: Block, seedCount: bv32, seedCrc: u32, handshakeSeed: Block, a: u32, b: u32, c: u32)
    | FinalizeStage(challenge: Block)

  function FirstStage(init: InitializationData): Stage {
    var (a, b, c) := init.additionalSeeds;
    InitializeStage(init.seed, init.countSeed, init.crcSeed, init.handshakeSeed, a, b, c)
  }

  /** `Panicked`: one of the unwrapped calls on the security object failed. */
  datatype Ending = Completed | NonHandshakePacketReceived | StreamFailed | Panicked

  datatype Run = Run(state: SecurityState, sent: seq<Stage>, ending: Ending)

  function HandshakeRun(cipher: BlockCipher, state: SecurityState, randoms: Randoms, responses: seq<ClientMessage>): Run {
    var (started, init) := Initialize(state, randoms);
    if init.Err? then Run(started, [], Panicked) else Answered(cipher, started, [FirstStage(init.value)], responses)
  }

  /** From the first response on. */
  function Answered(cipher: BlockCipher, started: SecurityState, sent: seq<Stage>, responses: seq<ClientMessage>): Run {
    if responses == [] then Run(started, sent, StreamFailed)
    else if !responses[0].HandshakeChallenge? then Run(started, sent, NonHandshakePacketReceived)
    else AfterChallenge(StartChallenge(cipher, started, responses[0].b, responses[0].key), sent, responses[1..])
  }

  /** What `start_challenge` answered decides how it goes on. */
  function AfterChallenge(outcome: (SecurityState, Result<Block, SecurityError>), sent: seq<Stage>,
                          responses: seq<ClientMessage>): Run {
    var (challenged, challenge) := outcome;
    if challenge.Err? then Run(challenged, sent, Panicked)
    else Confirmed(challenged, sent + [FinalizeStage(challenge.value)], responses)
  }

  /** From the second response on. */
  function Confirmed(challenged: SecurityState, sent: seq<Stage>, responses: seq<ClientMessage>): Run {
    if responses == [] then Run(challenged, sent, StreamFailed)
    else if !responses[0].HandshakeAccepted? then Run(challenged, sent, NonHandshakePacketReceived)
    else
      var (established, accepted) := AcceptChallenge(challenged);
      Run(established, sent, if accepted.Err? then Panicked else Completed)
  }

  method DoHandshake(security: SilkroadSecurity, randoms: Randoms, responses: seq<ClientMessage>)
    returns (sent: seq<Stage>, ending: Ending)
    modifies security
    ensures Run(security.state, sent, ending) == HandshakeRun(security.cipher, old(security.state), randoms, responses)
  {
    var init := security.InitializeRandom(randoms);
    if init.Err? {
      return [], Panicked;
    }
    sent, ending := AwaitChallenge(security, [FirstStage(init.value)], responses);
  }

  method AwaitChallenge(security: SilkroadSecurity, before: seq<Stage>, responses: seq<ClientMessage>)
    returns (sent: seq<Stage>, ending: Ending)
    modifies security
    ensures Run(security.state, sent, ending) == Answered(security.cipher, old(security.state), before, responses)
  {
    if responses == [] {
      return before, StreamFailed;
    }
    match responses[0] {
      case HandshakeChallenge(b, key) =>
        var challenge := security.Challenge(b, key);
        if challenge.Err? {
          return before, Panicked;
        }
        sent, ending := AwaitConfirmation(security, before + [FinalizeStage(challenge.value)], responses[1..]);
      case _ =>
        return before, NonHandshakePacketReceived;
    }
  }

  method AwaitConfirmation(security: SilkroadSecurity, before: seq<Stage>, responses: seq<ClientMessage>)
    returns (sent: seq<Stage>, ending: Ending)
    modifies security
    ensures Run(security.state, sent, ending) == Confirmed(old(security.state), before, responses)
  {
    if responses == [] {
      return before, StreamFailed;
    }
    match responses[0] {
      case HandshakeAccepted =>
        var accepted := security.Accept();
        return before, if accepted.Err? then Panicked else Completed;
      case _ =>
        return before, NonHandshakePacketReceived;
    }
  }

  /** What the client has to send to be let in. */
  ghost predicate Admitted(cipher: BlockCipher, started: SecurityState, responses: seq<ClientMessage>)
    requires started.HandshakeStarted?
  {
    && |responses| >= 2 && responses[0].HandshakeChallenge? && responses[1].HandshakeAccepted?
    && Knows(cipher, started, responses[0].b, responses[0].key)
  }

  ghost predicate Proves(cipher: BlockCipher, randoms: Randoms, responses: seq<ClientMessage>) {
    Initialize(Uninitialized, randoms).1.Ok? && Admitted(cipher, Initialize(Uninitialized, randoms).0, responses)
  }

  /** From a fresh state, whatever the client sends: encryption is established exactly when the
      handshake completes, and that is exactly when the client answered with the one accepted key
      and confirmed. */
  lemma EstablishedExactlyWhenProved(cipher: BlockCipher, randoms: Randoms, responses: seq<ClientMessage>)
    requires Invertible(cipher)
    ensures var run := HandshakeRun(cipher, Uninitialized, randoms, responses);
      && (run.ending.Completed? <==> Proves(cipher, randoms, responses))
      && (run.state.Established? <==> run.ending.Completed?)
      && (|run.sent| == 2 <==> run.state.Established? || run.state.Challenged?)
  {
    var (started, init) := Initialize(Uninitialized, randoms);
    if init.Ok? {
      AnsweredExactly(cipher, started, FirstStage(init.value), responses);
    }
  }

  lemma AnsweredExactly(cipher: BlockCipher, started: SecurityState, first: Stage, responses: seq<ClientMessage>)
    requires Invertible(cipher) && started.HandshakeStarted?
    ensures var run := Answered(cipher, started, [first], responses);
      && (run.ending.Completed? <==> Admitted(cipher, started, responses))
      && (run.state.Established? <==> run.ending.Completed?)
      && (|run.sent| == 2 <==> run.state.Established? || run.state.Challenged?)
  {
    if responses != [] && responses[0].HandshakeChallenge? {
      var b, key := responses[0].b, responses[0].key;
      ChallengedExactly(cipher, started, b, key);
      AfterChallengeExactly(StartChallenge(cipher, started, b, key), first, responses[1..]);
    }
  }

  predicate Knows(cipher: BlockCipher, started: SecurityState, b: u32, key: Block)
    requires started.HandshakeStarted?
  {
    var k := PowerMod(started.p, started.x, b);
    k.Ok? && key == ClientKeyFor(cipher, started.a, b, k.value)
  }

  lemma ChallengedExactly(cipher: BlockCipher, started: SecurityState, b: u32, key: Block)
    requires Invertible(cipher) && started.HandshakeStarted?
    ensures var (after, answer) := StartChallenge(cipher, started, b, key);
      && (answer.Ok? <==> Knows(cipher, started, b, key))
      && (if answer.Ok? then after.Challenged? else after == started)
  {
    if PowerMod(started.p, started.x, b).Ok? {
      OneKeyIsAccepted(cipher, started, b, key);
    }
  }

  /** From a fresh state, the server panics if and only if the random values cannot be powered or the client
      opens with a key that is not the accepted one. */
  lemma PanicsExactly(cipher: BlockCipher, randoms: Randoms, responses: seq<ClientMessage>)
    requires Invertible(cipher)
    ensures HandshakeRun(cipher, Uninitialized, randoms, responses).ending.Panicked? <==>
      var (started, init) := Initialize(Uninitialized, randoms);
      init.Err?
      || (responses != [] && responses[0].HandshakeChallenge? && !Knows(cipher, started, responses[0].b, responses[0].key))
  {
    var (started, init) := Initialize(Uninitialized, randoms);
    if init.Ok? && responses != [] && responses[0].HandshakeChallenge? {
      var b, key := responses[0].b, responses[0].key;
      ChallengedExactly(cipher, started, b, key);
      PanicsOnError(StartChallenge(cipher, started, b, key), [FirstStage(init.value)], responses[1..]);
    }
  }

  lemma PanicsOnError(outcome: (SecurityState, Result<Block, SecurityError>), sent: seq<Stage>,
                      responses: seq<ClientMessage>)
    requires outcome.1.Ok? ==> outcome.0.Challenged?
    ensures AfterChallenge(outcome, sent, responses).ending.Panicked? <==> outcome.1.Err?
  {
  }

  lemma AfterChallengeExactly(outcome: (SecurityState, Result<Block, SecurityError>), first: Stage,
                              responses: seq<ClientMessage>)
    requires if outcome.1.Ok? then outcome.0.Challenged? else outcome.0.HandshakeStarted?
    ensures var run := AfterChallenge(outcome, [first], responses);
      && (run.ending.Completed? <==> outcome.1.Ok? && responses != [] && responses[0].HandshakeAccepted?)
      && (run.state.Established? <==> run.ending.Completed?)
      && (|run.sent| == 2 <==> run.state.Established? || run.state.Challenged?)
  {
  }

  /** Every ending but the panics, with its cause, and how many messages were sent: one at the start, the second
      when the key was accepted. */
  lemma EndingsExactly(cipher: BlockCipher, randoms: Randoms, responses: seq<ClientMessage>)
    requires Invertible(cipher) && Initialize(Uninitialized, randoms).1.Ok?
    ensures var started := Initialize(Uninitialized, randoms).0;
      var run := HandshakeRun(cipher, Uninitialized, randoms, responses);
      var proved := responses != [] && responses[0].HandshakeChallenge?
        && Knows(cipher, started, responses[0].b, responses[0].key);
      && (run.ending.StreamFailed? <==> responses == [] || (proved && |responses| == 1))
      && (run.ending.NonHandshakePacketReceived? <==>
            (responses != [] && !responses[0].HandshakeChallenge?)
            || (proved && |responses| > 1 && !responses[1].HandshakeAccepted?))
      && |run.sent| == (if proved then 2 else 1)
      && (!proved ==> run.state == started)
  {
    var (started, init) := Initialize(Uninitialized, randoms);
    if responses != [] && responses[0].HandshakeChallenge? {
      var b, key := responses[0].b, responses[0].key;
      ChallengedExactly(cipher, started, b, key);
      EndsAfterChallenge(StartChallenge(cipher, started, b, key), FirstStage(init.value), responses[1..]);
    }
  }

  lemma EndsAfterChallenge(outcome: (SecurityState, Result<Block, SecurityError>), first: Stage,
                           responses: seq<ClientMessage>)
    requires outcome.1.Ok? ==> outcome.0.Challenged?
    ensures var run := AfterChallenge(outcome, [first], responses);
      && (outcome.1.Err? ==> run == Run(outcome.0, [first], Panicked))
      && (outcome.1.Ok? ==> |run.sent| == 2)
      && (run.ending.StreamFailed? <==> outcome.1.Ok? && responses == [])
      && (run.ending.NonHandshakePacketReceived? <==>
            outcome.1.Ok? && responses != [] && !responses[0].HandshakeAccepted?)
  {
  }

  // ---------------------------------------------------------------- The client's side

  /** What a client answers that received `first`, drew the power `b` and computed the common value `k`: its proof
      under the exchange key. */
  function ClientAnswer(cipher: BlockCipher, first: Stage, b: u32, k: u32): ClientMessage
    requires first.InitializeStage?
  {
    var exchange, proof := TransformKey(ToU64(first.c, b), k, k % 4), TransformKey(ToU64(b, first.c), k, b % 8);
    HandshakeChallenge(b, cipher.encrypt(exchange, proof))
  }

  /** A client that knows nothing but what it was sent completes the handshake with any secret: it powers the
      generator and the server's power, answers, reads the challenge it expects, and both end with the session
      key that it computes from the handshake seed. */
  lemma HonestClientCompletes(cipher: BlockCipher, randoms: Randoms, y: u32) returns (first: Stage, b: u32, k: u32)
    requires Invertible(cipher) && randoms.p >= 2
    ensures HandshakeRun(cipher, Uninitialized, randoms, []).sent == [first] && first.InitializeStage?
    ensures PowerMod(first.b, y, first.a) == Ok(b) && PowerMod(first.b, y, first.c) == Ok(k)
    ensures PowerMod(randoms.p, randoms.x, randoms.g) == Ok(first.c)
    ensures first == InitializeStage(randoms.seed, randoms.countSeed, randoms.crcSeed, randoms.handshakeSeed,
                                     randoms.g, randoms.p, first.c)
    ensures var run := HandshakeRun(cipher, Uninitialized, randoms, [ClientAnswer(cipher, first, b, k), HandshakeAccepted]);
      && run.ending == Completed
      && run.state == Established(TransformKey(first.handshakeSeed, k, 3), CountBytes(first.seedCount), first.seedCrc)
      && |run.sent| == 2 && run.sent[0] == first && run.sent[1].FinalizeStage?
      && cipher.decrypt(TransformKey(ToU64(first.c, b), k, k % 4), run.sent[1].challenge)
           == TransformKey(ToU64(first.c, b), k, first.c % 8)
  {
    var a;
    a, b, k := HandshakeAgrees(cipher, randoms, y);
    var key := ClientKeyFor(cipher, a, b, k);
    var (started, init) := Initialize(Uninitialized, randoms);
    first := FirstStage(init.value);
    StartedRun(cipher, randoms, []);
    StartedRun(cipher, randoms, [HandshakeChallenge(b, key), HandshakeAccepted]);
    AcceptedRun(cipher, started, first, b, key);
    assert ClientAnswer(cipher, first, b, k) == HandshakeChallenge(b, key);
  }

  /** The first message is sent. */
  lemma StartedRun(cipher: BlockCipher, randoms: Randoms, responses: seq<ClientMessage>)
    requires Initialize(Uninitialized, randoms).1.Ok?
    ensures var (started, init) := Initialize(Uninitialized, randoms);
      HandshakeRun(cipher, Uninitialized, randoms, responses)
        == Answered(cipher, started, [FirstStage(init.value)], responses)
  {
  }

  /** The key is accepted and confirmed. */
  lemma AcceptedRun(cipher: BlockCipher, started: SecurityState, first: Stage, b: u32, key: Block)
    requires StartChallenge(cipher, started, b, key).1.Ok?
    ensures var (challenged, challenge) := StartChallenge(cipher, started, b, key);
      Answered(cipher, started, [first], [HandshakeChallenge(b, key), HandshakeAccepted])
        == Run(AcceptChallenge(challenged).0, [first, FinalizeStage(challenge.value)], Completed)
  {
    var (challenged, challenge) := StartChallenge(cipher, started, b, key);
    assert [HandshakeChallenge(b, key), HandshakeAccepted][1..] == [HandshakeAccepted];
    assert [first] + [FinalizeStage(challenge.value)] == [first, FinalizeStage(challenge.value)];
    ConfirmedRun(challenged, [first, FinalizeStage(challenge.value)]);
  }

  lemma ConfirmedRun(challenged: SecurityState, sent: seq<Stage>)
    requires challenged.Challenged?
    ensures Confirmed(challenged, sent, [HandshakeAccepted]) == Run(AcceptChallenge(challenged).0, sent, Completed)
  {
  }
}
