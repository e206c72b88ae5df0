/** The token-bucket emulation of `Warmup Assignment 2/warmup2.c`: three threads whose mutex sections are the
    atomic steps of one state machine. */
module TokenBucket {
  // My402Packet; its number in the input and the tokens it needs
  datatype Packet = Packet(num: nat, tokensNeed: nat)

  // Between two sections the packet thread sleeps with the head of the packet list in hand.
  datatype PacketThread = Idle | Holding | PacketDone

  // Waiting is inside pthread_cond_wait without a signal, Woken is on the way out of it.
  datatype Server = Ready | Waiting | Woken | Serving(packet: Packet) | Stopped

  datatype State = State(
    b: nat,                       // the size of the bucket
    packetList: seq<Packet>, q1: seq<Packet>, q2: seq<Packet>, collected: seq<Packet>,
    guard: int, bucket: int,
    totalToken: int, discardToken: int, totalPacket: int, discardPacket: int,
    packetThread: PacketThread, tokenRunning: bool, server: Server)

  // pthread_cond_broadcast
  function Broadcast(server: Server): Server {
    if server == Waiting then Woken else server
  }

  // ---------------------------------------------------------------------------------------------
  // The sections on values

  // The head of Q1 goes to Q2.
  function ToQ2(s: State): State
    requires s.q1 != []
  {
    s.(bucket := s.bucket - s.q1[0].tokensNeed, q1 := s.q1[1..], q2 := s.q2 + [s.q1[0]], guard := s.guard + 1,
       server := if s.q2 == [] then Broadcast(s.server) else s.server)
  }

  // token_arrival
  function TokenStep(s: State): State {
    var t := s.(totalToken := s.totalToken + 1);
    if s.packetList == [] && s.q1 == [] then
      t.(tokenRunning := false, server := if s.q2 == [] then Broadcast(s.server) else s.server)
    else
      var u := if s.bucket < s.b then t.(bucket := s.bucket + 1) else t.(discardToken := s.discardToken + 1);
      if u.q1 != [] && u.bucket >= u.q1[0].tokensNeed then ToQ2(u) else u
  }

  // the first section of packet_arrival
  function PeekStep(s: State): State {
    if s.packetList == [] then s.(packetThread := PacketDone)
    else s.(packetThread := Holding, totalPacket := s.totalPacket + 1)
  }

  // the second section of packet_arrival
  function ArriveStep(s: State): State
    requires s.packetList != []
  {
    var p, t := s.packetList[0], s.(packetList := s.packetList[1..], packetThread := Idle);
    if p.tokensNeed > s.b then t.(discardPacket := s.discardPacket + 1)
    else
      var u := t.(q1 := s.q1 + [p]);
      if u.bucket >= p.tokensNeed && |u.q1| == 1 then ToQ2(u) else u
  }

  // the section of server, on entry or after a wake-up
  function ServeStep(s: State): State {
    if s.guard > 0 && s.q2 != [] then s.(server := Serving(s.q2[0]), q2 := s.q2[1..], guard := s.guard - 1)
    else if s.packetList == [] && s.q1 == [] && s.q2 == [] then s.(server := Stopped)
    else s.(server := Waiting)
  }

  // the end of a service
  function FinishStep(s: State): State
    requires s.server.Serving?
  {
    s.(server := Ready, collected := s.collected + [s.server.packet])
  }

  datatype Action = Token | Peek | Arrive | Serve | Finish | Spurious

  predicate Enabled(s: State, a: Action) {
    match a
    case Token => s.tokenRunning
    case Peek => s.packetThread == Idle
    case Arrive => s.packetThread == Holding && s.packetList != []
    case Serve => s.server == Ready || s.server == Woken
    case Finish => s.server.Serving?
    case Spurious => s.server == Waiting
  }

  function Step(s: State, a: Action): State
    requires Enabled(s, a)
  {
    match a
    case Token => TokenStep(s)
    case Peek => PeekStep(s)
    case Arrive => ArriveStep(s)
    case Serve => ServeStep(s)
    case Finish => FinishStep(s)
    case Spurious => s.(server := Woken)
  }

  function Start(b: nat, packets: seq<Packet>): State {
    State(b, packets, [], [], [], 0, 0, 0, 0, 0, 0, Idle, true, Ready)
  }

  // ---------------------------------------------------------------------------------------------
  // What every reachable state satisfies

  function InService(s: State): seq<Packet> {
    if s.server.Serving? then [s.server.packet] else []
  }

  // The packets that have left Q1, in order.
  function Passed(s: State): seq<Packet> {
    s.collected + InService(s) + s.q2
  }

  // The packets that fit the bucket.
  function Fitting(packets: seq<Packet>, b: nat): seq<Packet> {
    if packets == [] then []
    else (if packets[0].tokensNeed <= b then [packets[0]] else []) + Fitting(packets[1..], b)
  }

  function Needs(packets: seq<Packet>): nat {
    if packets == [] then 0 else Needs(packets[..|packets| - 1]) + packets[|packets| - 1].tokensNeed
  }

  ghost predicate Inv(s: State, packets: seq<Packet>) {
    // order and conservation of packets
    && Passed(s) + s.q1 + Fitting(s.packetList, s.b) == Fitting(packets, s.b)
    && s.totalPacket == |Passed(s)| + |s.q1| + s.discardPacket + (if s.packetThread == Holding then 1 else 0)
    && s.totalPacket + |s.packetList| == |packets| + (if s.packetThread == Holding then 1 else 0)
    && (s.packetThread == Holding ==> s.packetList != [])
    && (s.packetThread == PacketDone ==> s.packetList == [])
    && s.guard == |s.q2|
    // conservation of tokens
    && 0 <= s.bucket <= s.b
    && s.totalToken == s.bucket + Needs(Passed(s)) + s.discardToken + (if s.tokenRunning then 0 else 1)
    // what waits in Q1 fits the bucket
    && (forall i :: 0 <= i < |s.q1| ==> s.q1[i].tokensNeed <= s.b)
    // no wake-up is lost
    && (!s.tokenRunning ==> s.packetList == [] && s.q1 == [])
    && (s.server == Waiting ==> s.q2 == [] && s.tokenRunning)
    && (s.server == Stopped ==> s.packetList == [] && s.q1 == [] && s.q2 == [])
  }

  lemma StartInv(b: nat, packets: seq<Packet>)
    ensures Inv(Start(b, packets), packets)
  {
  }

  lemma NeedsAppend(a: seq<Packet>, p: Packet)
    ensures Needs(a + [p]) == Needs(a) + p.tokensNeed
  {
    assert (a + [p])[..|a|] == a;
  }

  lemma ToQ2Keeps(s: State)
    requires s.q1 != []
    ensures Passed(ToQ2(s)) == Passed(s) + [s.q1[0]]
    ensures Passed(ToQ2(s)) + ToQ2(s).q1 == Passed(s) + s.q1
    ensures Needs(Passed(ToQ2(s))) == Needs(Passed(s)) + s.q1[0].tokensNeed
  {
    var t := ToQ2(s);
    assert InService(t) == InService(s);
    assert Passed(t) == Passed(s) + [s.q1[0]];
    NeedsAppend(Passed(s), s.q1[0]);
  }

  lemma TokenKeeps(s: State, packets: seq<Packet>)
    requires Inv(s, packets) && s.tokenRunning
    ensures Inv(TokenStep(s), packets)
  {
    hide Needs, Fitting;
    var t := s.(totalToken := s.totalToken + 1);
    if s.packetList == [] && s.q1 == [] {
      assert Passed(TokenStep(s)) == Passed(s);
    } else {
      var u := if s.bucket < s.b then t.(bucket := s.bucket + 1) else t.(discardToken := s.discardToken + 1);
      assert Passed(u) == Passed(s);
      if u.q1 != [] && u.bucket >= u.q1[0].tokensNeed {
        ToQ2Keeps(u);
      }
    }
  }

  lemma FittingHead(packets: seq<Packet>, b: nat)
    requires packets != []
    ensures Fitting(packets, b) == (if packets[0].tokensNeed <= b then [packets[0]] else []) + Fitting(packets[1..], b)
  {
  }

  // The head of the packet list goes to the end of Q1.
  lemma QueueKeeps(passed: seq<Packet>, q1: seq<Packet>, packetList: seq<Packet>, b: nat)
    requires packetList != [] && packetList[0].tokensNeed <= b
    ensures passed + (q1 + [packetList[0]]) + Fitting(packetList[1..], b) == passed + q1 + Fitting(packetList, b)
  {
    hide Fitting;
    FittingHead(packetList, b);
  }

  lemma ArriveKeeps(s: State, packets: seq<Packet>)
    requires Inv(s, packets) && s.packetThread == Holding
    ensures Inv(ArriveStep(s), packets)
  {
    hide Needs, Fitting;
    var p, t := s.packetList[0], s.(packetList := s.packetList[1..], packetThread := Idle);
    assert Passed(t) == Passed(s);
    FittingHead(s.packetList, s.b);
    if p.tokensNeed <= s.b {
      var u := t.(q1 := s.q1 + [p]);
      assert Passed(u) == Passed(s);
      QueueKeeps(Passed(s), s.q1, s.packetList, s.b);
      if u.bucket >= p.tokensNeed && |u.q1| == 1 {
        ToQ2Keeps(u);
      }
    }
  }

  lemma ServeKeeps(s: State, packets: seq<Packet>)
    requires Inv(s, packets) && (s.server == Ready || s.server == Woken)
    ensures Inv(ServeStep(s), packets) && Passed(ServeStep(s)) == Passed(s)
  {
    hide Needs, Fitting;
    assert Passed(ServeStep(s)) == Passed(s);
  }

  lemma FinishKeeps(s: State, packets: seq<Packet>)
    requires Inv(s, packets) && s.server.Serving?
    ensures Inv(FinishStep(s), packets) && Passed(FinishStep(s)) == Passed(s)
  {
    hide Needs, Fitting;
    assert Passed(FinishStep(s)) == Passed(s);
  }

  /** Every step keeps the invariant. */
  lemma StepKeeps(s: State, a: Action, packets: seq<Packet>)
    requires Inv(s, packets) && Enabled(s, a)
    ensures Inv(Step(s, a), packets)
  {
    hide Needs, Fitting;
    match a {
      case Token => TokenKeeps(s, packets);
      case Peek => assert Passed(PeekStep(s)) == Passed(s);
      case Arrive => ArriveKeeps(s, packets);
      case Serve => ServeKeeps(s, packets);
      case Finish => FinishKeeps(s, packets);
      case Spurious => assert Passed(s.(server := Woken)) == Passed(s);
    }
  }

  // ---------------------------------------------------------------------------------------------
  // Runs

  ghost predicate Run(states: seq<State>, actions: seq<Action>) {
    && |states| == |actions| + 1
    && forall i :: 0 <= i < |actions| ==> Enabled(states[i], actions[i]) && states[i + 1] == Step(states[i], actions[i])
  }

  /** In every interleaving every state satisfies the invariant. */
  lemma {:induction false} RunKeeps(states: seq<State>, actions: seq<Action>, packets: seq<Packet>, i: nat)
    requires Run(states, actions) && Inv(states[0], packets) && i < |states|
    ensures Inv(states[i], packets)
    decreases i
  {
    hide Inv, Step, Enabled;
    if i > 0 {
      RunKeeps(states, actions, packets, i - 1);
      StepKeeps(states[i - 1], actions[i - 1], packets);
    }
  }

  /** A server that waits without a pending wake-up has nothing to do, and somebody who will wake it. When
      the server has stopped, every packet that fits was served, in order of arrival; until then some
      thread can go on. */
  lemma Progress(s: State, packets: seq<Packet>)
    requires Inv(s, packets)
    ensures s.server == Waiting ==> s.q2 == [] && s.guard == 0 && Enabled(s, Token)
    ensures s.server == Stopped ==> s.collected == Fitting(packets, s.b)
    ensures s.server != Stopped ==> Enabled(s, Token) || Enabled(s, Serve) || Enabled(s, Finish)
  {
    if s.server == Stopped {
      assert Passed(s) == s.collected;
    }
  }

  /** Whatever the interleaving from the start on: every state satisfies the invariant, and when the server
      stops it has served all packets that fit the bucket, in order. */
  lemma FromTheStart(b: nat, packets: seq<Packet>, states: seq<State>, actions: seq<Action>, i: nat)
    requires Run(states, actions) && states[0] == Start(b, packets) && i < |states|
    ensures Inv(states[i], packets)
    ensures states[i].server == Stopped ==> states[i].collected == Fitting(packets, b)
  {
    hide Inv, Step, Enabled, Fitting;
    StartInv(b, packets);
    RunKeeps(states, actions, packets, i);
    Progress(states[i], packets);
    SameBucket(states, actions, i);
  }

  lemma {:induction false} SameBucket(states: seq<State>, actions: seq<Action>, i: nat)
    requires Run(states, actions) && i < |states|
    ensures states[i].b == states[0].b
    decreases i
  {
    if i > 0 {
      SameBucket(states, actions, i - 1);
      assert states[i] == Step(states[i - 1], actions[i - 1]);
    }
  }

  function Tokens(actions: seq<Action>): nat {
    if actions == [] then 0 else (if actions[0] == Token then 1 else 0) + Tokens(actions[1..])
  }

  // How many token arrivals the head of Q1 may have to wait for.
  function Patience(s: State): int
    requires s.q1 != []
  {
    if s.q1[0].tokensNeed - s.bucket > 1 then s.q1[0].tokensNeed - s.bucket else 1
  }

  // One step either lets the head of Q1 pass, or brings it closer when it is a token.
  lemma HeadStep(s: State, a: Action, packets: seq<Packet>)
    requires Inv(s, packets) && Enabled(s, a) && s.q1 != []
    ensures var t := Step(s, a);
      || Passed(t) == Passed(s) + [s.q1[0]]
      || (Passed(t) == Passed(s) && t.q1 != [] && t.q1[0] == s.q1[0]
          && Patience(t) == if a == Token then Patience(s) - 1 else Patience(s))
  {
    hide Needs, Fitting;
    var t := Step(s, a);
    match a {
      case Token =>
        var u := if s.bucket < s.b then s.(totalToken := s.totalToken + 1, bucket := s.bucket + 1)
                 else s.(totalToken := s.totalToken + 1, discardToken := s.discardToken + 1);
        assert Passed(u) == Passed(s);
        if u.bucket >= u.q1[0].tokensNeed {
          ToQ2Keeps(u);
        }
      case Arrive =>
        assert Passed(t) == Passed(s);
      case Serve => ServeKeeps(s, packets);
      case Finish => FinishKeeps(s, packets);
      case Peek => assert Passed(t) == Passed(s);
      case Spurious => assert Passed(t) == Passed(s);
    }
  }

  // Packets pass in order and never come back.
  lemma PassedGrows(s: State, a: Action, packets: seq<Packet>)
    requires Inv(s, packets) && Enabled(s, a)
    ensures Passed(s) <= Passed(Step(s, a))
  {
    hide Needs, Fitting;
    if s.q1 != [] {
      HeadStep(s, a, packets);
    } else {
      match a {
        case Token => assert Passed(TokenStep(s)) == Passed(s);
        case Arrive =>
          var p, t := s.packetList[0], s.(packetList := s.packetList[1..], packetThread := Idle);
          var u := t.(q1 := [p]);
          assert s.q1 + [p] == [p];
          assert Passed(t) == Passed(s) == Passed(u);
          ToQ2Keeps(u);
        case Serve => ServeKeeps(s, packets);
        case Finish => FinishKeeps(s, packets);
        case Peek => assert Passed(PeekStep(s)) == Passed(s);
        case Spurious => assert Passed(s.(server := Woken)) == Passed(s);
      }
    }
  }

  lemma {:induction false} PassedGrowsOver(states: seq<State>, actions: seq<Action>, packets: seq<Packet>)
    requires Run(states, actions) && Inv(states[0], packets)
    ensures Passed(states[0]) <= Passed(states[|states| - 1])
    decreases |actions|
  {
    hide Inv, Step, Enabled;
    if actions != [] {
      StepKeeps(states[0], actions[0], packets);
      PassedGrows(states[0], actions[0], packets);
      assert Run(states[1..], actions[1..]);
      PassedGrowsOver(states[1..], actions[1..], packets);
    }
  }

  /** The head of Q1 has left it after max(1, tokensNeed - bucket) token arrivals, whatever else happens in
      between. */
  lemma {:induction false} HeadLeaves(states: seq<State>, actions: seq<Action>, packets: seq<Packet>)
    requires Run(states, actions) && Inv(states[0], packets) && states[0].q1 != []
    requires Tokens(actions) >= Patience(states[0])
    ensures Passed(states[0]) + [states[0].q1[0]] <= Passed(states[|states| - 1])
    decreases |actions|
  {
    hide Inv, Step, Enabled, Passed;
    var s, t := states[0], states[1];
    StepKeeps(s, actions[0], packets);
    HeadStep(s, actions[0], packets);
    assert Run(states[1..], actions[1..]);
    if Passed(t) == Passed(s) + [s.q1[0]] {
      PassedGrowsOver(states[1..], actions[1..], packets);
    } else {
      HeadLeaves(states[1..], actions[1..], packets);
    }
  }

  // ---------------------------------------------------------------------------------------------
  // No token is dropped while there is room, and no packet waits that could be paid for

  // The token thread has nothing left to do.
  predicate LastToken(s: State) {
    s.packetList == [] && s.q1 == []
  }

  /** A token is dropped exactly when it comes to a full bucket; any other token is in the bucket afterwards, or has
      paid for the packet that passed. */
  lemma OnlyFullDrops(s: State, a: Action, packets: seq<Packet>)
    requires Inv(s, packets) && Enabled(s, a)
    ensures Step(s, a).discardToken == s.discardToken + if a == Token && !LastToken(s) && s.bucket == s.b then 1 else 0
    ensures Step(s, a).bucket + Needs(Passed(Step(s, a)))
         == s.bucket + Needs(Passed(s)) + if a == Token && !LastToken(s) && s.bucket < s.b then 1 else 0
    ensures Step(s, a).tokenRunning <==> s.tokenRunning && !(a == Token && LastToken(s))
  {
    hide Needs, Fitting, Passed, InService;
    StepKeeps(s, a, packets);
    StepCounters(s, a);
  }

  lemma StepCounters(s: State, a: Action)
    requires Enabled(s, a)
    ensures Step(s, a).totalToken == s.totalToken + if a == Token then 1 else 0
    ensures Step(s, a).discardToken == s.discardToken + if a == Token && !LastToken(s) && s.bucket >= s.b then 1 else 0
    ensures Step(s, a).tokenRunning <==> s.tokenRunning && !(a == Token && LastToken(s))
    ensures Step(s, a).b == s.b
  {
  }

  function Min(a: int, b: int): int {
    if a < b then a else b
  }

  /** While no packet leaves Q1 the bucket fills up: after k token arrivals it holds k tokens more, as far as they
      fit. */
  lemma {:induction false} BucketFills(states: seq<State>, actions: seq<Action>, packets: seq<Packet>)
    requires Run(states, actions) && Inv(states[0], packets) && states[|states| - 1].tokenRunning
    requires Passed(states[|states| - 1]) == Passed(states[0])
    ensures states[|states| - 1].bucket == Min(states[0].b, states[0].bucket + Tokens(actions))
    ensures states[0].tokenRunning
    decreases |actions|
  {
    hide Step, Enabled, Needs, Passed, Fitting;
    if actions != [] {
      var s, a := states[0], actions[0];
      StepKeeps(s, a, packets);
      OnlyFullDrops(s, a, packets);
      PassedGrows(s, a, packets);
      assert Run(states[1..], actions[1..]);
      PassedGrowsOver(states[1..], actions[1..], packets);
      assert Passed(states[1]) == Passed(s);
      SameBucket(states, actions, 1);
      BucketFills(states[1..], actions[1..], packets);
    }
  }

  // A waiting packet cannot be paid for yet.
  ghost predicate Eager(s: State) {
    s.q1 != [] ==> s.bucket < s.q1[0].tokensNeed
  }

  // Packets that need no tokens come before all others.
  ghost predicate FreeOnesFirst(packets: seq<Packet>) {
    forall i, j :: 0 <= i < j < |packets| && packets[j].tokensNeed == 0 ==> packets[i].tokensNeed == 0
  }

  /** A packet that arrives at an empty Q1, and whose tokens are there, does not wait. */
  lemma PaidAtOnce(s: State, packets: seq<Packet>)
    requires Inv(s, packets) && Enabled(s, Arrive) && s.q1 == [] && s.packetList[0].tokensNeed <= s.bucket
    ensures Passed(Step(s, Arrive)) == Passed(s) + [s.packetList[0]] && Step(s, Arrive).q1 == []
  {
    hide Needs, Fitting;
    var p, t := s.packetList[0], s.(packetList := s.packetList[1..], packetThread := Idle);
    var u := t.(q1 := [p]);
    assert s.q1 + [p] == [p];
    assert Passed(u) == Passed(s);
    ToQ2Keeps(u);
  }

  // The head of Q1 leaves with the token that completes what it needs, and the next one needs another.
  lemma EagerStep(s: State, a: Action, packets: seq<Packet>)
    requires Inv(s, packets) && Enabled(s, a) && Eager(s) && FreeOnesFirst(Fitting(packets, s.b))
    ensures Eager(Step(s, a))
  {
    hide Needs, Fitting, Passed;
    if a == Token && |s.q1| > 1 {
      var all, k := Fitting(packets, s.b), |Passed(s)|;
      assert all[k] == s.q1[0] && all[k + 1] == s.q1[1];
    }
  }

  // From the start on, no packet waits in Q1 whose tokens are in the bucket.
  lemma {:induction false} AlwaysEager(b: nat, packets: seq<Packet>, states: seq<State>, actions: seq<Action>, i: nat)
    requires Run(states, actions) && states[0] == Start(b, packets) && i < |states| && FreeOnesFirst(Fitting(packets, b))
    ensures Eager(states[i])
    decreases i
  {
    hide Inv, Step, Enabled, Fitting, FreeOnesFirst;
    if i > 0 {
      AlwaysEager(b, packets, states, actions, i - 1);
      FromTheStart(b, packets, states, actions, i - 1);
      SameBucket(states, actions, i - 1);
      EagerStep(states[i - 1], actions[i - 1], packets);
    }
  }

  lemma RunMore(s: State, a: Action, states: seq<State>, actions: seq<Action>)
    requires Enabled(s, a) && Run(states, actions) && states[0] == Step(s, a)
    ensures Run([s] + states, [a] + actions)
  {
    hide Step, Enabled;
  }

  // Each token lets only one packet pass: when the last of pos has taken all there is, a free one waits.
  lemma {:induction false} FreeOneWaits(s: State, pos: seq<Packet>, z: Packet, rest: seq<Packet>)
    returns (states: seq<State>, actions: seq<Action>)
    requires s.tokenRunning && s.q1 == pos + [z] + rest && pos != [] && z.tokensNeed == 0
    requires forall i :: 0 <= i < |pos| ==> 0 < pos[i].tokensNeed <= s.b
    requires 0 <= s.bucket < pos[0].tokensNeed
    ensures Run(states, actions) && states[0] == s && !Eager(states[|states| - 1])
    decreases |pos|, pos[0].tokensNeed - s.bucket
  {
    assert s.q1[0] == pos[0];
    var t := Step(s, Token);
    if s.bucket + 1 < pos[0].tokensNeed {
      states, actions := FreeOneWaits(t, pos, z, rest);
    } else {
      assert t.q1 == pos[1..] + [z] + rest && t.bucket == 0;
      if |pos| == 1 {
        assert t.q1[0] == z;
        states, actions := [t], [];
      } else {
        states, actions := FreeOneWaits(t, pos[1..], z, rest);
      }
    }
    RunMore(s, Token, states, actions);
    states, actions := [s] + states, [Token] + actions;
  }

  // A packet that arrives before the first token passes only if it is free and nobody waits.
  lemma EarlyArrival(s: State)
    requires s.packetThread == Idle && s.bucket == 0 && s.packetList != []
    ensures Enabled(s, Peek) && Enabled(Step(s, Peek), Arrive)
    ensures var u, p := Step(Step(s, Peek), Arrive), s.packetList[0];
      && u.tokenRunning == s.tokenRunning && u.packetThread == Idle && u.bucket == 0 && u.b == s.b
      && u.packetList == s.packetList[1..]
      && u.q1 == if p.tokensNeed > s.b || (p.tokensNeed == 0 && s.q1 == []) then s.q1 else s.q1 + [p]
  {
  }

  // All packets arrive before the first token.
  lemma {:induction false} EarlyArrivals(s: State) returns (states: seq<State>, actions: seq<Action>)
    requires s.tokenRunning && s.packetThread == Idle && s.bucket == 0
    requires forall i :: 0 <= i < |s.q1| ==> 0 < s.q1[i].tokensNeed <= s.b
    requires !FreeOnesFirst(s.q1 + Fitting(s.packetList, s.b))
    ensures Run(states, actions) && states[0] == s && !Eager(states[|states| - 1])
    decreases |s.packetList|
  {
    hide Step, Enabled, Fitting;
    SomeLeft(s.q1, s.packetList, s.b);
    EarlyArrival(s);
    FittingHead(s.packetList, s.b);
    var p, t := s.packetList[0], Step(s, Peek);
    var u := Step(t, Arrive);
    if 0 == p.tokensNeed && s.q1 != [] {
      states, actions := FreeOneWaits(u, s.q1, p, []);
    } else {
      StillNotFirst(s.q1, p, Fitting(u.packetList, s.b), s.b);
      states, actions := EarlyArrivals(u);
    }
    RunMore(t, Arrive, states, actions);
    RunMore(s, Peek, [t] + states, [Arrive] + actions);
    states, actions := [s] + ([t] + states), [Peek] + ([Arrive] + actions);
  }

  lemma SomeLeft(q1: seq<Packet>, packetList: seq<Packet>, b: nat)
    requires !FreeOnesFirst(q1 + Fitting(packetList, b)) && forall i :: 0 <= i < |q1| ==> q1[i].tokensNeed > 0
    ensures packetList != []
  {
    assert q1 + Fitting([], b) == q1;
  }

  lemma StillNotFirst(q1: seq<Packet>, p: Packet, rest: seq<Packet>, b: nat)
    requires !FreeOnesFirst(q1 + ((if p.tokensNeed <= b then [p] else []) + rest)) && (p.tokensNeed == 0 ==> q1 == [])
    ensures !FreeOnesFirst((if p.tokensNeed > b || p.tokensNeed == 0 then q1 else q1 + [p]) + rest)
  {
    var all := q1 + ((if p.tokensNeed <= b then [p] else []) + rest);
    var later := (if p.tokensNeed > b || p.tokensNeed == 0 then q1 else q1 + [p]) + rest;
    var i, j :| 0 <= i < j < |all| && all[j].tokensNeed == 0 && all[i].tokensNeed != 0;
    if p.tokensNeed == 0 {
      assert later == all[1..] && later[j - 1] == all[j] && later[i - 1] == all[i];
    } else {
      assert later == all;
    }
  }

  ghost predicate EagerRun(b: nat, packets: seq<Packet>, states: seq<State>, actions: seq<Action>) {
    Run(states, actions) && states[0] == Start(b, packets) ==> forall i :: 0 <= i < |states| ==> Eager(states[i])
  }

  /** No packet ever waits in Q1 while the bucket has its tokens, whatever the interleaving, if and only if no packet
      that needs none comes after one that needs some: each token lets only one packet pass. */
  lemma EagerExactly(b: nat, packets: seq<Packet>)
    ensures (forall states, actions :: EagerRun(b, packets, states, actions)) <==> FreeOnesFirst(Fitting(packets, b))
  {
    hide FreeOnesFirst, Fitting, Step, Enabled;
    if FreeOnesFirst(Fitting(packets, b)) {
      forall states, actions ensures EagerRun(b, packets, states, actions) {
        if Run(states, actions) && states[0] == Start(b, packets) {
          forall i | 0 <= i < |states| ensures Eager(states[i]) {
            AlwaysEager(b, packets, states, actions, i);
          }
        }
      }
    } else {
      assert [] + Fitting(packets, b) == Fitting(packets, b);
      var states, actions := EarlyArrivals(Start(b, packets));
      assert !EagerRun(b, packets, states, actions);
    }
  }

  // ---------------------------------------------------------------------------------------------
  // The program

  class Emulation {
    const B: nat
    var packetList: seq<Packet>
    var q1: seq<Packet>
    var q2: seq<Packet>
    var collected: seq<Packet>
    var guard: int
    var bucket: int
    var totalToken: int
    var discardToken: int
    var totalPacket: int
    var discardPacket: int
    var packetThread: PacketThread
    var tokenRunning: bool
    var server: Server

    ghost function Now(): State
      reads this
    {
      State(B, packetList, q1, q2, collected, guard, bucket, totalToken, discardToken, totalPacket, discardPacket,
            packetThread, tokenRunning, server)
    }

    constructor (b: nat, packets: seq<Packet>)
      ensures Now() == Start(b, packets)
    {
      B, packetList, q1, q2, collected := b, packets, [], [], [];
      guard, bucket, totalToken, discardToken, totalPacket, discardPacket := 0, 0, 0, 0, 0, 0;
      packetThread, tokenRunning, server := Idle, true, Ready;
    }

    method WakeServer()
      modifies this`server
      ensures server == Broadcast(old(server))
    {
      if server == Waiting {
        server := Woken;
      }
    }

    // The head of Q1 is paid for and goes to Q2; the server is woken when that was empty.
    method MoveHead()
      requires q1 != []
      modifies this
      ensures Now() == ToQ2(old(Now()))
    {
      var packet := q1[0];
      bucket := bucket - packet.tokensNeed;
      q1 := q1[1..];
      var emptyBefore := q2 == [];
      q2 := q2 + [packet];
      guard := guard + 1;
      if emptyBefore {
        WakeServer();
      }
    }

    // The body of the loop of token_arrival; it ends the thread when no packet can come any more.
    method TokenArrival()
      requires Enabled(Now(), Token)
      modifies this
      ensures Now() == Step(old(Now()), Token)
    {
      totalToken := totalToken + 1;
      if packetList == [] && q1 == [] {
        if q2 == [] {
          WakeServer();
        }
        tokenRunning := false;
        return;
      }
      if bucket < B {
        bucket := bucket + 1;
      } else {
        discardToken := discardToken + 1;
      }
      if q1 != [] {
        var packet := q1[0];
        if bucket >= packet.tokensNeed {
          MoveHead();
        }
      }
    }

    // The first section of packet_arrival.
    method PacketPeek()
      requires Enabled(Now(), Peek)
      modifies this
      ensures Now() == Step(old(Now()), Peek)
    {
      if packetList == [] {
        packetThread := PacketDone;
        return;
      }
      totalPacket := totalPacket + 1;
      packetThread := Holding;
    }

    // The second section of packet_arrival, for the packet at the head of the list.
    method PacketArrival()
      requires Enabled(Now(), Arrive)
      modifies this
      ensures Now() == Step(old(Now()), Arrive)
    {
      var packet := packetList[0];
      packetThread := Idle;
      if packet.tokensNeed > B {
        packetList := packetList[1..];
        discardPacket := discardPacket + 1;
        return;
      }
      q1 := q1 + [packet];
      if bucket >= packet.tokensNeed && |q1| == 1 {
        MoveHead();
      }
      packetList := packetList[1..];
    }

    // The section of server, up to the next wait or service. The guard counts Q2.
    method ServerSection()
      requires Enabled(Now(), Serve) && guard == |q2|
      modifies this
      ensures Now() == Step(old(Now()), Serve)
    {
      if !(guard > 0) {
        if packetList == [] && q1 == [] && q2 == [] {
          server := Stopped;
        } else {
          server := Waiting;
        }
        return;
      }
      server := Serving(q2[0]);
      q2 := q2[1..];
      guard := guard - 1;
    }

    // The end of a service, which only this thread sees.
    method ServiceEnd()
      requires Enabled(Now(), Finish)
      modifies this
      ensures Now() == Step(old(Now()), Finish)
    {
      collected := collected + [server.packet];
      server := Ready;
    }
  }
}
