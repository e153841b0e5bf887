/** The bounded session room: its transition rules, what every reachable state and every attempted edge
    satisfies, and why every state can still reach a terminal one. */
module Session {
  import opened Wrappers
  import opened Counting
  import opened CompressedRows
  import opened Explorer
  import opened Sequences
  import Liveness
  import opened Arithmetic
  import opened Octets
  import FiniteDomains
  import BackwardReach

  datatype Seat = HostSeat | PlayerOneSeat

  datatype Principal = Host | PlayerOne | Spectator | Outsider | Clock

  datatype Phase = Lobby | Countdown | Running | Paused | PostGame | Closed

  datatype Game = AwaitingAction | Complete

  datatype PerSeat = PerSeat(host: bool, one: bool) {
    function At(seat: Seat): bool { if seat.HostSeat? then host else one }

    function With(seat: Seat, value: bool): PerSeat {
      if seat.HostSeat? then this.(host := value) else this.(one := value)
    }
  }

  const NEITHER := PerSeat(false, false)
  const BOTH := PerSeat(true, true)

  datatype State = State(
    phase: Phase, ready: PerSeat, connected: PerSeat, spectatorConnected: bool, countdownLive: bool,
    startCount: nat, startWasReady: bool, pauseUsed: bool, pendingHand: Option<Seat>, grantedHand: Option<Seat>,
    grantEpoch: nat, chatCount: nat, game: Game)

  datatype Action =
    | Idle | Ready(seat: Seat) | Unready(seat: Seat) | ArmCountdown(actor: Principal) | AbortCountdown(actor: Principal)
    | ExpireCountdown | GameAction(actor: Principal) | Pause(actor: Principal) | Resume(actor: Principal)
    | Disconnect(seat: Seat) | Reconnect(seat: Seat) | DisconnectSpectator | ReconnectSpectator
    | RequestHand(seat: Seat) | GrantHand(seat: Seat) | DenyHand(seat: Seat) | RevokeHand(seat: Seat)
    | Chat(actor: Principal) | CloseRoom(actor: Principal)

  datatype Decision = Accepted(rule: string) | Denied(rule: string)

  const INITIAL := State(Lobby, NEITHER, BOTH, true, false, 0, false, false, None, None, 0, 0, AwaitingAction)

  function SeatOf(actor: Principal): Option<Seat> {
    match actor
    case Host => Some(HostSeat)
    case PlayerOne => Some(PlayerOneSeat)
    case _ => None
  }

  predicate IsOpen(phase: Phase) { phase != Closed }

  predicate IsTerminal(phase: Phase) { phase == PostGame || phase == Closed }

  predicate AllReadyConnected(s: State) { s.ready == BOTH && s.connected == BOTH }

  predicate Seated(s: State, actor: Principal) {
    SeatOf(actor).Some? && s.connected.At(SeatOf(actor).value)
  }

  predicate MemberConnected(s: State, actor: Principal) {
    match actor
    case Host => s.connected.host
    case PlayerOne => s.connected.one
    case Spectator => s.spectatorConnected
    case _ => false
  }

  function Play(game: Game): Option<Game> {
    match game
    case AwaitingAction => Some(Complete)
    case Complete => None
  }

  /** The number a seat is stored as. */
  function SeatNumber(seat: Seat): nat { if seat.HostSeat? then 0 else 1 }

  predicate SpectatorCanSee(s: State, owner: Seat) {
    s.grantedHand.Some? && SeatNumber(s.grantedHand.value) == SeatNumber(owner)
  }

  function Transition(s: State, action: Action): (State, Decision) {
    var deny := (s, Denied("S-AUTH-001"));
    match action
    case Idle => (s, Accepted("S-TIME-007"))
    case Ready(seat) =>
      if s.phase.Lobby? && s.connected.At(seat) then (s.(ready := s.ready.With(seat, true)), Accepted("S-ROOM-004")) else deny
    case Unready(seat) =>
      if s.phase.Lobby? || s.phase.Countdown? then
        (s.(phase := Lobby, ready := s.ready.With(seat, false), countdownLive := false), Accepted("S-ROOM-005"))
      else deny
    case ArmCountdown(actor) =>
      if actor.Host? && s.phase.Lobby? && s.connected.host && AllReadyConnected(s) then
        (s.(phase := Countdown, countdownLive := true), Accepted("S-ROOM-006"))
      else deny
    case AbortCountdown(actor) =>
      if s.phase.Countdown? && Seated(s, actor) then (s.(phase := Lobby, countdownLive := false), Accepted("S-ROOM-007")) else deny
    case ExpireCountdown =>
      if s.phase.Countdown? && s.countdownLive && s.startCount == 0 && AllReadyConnected(s) then
        (s.(phase := Running, countdownLive := false, ready := NEITHER, startCount := 1, startWasReady := true, game := AwaitingAction),
         Accepted("S-ROOM-008"))
      else deny
    case GameAction(actor) =>
      if s.phase.Running? && Seated(s, actor) then
        (match Play(s.game)
         case None => deny
         case Some(game) =>
           (s.(game := game, phase := if game.Complete? then PostGame else s.phase), Accepted("S-ROOM-010")))
      else deny
    case Pause(actor) =>
      if s.phase.Running? && !s.pauseUsed && Seated(s, actor) then
        (s.(phase := Paused, pauseUsed := true), Accepted("S-ROOM-011"))
      else deny
    case Resume(actor) =>
      if s.phase.Paused? && Seated(s, actor) then (s.(phase := Running), Accepted("S-ROOM-012")) else deny
    case Disconnect(seat) =>
      if IsOpen(s.phase) && s.connected.At(seat) then
        var lost := s.(connected := s.connected.With(seat, false), ready := s.ready.With(seat, false));
        (if s.phase.Countdown? then lost.(phase := Lobby, countdownLive := false) else lost, Accepted("S-ROOM-019"))
      else deny
    case Reconnect(seat) =>
      if IsOpen(s.phase) && !s.connected.At(seat) then
        (s.(connected := s.connected.With(seat, true)), Accepted("S-ROOM-020"))
      else deny
    case DisconnectSpectator =>
      if IsOpen(s.phase) && s.spectatorConnected then (s.(spectatorConnected := false), Accepted("S-ROOM-019")) else deny
    case ReconnectSpectator =>
      if IsOpen(s.phase) && !s.spectatorConnected then (s.(spectatorConnected := true), Accepted("S-ROOM-020")) else deny
    case RequestHand(owner) =>
      if IsOpen(s.phase) && s.spectatorConnected && s.pendingHand.None? && s.grantEpoch == 0 then
        (s.(pendingHand := Some(owner)), Accepted("S-VIEW-003"))
      else deny
    case GrantHand(owner) =>
      if IsOpen(s.phase) && s.pendingHand == Some(owner) && s.connected.At(owner) && s.spectatorConnected && s.grantEpoch == 0 then
        (s.(pendingHand := None, grantedHand := Some(owner), grantEpoch := 1), Accepted("S-VIEW-004"))
      else deny
    case DenyHand(owner) =>
      if IsOpen(s.phase) && s.pendingHand == Some(owner) then (s.(pendingHand := None), Accepted("S-VIEW-004")) else deny
    case RevokeHand(owner) =>
      if IsOpen(s.phase) && s.grantedHand == Some(owner) then (s.(grantedHand := None), Accepted("S-VIEW-005")) else deny
    case Chat(actor) =>
      if IsOpen(s.phase) && MemberConnected(s, actor) && s.chatCount == 0 then (s.(chatCount := 1), Accepted("S-CHAT-001")) else deny
    case CloseRoom(actor) =>
      if actor.Host? && IsOpen(s.phase) && s.connected.host then
        (s.(phase := Closed, ready := NEITHER, countdownLive := false, pendingHand := None, grantedHand := None), Accepted("S-ROOM-022"))
      else deny
  }

  // ----- Safety -----

  /** What the checker demands of every reachable state. */
  predicate Checked(s: State) {
    && s.startCount <= 1 && s.grantEpoch <= 1 && s.chatCount <= 1
    && (s.startCount == 1 ==> s.startWasReady)
    && (s.phase.Countdown? ==> s.countdownLive && AllReadyConnected(s))
    && (s.phase.Running? || s.phase.Paused? || s.phase.PostGame? ==> s.startCount == 1)
    && (forall owner: Seat :: SpectatorCanSee(s, owner) <==> s.grantedHand == Some(owner))
  }

  /** An inductive strengthening: the game starts and a hand is granted at most once ever, play is
      complete exactly past the game, and a closed room has nothing pending. */
  predicate Inductive(s: State) {
    Checked(s) && PhasesInductive(s) && HandsInductive(s)
  }

  predicate PhasesInductive(s: State) {
    && (s.phase.Lobby? || s.phase.Countdown? ==> s.startCount == 0)
    && (s.countdownLive <==> s.phase.Countdown?)
    && (s.phase.PostGame? ==> s.game.Complete?)
    && (s.game.Complete? ==> s.phase.PostGame? || s.phase.Closed?)
    && (s.phase.Paused? ==> s.pauseUsed)
  }

  predicate HandsInductive(s: State) {
    && (s.grantEpoch == 0 ==> s.grantedHand.None?)
    && (s.grantEpoch == 1 ==> s.pendingHand.None?)
    && (s.phase.Closed? ==> s.pendingHand.None? && s.grantedHand.None?)
  }

  lemma StepInductive(s: State, action: Action)
    requires Inductive(s)
    ensures Inductive(Transition(s, action).0)
  {
    StepChecked(s, action);
    StepPhases(s, action);
    StepHands(s, action);
    hide Transition, Checked;
  }

  lemma StepChecked(s: State, action: Action)
    requires Inductive(s)
    ensures Checked(Transition(s, action).0)
  {
  }

  lemma StepPhases(s: State, action: Action)
    requires Inductive(s)
    ensures PhasesInductive(Transition(s, action).0)
  {
  }

  lemma StepHands(s: State, action: Action)
    requires Inductive(s)
    ensures HandsInductive(Transition(s, action).0)
  {
  }

  function ActorOf(action: Action): Option<Principal> {
    match action
    case ArmCountdown(actor) => Some(actor)
    case AbortCountdown(actor) => Some(actor)
    case GameAction(actor) => Some(actor)
    case Pause(actor) => Some(actor)
    case Resume(actor) => Some(actor)
    case Chat(actor) => Some(actor)
    case CloseRoom(actor) => Some(actor)
    case _ => None
  }

  /** What the checker demands of every attempted edge: outsiders are denied, a paused game stands still,
      denials change nothing, and a closed room stays closed. */
  predicate EdgeAllowed(before: State, action: Action, decision: Decision, after: State) {
    && (ActorOf(action) == Some(Outsider) ==> decision.Denied?)
    && (before.phase.Paused? && action.GameAction? ==> decision.Denied? && after.game == before.game)
    && (decision.Denied? ==> after == before)
    && (before.phase.Closed? ==> after.phase.Closed?)
  }

  /** Every attempt from every state meets these demands; besides, neither the start nor the grant is
      ever taken back. */
  lemma EdgeChecked(s: State, action: Action)
    ensures var (t, d) := Transition(s, action);
      EdgeAllowed(s, action, d, t) && s.grantEpoch <= t.grantEpoch && s.startCount <= t.startCount
  {
  }

  // ----- What an attempt needs and what it changes -----

  /** A connected player acts. */
  ghost predicate PlayerActs(s: State, actor: Principal) {
    (actor == Host && s.connected.host) || (actor == PlayerOne && s.connected.one)
  }

  ghost predicate EverybodyReady(s: State) {
    s.ready.host && s.ready.one && s.connected.host && s.connected.one
  }

  /** Who may attempt what, and when. */
  ghost predicate Authorised(s: State, action: Action) {
    match action
    case Idle => true
    case Ready(seat) => s.phase == Lobby && (seat == HostSeat ==> s.connected.host) && (seat == PlayerOneSeat ==> s.connected.one)
    case Unready(_) => s.phase == Lobby || s.phase == Countdown
    case ArmCountdown(actor) => s.phase == Lobby && actor == Host && EverybodyReady(s)
    case AbortCountdown(actor) => s.phase == Countdown && PlayerActs(s, actor)
    case ExpireCountdown => s.phase == Countdown && s.countdownLive && s.startCount == 0 && EverybodyReady(s)
    case GameAction(actor) => s.phase == Running && s.game == AwaitingAction && PlayerActs(s, actor)
    case Pause(actor) => s.phase == Running && !s.pauseUsed && PlayerActs(s, actor)
    case Resume(actor) => s.phase == Paused && PlayerActs(s, actor)
    case Disconnect(seat) => s.phase != Closed && (if seat == HostSeat then s.connected.host else s.connected.one)
    case Reconnect(seat) => s.phase != Closed && !(if seat == HostSeat then s.connected.host else s.connected.one)
    case DisconnectSpectator => s.phase != Closed && s.spectatorConnected
    case ReconnectSpectator => s.phase != Closed && !s.spectatorConnected
    case RequestHand(_) => s.phase != Closed && s.spectatorConnected && s.pendingHand == None && s.grantEpoch == 0
    case GrantHand(owner) =>
      && s.phase != Closed && s.spectatorConnected && s.pendingHand == Some(owner) && s.grantEpoch == 0
      && (if owner == HostSeat then s.connected.host else s.connected.one)
    case DenyHand(owner) => s.phase != Closed && s.pendingHand == Some(owner)
    case RevokeHand(owner) => s.phase != Closed && s.grantedHand == Some(owner)
    case Chat(actor) =>
      s.phase != Closed && s.chatCount == 0 && (PlayerActs(s, actor) || (actor == Spectator && s.spectatorConnected))
    case CloseRoom(actor) => s.phase != Closed && actor == Host && s.connected.host
  }

  /** What each part of the room becomes, by what happened to it: nothing else touches it. */
  ghost predicate SeatsFollow(s: State, a: Action, t: State) { ReadyFollows(s, a, t) && ConnectionsFollow(s, a, t) }

  ghost predicate ReadyFollows(s: State, a: Action, t: State) {
    && t.ready.host == (if a == Ready(HostSeat) then true
                        else if a == Unready(HostSeat) || a == Disconnect(HostSeat) || a.ExpireCountdown? || a.CloseRoom? then false
                        else s.ready.host)
    && t.ready.one == (if a == Ready(PlayerOneSeat) then true
                       else if a == Unready(PlayerOneSeat) || a == Disconnect(PlayerOneSeat) || a.ExpireCountdown? || a.CloseRoom? then false
                       else s.ready.one)
  }

  ghost predicate ConnectionsFollow(s: State, a: Action, t: State) {
    && t.connected.host == (if a == Disconnect(HostSeat) then false else if a == Reconnect(HostSeat) then true else s.connected.host)
    && t.connected.one == (if a == Disconnect(PlayerOneSeat) then false else if a == Reconnect(PlayerOneSeat) then true else s.connected.one)
    && t.spectatorConnected == (if a.DisconnectSpectator? then false else if a.ReconnectSpectator? then true else s.spectatorConnected)
  }

  ghost predicate HandsFollow(s: State, a: Action, t: State) {
    && t.pendingHand == (if a.RequestHand? then Some(a.seat)
                         else if a.GrantHand? || a.DenyHand? || a.CloseRoom? then None
                         else s.pendingHand)
    && t.grantedHand == (if a.GrantHand? then Some(a.seat) else if a.RevokeHand? || a.CloseRoom? then None else s.grantedHand)
    && t.grantEpoch == (if a.GrantHand? then 1 else s.grantEpoch)
    && t.chatCount == (if a.Chat? then 1 else s.chatCount)
  }

  ghost predicate PlayFollows(s: State, a: Action, t: State) {
    && t.countdownLive == (if a.ArmCountdown? then true
                           else if a.Unready? || a.AbortCountdown? || a.ExpireCountdown? || a.CloseRoom? || (a.Disconnect? && s.phase == Countdown)
                           then false else s.countdownLive)
    && t.startCount == (if a.ExpireCountdown? then 1 else s.startCount)
    && t.startWasReady == (a.ExpireCountdown? || s.startWasReady)
    && t.pauseUsed == (a.Pause? || s.pauseUsed)
    && t.game == (if a.ExpireCountdown? then AwaitingAction else if a.GameAction? then Complete else s.game)
    && t.phase == (match a
                   case ArmCountdown(_) => Countdown
                   case Unready(_) => Lobby
                   case AbortCountdown(_) => Lobby
                   case ExpireCountdown => Running
                   case GameAction(_) => PostGame
                   case Pause(_) => Paused
                   case Resume(_) => Running
                   case Disconnect(_) => if s.phase == Countdown then Lobby else s.phase
                   case CloseRoom(_) => Closed
                   case _ => s.phase)
  }

  /** An attempt is accepted exactly when it is authorised; then every part of the room follows, and otherwise
      nothing changes. */
  lemma TransitionMeans(s: State, a: Action)
    ensures var (t, d) := Transition(s, a);
      && (d.Accepted? <==> Authorised(s, a))
      && (if Authorised(s, a) then SeatsFollow(s, a, t) && HandsFollow(s, a, t) && PlayFollows(s, a, t) else t == s)
  {
    hide Transition, Authorised, SeatsFollow, HandsFollow, PlayFollows;
    AcceptedMeans(s, a);
    SeatsMean(s, a);
    HandsMean(s, a);
    PlayMeans(s, a);
  }

  lemma AcceptedMeans(s: State, a: Action)
    ensures Transition(s, a).1.Accepted? <==> Authorised(s, a)
    ensures !Authorised(s, a) ==> Transition(s, a).0 == s
  {
  }

  lemma SeatsMean(s: State, a: Action)
    ensures Transition(s, a).1.Accepted? ==> SeatsFollow(s, a, Transition(s, a).0)
  {
    hide Transition, ReadyFollows, ConnectionsFollow;
    ReadyMeans(s, a);
    ConnectionsMean(s, a);
  }

  lemma ReadyMeans(s: State, a: Action)
    ensures Transition(s, a).1.Accepted? ==> ReadyFollows(s, a, Transition(s, a).0)
  {
    if a.Ready? || a.Unready? || a.Disconnect? || a.ExpireCountdown? || a.CloseRoom? {
      ReadyChanges(s, a);
    } else {
      ReadyKept(s, a);
    }
    hide Transition;
  }

  lemma ReadyChanges(s: State, a: Action)
    requires a.Ready? || a.Unready? || a.Disconnect? || a.ExpireCountdown? || a.CloseRoom?
    ensures Transition(s, a).1.Accepted? ==> ReadyFollows(s, a, Transition(s, a).0)
  {
  }

  lemma ReadyKept(s: State, a: Action)
    requires !(a.Ready? || a.Unready? || a.Disconnect? || a.ExpireCountdown? || a.CloseRoom?)
    ensures Transition(s, a).0.ready == s.ready
  {
  }

  lemma ConnectionsMean(s: State, a: Action)
    ensures Transition(s, a).1.Accepted? ==> ConnectionsFollow(s, a, Transition(s, a).0)
  {
    if a.Disconnect? || a.Reconnect? || a.DisconnectSpectator? || a.ReconnectSpectator? {
      ConnectionsChange(s, a);
    } else {
      ConnectionsKept(s, a);
    }
    hide Transition;
  }

  lemma ConnectionsChange(s: State, a: Action)
    requires a.Disconnect? || a.Reconnect? || a.DisconnectSpectator? || a.ReconnectSpectator?
    ensures Transition(s, a).1.Accepted? ==> ConnectionsFollow(s, a, Transition(s, a).0)
  {
  }

  lemma ConnectionsKept(s: State, a: Action)
    requires !(a.Disconnect? || a.Reconnect? || a.DisconnectSpectator? || a.ReconnectSpectator?)
    ensures Transition(s, a).0.connected == s.connected && Transition(s, a).0.spectatorConnected == s.spectatorConnected
  {
  }

  lemma HandsMean(s: State, a: Action)
    ensures Transition(s, a).1.Accepted? ==> HandsFollow(s, a, Transition(s, a).0)
  {
  }

  lemma PlayMeans(s: State, a: Action)
    ensures Transition(s, a).1.Accepted? ==> PlayFollows(s, a, Transition(s, a).0)
  {
  }

  // ----- The session as a transition system -----

  function SeatActions(seat: Seat): seq<Action> {
    [Ready(seat), Unready(seat), Disconnect(seat), Reconnect(seat),
     RequestHand(seat), GrantHand(seat), DenyHand(seat), RevokeHand(seat)]
  }

  function ActorActions(actor: Principal): seq<Action> {
    [ArmCountdown(actor), AbortCountdown(actor), GameAction(actor), Pause(actor), Resume(actor), Chat(actor), CloseRoom(actor)]
  }

  /** Every attempt tried from every state. */
  function AllActions(): seq<Action> {
    [Idle, ExpireCountdown, DisconnectSpectator, ReconnectSpectator]
    + SeatActions(HostSeat) + SeatActions(PlayerOneSeat)
    + ActorActions(Host) + ActorActions(PlayerOne) + ActorActions(Spectator) + ActorActions(Outsider)
  }

  /** Everything is attempted, by everybody but the clock, whose one act is the countdown's end. */
  lemma EverythingIsAttempted(a: Action)
    ensures a in AllActions() <==>
      match a
      case ArmCountdown(actor) => actor != Clock
      case AbortCountdown(actor) => actor != Clock
      case GameAction(actor) => actor != Clock
      case Pause(actor) => actor != Clock
      case Resume(actor) => actor != Clock
      case Chat(actor) => actor != Clock
      case CloseRoom(actor) => actor != Clock
      case _ => true
  {
    hide SeatActions, ActorActions;
    SeatAttempts(HostSeat, a);
    SeatAttempts(PlayerOneSeat, a);
    ActorAttempts(Host, a);
    ActorAttempts(PlayerOne, a);
    ActorAttempts(Spectator, a);
    ActorAttempts(Outsider, a);
    hide AllActions;
    Attempted(a);
    if a.Ready? || a.Unready? || a.Disconnect? || a.Reconnect? || a.RequestHand? || a.GrantHand? || a.DenyHand? || a.RevokeHand? {
      assert a.seat.HostSeat? || a.seat.PlayerOneSeat?;
    } else if a.ArmCountdown? || a.AbortCountdown? || a.GameAction? || a.Pause? || a.Resume? || a.Chat? || a.CloseRoom? {
      assert a.actor.Host? || a.actor.PlayerOne? || a.actor.Spectator? || a.actor.Outsider? || a.actor.Clock?;
    }
  }

  lemma Attempted(a: Action)
    ensures a in AllActions() <==>
      || a == Idle || a == ExpireCountdown || a == DisconnectSpectator || a == ReconnectSpectator
      || a in SeatActions(HostSeat) || a in SeatActions(PlayerOneSeat)
      || a in ActorActions(Host) || a in ActorActions(PlayerOne) || a in ActorActions(Spectator) || a in ActorActions(Outsider)
  {
    hide SeatActions, ActorActions;
  }

  lemma SeatAttempts(seat: Seat, a: Action)
    ensures a in SeatActions(seat) <==>
      || a == Ready(seat) || a == Unready(seat) || a == Disconnect(seat) || a == Reconnect(seat)
      || a == RequestHand(seat) || a == GrantHand(seat) || a == DenyHand(seat) || a == RevokeHand(seat)
  {
    var all := SeatActions(seat);
    assert all[0] == Ready(seat) && all[1] == Unready(seat) && all[2] == Disconnect(seat) && all[3] == Reconnect(seat);
    assert all[4] == RequestHand(seat) && all[5] == GrantHand(seat) && all[6] == DenyHand(seat) && all[7] == RevokeHand(seat);
  }

  lemma ActorAttempts(actor: Principal, a: Action)
    ensures a in ActorActions(actor) <==>
      || a == ArmCountdown(actor) || a == AbortCountdown(actor) || a == GameAction(actor) || a == Pause(actor)
      || a == Resume(actor) || a == Chat(actor) || a == CloseRoom(actor)
  {
    var all := ActorActions(actor);
    assert all[0] == ArmCountdown(actor) && all[1] == AbortCountdown(actor) && all[2] == GameAction(actor) && all[3] == Pause(actor);
    assert all[4] == Resume(actor) && all[5] == Chat(actor) && all[6] == CloseRoom(actor);
  }

  function Room(): System<State, Action> {
    System([INITIAL], (s: State) => AllActions(), (s: State, a: Action) => Some(Transition(s, a).0))
  }

  lemma {:induction false} RunInductive(states: seq<State>, actions: seq<Action>, k: nat)
    requires IsRun(Room(), states, actions) && k <= |actions|
    ensures Inductive(states[k])
  {
    hide AllActions, Transition, Inductive;
    if k == 0 {
      InitialInductive();
    } else {
      RunInductive(states, actions, k - 1);
      StepInductive(states[k - 1], actions[k - 1]);
    }
  }

  lemma InitialInductive()
    ensures Inductive(INITIAL)
  {
  }

  /** Every reachable state of the room is safe. */
  lemma ReachableIsSafe(s: State)
    requires Reachable(Room(), s)
    ensures Inductive(s) && Checked(s)
  {
    hide Inductive;
    var states, actions :| IsRun(Room(), states, actions) && states[|actions|] == s;
    RunInductive(states, actions, |actions|);
    InductiveChecked(s);
  }

  lemma InductiveChecked(s: State)
    requires Inductive(s)
    ensures Checked(s)
  {
  }

  // ----- The room is finite -----

  function Bit(b: bool): int { if b then 1 else 0 }

  predicate Binary(bits: seq<int>) {
    forall i :: 0 <= i < |bits| ==> 0 <= bits[i] <= 1
  }

  function PhaseBits(s: State): (bits: seq<int>)
    ensures Binary(bits) && |bits| == 3
  {
    [Bit(s.phase.PostGame? || s.phase.Closed?), Bit(s.phase.Running? || s.phase.Paused?),
     Bit(s.phase.Countdown? || s.phase.Paused? || s.phase.Closed?)]
  }

  function HandBits(s: State): (bits: seq<int>)
    ensures Binary(bits) && |bits| == 4
  {
    [Bit(s.pendingHand.None?), Bit(s.pendingHand == Some(HostSeat)), Bit(s.grantedHand.None?), Bit(s.grantedHand == Some(HostSeat))]
  }

  function SeatBits(s: State): (bits: seq<int>)
    ensures Binary(bits) && |bits| == 5
  {
    [Bit(s.ready.host), Bit(s.ready.one), Bit(s.connected.host), Bit(s.connected.one), Bit(s.spectatorConnected)]
  }

  function CountBits(s: State): (bits: seq<int>)
    requires Inductive(s)
    ensures Binary(bits) && |bits| == 7
  {
    [Bit(s.countdownLive), s.startCount, Bit(s.startWasReady), Bit(s.pauseUsed), s.grantEpoch, s.chatCount, Bit(s.game.Complete?)]
  }

  /** Nineteen binary digits that determine a safe state. */
  function BitsOf(s: State): (bits: seq<int>)
    requires Inductive(s)
    ensures |bits| == 19 && Binary(bits)
  {
    PhaseBits(s) + HandBits(s) + SeatBits(s) + CountBits(s)
  }

  lemma BitsOfDetermine(s: State, t: State)
    requires Inductive(s) && Inductive(t) && BitsOf(s) == BitsOf(t)
    ensures s == t
  {
    PartsDetermine(s, t) by {
      var u, v := BitsOf(s), BitsOf(t);
      assert PhaseBits(s) == u[..3] && PhaseBits(t) == v[..3];
      assert HandBits(s) == u[3..7] && HandBits(t) == v[3..7];
      assert SeatBits(s) == u[7..12] && SeatBits(t) == v[7..12];
      assert CountBits(s) == u[12..] && CountBits(t) == v[12..];
    }
  }

  lemma PartsDetermine(s: State, t: State)
    requires Inductive(s) && Inductive(t)
    requires PhaseBits(s) == PhaseBits(t) && HandBits(s) == HandBits(t) && SeatBits(s) == SeatBits(t) && CountBits(s) == CountBits(t)
    ensures s == t
  {
    var (p, h, b, c) := (PhaseBits(s), HandBits(s), SeatBits(s), CountBits(s));
    var (q, g, d, e) := (PhaseBits(t), HandBits(t), SeatBits(t), CountBits(t));
    assert p[0] == q[0] && p[1] == q[1] && p[2] == q[2];
    assert h[0] == g[0] && h[1] == g[1] && h[2] == g[2] && h[3] == g[3];
    assert b[0] == d[0] && b[1] == d[1] && b[2] == d[2] && b[3] == d[3] && b[4] == d[4];
    assert c[0] == e[0] && c[1] == e[1] && c[2] == e[2] && c[3] == e[3] && c[4] == e[4] && c[5] == e[5] && c[6] == e[6];
    SameHand(s.pendingHand, t.pendingHand);
    SameHand(s.grantedHand, t.grantedHand);
    assert s.phase == t.phase;
    assert s.ready == t.ready && s.connected == t.connected;
  }

  lemma SameHand(a: Option<Seat>, b: Option<Seat>)
    requires a.None? == b.None? && (a == Some(HostSeat)) == (b == Some(HostSeat))
    ensures a == b
  {
    if a.Some? {
      assert a.value.HostSeat? <==> b.value.HostSeat?;
    }
  }

  function StateCode(s: State): nat
    requires Inductive(s)
  {
    FiniteDomains.EncodeArray(FiniteDomains.BoundedU8(0, 1), BitsOf(s))
  }

  ghost predicate AllInductive(states: seq<State>) {
    forall i :: 0 <= i < |states| ==> Inductive(states[i])
  }

  ghost function Codes(states: seq<State>): seq<nat>
    requires AllInductive(states)
  {
    seq(|states|, i requires 0 <= i < |states| => StateCode(states[i]))
  }

  /** At most 2^19 distinct safe states, far below the identifier limit. */
  lemma FewStates(states: seq<State>)
    requires Distinct(states) && AllInductive(states)
    ensures |states| <= ID_LIMIT
  {
    var codes, limit := Codes(states), Power(2, 19);
    CodesInRange(states);
    hide Codes, Power;
    DistinctSize(codes);
    SubsetSize(Elements(codes), Below(limit));
    CodeRoom();
  }

  lemma CodesInRange(states: seq<State>)
    requires Distinct(states) && AllInductive(states)
    ensures |Codes(states)| == |states|
    ensures forall i, j :: 0 <= i < j < |states| ==> Codes(states)[i] != Codes(states)[j]
    ensures Elements(Codes(states)) <= Below(Power(2, 19))
  {
    hide StateCode, Inductive, Power;
    forall i, j | 0 <= i < j < |states|
      ensures Codes(states)[i] != Codes(states)[j]
    {
      CodesDiffer(states[i], states[j]);
    }
    forall c | c in Elements(Codes(states))
      ensures c in Below(Power(2, 19))
    {
      var i :| 0 <= i < |states| && Codes(states)[i] == c;
      CodeBound(states[i]);
    }
  }

  lemma CodeRoom()
    ensures Power(2, 19) <= ID_LIMIT
  {
    PowerGrows(2, 19, 32);
    assert Power(2, 8) == 256;
    PowerAdd(2, 8, 8);
    PowerAdd(2, 16, 16);
  }

  lemma CodeBound(s: State)
    requires Inductive(s)
    ensures StateCode(s) < Power(2, 19)
    ensures FiniteDomains.DecodeArray(FiniteDomains.BoundedU8(0, 1), 19, StateCode(s)) == Success(BitsOf(s))
  {
    var bit, bits := FiniteDomains.BoundedU8(0, 1), BitsOf(s);
    FiniteDomains.BoundedLawful(0, 1, 0);
    assert bit.cardinality == 2 && FiniteDomains.AllMembers(bit, bits);
    FiniteDomains.ArrayEncodes(bit, bits);
  }

  lemma CodesDiffer(s: State, t: State)
    requires Inductive(s) && Inductive(t) && s != t
    ensures StateCode(s) != StateCode(t)
  {
    CodeBound(s);
    CodeBound(t);
    hide Inductive, StateCode, BitsOf;
    if StateCode(s) == StateCode(t) {
      BitsOfDetermine(s, t);
    }
  }

  // ----- Every state can finish -----

  /** From every state that is not terminal, reachable or not, some accepted attempt changes the state
      and leads on: an open room can always reconnect its host, who can always close it. */
  function Onward(s: State): Action {
    if s.connected.host then CloseRoom(Host) else Reconnect(HostSeat)
  }

  lemma OnwardExact(s: State)
    requires !IsTerminal(s.phase)
    ensures var (t, d) := Transition(s, Onward(s));
      && d.Accepted? && t != s && Onward(s) in AllActions()
      && (if s.connected.host then t.phase.Closed? else t.connected.host && !IsTerminal(t.phase))
  {
    assert Onward(s) == ActorActions(Host)[6] || Onward(s) == SeatActions(HostSeat)[3];
  }

  /** The attempts of the explored graph, as the worklist reads them. */
  function AttemptOf(states: seq<State>, e: Arc<Action>): BackwardReach.Attempt {
    BackwardReach.Attempt(e.from, e.to, e.from < |states| && Transition(states[e.from], e.action).1.Accepted?)
  }

  function Attempts(g: ExplicitGraph<State, Action>): (a: seq<BackwardReach.Attempt>)
    ensures |a| == |g.edges|
  {
    seq(|g.edges|, i requires 0 <= i < |g.edges| => AttemptOf(g.states, g.edges[i]))
  }

  function Terminals(g: ExplicitGraph<State, Action>): (t: seq<bool>)
    ensures |t| == |g.states|
  {
    seq(|g.states|, i requires 0 <= i < |g.states| => IsTerminal(g.states[i].phase))
  }

  /** The onward move of a recorded state is a move of the worklist's graph. */
  lemma OnwardIsMove(g: ExplicitGraph<State, Action>, u: nat) returns (v: nat)
    requires Exact(Room(), g) && u < |g.states| && !IsTerminal(g.states[u].phase)
    ensures v < |g.states| && g.states[v] == Transition(g.states[u], Onward(g.states[u])).0
    ensures v in BackwardReach.Targets(Attempts(g), u)
  {
    hide Transition, AllActions, ShortestTo, Reachable;
    var s, a := g.states[u], Onward(g.states[u]);
    OnwardExact(s);
    var j :| 0 <= j < |AllActions()| && AllActions()[j] == a;
    Liveness.EveryEdge(Room(), g.states, |g.states|, 0, u, j);
    var e := EdgeAt(Room(), g.states, u, j);
    assert e in g.edges && e.from == u && e.action == a;
    assert RealEdge(Room(), g.states, e);
    v := e.to;
    var i :| 0 <= i < |g.edges| && g.edges[i] == e;
    assert Attempts(g)[i] == BackwardReach.Attempt(u, v, true);
    BackwardReach.TargetsExact(Attempts(g), u, v);
  }

  lemma EveryStateFinishes(g: ExplicitGraph<State, Action>, u: nat)
    requires Exact(Room(), g) && u < |g.states|
    ensures BackwardReach.Finishes(|g.states|, Terminals(g), Attempts(g), u)
  {
    hide Transition, Exact;
    var n, terminal, attempts := |g.states|, Terminals(g), Attempts(g);
    BackwardReach.TerminalFinishes(n, terminal, attempts);
    if !terminal[u] {
      OnwardExact(g.states[u]);
      var v := OnwardIsMove(g, u);
      if !terminal[v] {
        OnwardExact(g.states[v]);
        var w := OnwardIsMove(g, v);
        BackwardReach.MoveFinishes(n, terminal, attempts, v, w);
      }
      BackwardReach.MoveFinishes(n, terminal, attempts, u, v);
    }
  }

  // ----- The whole check -----

  /** Fixed-point counts: besides those of the exploration, accepted and denied attempts and terminal states. */
  datatype SessionStats = SessionStats(states: nat, transitions: nat, maximumDepth: nat, acceptedTransitions: nat,
                                       deniedTransitions: nat, terminalStates: nat)

  predicate IsAccepted(g: ExplicitGraph<State, Action>, i: nat)
    requires i < |g.edges|
  {
    AttemptOf(g.states, g.edges[i]).accepted
  }

  ghost function AcceptedAmong(g: ExplicitGraph<State, Action>, n: nat, accepted: bool): set<nat>
    requires n <= |g.edges|
  {
    set i: nat | i in Below(n) && IsAccepted(g, i) == accepted
  }

  ghost function TerminalAmong(g: ExplicitGraph<State, Action>, n: nat): set<nat>
    requires n <= |g.states|
  {
    set i: nat | i in Below(n) && IsTerminal(g.states[i].phase)
  }

  /** The measurements count what they name, and every attempt of every state is accepted or denied. */
  ghost predicate Measures(g: ExplicitGraph<State, Action>, x: SessionStats) {
    && x.states == |g.states| && x.transitions == |g.edges|
    && Liveness.GreatestOf(x.maximumDepth, g.depths)
    && x.acceptedTransitions == |AcceptedAmong(g, |g.edges|, true)|
    && x.deniedTransitions == |AcceptedAmong(g, |g.edges|, false)|
    && x.acceptedTransitions + x.deniedTransitions == x.states * |AllActions()|
    && x.terminalStates == |TerminalAmong(g, |g.states|)|
  }

  method Measure(g: ExplicitGraph<State, Action>, ghost m: nat) returns (x: SessionStats)
    requires Exact(Room(), g) && Records(Room(), g, m)
    ensures Measures(g, x)
  {
    hide Exact, Records, AllActions, Transition, IsAccepted;
    Conserved(g, m);
    var accepted := CountAccepted(g);
    var terminal := CountTerminal(g);
    x := SessionStats(|g.states|, |g.edges|, g.stats.maximumDepth, accepted, |g.edges| - accepted, terminal);
  }

  method CountAccepted(g: ExplicitGraph<State, Action>) returns (accepted: nat)
    ensures accepted == |AcceptedAmong(g, |g.edges|, true)| && |g.edges| - accepted == |AcceptedAmong(g, |g.edges|, false)|
  {
    hide IsAccepted, AcceptedAmong;
    accepted := 0;
    NoneYet(g);
    for i := 0 to |g.edges|
      invariant accepted == |AcceptedAmong(g, i, true)| && i - accepted == |AcceptedAmong(g, i, false)|
    {
      AmongGrows(g, i);
      if IsAccepted(g, i) {
        accepted := accepted + 1;
      }
    }
  }

  lemma NoneYet(g: ExplicitGraph<State, Action>)
    ensures AcceptedAmong(g, 0, true) == {} && AcceptedAmong(g, 0, false) == {}
  {
  }

  method CountTerminal(g: ExplicitGraph<State, Action>) returns (terminal: nat)
    ensures terminal == |TerminalAmong(g, |g.states|)|
  {
    hide TerminalAmong, IsTerminal;
    terminal := 0;
    NoneTerminalYet(g);
    for i := 0 to |g.states|
      invariant terminal == |TerminalAmong(g, i)|
    {
      TerminalGrows(g, i);
      if IsTerminal(g.states[i].phase) {
        terminal := terminal + 1;
      }
    }
  }

  lemma NoneTerminalYet(g: ExplicitGraph<State, Action>)
    ensures TerminalAmong(g, 0) == {}
  {
  }

  lemma TerminalGrows(g: ExplicitGraph<State, Action>, i: nat)
    requires i < |g.states|
    ensures TerminalAmong(g, i + 1) == TerminalAmong(g, i) + if IsTerminal(g.states[i].phase) then {i} else {}
    ensures i !in TerminalAmong(g, i)
  {
    hide IsTerminal;
  }

  lemma AmongGrows(g: ExplicitGraph<State, Action>, i: nat)
    requires i < |g.edges|
    ensures AcceptedAmong(g, i + 1, true) == AcceptedAmong(g, i, true) + if IsAccepted(g, i) then {i} else {}
    ensures AcceptedAmong(g, i + 1, false) == AcceptedAmong(g, i, false) + if IsAccepted(g, i) then {} else {i}
    ensures i !in AcceptedAmong(g, i, true) && i !in AcceptedAmong(g, i, false)
  {
    hide IsAccepted;
  }

  lemma Conserved(g: ExplicitGraph<State, Action>, m: nat)
    requires Exact(Room(), g) && Records(Room(), g, m)
    ensures Liveness.GreatestOf(g.stats.maximumDepth, g.depths)
    ensures |g.edges| == |g.states| * |AllActions()|
  {
    hide Exact, AllActions, Transition;
    ExactIsSafe(g);
    TransitionsConserved(Room(), g, m);
  }

  // ----- The printed graph -----

  /** How the graph is printed, line by line, and hashed. */
  datatype Printer = Printer(scope: Bytes, state: (nat, State) -> Bytes, edge: (nat, Action, Decision, nat) -> Bytes,
                             hash: Bytes -> Digest)

  const NEWLINE: Byte := 10

  function EdgeLine(printer: Printer, g: ExplicitGraph<State, Action>, e: Arc<Action>): Bytes
    requires e.from < |g.states|
  {
    printer.edge(e.from, e.action, Transition(g.states[e.from], e.action).1, e.to)
  }

  ghost predicate EdgesLeaveStates(g: ExplicitGraph<State, Action>) {
    forall i :: 0 <= i < |g.edges| ==> g.edges[i].from < |g.states|
  }

  /** One line a state, then one line an edge. */
  ghost function GraphLines(printer: Printer, g: ExplicitGraph<State, Action>): (lines: seq<Bytes>)
    requires EdgesLeaveStates(g)
    ensures |lines| == |g.states| + |g.edges|
  {
    seq(|g.states|, i requires 0 <= i < |g.states| => printer.state(i, g.states[i]))
    + seq(|g.edges|, i requires 0 <= i < |g.edges| => EdgeLine(printer, g, g.edges[i]))
  }

  /** Each line behind a newline. */
  ghost function Written(lines: seq<Bytes>): Bytes {
    if lines == [] then [] else Written(lines[..|lines| - 1]) + [NEWLINE] + lines[|lines| - 1]
  }

  ghost function GraphText(printer: Printer, g: ExplicitGraph<State, Action>): Bytes
    requires EdgesLeaveStates(g)
  {
    printer.scope + Written(GraphLines(printer, g))
  }

  method HashGraph(printer: Printer, g: ExplicitGraph<State, Action>) returns (digest: Digest)
    requires EdgesLeaveStates(g)
    ensures digest == printer.hash(GraphText(printer, g))
  {
    hide Transition, Written, EdgeLine;
    var text := printer.scope;
    ghost var lines := GraphLines(printer, g);
    NothingWritten(text, lines);
    for i := 0 to |g.states|
      invariant text == printer.scope + Written(lines[..i])
    {
      WrittenStep(printer.scope, lines, i);
      text := text + [NEWLINE] + printer.state(i, g.states[i]);
    }
    for i := 0 to |g.edges|
      invariant text == printer.scope + Written(lines[..|g.states| + i])
    {
      WrittenStep(printer.scope, lines, |g.states| + i);
      text := text + [NEWLINE] + EdgeLine(printer, g, g.edges[i]);
    }
    assert lines[..|lines|] == lines;
    digest := printer.hash(text);
  }

  lemma NothingWritten(scope: Bytes, lines: seq<Bytes>)
    ensures scope + Written(lines[..0]) == scope
  {
  }

  lemma WrittenStep(scope: Bytes, lines: seq<Bytes>, k: nat)
    requires k < |lines|
    ensures scope + Written(lines[..k + 1]) == scope + Written(lines[..k]) + [NEWLINE] + lines[k]
  {
    assert lines[..k + 1][..k] == lines[..k];
  }

  /** Lines hold no newline and tell states, edges, and the two kinds apart, as `S0:` and `E0:` do. */
  ghost predicate Legible(printer: Printer) {
    && (forall i: nat, s :: NEWLINE !in printer.state(i, s))
    && (forall i: nat, a, d, j: nat :: NEWLINE !in printer.edge(i, a, d, j))
    && (forall i: nat, s, t :: printer.state(i, s) == printer.state(i, t) ==> s == t)
    && (forall i: nat, a, d, j: nat, k: nat, b, e, l: nat ::
          printer.edge(i, a, d, j) == printer.edge(k, b, e, l) ==> i == k && a == b && j == l)
    && (forall h: nat, s, i: nat, a, d, j: nat :: printer.state(h, s) != printer.edge(i, a, d, j))
  }

  ghost predicate OneLiners(lines: seq<Bytes>) { forall i :: 0 <= i < |lines| ==> NEWLINE !in lines[i] }

  /** Lines without newlines are told apart by what is written. */
  lemma {:induction false} WrittenDetermines(us: seq<Bytes>, vs: seq<Bytes>)
    requires OneLiners(us) && OneLiners(vs) && Written(us) == Written(vs)
    ensures us == vs
  {
    if us != [] && vs != [] {
      var x, y := us[|us| - 1], vs[|vs| - 1];
      LastLine(Written(us[..|us| - 1]), x, Written(vs[..|vs| - 1]), y);
      WrittenDetermines(us[..|us| - 1], vs[..|vs| - 1]);
      assert us == us[..|us| - 1] + [x] && vs == vs[..|vs| - 1] + [y];
    }
  }

  lemma LastLine(a: Bytes, x: Bytes, b: Bytes, y: Bytes)
    requires NEWLINE !in x && NEWLINE !in y && a + [NEWLINE] + x == b + [NEWLINE] + y
    ensures a == b && x == y
  {
    var u, v := a + [NEWLINE] + x, b + [NEWLINE] + y;
    assert u[|a|] == NEWLINE && v[|b|] == NEWLINE;
    assert forall k :: |a| < k < |u| ==> u[k] == x[k - |a| - 1] != NEWLINE;
    assert forall k :: |b| < k < |v| ==> v[k] == y[k - |b| - 1] != NEWLINE;
    assert a == u[..|a|] && b == v[..|b|];
    assert x == u[|a| + 1..] && y == v[|b| + 1..];
  }

  ghost predicate IsStateLine(printer: Printer, line: Bytes) { exists i: nat, s :: line == printer.state(i, s) }

  lemma StateLines(printer: Printer, g: ExplicitGraph<State, Action>)
    requires Legible(printer) && EdgesLeaveStates(g)
    ensures OneLiners(GraphLines(printer, g))
    ensures forall i :: 0 <= i < |g.states| + |g.edges| ==> (IsStateLine(printer, GraphLines(printer, g)[i]) <==> i < |g.states|)
  {
    hide Transition;
  }

  /** Equal texts have equal lines, and equally many of either kind. */
  lemma SameLines(printer: Printer, a: ExplicitGraph<State, Action>, b: ExplicitGraph<State, Action>)
    requires Legible(printer) && EdgesLeaveStates(a) && EdgesLeaveStates(b)
    requires GraphText(printer, a) == GraphText(printer, b)
    ensures GraphLines(printer, a) == GraphLines(printer, b) && |a.states| == |b.states|
  {
    StateLines(printer, a);
    StateLines(printer, b);
    hide GraphLines, IsStateLine, Legible, Written, EdgesLeaveStates;
    var us, vs := GraphLines(printer, a), GraphLines(printer, b);
    assert Written(us) == GraphText(printer, a)[|printer.scope|..] && Written(vs) == GraphText(printer, b)[|printer.scope|..];
    WrittenDetermines(us, vs);
    var k := Min(|a.states|, |b.states|);
    if k < |us| {
      assert IsStateLine(printer, us[k]) <==> k < |a.states|;
      assert IsStateLine(printer, vs[k]) <==> k < |b.states|;
    }
  }

  /** What the semantic hash commits to, for a legible printer and a hash that tells the two texts apart:
      every state and every edge, in order. */
  lemma HashCommits(printer: Printer, a: ExplicitGraph<State, Action>, b: ExplicitGraph<State, Action>)
    requires Legible(printer) && EdgesLeaveStates(a) && EdgesLeaveStates(b)
    requires printer.hash(GraphText(printer, a)) == printer.hash(GraphText(printer, b)) ==> GraphText(printer, a) == GraphText(printer, b)
    requires printer.hash(GraphText(printer, a)) == printer.hash(GraphText(printer, b))
    ensures a.states == b.states && a.edges == b.edges
  {
    hide Transition, GraphText;
    SameLines(printer, a, b);
    var us, vs, m := GraphLines(printer, a), GraphLines(printer, b), |a.states|;
    forall i | 0 <= i < m
      ensures a.states[i] == b.states[i]
    {
      assert us[i] == vs[i];
    }
    forall i | 0 <= i < |a.edges|
      ensures a.edges[i] == b.edges[i]
    {
      assert us[m + i] == vs[m + i];
    }
  }

  /** The session graph: the breadth-first exploration of the room never fails, is exact, tries every
      attempt from every state, and finds only safe states. */
  method ExploreSession(printer: Printer)
    returns (g: ExplicitGraph<State, Action>, stats: SessionStats, semanticHash: Digest, ghost m: nat)
    ensures Exact(Room(), g) && Records(Room(), g, m)
    ensures Measures(g, stats)
    ensures EdgesLeaveStates(g) && semanticHash == printer.hash(GraphText(printer, g))
    ensures forall i :: 0 <= i < |g.states| ==> Checked(g.states[i])
    ensures |g.edges| == |g.states| * |AllActions()|
  {
    hide Exact, Records, StoppedAt, FailedAt, Transition, AllActions, Inductive, Checked, Measures, EdgesLeaveStates;
    var r;
    r, m := ExploreWithConfig(Room(), (s: State) => IsTerminal(s.phase), None);
    if r.Failure? {
      NeverFails(r.error, m);
    }
    g := r.value;
    OnlyExhausted(g.stats.termination, m);
    ExhaustiveIsExact(Room(), None, g, m);
    ExactIsSafe(g);
    stats := Measure(g, m);
    ExactEdges(g);
    semanticHash := HashGraph(printer, g);
  }

  lemma ExactEdges(g: ExplicitGraph<State, Action>)
    requires Exact(Room(), g)
    ensures EdgesLeaveStates(g)
  {
    hide Reachable, ShortestTo, Transition, AllActions, Distinct;
    forall i | 0 <= i < |g.edges|
      ensures g.edges[i].from < |g.states|
    {
      assert g.edges[i] in g.edges && RealEdge(Room(), g.states, g.edges[i]);
    }
  }

  lemma OnlyExhausted(termination: TerminationReason, m: nat)
    requires StoppedAt(Room(), None, termination, m)
    ensures termination == Exhausted
  {
  }

  lemma ExactIsSafe(g: ExplicitGraph<State, Action>)
    requires Exact(Room(), g)
    ensures forall i :: 0 <= i < |g.states| ==> Checked(g.states[i])
    ensures |g.edges| == |g.states| * |AllActions()|
  {
    hide Reachable, ShortestTo, RealEdge, Checked, Inductive, Distinct, AllActions;
    forall i | 0 <= i < |g.states|
      ensures Checked(g.states[i])
    {
      assert g.states[i] in g.states;
      ReachableIsSafe(g.states[i]);
    }
    EdgeCount(g.states, |g.states|, 0);
  }

  lemma {:induction false} EdgeCount(states: seq<State>, from: nat, next: nat)
    requires from <= |states| && next <= (if from < |states| then |AllActions()| else 0)
    ensures |EdgesUpTo(Room(), states, from, next)| == from * |AllActions()| + next
    decreases from, next
  {
    hide AllActions;
    if next > 0 {
      EdgeCount(states, from, next - 1);
    } else if from > 0 {
      EdgeCount(states, from - 1, |AllActions()|);
      assert from * |AllActions()| == (from - 1) * |AllActions()| + |AllActions()|;
    }
  }

  /** No attempt is ever undefined, and there are too few safe states to run out of identifiers. */
  lemma NeverFails(error: CheckError<State, Action>, m: nat)
    ensures !FailedAt(Room(), error, m)
  {
    if FailedAt(Room(), error, m) {
      FailureIsReal(Room(), error, m);
      hide FailedAt, Inductive, Reachable, Transition, AllActions;
      assert error.StateIdOverflow?;
      var s: seq<State> :| |s| > ID_LIMIT && Distinct(s) && forall x :: x in s ==> Reachable(Room(), x);
      forall i | 0 <= i < |s|
        ensures Inductive(s[i])
      {
        assert s[i] in s;
        ReachableIsSafe(s[i]);
      }
      FewStates(s);
    }
  }

  /** An edge joins recorded states and is allowed with the decision its attempt gets. */
  predicate EdgeDemand(g: ExplicitGraph<State, Action>, e: Arc<Action>) {
    && e.from < |g.states| && e.to < |g.states|
    && EdgeAllowed(g.states[e.from], e.action, Transition(g.states[e.from], e.action).1, g.states[e.to])
  }

  /** Every edge of the explored graph passes the checker's edge demands. */
  lemma EdgesChecked(g: ExplicitGraph<State, Action>, e: Arc<Action>)
    requires Exact(Room(), g) && e in g.edges
    ensures e.from < |g.states| && e.to < |g.states|
    ensures EdgeDemand(g, e)
  {
    hide Transition, Reachable, ShortestTo, Distinct, AllActions, EdgeAllowed;
    assert RealEdge(Room(), g.states, e);
    EdgeChecked(g.states[e.from], e.action);
  }

  /** Every edge of the explored graph does what its attempt means. */
  lemma EdgesMean(g: ExplicitGraph<State, Action>, e: Arc<Action>)
    requires Exact(Room(), g) && e in g.edges
    ensures e.from < |g.states| && e.to < |g.states|
    ensures var (s, t) := (g.states[e.from], g.states[e.to]);
      if Authorised(s, e.action) then SeatsFollow(s, e.action, t) && HandsFollow(s, e.action, t) && PlayFollows(s, e.action, t) else t == s
  {
    hide Transition, Reachable, ShortestTo, Distinct, AllActions, Authorised, SeatsFollow, HandsFollow, PlayFollows;
    assert RealEdge(Room(), g.states, e);
    TransitionMeans(g.states[e.from], e.action);
  }

  // ----- Histories -----

  /** Attempt `i` of a run was accepted. */
  ghost predicate Happened(states: seq<State>, actions: seq<Action>, i: nat, a: Action) {
    i < |actions| && i < |states| && actions[i] == a && Authorised(states[i], a)
  }

  /** Between `i` and `k`, nothing accepted took the hand back or closed the room. */
  ghost predicate StillGranted(states: seq<State>, actions: seq<Action>, owner: Seat, i: nat, k: nat)
    requires k <= |actions| <= |states|
  {
    forall j :: i < j < k && Authorised(states[j], actions[j]) ==> actions[j] != RevokeHand(owner) && !actions[j].CloseRoom?
  }

  lemma RunStep(states: seq<State>, actions: seq<Action>, k: nat)
    requires IsRun(Room(), states, actions) && k < |actions|
    ensures var (s, a, t) := (states[k], actions[k], states[k + 1]);
      if Authorised(s, a) then SeatsFollow(s, a, t) && HandsFollow(s, a, t) && PlayFollows(s, a, t) else t == s
  {
    hide Transition, AllActions, Authorised, SeatsFollow, HandsFollow, PlayFollows;
    TransitionMeans(states[k], actions[k]);
  }

  /** A request is pending only if it was made. */
  lemma {:induction false} PendingWasRequested(states: seq<State>, actions: seq<Action>, k: nat, owner: Seat) returns (i: nat)
    requires IsRun(Room(), states, actions) && k <= |actions| && states[k].pendingHand == Some(owner)
    ensures i < k && Happened(states, actions, i, RequestHand(owner))
    decreases k
  {
    hide Transition, AllActions;
    if k > 0 {
      RunStep(states, actions, k - 1);
      if states[k - 1].pendingHand == Some(owner) {
        i := PendingWasRequested(states, actions, k - 1, owner);
      } else {
        i := k - 1;
      }
    }
  }

  /** A hand is visible only if the spectator asked for that hand, its owner granted it after, and nobody took
      it back or closed the room since. */
  lemma {:induction false} VisibleWasGranted(states: seq<State>, actions: seq<Action>, k: nat, owner: Seat) returns (i: nat, j: nat)
    requires IsRun(Room(), states, actions) && k <= |actions| && SpectatorCanSee(states[k], owner)
    ensures i < j < k && Happened(states, actions, i, RequestHand(owner)) && Happened(states, actions, j, GrantHand(owner))
    ensures StillGranted(states, actions, owner, j, k)
    decreases k
  {
    hide Transition, AllActions;
    hide ReadyFollows, ConnectionsFollow, PlayFollows;
    if k > 0 {
      RunStep(states, actions, k - 1);
      if Happened(states, actions, k - 1, GrantHand(owner)) {
        i := PendingWasRequested(states, actions, k - 1, owner);
        j := k - 1;
      } else {
        i, j := VisibleWasGranted(states, actions, k - 1, owner);
      }
    }
  }

  /** A seat is ready only if it declared itself ready and nothing since undid that. */
  lemma {:induction false} ReadyWasDeclared(states: seq<State>, actions: seq<Action>, k: nat, seat: Seat) returns (i: nat)
    requires IsRun(Room(), states, actions) && k <= |actions| && (if seat == HostSeat then states[k].ready.host else states[k].ready.one)
    ensures i < k && Happened(states, actions, i, Ready(seat))
    ensures forall j :: i < j < k && Authorised(states[j], actions[j]) ==>
      actions[j] != Unready(seat) && actions[j] != Disconnect(seat) && !actions[j].ExpireCountdown? && !actions[j].CloseRoom?
    decreases k
  {
    hide Transition, AllActions, Authorised;
    if k > 0 {
      RunStep(states, actions, k - 1);
      if Happened(states, actions, k - 1, Ready(seat)) {
        i := k - 1;
      } else {
        i := ReadyWasDeclared(states, actions, k - 1, seat);
      }
    }
  }

  /** The game has started only if the countdown ran out while both seats were ready and connected. */
  lemma {:induction false} StartedWhenReady(states: seq<State>, actions: seq<Action>, k: nat) returns (i: nat)
    requires IsRun(Room(), states, actions) && k <= |actions| && states[k].startCount == 1
    ensures i < k && Happened(states, actions, i, ExpireCountdown) && EverybodyReady(states[i])
    decreases k
  {
    hide Transition, AllActions;
    if k > 0 {
      RunStep(states, actions, k - 1);
      if states[k - 1].startCount == 1 {
        i := StartedWhenReady(states, actions, k - 1);
      } else {
        i := k - 1;
      }
    }
  }

  /** The first recorded state with a property, found by scanning in discovery order, with its trace. */
  method FirstWitness(g: ExplicitGraph<State, Action>, ghost m: nat, violates: State -> bool) returns (r: Option<Counterexample<State, Action>>)
    requires Exact(Room(), g) && Records(Room(), g, m)
    ensures r.None? <==> forall s :: Reachable(Room(), s) ==> !violates(s)
    ensures r.Some? ==>
      && IsRun(Room(), r.value.states, r.value.actions) && violates(r.value.states[|r.value.actions|])
      && forall states, actions :: IsRun(Room(), states, actions) && violates(states[|actions|]) ==> |r.value.actions| <= |actions|
  {
    hide Records, Transition, AllActions, IsRun, ShortestTo, RealEdge;
    for i := 0 to |g.states|
      invariant forall k :: 0 <= k < i ==> !violates(g.states[k])
    {
      if violates(g.states[i]) {
        assert g.states[i] in g.states;
        r := ShortestTrace(Room(), g, m, i);
        FirstIsShortest(g, m, violates, i);
        return;
      }
    }
    r := None;
  }

  /** Discovery order is by distance, so the first match is a nearest one. */
  lemma FirstIsShortest(g: ExplicitGraph<State, Action>, m: nat, violates: State -> bool, i: nat)
    requires Exact(Room(), g) && Records(Room(), g, m) && i < |g.states|
    requires forall k :: 0 <= k < i ==> !violates(g.states[k])
    ensures forall states, actions :: IsRun(Room(), states, actions) && violates(states[|actions|]) ==> g.depths[i] <= |actions|
  {
    hide Transition, AllActions, RealEdge;
    AfterSound(Room(), m);
    hide After, Tree, Linked, Expanded, Explorer.Counted, Distinct;
    forall states, actions | IsRun(Room(), states, actions) && violates(states[|actions|])
      ensures g.depths[i] <= |actions|
    {
      assert Reachable(Room(), states[|actions|]);
      var k :| 0 <= k < |g.states| && g.states[k] == states[|actions|];
      assert ShortestTo(Room(), g.states[k], g.depths[k]);
    }
  }

  /** One of the three claims the checker expects to be false: the game can be paused. */
  lemma PauseReachable() returns (s: State)
    ensures Reachable(Room(), s) && s.phase.Paused?
  {
    HostAttempts();
    hide AllActions, Reachable;
    s := StartReachable();
    s := Try(s, Ready(HostSeat));
    s := Try(s, Ready(PlayerOneSeat));
    s := Try(s, ArmCountdown(Host));
    s := Try(s, ExpireCountdown);
    s := Try(s, Pause(Host));
  }

  /** Another: the spectator can come to see a hand. */
  lemma GrantReachable() returns (s: State)
    ensures Reachable(Room(), s) && s.grantedHand.Some?
  {
    HostAttempts();
    hide AllActions, Reachable;
    s := StartReachable();
    s := Try(s, RequestHand(HostSeat));
    s := Try(s, GrantHand(HostSeat));
  }

  /** The last: not every reachable state is terminal. */
  lemma StartReachable() returns (s: State)
    ensures s == INITIAL && Reachable(Room(), s) && !IsTerminal(s.phase)
  {
    s := INITIAL;
    var none: seq<Action> := [];
    assert IsRun(Room(), [s], none);
    assert [s][|none|] == s;
  }

  lemma HostAttempts()
    ensures ExpireCountdown in AllActions() && Ready(HostSeat) in AllActions() && Ready(PlayerOneSeat) in AllActions()
    ensures ArmCountdown(Host) in AllActions() && Pause(Host) in AllActions()
    ensures RequestHand(HostSeat) in AllActions() && GrantHand(HostSeat) in AllActions()
  {
    var all := AllActions();
    assert all[4] == Ready(HostSeat) && all[12] == Ready(PlayerOneSeat) && all[20] == ArmCountdown(Host);
    assert all[1] == ExpireCountdown && all[23] == Pause(Host) && all[8] == RequestHand(HostSeat) && all[9] == GrantHand(HostSeat);
  }

  /** An attempt keeps a reachable state reachable. */
  lemma Try(s: State, a: Action) returns (t: State)
    requires Reachable(Room(), s) && a in AllActions()
    ensures t == Transition(s, a).0 && Reachable(Room(), t)
  {
    hide Transition, Reachable, AllActions;
    t := Transition(s, a).0;
    SuccessorReachable(Room(), s, a, t);
  }

  datatype FalseInvariant = FalseInvariant(name: string, actions: seq<Action>)

  datatype SessionReport = SessionReport(stats: SessionStats, semanticHash: Digest, safetyProperties: nat, unconditionalTermination: bool,
                                         everyStateHasTerminalPath: bool, falseInvariants: seq<FalseInvariant>)

  /** Number of demands the checker makes. */
  const SAFETY_PROPERTIES: nat := 10

  ghost predicate StatesChecked(g: ExplicitGraph<State, Action>, n: nat)
    requires n <= |g.states|
  {
    forall i :: 0 <= i < n ==> Checked(g.states[i])
  }

  ghost predicate EdgesDemanded(g: ExplicitGraph<State, Action>, n: nat)
    requires n <= |g.edges|
  {
    forall i :: 0 <= i < n ==> EdgeDemand(g, g.edges[i])
  }

  /** The checker's assertions over any graph, states first: nothing is returned exactly when one fails. */
  method CheckSessionSafety(g: ExplicitGraph<State, Action>) returns (obligations: Option<nat>)
    ensures obligations == if StatesChecked(g, |g.states|) && EdgesDemanded(g, |g.edges|) then Some(SAFETY_PROPERTIES) else None
  {
    hide Checked, EdgeDemand;
    for i := 0 to |g.states|
      invariant StatesChecked(g, i)
    {
      if !Checked(g.states[i]) {
        return None;
      }
    }
    for i := 0 to |g.edges|
      invariant EdgesDemanded(g, i)
    {
      if !EdgeDemand(g, g.edges[i]) {
        return None;
      }
    }
    obligations := Some(SAFETY_PROPERTIES);
  }

  /** On the explored graph none of the assertions fails. */
  lemma DemandsMet(g: ExplicitGraph<State, Action>)
    requires Exact(Room(), g)
    ensures StatesChecked(g, |g.states|) && EdgesDemanded(g, |g.edges|)
  {
    hide Exact, AllActions, Transition, Checked, EdgeDemand;
    ExactIsSafe(g);
    forall i | 0 <= i < |g.edges|
      ensures EdgeDemand(g, g.edges[i])
    {
      EdgesChecked(g, g.edges[i]);
    }
  }

  /** Nobody needs to do anything: idling forever is a run that never ends, so termination is conditional. */
  lemma MayIdleForever()
    ensures !Liveness.SystemFinishes(Room(), (s: State) => IsTerminal(s.phase))
  {
    var idle := (i: nat) => INITIAL;
    assert AllActions()[0] == Idle;
    assert Idle in Room().legal(INITIAL) && Room().step(INITIAL, Idle) == Some(INITIAL);
    hide AllActions, Transition;
    assert Liveness.InfiniteRun(Room(), idle);
    assert forall i: nat :: !IsTerminal(idle(i).phase);
  }

  /** The actions are a shortest way to a reachable state that violates the claim. */
  ghost predicate Refutes(actions: seq<Action>, violates: State -> bool) {
    && (exists states :: IsRun(Room(), states, actions) && violates(states[|actions|]))
    && (forall states, others :: IsRun(Room(), states, others) && violates(states[|others|]) ==> |actions| <= |others|)
  }

  /** The three claims known to be false, by what violates them. */
  function KnownFalse(): seq<(string, State -> bool)> {
    [("all-reachable-states-are-terminal", (s: State) => !IsTerminal(s.phase)),
     ("pause-is-unreachable", (s: State) => s.phase.Paused?),
     ("spectator-never-sees-a-hand", (s: State) => s.grantedHand.Some?)]
  }

  lemma KnownFalseReachable(i: nat)
    requires i < |KnownFalse()|
    ensures exists s :: Reachable(Room(), s) && KnownFalse()[i].1(s)
  {
    hide Reachable, Transition, AllActions;
    if i == 0 {
      var s := StartReachable();
    } else if i == 1 {
      var s := PauseReachable();
    } else {
      var s := GrantReachable();
    }
  }

  /** The report: exact measurements, no failed safety assertion, a terminal path from every state, and a
      shortest witness against each of the claims known to be false. */
  method CheckSession(printer: Printer) returns (report: SessionReport, g: ExplicitGraph<State, Action>, ghost m: nat)
    ensures Exact(Room(), g) && Records(Room(), g, m)
    ensures EdgesLeaveStates(g) && report.semanticHash == printer.hash(GraphText(printer, g))
    ensures Measures(g, report.stats) && report.safetyProperties == SAFETY_PROPERTIES
    ensures StatesChecked(g, |g.states|) && EdgesDemanded(g, |g.edges|)
    ensures report.unconditionalTermination <==> Liveness.SystemFinishes(Room(), (s: State) => IsTerminal(s.phase))
    ensures report.everyStateHasTerminalPath
    ensures forall u :: 0 <= u < |g.states| ==> BackwardReach.Finishes(|g.states|, Terminals(g), Attempts(g), u)
    ensures |report.falseInvariants| == |KnownFalse()|
    ensures forall i :: 0 <= i < |KnownFalse()| ==>
      report.falseInvariants[i].name == KnownFalse()[i].0 && Refutes(report.falseInvariants[i].actions, KnownFalse()[i].1)
    ensures forall s :: Reachable(Room(), s) ==> Checked(s)
  {
    hide Exact, Records, Checked, Inductive, Transition, AllActions, Reachable, Measures, KnownFalse, Refutes, IsRun;
    hide StatesChecked, EdgesDemanded, EdgesLeaveStates, Liveness.SystemFinishes;
    var stats, semanticHash;
    g, stats, semanticHash, m := ExploreSession(printer);
    DemandsMet(g);
    var safety := CheckSessionSafety(g);
    MayIdleForever();
    var n, terminal, attempts := |g.states|, Terminals(g), Attempts(g);
    AttemptsInRange(g);
    forall u: nat | u < n
      ensures BackwardReach.Finishes(n, terminal, attempts, u)
    {
      EveryStateFinishes(g, u);
    }
    var everyStateHasTerminalPath := BackwardReach.EveryStateReachesTerminal(n, terminal, attempts);
    var falseInvariants: seq<FalseInvariant> := [];
    for i := 0 to |KnownFalse()|
      invariant |falseInvariants| == i
      invariant forall k :: 0 <= k < i ==>
        falseInvariants[k].name == KnownFalse()[k].0 && Refutes(falseInvariants[k].actions, KnownFalse()[k].1)
    {
      var claim := KnownFalse()[i];
      KnownFalseReachable(i);
      var found := FirstWitness(g, m, claim.1);
      WitnessRefutes(found.value, claim.1);
      falseInvariants := falseInvariants + [FalseInvariant(claim.0, found.value.actions)];
    }
    forall s | Reachable(Room(), s)
      ensures Checked(s)
    {
      ReachableIsSafe(s);
    }
    report := SessionReport(stats, semanticHash, safety.value, false, everyStateHasTerminalPath, falseInvariants);
  }

  lemma WitnessRefutes(x: Counterexample<State, Action>, violates: State -> bool)
    requires IsRun(Room(), x.states, x.actions) && violates(x.states[|x.actions|])
    requires forall states, actions :: IsRun(Room(), states, actions) && violates(states[|actions|]) ==> |x.actions| <= |actions|
    ensures Refutes(x.actions, violates)
  {
    hide AllActions, Transition;
  }

  lemma AttemptsInRange(g: ExplicitGraph<State, Action>)
    requires Exact(Room(), g)
    ensures BackwardReach.InRange(|g.states|, Attempts(g))
  {
    hide Reachable, ShortestTo, Transition, AllActions;
    forall i | 0 <= i < |g.edges|
      ensures Attempts(g)[i].from < |g.states| && Attempts(g)[i].to < |g.states|
    {
      assert g.edges[i] in g.edges && RealEdge(Room(), g.states, g.edges[i]);
    }
  }
}
