/** Whole runs of the auto-negotiation machine: what must have happened when the link is reported up. */
module AutonegRuns {
  import opened Tristates
  import opened Autoneg

  /** The driver stores the timer and calls the machine, which may receive a word. */
  datatype Call = Call(time: nat, rx: Option<Word>)

  function CallStep(info: Info, c: Call): Info {
    Step(info.(currentTime := c.time), c.rx).0
  }

  predicate StepAt(infos: seq<Info>, calls: seq<Call>, i: nat)
    requires i < |calls| && |infos| == |calls| + 1
  {
    infos[i + 1] == CallStep(infos[i], calls[i])
  }

  /** A run: infos[i] is the state after the first i calls. */
  predicate IsRun(infos: seq<Info>, calls: seq<Call>) {
    |infos| == |calls| + 1 && infos[0].state == Unknown &&
    forall i {:trigger StepAt(infos, calls, i)} | 0 <= i < |calls| :: StepAt(infos, calls, i)
  }

  /** The timer only advances and does not wrap. */
  predicate Timely(calls: seq<Call>) {
    (forall i, j | 0 <= i <= j < |calls| :: calls[i].time <= calls[j].time) &&
    (forall i | 0 <= i < |calls| :: calls[i].time < TIME_RANGE)
  }

  /** The calls at which the steps of one negotiation happened. */
  datatype Evidence = Evidence(restart: nat, waited1: nat, ability: nat, acked: nat,
                               accepted: nat, waited2: nat, idle: nat, waited3: nat)

  /** How far a state is into the negotiation. */
  function Stage(s: State): int {
    match s
    case AnRestartInit => 0
    case AnRestart => 1
    case AbilityDetectInit => 2
    case AbilityDetect => 2
    case AckDetectInit => 3
    case AckDetect => 3
    case CompleteAckInit => 4
    case CompleteAck => 5
    case IdleDetectInit => 6
    case IdleDetect => 7
    case LinkOk => 8
    case _ => -1
  }

  predicate Waited(calls: seq<Call>, from: nat, to: nat) {
    from <= to < |calls| && calls[to].time - calls[from].time > LINK_TIMER_INTERVAL_US
  }

  /** The last k of the first n calls received the word w, none of them before call `from`. */
  predicate Repeated(calls: seq<Call>, from: nat, n: nat, k: nat, w: Word) {
    from + k <= n <= |calls| && forall i | n - k <= i < n :: calls[i].rx == Some(w)
  }

  /** Three calls in a row, ending with the ability call, received one and the same nonzero word. */
  predicate AbilitySeen(calls: seq<Call>, restart: nat, ability: nat) {
    ability < |calls| && WordOf(calls[ability].rx) != 0 &&
    Repeated(calls, restart, ability + 1, 3, WordOf(calls[ability].rx))
  }

  /** The steps up to a stage happened in order, the last restart being the one recorded. */
  ghost predicate Happened(infos: seq<Info>, calls: seq<Call>, n: nat, ev: Evidence, stage: int)
    requires n <= |calls| && |infos| == |calls| + 1
  {
    && (stage == 0 ==> ev.restart == n)
    && (stage >= 1 ==> ev.restart < n && infos[ev.restart].state == AnRestartInit)
    && (forall i | ev.restart < i < n :: infos[i].state != AnRestartInit)
    && (stage >= 2 ==> ev.waited1 < n && Waited(calls, ev.restart, ev.waited1))
    && (stage >= 3 ==> ev.waited1 < ev.ability < n && AbilitySeen(calls, ev.restart, ev.ability))
    && (stage >= 4 ==> ev.ability < ev.acked < n && Has(WordOf(calls[ev.acked].rx), CONFIG_ACK))
    && (stage >= 5 ==> ev.acked < ev.accepted < n && !HasReserved(WordOf(calls[ev.accepted].rx)))
    && (stage >= 6 ==> ev.waited2 < n && Waited(calls, ev.accepted, ev.waited2))
    && (stage >= 7 ==> ev.waited2 < ev.idle < n)
    && (stage >= 8 ==> ev.waited3 < n && Waited(calls, ev.idle, ev.waited3))
  }

  /** What the match fields say about the words received since the restart. */
  predicate MatchCounts(calls: seq<Call>, n: nat, restart: nat, m: Matching) {
    m.cfg != 0 ==>
      && Repeated(calls, restart, n, if m.cnt < 2 then m.cnt + 1 else 3, m.cfg)
      && (m.ability ==> Repeated(calls, restart, n, 3, m.cfg))
  }

  /** The saved link time belongs to the call that started the running timer. */
  predicate TimerStarted(calls: seq<Call>, info: Info, ev: Evidence) {
    && (info.state == AnRestart ==> ev.restart < |calls| && info.linkTime == calls[ev.restart].time)
    && (info.state == CompleteAck ==> ev.accepted < |calls| && info.linkTime == calls[ev.accepted].time)
    && (info.state == IdleDetect ==> ev.idle < |calls| && info.linkTime == calls[ev.idle].time)
  }

  ghost predicate Justified(infos: seq<Info>, calls: seq<Call>, n: nat, ev: Evidence)
    requires n <= |calls| && |infos| == |calls| + 1
  {
    var info := infos[n];
    Stage(info.state) >= 0 ==>
      && Happened(infos, calls, n, ev, Stage(info.state))
      && MatchCounts(calls, n, ev.restart, info.matching)
      && TimerStarted(calls, info, ev)
  }

  lemma MatchStep(calls: seq<Call>, n: nat, restart: nat, m: Matching)
    requires restart <= n < |calls| && MatchCounts(calls, n, restart, m)
    ensures MatchCounts(calls, n + 1, restart, MatchWord(m, calls[n].rx))
    ensures MatchWord(m, calls[n].rx).cfg == WordOf(calls[n].rx)
    ensures MatchWord(m, calls[n].rx).idle <==> calls[n].rx.None?
    ensures MatchWord(m, calls[n].rx).ack <==> calls[n].rx.Some? && Has(calls[n].rx.value, CONFIG_ACK)
  {}

  /** The timer runs out exactly when more than the interval has passed. */
  lemma TimerMeansWaited(calls: seq<Call>, from: nat, to: nat, info: Info)
    requires Timely(calls) && from <= to < |calls|
    requires info.linkTime == calls[from].time && info.currentTime == calls[to].time
    ensures TimerExpired(info) <==> Waited(calls, from, to)
    ensures Waited(calls, from, to) <==> calls[to].time - calls[from].time > 12000
  {}

  /** The evidence after one more call, made in state `info` and ending in state `next`. */
  function Extend(n: nat, ev: Evidence, info: State, next: State): Evidence {
    if Stage(info) < 0 || next == AnRestartInit then ev.(restart := n + 1)
    else
      match info
      case AnRestart => ev.(waited1 := n)
      case AbilityDetect => ev.(ability := n)
      case AckDetectInit => ev.(acked := n)
      case AckDetect => ev.(acked := n)
      case CompleteAckInit => ev.(accepted := n)
      case CompleteAck => ev.(waited2 := n)
      case IdleDetectInit => ev.(idle := n)
      case IdleDetect => ev.(waited3 := n)
      case _ => ev
  }

  /** What one call may do to the stage, and on what grounds. */
  ghost predicate StageMove(info: Info, got: Info, next: Info) {
    var s, t := Stage(info.state), Stage(next.state);
    t >= 0 && next.state != AnRestartInit ==>
      && next.matching == got.matching
      && (t == s || t == s + 1)
      && (t == s ==> next.linkTime == info.linkTime)
      && (t > s && t in {1, 5, 7} ==> next.linkTime == got.currentTime)
      && (t > s && t in {2, 6, 8} ==> TimerExpired(got) && got.linkTime == info.linkTime)
      && (t > s && t == 3 ==> info.state == AbilityDetect && got.matching.ability && got.rxConfig != 0)
      && (t > s && t == 4 ==> Has(got.rxConfig, CONFIG_ACK))
      && (t > s && t == 5 ==> !HasReserved(got.rxConfig))
  }

  function Received(info: Info, c: Call): Info {
    Receive(info.(currentTime := c.time), c.rx)
  }

  /** All that later steps need to know about one call. */
  ghost predicate Moves(info: Info, got: Info, next: Info) {
    && (Stage(info.state) >= 0 ==> StageMove(info, got, next))
    && (Stage(info.state) < 0 ==> Stage(next.state) <= 0)
    && (next.state == AnRestartInit ==> next.matching == NO_MATCH)
  }

  lemma CallMoves(info: Info, c: Call)
    ensures Moves(info, Received(info, c), CallStep(info, c))
  {}

  /** A justified state followed by another one after a call. */
  ghost predicate Follows(infos: seq<Info>, calls: seq<Call>, n: nat, ev: Evidence) {
    && |infos| == |calls| + 1 && n < |calls| && Timely(calls)
    && Justified(infos, calls, n, ev) && Moves(infos[n], Received(infos[n], calls[n]), infos[n + 1])
  }

  /** The timer evidence that a call adds when it moves the stage on. */
  lemma TimerEvidence(infos: seq<Info>, calls: seq<Call>, n: nat, ev: Evidence)
    requires Follows(infos, calls, n, ev) && Stage(infos[n + 1].state) > Stage(infos[n].state) >= 0
    ensures var t := Stage(infos[n + 1].state);
      && (t == 2 ==> Waited(calls, ev.restart, n))
      && (t == 6 ==> Waited(calls, ev.accepted, n))
      && (t == 8 ==> Waited(calls, ev.idle, n))
  {
    var got, t := Received(infos[n], calls[n]), Stage(infos[n + 1].state);
    if t == 2 {
      TimerMeansWaited(calls, ev.restart, n, got);
    } else if t == 6 {
      TimerMeansWaited(calls, ev.accepted, n, got);
    } else if t == 8 {
      TimerMeansWaited(calls, ev.idle, n, got);
    }
  }

  lemma MatchKept(infos: seq<Info>, calls: seq<Call>, n: nat, ev: Evidence)
    requires Follows(infos, calls, n, ev) && Stage(infos[n + 1].state) >= 0
    ensures var ev' := Extend(n, ev, infos[n].state, infos[n + 1].state);
      MatchCounts(calls, n + 1, ev'.restart, infos[n + 1].matching)
  {
    if Stage(infos[n].state) >= 0 && Stage(infos[n + 1].state) > 0 {
      MatchStep(calls, n, ev.restart, infos[n].matching);
    }
  }

  lemma TimerKept(infos: seq<Info>, calls: seq<Call>, n: nat, ev: Evidence)
    requires Follows(infos, calls, n, ev) && Stage(infos[n + 1].state) >= 0
    ensures TimerStarted(calls, infos[n + 1], Extend(n, ev, infos[n].state, infos[n + 1].state))
  {}

  /** A call that stays in its stage, or goes back to the start. */
  lemma HappenedStays(infos: seq<Info>, calls: seq<Call>, n: nat, ev: Evidence)
    requires Follows(infos, calls, n, ev) && Stage(infos[n + 1].state) >= 0
    requires Stage(infos[n + 1].state) == 0 || Stage(infos[n + 1].state) == Stage(infos[n].state)
    ensures var ev' := Extend(n, ev, infos[n].state, infos[n + 1].state);
      Happened(infos, calls, n + 1, ev', Stage(infos[n + 1].state))
  {}

  lemma AbilityEvidence(infos: seq<Info>, calls: seq<Call>, n: nat, ev: Evidence)
    requires Follows(infos, calls, n, ev) && Stage(infos[n + 1].state) > Stage(infos[n].state) >= 0
    ensures Stage(infos[n + 1].state) == 3 ==> AbilitySeen(calls, ev.restart, n)
  {
    MatchStep(calls, n, ev.restart, infos[n].matching);
  }

  /** A call that moves on to the next stage. */
  lemma HappenedMoves(infos: seq<Info>, calls: seq<Call>, n: nat, ev: Evidence)
    requires Follows(infos, calls, n, ev) && Stage(infos[n + 1].state) > Stage(infos[n].state) >= 0
    ensures var ev' := Extend(n, ev, infos[n].state, infos[n + 1].state);
      Happened(infos, calls, n + 1, ev', Stage(infos[n + 1].state))
  {
    AbilityEvidence(infos, calls, n, ev);
    TimerEvidence(infos, calls, n, ev);
  }

  /** The word that is sent: nothing before the link timer has run, then `word`, then the acknowledged word. */
  predicate Sends(info: Info, word: Word, acked: Word) {
    && (info.state == AnRestart || info.state == AbilityDetectInit ==> info.txConfig == 0)
    && (info.state == AbilityDetect || info.state == AckDetectInit ==> info.txConfig == word)
    && (Stage(info.state) >= 3 && info.state != AckDetectInit ==> info.txConfig == acked)
  }

  /** The management bits of a negotiation that has not recorded the partner's ability yet. */
  predicate Blank(info: Info) {
    var t, mr := Stage(info.state), info.mr;
    && (0 <= t < 8 ==> !mr.anComplete)
    && (0 <= t < 5 ==> !mr.pageRx)
    && (info.state == AnRestartInit ==> info.linkTime == 0)
    && (t >= 1 ==> !mr.npLoaded)
    && (info.state == AbilityDetect || t == 3 || t == 4 ==> !mr.toggleTx)
  }

  /** The management bits after the word with the partner's ability has been accepted. */
  predicate Records(info: Info, word: Word) {
    var mr := info.mr;
    Stage(info.state) >= 5 ==>
      mr.partner == AbilityOf(word) && mr.pageRx && mr.toggleTx && !mr.toggleRx && mr.npRx == mr.partner.nextPage
  }

  /** Only two states change the word that is sent. */
  lemma DispatchWord(info: Info)
    ensures var tx := Dispatch(info).0.txConfig;
      if info.state == AnRestartInit then tx == 0
      else if info.state == AbilityDetectInit then tx == ConfigOf(info.mr.adv)
      else if info.state == AckDetectInit then tx == SetAck(info.txConfig)
      else tx == info.txConfig
  {
    match info.state
    case AbilityDetectInit =>
    case AckDetectInit => DetectAckKeeps(info.(txConfig := SetAck(info.txConfig), state := AckDetect));
    case AckDetect => DetectAckKeeps(info);
    case CompleteAckInit =>
    case CompleteAck =>
    case _ =>
  }

  lemma DetectAckKeeps(info: Info)
    ensures DetectAck(info).txConfig == info.txConfig && DetectAck(info).mr == info.mr
  {}

  lemma DispatchSends(info: Info, word: Word, acked: Word)
    requires Sends(info, word, acked) && word == ConfigOf(info.mr.adv) && acked == SetAck(word)
    ensures Sends(Dispatch(info).0, word, acked)
  {
    DispatchWord(info);
  }

  lemma DispatchAdvertises(info: Info)
    ensures var next := Dispatch(info).0; next.mr.adv == info.mr.adv && next.mr.anEnable == info.mr.anEnable
  {
    match info.state
    case AbilityDetectInit =>
    case AckDetectInit => DetectAckKeeps(info.(txConfig := SetAck(info.txConfig), state := AckDetect));
    case AckDetect => DetectAckKeeps(info);
    case CompleteAckInit =>
    case CompleteAck =>
    case _ =>
  }

  lemma DispatchBlank(info: Info)
    requires Blank(info)
    ensures Blank(Dispatch(info).0)
  {
    match info.state
    case AckDetectInit => DetectAckKeeps(info.(txConfig := SetAck(info.txConfig), state := AckDetect));
    case AckDetect => DetectAckKeeps(info);
    case CompleteAckInit =>
    case CompleteAck =>
    case _ =>
  }

  lemma DispatchRecords(info: Info, word: Word)
    requires Blank(info) && Records(info, word)
    ensures Records(Dispatch(info).0, if info.state == CompleteAckInit then info.rxConfig else word)
  {}

  /** What a negotiation sends and records; `word` is the word accepted last. */
  predicate Registers(info: Info, word: Word) {
    Sends(info, ConfigOf(info.mr.adv), SetAck(ConfigOf(info.mr.adv))) && Blank(info) && Records(info, word)
  }

  /** One call keeps all of it, and never touches what is advertised. */
  lemma RegistersKept(info: Info, word: Word, c: Call)
    requires Registers(info, word)
    ensures var next := CallStep(info, c);
      && Registers(next, if info.state == CompleteAckInit then WordOf(c.rx) else word)
      && next.mr.adv == info.mr.adv && next.mr.anEnable == info.mr.anEnable
  {
    var got := Receive(Prepare(info.(currentTime := c.time)), c.rx);
    var mine := ConfigOf(info.mr.adv);
    DispatchSends(got, mine, SetAck(mine));
    DispatchAdvertises(got);
    DispatchBlank(got);
    DispatchRecords(got, word);
  }

  /** One more call keeps the run justified, with the evidence extended where the state moved on. */
  lemma {:induction false} OneMoreCall(infos: seq<Info>, calls: seq<Call>, n: nat, ev: Evidence)
    requires IsRun(infos, calls) && Timely(calls) && n < |calls| && Justified(infos, calls, n, ev)
    ensures Justified(infos, calls, n + 1, Extend(n, ev, infos[n].state, infos[n + 1].state))
  {
    assert Follows(infos, calls, n, ev) by {
      assert StepAt(infos, calls, n);
      CallMoves(infos[n], calls[n]);
    }
    var s, t := Stage(infos[n].state), Stage(infos[n + 1].state);
    if t >= 0 {
      MatchKept(infos, calls, n, ev);
      TimerKept(infos, calls, n, ev);
      if t == 0 || t == s {
        HappenedStays(infos, calls, n, ev);
      } else {
        HappenedMoves(infos, calls, n, ev);
      }
    }
  }

  /** The word that was accepted as the partner's ability. */
  function AcceptedWord(calls: seq<Call>, ev: Evidence): Word {
    if ev.accepted < |calls| then WordOf(calls[ev.accepted].rx) else 0
  }

  /** A run as far as n calls: everything that must have happened has, and the registers say so. */
  ghost predicate Recorded(infos: seq<Info>, calls: seq<Call>, n: nat, ev: Evidence)
    requires n <= |calls| && |infos| == |calls| + 1
  {
    && Justified(infos, calls, n, ev) && Registers(infos[n], AcceptedWord(calls, ev))
    && infos[n].mr.adv == infos[0].mr.adv && infos[n].mr.anEnable == infos[0].mr.anEnable
  }

  lemma NextEvidence(infos: seq<Info>, calls: seq<Call>, n: nat, ev: Evidence) returns (ev': Evidence)
    requires IsRun(infos, calls) && Timely(calls) && n < |calls| && Recorded(infos, calls, n, ev)
    ensures Recorded(infos, calls, n + 1, ev')
  {
    OneMoreCall(infos, calls, n, ev);
    ev' := Extend(n, ev, infos[n].state, infos[n + 1].state);
    assert StepAt(infos, calls, n);
    RegistersKept(infos[n], AcceptedWord(calls, ev), calls[n]);
    NextAccepted(calls, n, ev, infos[n], infos[n + 1]);
  }

  lemma NextAccepted(calls: seq<Call>, n: nat, ev: Evidence, info: Info, next: Info)
    requires n < |calls| && next == CallStep(info, calls[n])
    ensures AcceptedWord(calls, Extend(n, ev, info.state, next.state)) ==
            if info.state == CompleteAckInit then WordOf(calls[n].rx) else AcceptedWord(calls, ev)
  {
    if info.state == CompleteAckInit {
      assert next.state == CompleteAckInit || next.state == CompleteAck;
    }
  }

  lemma NothingHappened(infos: seq<Info>, calls: seq<Call>) returns (ev: Evidence)
    requires IsRun(infos, calls)
    ensures Recorded(infos, calls, 0, ev)
  {
    ev := Evidence(0, 0, 0, 0, 0, 0, 0, 0);
  }

  lemma {:induction false} RunRecorded(infos: seq<Info>, calls: seq<Call>, n: nat) returns (ev: Evidence)
    requires IsRun(infos, calls) && Timely(calls) && n <= |calls|
    ensures Recorded(infos, calls, n, ev)
  {
    ev := NothingHappened(infos, calls);
    for i := 0 to n
      invariant Recorded(infos, calls, i, ev)
    {
      ev := NextEvidence(infos, calls, i, ev);
    }
  }

  /**
   * Whenever the link is reported up, the whole negotiation has taken place since the last restart, and the partner's
   * ability on record is the one in the accepted word.
   */
  lemma {:induction false} LinkOkMeansNegotiated(infos: seq<Info>, calls: seq<Call>, n: nat) returns (ev: Evidence)
    requires IsRun(infos, calls) && Timely(calls) && n <= |calls|
    requires infos[n].state == LinkOk
    ensures Happened(infos, calls, n, ev, 8)
    ensures calls[ev.waited3].time - calls[ev.restart].time > 36000
    ensures infos[n].mr.partner == AbilityOf(WordOf(calls[ev.accepted].rx))
    ensures infos[n].txConfig == SetAck(ConfigOf(infos[0].mr.adv))
  {
    ev := RunRecorded(infos, calls, n);
  }

  /** If the accepted word is the acknowledged advertisement of an ability, that ability is on record. */
  lemma PartnerIsAdvertised(infos: seq<Info>, calls: seq<Call>, n: nat, a: Ability) returns (ev: Evidence)
    requires IsRun(infos, calls) && Timely(calls) && n <= |calls|
    requires infos[n].state == LinkOk
    ensures Happened(infos, calls, n, ev, 8)
    ensures calls[ev.accepted].rx == Some(SetAck(ConfigOf(a))) ==> infos[n].mr.partner == a
  {
    ev := LinkOkMeansNegotiated(infos, calls, n);
    AbilityRoundTrip(a);
  }

  /** In every stage of a run: the word that is sent is the advertised one, and the bits are those of the stage. */
  lemma RunRegisters(infos: seq<Info>, calls: seq<Call>, n: nat)
    requires IsRun(infos, calls) && Timely(calls) && n <= |calls|
    ensures infos[n].mr.adv == infos[0].mr.adv && infos[n].mr.anEnable == infos[0].mr.anEnable
    ensures var word := ConfigOf(infos[0].mr.adv); Sends(infos[n], word, SetAck(word)) && Blank(infos[n])
  {
    var ev := RunRecorded(infos, calls, n);
  }

  // ----- how a negotiation ends early -----

  /** States in which an all-zero word from the partner restarts the negotiation. */
  predicate Listens(s: State) {
    s == AckDetectInit || s == AckDetect || s == CompleteAck || s == IdleDetect
  }

  /** After a zero word the match count has begun, unless the machine has just been restarted. */
  lemma ZeroWordSeen(info: Info, c: Call)
    requires c.rx == Some(0)
    ensures var next := CallStep(info, c);
      && (Stage(next.state) <= 0 || next.matching == MatchWord(Prepare(info).matching, c.rx))
      && (Stage(next.state) > 0 ==> Prepare(next) == next)
      && (Stage(info.state) <= 0 ==> Stage(next.state) <= 1)
  {}

  lemma ZeroWordRestarts(info: Info, c: Call)
    requires c.rx == Some(0) && Listens(info.state)
    ensures MatchWord(info.matching, c.rx).ability ==> CallStep(info, c).state == AnEnable
  {}

  lemma ThreeZeroWords(m: Matching)
    ensures MatchWord(MatchWord(MatchWord(m, Some(0)), Some(0)), Some(0)).ability
  {}

  /** Three all-zero words in a row restart it. */
  lemma BreakLinkRestarts(infos: seq<Info>, calls: seq<Call>, n: nat)
    requires IsRun(infos, calls) && 2 <= n < |calls| && Listens(infos[n].state)
    requires calls[n - 2].rx == calls[n - 1].rx == calls[n].rx == Some(0)
    ensures infos[n + 1].state == AnEnable
  {
    assert StepAt(infos, calls, n - 2) && StepAt(infos, calls, n - 1) && StepAt(infos, calls, n);
    ThreeCalls(infos[n - 2], infos[n - 1], infos[n], calls[n - 2], calls[n - 1], calls[n]);
  }

  lemma ThreeCalls(i0: Info, i1: Info, i2: Info, c0: Call, c1: Call, c2: Call)
    requires i1 == CallStep(i0, c0) && i2 == CallStep(i1, c1) && Listens(i2.state)
    requires c0.rx == c1.rx == c2.rx == Some(0)
    ensures CallStep(i2, c2).state == AnEnable
  {
    ZeroWordSeen(i0, c0);
    ZeroWordSeen(i1, c1);
    ThreeZeroWords(Prepare(i0).matching);
    ZeroWordRestarts(i2, c2);
  }

  /** When it does: exactly when the match function has seen enough of the zero word. */
  lemma RestartIff(info: Info, rx: Option<Word>)
    requires Listens(info.state)
    ensures Step(info, rx).0.state == AnEnable <==> MatchWord(info.matching, rx).ability && WordOf(rx) == 0
  {}

  /** The two later waits for the link timer. */
  predicate Times(s: State) {
    s == CompleteAck || s == IdleDetect
  }

  /** Reserved bits in the accepted word, or next pages on both sides when the acknowledge time is over. */
  predicate Refuses(info: Info, rx: Option<Word>) {
    || (info.state == CompleteAckInit && HasReserved(WordOf(rx)))
    || (info.state == CompleteAck && TimerExpired(info) && info.mr.adv.nextPage && info.mr.partner.nextPage &&
        (Has(info.txConfig, CONFIG_NP) || info.mr.npRx) && !(MatchWord(info.matching, rx).ability && WordOf(rx) == 0))
  }

  lemma DoneMeans(info: Info)
    ensures Dispatch(info).1 == Done <==> info.state == LinkOk || info.state == DisableLinkOk
  {}

  lemma FailedMeans(info: Info, rx: Option<Word>)
    ensures var (next, status) := Step(info, rx);
      (status == Failed <==> Refuses(info, rx)) && (status == Failed ==> next == Receive(info, rx))
  {}

  lemma TimerEnabledMeans(info: Info)
    ensures var (next, status) := Dispatch(info);
      status == TimerEnabled <==> next.state == AnRestart || (next.state != info.state && Times(next.state))
  {}

  /** What the caller is told: done when the link is up or negotiation is off, failed on what is not supported. */
  lemma StatusMeans(info: Info, rx: Option<Word>)
    ensures var (next, status) := Step(info, rx);
      && (status == Done <==> info.state == LinkOk || info.state == DisableLinkOk)
      && (status == Failed <==> Refuses(info, rx))
      && (status == Failed ==> next == Receive(info, rx))
      && (status == TimerEnabled <==> next.state == AnRestart || (next.state != info.state && Times(next.state)))
  {
    var got := Receive(Prepare(info), rx);
    DoneMeans(got);
    FailedMeans(info, rx);
    TimerEnabledMeans(got);
  }

  /** A machine with negotiation switched off is done at once and stays there. */
  lemma {:induction false} DisabledStays(infos: seq<Info>, calls: seq<Call>, n: nat)
    requires IsRun(infos, calls) && 0 < n <= |calls| && !infos[0].mr.anEnable
    ensures infos[n].state == DisableLinkOk && infos[n].mr == infos[1].mr
  {
    assert StepAt(infos, calls, n - 1);
    if n > 1 {
      DisabledStays(infos, calls, n - 1);
    }
  }

  /** Once up, the link stays up, whatever is received. */
  lemma {:induction false} LinkOkIsFinal(infos: seq<Info>, calls: seq<Call>, n: nat, m: nat)
    requires IsRun(infos, calls) && n <= m <= |calls| && infos[n].state == LinkOk
    ensures infos[m].state == LinkOk
    ensures n < m ==> infos[m].mr.anComplete && infos[m].mr.linkOk
  {
    if n < m {
      LinkOkIsFinal(infos, calls, n, m - 1);
      assert StepAt(infos, calls, m - 1);
    }
  }

  /** The acknowledged word is compared with itself: it never sends the machine back to the start. */
  lemma ConsistencyNeverFails(info: Info, rx: Option<Word>)
    requires info.state == AckDetect || info.state == AckDetectInit
    requires Has(WordOf(rx), CONFIG_ACK)
    ensures Step(info, rx).0.state == CompleteAckInit
  {}

  /** The state after all the calls. */
  function Final(start: Info, calls: seq<Call>): Info
    decreases |calls|
  {
    if calls == [] then start else Final(CallStep(start, calls[0]), calls[1..])
  }

  function States(start: Info, calls: seq<Call>): (infos: seq<Info>)
    ensures |infos| == |calls| + 1 && infos[0] == start
    decreases |calls|
  {
    [start] + if calls == [] then [] else States(CallStep(start, calls[0]), calls[1..])
  }

  lemma {:induction false} StatesAreARun(start: Info, calls: seq<Call>)
    ensures forall i {:trigger StepAt(States(start, calls), calls, i)} | 0 <= i < |calls| ::
              StepAt(States(start, calls), calls, i)
    ensures States(start, calls)[|calls|] == Final(start, calls)
    decreases |calls|
  {
    if calls != [] {
      var next := CallStep(start, calls[0]);
      StatesAreARun(next, calls[1..]);
      var infos, rest := States(start, calls), States(next, calls[1..]);
      forall i | 0 <= i < |calls| ensures StepAt(infos, calls, i) {
        if i > 0 {
          assert StepAt(rest, calls[1..], i - 1);
        }
      }
    }
  }

  lemma {:induction false} FinalConcat(start: Info, a: seq<Call>, b: seq<Call>)
    ensures Final(start, a + b) == Final(Final(start, a), b)
    decreases |a|
  {
    if a == [] {
      assert a + b == b;
    } else {
      assert (a + b)[1..] == a[1..] + b;
      FinalConcat(CallStep(start, a[0]), a[1..], b);
    }
  }

  lemma FinalThree(i0: Info, i1: Info, i2: Info, i3: Info, c0: Call, c1: Call, c2: Call)
    requires i1 == CallStep(i0, c0) && i2 == CallStep(i1, c1) && i3 == CallStep(i2, c2)
    ensures Final(i0, [c0, c1, c2]) == i3
  {
    FinalFirst(i0, c0, [c1, c2]);
    assert [c0, c1, c2] == [c0] + [c1, c2];
    FinalFirst(i1, c1, [c2]);
    assert [c1, c2] == [c1] + [c2];
    FinalFirst(i2, c2, []);
    assert [c2] == [c2] + [];
  }

  lemma FinalFirst(start: Info, c: Call, rest: seq<Call>)
    ensures Final(start, [c] + rest) == Final(CallStep(start, c), rest)
  {
    assert ([c] + rest)[1..] == rest;
  }

  // ----- the driver's loop around the machine -----

  /** A negotiation from its restart to the link being up has taken place in the course of these calls. */
  ghost predicate Negotiated(start: Info, calls: seq<Call>) {
    exists ev ::
      && Happened(States(start, calls), calls, |calls|, ev, 8)
      && Final(start, calls).mr.partner == AbilityOf(AcceptedWord(calls, ev))
  }

  lemma LinkOkNegotiated(start: Info, calls: seq<Call>)
    requires start.state == Unknown && Timely(calls) && Final(start, calls).state == LinkOk
    ensures Negotiated(start, calls)
  {
    StatesAreARun(start, calls);
    var ev := LinkOkMeansNegotiated(States(start, calls), calls, |calls|);
  }

  const POLL_LIMIT := 75000

  lemma FinalNext(start: Info, calls: seq<Call>, n: nat)
    requires n < |calls|
    ensures Final(start, calls[..n + 1]) == CallStep(Final(start, calls[..n]), calls[n])
  {
    assert calls[..n + 1] == calls[..n] + [calls[n]];
    FinalConcat(start, calls[..n], [calls[n]]);
  }

  /** What the call numbered i returns. */
  function StatusAt(start: Info, calls: seq<Call>, i: nat): Status
    requires i < |calls|
  {
    Step(Final(start, calls[..i]).(currentTime := calls[i].time), calls[i].rx).1
  }

  predicate Ends(status: Status) {
    status == Done || status == Failed
  }

  /** The machine after n polls: there was time for each of them, and none before the last one has ended the loop. */
  ghost predicate Polled(start: Info, calls: seq<Call>, n: nat, info: Info, status: Status) {
    && n <= |calls| && n <= 75000 && info == Final(start, calls[..n])
    && (forall i | 0 <= i < n :: calls[i].time < 75000)
    && (forall i | 0 <= i < n - 1 :: !Ends(StatusAt(start, calls, i)))
    && if n == 0 then status == Ok else status == StatusAt(start, calls, n - 1)
  }

  lemma NonePolled(start: Info, calls: seq<Call>)
    ensures Polled(start, calls, 0, start, Ok)
  {
    assert calls[..0] == [];
  }

  lemma OnePolled(start: Info, calls: seq<Call>, n: nat, info: Info, status: Status)
    requires Polled(start, calls, n, info, status) && !Ends(status)
    requires n < |calls| && n < 75000 && calls[n].time < 75000
    ensures var (next, status') := Step(info.(currentTime := calls[n].time), calls[n].rx);
      Polled(start, calls, n + 1, next, status')
  {
    FinalNext(start, calls, n);
  }

  method PollOnce(m: Machine, c: Call) returns (status: Status)
    modifies m
    ensures (m.View(), status) == Step(old(m.View()).(currentTime := c.time), c.rx)
    ensures status == Done ==> m.state == DisableLinkOk || (m.state == LinkOk && m.mr.anComplete && m.mr.linkOk)
  {
    m.currentTime := c.time;
    status := m.Autoneg8023z(c.rx);
  }

  /**
   * The loop that polls the machine until it is done or has failed, or until the time is up. `calls` are the timer
   * readings and the received words, as they come.
   */
  method Poll(m: Machine, calls: seq<Call>) returns (status: Status, n: nat)
    requires m.state == Unknown
    modifies m
    ensures Polled(old(m.View()), calls, n, m.View(), status)
    ensures n < |calls| && n < 75000 && calls[n].time < 75000 ==> Ends(status)
    ensures status == Done ==> m.state == DisableLinkOk || (m.state == LinkOk && m.mr.anComplete && m.mr.linkOk)
    ensures m.state == LinkOk && Timely(calls) ==> n <= |calls| && Negotiated(old(m.View()), calls[..n])
  {
    ghost var start := m.View();
    status, n := Ok, 0;
    NonePolled(start, calls);
    while n < |calls| && calls[n].time < POLL_LIMIT && n < POLL_LIMIT && !Ends(status)
      invariant Polled(start, calls, n, m.View(), status)
      invariant status == Done ==> m.state == DisableLinkOk || (m.state == LinkOk && m.mr.anComplete && m.mr.linkOk)
    {
      OnePolled(start, calls, n, m.View(), status);
      status := PollOnce(m, calls[n]);
      n := n + 1;
    }
    if m.state == LinkOk && Timely(calls) {
      assert Timely(calls[..n]);
      LinkOkNegotiated(start, calls[..n]);
    }
  }

  // A partner that sends one word and acknowledges with another, in twelve calls.

  function StartCalls(): seq<Call> {
    [Call(0, None), Call(0, None), Call(12001, None)]
  }

  function AbilityCalls(word: Word): seq<Call> {
    [Call(12001, Some(word)), Call(12001, Some(word)), Call(12001, Some(word))]
  }

  function AckCalls(acked: Word): seq<Call> {
    [Call(12001, Some(acked)), Call(12001, Some(acked)), Call(24002, Some(acked))]
  }

  function IdleCalls(): seq<Call> {
    [Call(24002, None), Call(36003, None), Call(36003, None)]
  }

  function TwoWordCalls(word: Word, acked: Word): seq<Call> {
    StartCalls() + (AbilityCalls(word) + (AckCalls(acked) + IdleCalls()))
  }

  lemma StartPhase()
    ensures var info := Final(INITIAL, StartCalls());
      info.state == AbilityDetectInit && info.matching.cfg == 0 && !info.mr.adv.nextPage
  {
    var c0, c2 := StartCalls()[0], StartCalls()[2];
    var i1 := CallStep(INITIAL, c0);
    assert i1.state == AnRestartInit && i1.matching == NO_MATCH && i1.mr.adv == INITIAL.mr.adv;
    var i2 := CallStep(i1, c0);
    assert i2.state == AnRestart && i2.linkTime == 0 && i2.matching.cfg == 0 && i2.mr.adv == INITIAL.mr.adv;
    FinalThree(INITIAL, i1, i2, CallStep(i2, c2), c0, c0, c2);
  }

  lemma FirstWord(info: Info, word: Word)
    requires info.state == AbilityDetectInit && info.matching.cfg == 0 && word != 0
    ensures var i1 := CallStep(info, Call(12001, Some(word)));
      i1.state == AbilityDetect && i1.mr.adv == info.mr.adv && i1.matching.cnt == 0 && i1.matching.cfg == word &&
      !i1.matching.ability
  {}

  lemma SecondWord(info: Info, word: Word)
    requires info.state == AbilityDetect && info.matching.cfg == word && info.matching.cnt == 0 && word != 0
    requires !info.matching.ability
    ensures var i1 := CallStep(info, Call(12001, Some(word)));
      i1.state == AbilityDetect && i1.mr.adv == info.mr.adv && i1.matching.cnt == 1 && i1.matching.cfg == word
  {}

  lemma ThirdWord(info: Info, word: Word)
    requires info.state == AbilityDetect && info.matching.cfg == word && info.matching.cnt == 1 && word != 0
    ensures var i1 := CallStep(info, Call(12001, Some(word)));
      i1.state == AckDetectInit && i1.mr.adv == info.mr.adv
  {}

  lemma AbilityPhase(info: Info, word: Word)
    requires info.state == AbilityDetectInit && info.matching.cfg == 0 && word != 0
    ensures var info' := Final(info, AbilityCalls(word)); info'.state == AckDetectInit && info'.mr.adv == info.mr.adv
  {
    var c := Call(12001, Some(word));
    var i1 := CallStep(info, c);
    var i2 := CallStep(i1, c);
    FirstWord(info, word);
    SecondWord(i1, word);
    ThirdWord(i2, word);
    FinalThree(info, i1, i2, CallStep(i2, c), c, c, c);
  }

  lemma AckStep(info: Info, acked: Word)
    requires info.state == AckDetectInit && Has(acked, CONFIG_ACK)
    ensures var i1 := CallStep(info, Call(12001, Some(acked)));
      i1.state == CompleteAckInit && i1.mr.adv == info.mr.adv
  {
    ConsistencyNeverFails(info.(currentTime := 12001), Some(acked));
  }

  lemma AcceptStep(info: Info, acked: Word)
    requires info.state == CompleteAckInit && !HasReserved(acked)
    ensures var i1 := CallStep(info, Call(12001, Some(acked)));
      i1.state == CompleteAck && i1.linkTime == 12001 && i1.mr.adv == info.mr.adv && i1.mr.partner == AbilityOf(acked)
  {}

  lemma FinishStep(info: Info, acked: Word)
    requires info.state == CompleteAck && info.linkTime == 12001 && !info.mr.adv.nextPage && acked != 0
    ensures var i1 := CallStep(info, Call(24002, Some(acked))); i1.state == IdleDetectInit && i1.mr == info.mr
  {}

  lemma AckPhase(info: Info, acked: Word)
    requires info.state == AckDetectInit && !info.mr.adv.nextPage
    requires Has(acked, CONFIG_ACK) && !HasReserved(acked)
    ensures var info' := Final(info, AckCalls(acked));
      info'.state == IdleDetectInit && info'.mr.partner == AbilityOf(acked)
  {
    var c, c' := Call(12001, Some(acked)), Call(24002, Some(acked));
    var i1 := CallStep(info, c);
    AckStep(info, acked);
    var i2 := CallStep(i1, c);
    AcceptStep(i1, acked);
    FinishStep(i2, acked);
    FinalThree(info, i1, i2, CallStep(i2, c'), c, c, c');
  }

  lemma IdlePhase(info: Info)
    requires info.state == IdleDetectInit
    ensures var info' := Final(info, IdleCalls()); info'.state == LinkOk && info'.mr.partner == info.mr.partner
  {
    var c, c' := IdleCalls()[0], IdleCalls()[1];
    var i1 := CallStep(info, c);
    assert i1.state == IdleDetect && i1.linkTime == 24002 && !i1.matching.ability && i1.mr == info.mr;
    var i2 := CallStep(i1, c');
    assert i2.state == LinkOk && i2.mr == info.mr;
    FinalThree(info, i1, i2, CallStep(i2, c'), c, c', c');
  }

  lemma TwoWordCallsTimely(word: Word, acked: Word)
    ensures |TwoWordCalls(word, acked)| == 12 && Timely(TwoWordCalls(word, acked))
  {
    var times := [0, 0, 12001, 12001, 12001, 12001, 12001, 12001, 24002, 24002, 36003, 36003];
    var calls := TwoWordCalls(word, acked);
    assert forall i | 0 <= i < 12 :: calls[i].time == times[i];
  }

  lemma TwoWordCallsReachLinkOk(word: Word, acked: Word)
    requires word != 0 && Has(acked, CONFIG_ACK) && !HasReserved(acked)
    ensures var info := Final(INITIAL, TwoWordCalls(word, acked));
      info.state == LinkOk && info.mr.partner == AbilityOf(acked)
  {
    var i3 := Final(INITIAL, StartCalls());
    var i6 := Final(i3, AbilityCalls(word));
    var i9 := Final(i6, AckCalls(acked));
    StartPhase();
    AbilityPhase(i3, word);
    AckPhase(i6, acked);
    IdlePhase(i9);
    FinalConcat(INITIAL, StartCalls(), AbilityCalls(word) + (AckCalls(acked) + IdleCalls()));
    FinalConcat(i3, AbilityCalls(word), AckCalls(acked) + IdleCalls());
    FinalConcat(i6, AckCalls(acked), IdleCalls());
  }

  /**
   * The standard asks for the acknowledged word to agree with the ability word; here any two words bring the
   * link up, as long as the first is not zero and the second acknowledges and has its reserved bits clear; the
   * partner's ability is taken from the second alone.
   */
  lemma AnyAcknowledgeAccepted(word: Word, acked: Word)
    requires word != 0 && Has(acked, CONFIG_ACK) && !HasReserved(acked)
    ensures var calls := TwoWordCalls(word, acked);
      && IsRun(States(INITIAL, calls), calls) && Timely(calls) && States(INITIAL, calls)[12].state == LinkOk
      && States(INITIAL, calls)[12].mr.partner == AbilityOf(acked)
  {
    TwoWordCallsTimely(word, acked);
    TwoWordCallsReachLinkOk(word, acked);
    StatesAreARun(INITIAL, TwoWordCalls(word, acked));
  }
}
