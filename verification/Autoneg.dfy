/** The 1000BASE-X auto-negotiation machine (autoneg.c; section 37.3.1.5 of IEEE 802.3z). */
module Autoneg {
  import opened Tristates

  const LINK_TIMER_INTERVAL_US := 12000
  const TIME_RANGE := 0x1_0000_0000 // unsigned long on the 32-bit targets

  /** A 16-bit configuration word; bits are named by their place value. */
  type Word = w: int | 0 <= w < 0x1_0000

  const CONFIG_PS2 := 0x0001 // D8
  const CONFIG_RF1 := 0x0010 // D12
  const CONFIG_RF2 := 0x0020 // D13
  const CONFIG_ACK := 0x0040 // D14
  const CONFIG_NP := 0x0080  // D15
  const CONFIG_FD := 0x2000  // D5
  const CONFIG_HD := 0x4000  // D6
  const CONFIG_PS1 := 0x8000 // D7

  datatype State =
    | Unknown | AnEnable | AnRestartInit | AnRestart | DisableLinkOk
    | AbilityDetectInit | AbilityDetect | AckDetectInit | AckDetect
    | CompleteAckInit | CompleteAck | IdleDetectInit | IdleDetect | LinkOk
    | NextPageWaitInit | NextPageWait

  datatype Status = Ok | Done | TimerEnabled | Failed

  /** An advertisement register. */
  datatype Ability = Ability(fullDuplex: bool, halfDuplex: bool, symPause: bool, asymPause: bool,
                             remoteFault1: bool, remoteFault2: bool, nextPage: bool)

  function Bit(on: bool, place: nat): nat {
    if on then place else 0
  }

  predicate Has(word: Word, place: nat)
    requires place > 0
  {
    word / place % 2 == 1
  }

  /** D9..D11 and D0..D4 must be zero. */
  predicate HasReserved(word: Word) {
    word / 0x0002 % 8 != 0 || word / 0x0100 % 32 != 0
  }

  function ClearAck(word: Word): Word {
    if Has(word, CONFIG_ACK) then word - CONFIG_ACK else word
  }

  function SetAck(word: Word): (r: Word)
    ensures Has(r, CONFIG_ACK)
  {
    if Has(word, CONFIG_ACK) then word else word + CONFIG_ACK
  }

  function ConfigOf(a: Ability): Word {
    Bit(a.asymPause, CONFIG_PS2) + Bit(a.remoteFault1, CONFIG_RF1) + Bit(a.remoteFault2, CONFIG_RF2) +
    Bit(a.nextPage, CONFIG_NP) + Bit(a.fullDuplex, CONFIG_FD) + Bit(a.halfDuplex, CONFIG_HD) +
    Bit(a.symPause, CONFIG_PS1)
  }

  function AbilityOf(word: Word): Ability {
    Ability(Has(word, CONFIG_FD), Has(word, CONFIG_HD), Has(word, CONFIG_PS1), Has(word, CONFIG_PS2),
            Has(word, CONFIG_RF1), Has(word, CONFIG_RF2), Has(word, CONFIG_NP))
  }

  type Digit = d: int | 0 <= d < 2

  function DigitOf(on: bool): Digit {
    if on then 1 else 0
  }

  /** The digits of a word: eight named bits, and the reserved ones above (`hi`) and below (`lo`). */
  datatype Digits = Digits(ps1: Digit, hd: Digit, fd: Digit, hi: nat, np: Digit, ack: Digit, rf2: Digit, rf1: Digit,
                           lo: nat, ps2: Digit)

  predicate IsWord(d: Digits, w: Word) {
    && d.hi < 32 && d.lo < 8
    && w == 0x8000 * d.ps1 + 0x4000 * d.hd + 0x2000 * d.fd + 0x100 * d.hi + 0x80 * d.np + 0x40 * d.ack +
            0x20 * d.rf2 + 0x10 * d.rf1 + 0x02 * d.lo + d.ps2
  }

  lemma HighDigits(ps1: Digit, hd: Digit, fd: Digit, hi: nat, low: nat, w: Word)
    requires hi < 32 && low < 0x100 && w == 0x8000 * ps1 + 0x4000 * hd + 0x2000 * fd + 0x100 * hi + low
    ensures w / 0x8000 == ps1 && w / 0x4000 == 2 * ps1 + hd && w / 0x2000 == 4 * ps1 + 2 * hd + fd
    ensures w / 0x100 == 32 * (w / 0x2000) + hi
  {}

  lemma LowDigits(q: nat, np: Digit, ack: Digit, rf2: Digit, rf1: Digit, lo: nat, ps2: Digit, w: Word)
    requires lo < 8 && w == 0x100 * q + 0x80 * np + 0x40 * ack + 0x20 * rf2 + 0x10 * rf1 + 0x02 * lo + ps2
    ensures w / 0x80 == 2 * q + np && w / 0x40 == 4 * q + 2 * np + ack
    ensures w / 0x20 == 8 * q + 4 * np + 2 * ack + rf2 && w / 0x10 == 16 * q + 8 * np + 4 * ack + 2 * rf2 + rf1
    ensures w / 0x02 == 128 * q + 64 * np + 32 * ack + 16 * rf2 + 8 * rf1 + lo
  {}

  lemma HighBits(d: Digits, w: Word)
    requires IsWord(d, w)
    ensures (Has(w, CONFIG_PS1) <==> d.ps1 == 1) && (Has(w, CONFIG_HD) <==> d.hd == 1)
    ensures (Has(w, CONFIG_FD) <==> d.fd == 1) && w / 0x100 % 32 == d.hi
  {
    HighDigits(d.ps1, d.hd, d.fd, d.hi,
               0x80 * d.np + 0x40 * d.ack + 0x20 * d.rf2 + 0x10 * d.rf1 + 0x02 * d.lo + d.ps2, w);
  }

  lemma LowBits(d: Digits, w: Word)
    requires IsWord(d, w)
    ensures (Has(w, CONFIG_NP) <==> d.np == 1) && (Has(w, CONFIG_ACK) <==> d.ack == 1)
    ensures (Has(w, CONFIG_RF2) <==> d.rf2 == 1) && (Has(w, CONFIG_RF1) <==> d.rf1 == 1)
    ensures (Has(w, CONFIG_PS2) <==> d.ps2 == 1) && w / 0x02 % 8 == d.lo
  {
    LowDigits(0x80 * d.ps1 + 0x40 * d.hd + 0x20 * d.fd + d.hi, d.np, d.ack, d.rf2, d.rf1, d.lo, d.ps2, w);
  }

  lemma WordBits(d: Digits, w: Word)
    requires IsWord(d, w)
    ensures AbilityOf(w) == Ability(d.fd == 1, d.hd == 1, d.ps1 == 1, d.ps2 == 1, d.rf1 == 1, d.rf2 == 1, d.np == 1)
    ensures (Has(w, CONFIG_ACK) <==> d.ack == 1) && (HasReserved(w) <==> d.hi != 0 || d.lo != 0)
  {
    HighBits(d, w);
    LowBits(d, w);
  }

  lemma DigitsOf(w: Word) returns (d: Digits)
    ensures IsWord(d, w)
  {
    var q1 := w / 2;
    var q2 := q1 / 8;
    var q3 := q2 / 2;
    var q4 := q3 / 2;
    var q5 := q4 / 2;
    var q6 := q5 / 2;
    var q7 := q6 / 32;
    var q8 := q7 / 2;
    d := Digits(q8 / 2, q8 % 2, q7 % 2, q6 % 32, q5 % 2, q4 % 2, q3 % 2, q2 % 2, q1 % 8, w % 2);
  }

  lemma AbilityBits(a: Ability, ack: bool, w: Word)
    requires w == ConfigOf(a) + Bit(ack, CONFIG_ACK)
    ensures AbilityOf(w) == a && !HasReserved(w) && (Has(w, CONFIG_ACK) <==> ack)
  {
    WordBits(Digits(DigitOf(a.symPause), DigitOf(a.halfDuplex), DigitOf(a.fullDuplex), 0, DigitOf(a.nextPage),
                    DigitOf(ack), DigitOf(a.remoteFault2), DigitOf(a.remoteFault1), 0, DigitOf(a.asymPause)), w);
  }

  /** An advertised ability is what the partner reads back from the word, acknowledged or not. */
  lemma AbilityRoundTrip(a: Ability)
    ensures AbilityOf(ConfigOf(a)) == a && AbilityOf(SetAck(ConfigOf(a))) == a
    ensures !HasReserved(ConfigOf(a)) && !HasReserved(SetAck(ConfigOf(a)))
    ensures !Has(ConfigOf(a), CONFIG_ACK)
  {
    AbilityBits(a, false, ConfigOf(a));
    AbilityBits(a, true, SetAck(ConfigOf(a)));
  }

  /** A word without reserved bits is the advertisement of the ability that is read from it, maybe acknowledged. */
  lemma WordRoundTrip(w: Word)
    ensures !HasReserved(w) <==> w == ConfigOf(AbilityOf(w)) + Bit(Has(w, CONFIG_ACK), CONFIG_ACK)
  {
    var d := DigitsOf(w);
    WordBits(d, w);
    ReadBack(d);
  }

  /** The advertisement of an ability that was read from digits. */
  lemma ReadBack(d: Digits)
    ensures ConfigOf(Ability(d.fd == 1, d.hd == 1, d.ps1 == 1, d.ps2 == 1, d.rf1 == 1, d.rf2 == 1, d.np == 1)) ==
            0x8000 * d.ps1 + 0x4000 * d.hd + 0x2000 * d.fd + 0x80 * d.np + 0x20 * d.rf2 + 0x10 * d.rf1 + d.ps2
  {
    BitDigit(d.ps1, 0x8000);
    BitDigit(d.hd, 0x4000);
    BitDigit(d.fd, 0x2000);
    BitDigit(d.np, 0x80);
    BitDigit(d.rf2, 0x20);
    BitDigit(d.rf1, 0x10);
    BitDigit(d.ps2, 0x01);
  }

  lemma BitDigit(d: Digit, place: nat)
    ensures Bit(d == 1, place) == place * d
  {}

  /** The match functions and what they count. */
  datatype Matching = Matching(cnt: nat, cfg: Word, ability: bool, idle: bool, ack: bool)

  const NO_MATCH := Matching(0, 0, false, false, false)

  /** The management register bits. */
  datatype Management = Management(
    anEnable: bool, restartAn: bool, anComplete: bool, linkOk: bool, adv: Ability, partner: Ability,
    toggleTx: bool, toggleRx: bool, npRx: bool, pageRx: bool, npLoaded: bool)

  /** AN_STATE_INFO. */
  datatype Info = Info(state: State, linkTime: nat, currentTime: nat, matching: Matching,
                       txConfig: Word, rxConfig: Word, mr: Management)

  function Elapsed(info: Info): nat {
    (info.currentTime - info.linkTime) % TIME_RANGE
  }

  predicate TimerExpired(info: Info) {
    Elapsed(info) > LINK_TIMER_INTERVAL_US
  }

  /** The first call after a reset forgets times and matches. */
  function Prepare(info: Info): Info {
    if info.state == Unknown then info.(matching := NO_MATCH, rxConfig := 0, currentTime := 0, linkTime := 0)
    else info
  }

  /** Ability, acknowledge and idle matching on the word received in this call, if any. */
  function MatchWord(m: Matching, rx: Option<Word>): Matching {
    match rx
    case None => NO_MATCH.(idle := true)
    case Some(word) =>
      if word != m.cfg then Matching(0, word, false, false, Has(word, CONFIG_ACK))
      else
        var n := (m.cnt + 1) % TIME_RANGE;
        Matching(n, word, m.ability || n > 1, false, Has(word, CONFIG_ACK))
  }

  function WordOf(rx: Option<Word>): Word {
    if rx.Some? then rx.value else 0
  }

  function Receive(info: Info, rx: Option<Word>): Info {
    info.(matching := MatchWord(info.matching, rx), rxConfig := WordOf(rx))
  }

  function Enable(info: Info): Info {
    var info := info.(mr := info.mr.(anComplete := false, pageRx := false));
    if info.mr.anEnable then info.(matching := NO_MATCH, linkTime := 0, state := AnRestartInit)
    else info.(state := DisableLinkOk)
  }

  /** The partner went back to sending an all-zero word. */
  predicate PartnerRestarted(info: Info) {
    info.matching.ability && info.rxConfig == 0
  }

  function Restart(info: Info, status: Status): (Info, Status) {
    if TimerExpired(info) then (info.(state := AbilityDetectInit), status) else (info, TimerEnabled)
  }

  function DetectAck(info: Info): Info {
    if info.matching.ack then
      if ClearAck(info.rxConfig) == ClearAck(info.matching.cfg) then info.(state := CompleteAckInit)
      else info.(state := AnEnable)
    else if PartnerRestarted(info) then info.(state := AnEnable)
    else info
  }

  function AcceptPartner(info: Info): Info {
    var partner := AbilityOf(info.rxConfig);
    var mr := info.mr.(partner := partner, toggleTx := !info.mr.toggleTx, toggleRx := false,
                       npRx := partner.nextPage, pageRx := true);
    info.(mr := mr, linkTime := info.currentTime, state := CompleteAck)
  }

  function FinishAck(info: Info): (Info, Status) {
    if PartnerRestarted(info) then (info.(state := AnEnable), Ok)
    else if !TimerExpired(info) then (info, Ok)
    else if !info.mr.adv.nextPage || !info.mr.partner.nextPage || (!Has(info.txConfig, CONFIG_NP) && !info.mr.npRx) then
      (info.(state := IdleDetectInit), Ok)
    else (info, Failed)
  }

  /** The switch over the state. */
  function Dispatch(info: Info): (Info, Status) {
    match info.state
    case Unknown =>
      (Enable(if info.mr.anEnable || info.mr.restartAn then info.(currentTime := 0, state := AnEnable) else info), Ok)
    case AnEnable => (Enable(info), Ok)
    case AnRestartInit =>
      var mr := info.mr.(npLoaded := false);
      Restart(info.(linkTime := info.currentTime, txConfig := 0, mr := mr, state := AnRestart), TimerEnabled)
    case AnRestart => Restart(info, Ok)
    case DisableLinkOk => (info, Done)
    case AbilityDetectInit =>
      (info.(mr := info.mr.(toggleTx := false), txConfig := ConfigOf(info.mr.adv), state := AbilityDetect), Ok)
    case AbilityDetect =>
      (if info.matching.ability && info.rxConfig != 0 then info.(state := AckDetectInit) else info, Ok)
    case AckDetectInit =>
      (DetectAck(info.(txConfig := SetAck(info.txConfig), state := AckDetect)), Ok)
    case AckDetect => (DetectAck(info), Ok)
    case CompleteAckInit =>
      if HasReserved(info.rxConfig) then (info, Failed) else (AcceptPartner(info), TimerEnabled)
    case CompleteAck => FinishAck(info)
    case IdleDetectInit => (info.(linkTime := info.currentTime, state := IdleDetect), TimerEnabled)
    case IdleDetect =>
      (if PartnerRestarted(info) then info.(state := AnEnable)
       else if TimerExpired(info) then info.(state := LinkOk)
       else info, Ok)
    case LinkOk => (info.(mr := info.mr.(anComplete := true, linkOk := true)), Done)
    case NextPageWaitInit => (info, Ok)
    case NextPageWait => (info, Ok)
  }

  /** One call of Autoneg8023z. */
  function Step(info: Info, rx: Option<Word>): (Info, Status) {
    Dispatch(Receive(Prepare(info), rx))
  }

  /** AutonegInit. */
  const INITIAL := Info(
    Unknown, 0, 0, NO_MATCH, 0, 0,
    Management(true, false, false, false,
               Ability(true, false, true, true, false, false, false),
               Ability(false, false, false, false, false, false, false),
               false, false, false, false, false))

  /** Out of reset the machine negotiates, and advertises full duplex and both kinds of pause, the word 0xA001. */
  lemma InitialAdvertisement()
    ensures INITIAL.state == Unknown && INITIAL.mr.anEnable && !INITIAL.mr.restartAn && !INITIAL.mr.linkOk
    ensures INITIAL.mr.adv == AbilityOf(0xA001) && ConfigOf(INITIAL.mr.adv) == 0xA001
  {}

  /** Where the bits of a base page stand. */
  lemma BasePage()
    ensures AbilityOf(0x2000) == Ability(true, false, false, false, false, false, false)
    ensures AbilityOf(0x4040) == Ability(false, true, false, false, false, false, false)
    ensures AbilityOf(0x8000) == Ability(false, false, true, false, false, false, false)
    ensures AbilityOf(0x0001) == Ability(false, false, false, true, false, false, false)
    ensures AbilityOf(0x0010) == Ability(false, false, false, false, true, false, false)
    ensures AbilityOf(0x0020) == Ability(false, false, false, false, false, true, false)
    ensures AbilityOf(0x0080) == Ability(false, false, false, false, false, false, true)
    ensures Has(0x0040, CONFIG_ACK)
    ensures HasReserved(0x0002) && HasReserved(0x0008) && HasReserved(0x0100) && HasReserved(0x1000)
  {}

  /** The driver's copy of the state, updated in place on every call. */
  class Machine {
    var state: State
    var linkTime: nat
    var currentTime: nat
    var matching: Matching
    var txConfig: Word
    var rxConfig: Word
    var mr: Management

    function View(): Info
      reads this
    {
      Info(state, linkTime, currentTime, matching, txConfig, rxConfig, mr)
    }

    constructor AutonegInit()
      ensures View() == INITIAL
    {
      state, linkTime, currentTime, matching, txConfig, rxConfig := Unknown, 0, 0, NO_MATCH, 0, 0;
      mr := INITIAL.mr;
    }

    method MatchReceived(rx: Option<Word>)
      modifies this
      ensures View() == Receive(old(View()), rx)
    {
      if rx.Some? {
        var word := rx.value;
        if word != matching.cfg {
          matching := matching.(cfg := word, ability := false, cnt := 0);
        } else {
          matching := matching.(cnt := (matching.cnt + 1) % TIME_RANGE);
          if matching.cnt > 1 {
            matching := matching.(ability := true);
          }
        }
        matching := matching.(ack := Has(word, CONFIG_ACK), idle := false);
        rxConfig := word;
      } else {
        matching := NO_MATCH.(idle := true);
        rxConfig := 0;
      }
    }

    method EnterEnable()
      modifies this
      ensures View() == Enable(old(View()))
    {
      mr := mr.(anComplete := false, pageRx := false);
      if mr.anEnable {
        linkTime, matching, state := 0, NO_MATCH, AnRestartInit;
      } else {
        state := DisableLinkOk;
      }
    }

    method EnterAckDetect()
      modifies this
      ensures View() == DetectAck(old(View()))
    {
      if matching.ack {
        state := if ClearAck(rxConfig) == ClearAck(matching.cfg) then CompleteAckInit else AnEnable;
      } else if matching.ability && rxConfig == 0 {
        state := AnEnable;
      }
    }

    /** AN_STATE_AN_RESTART, also reached from AN_STATE_AN_RESTART_INIT in the same call. */
    method WaitForRestart(before: Status) returns (status: Status)
      modifies this
      ensures (View(), status) == Restart(old(View()), before)
    {
      status := before;
      if TimerExpired(View()) {
        state := AbilityDetectInit;
      } else {
        status := TimerEnabled;
      }
    }

    method BeginRestart() returns (status: Status)
      requires state == AnRestartInit
      modifies this
      ensures (View(), status) == Dispatch(old(View()))
    {
      linkTime, txConfig := currentTime, 0;
      mr := mr.(npLoaded := false);
      state := AnRestart;
      status := WaitForRestart(TimerEnabled);
    }

    method AcceptAbility() returns (status: Status)
      requires state == CompleteAckInit
      modifies this
      ensures (View(), status) == Dispatch(old(View()))
    {
      if HasReserved(rxConfig) {
        status := Failed;
      } else {
        mr := mr.(partner := AbilityOf(rxConfig));
        linkTime := currentTime;
        mr := mr.(toggleTx := !mr.toggleTx, toggleRx := false, npRx := mr.partner.nextPage, pageRx := true);
        state, status := CompleteAck, TimerEnabled;
      }
    }

    method CompleteAcknowledge() returns (status: Status)
      requires state == CompleteAck
      modifies this
      ensures (View(), status) == Dispatch(old(View()))
    {
      status := Ok;
      if matching.ability && rxConfig == 0 {
        state := AnEnable;
      } else if TimerExpired(View()) {
        if !mr.adv.nextPage || !mr.partner.nextPage || (!Has(txConfig, CONFIG_NP) && !mr.npRx) {
          state := IdleDetectInit;
        } else {
          status := Failed;
        }
      }
    }

    method DetectIdle()
      requires state == IdleDetect
      modifies this
      ensures View() == Dispatch(old(View())).0
    {
      if matching.ability && rxConfig == 0 {
        state := AnEnable;
      } else if TimerExpired(View()) {
        state := LinkOk;
      }
    }

    /** The switch of Autoneg8023z. */
    method SwitchState() returns (status: Status)
      modifies this
      ensures (View(), status) == Dispatch(old(View()))
    {
      status := Ok;
      match state {
        case Unknown =>
          if mr.anEnable || mr.restartAn {
            currentTime, state := 0, AnEnable;
          }
          EnterEnable();
        case AnEnable =>
          EnterEnable();
        case AnRestartInit =>
          status := BeginRestart();
        case AnRestart =>
          status := WaitForRestart(Ok);
        case DisableLinkOk =>
          status := Done;
        case AbilityDetectInit =>
          mr := mr.(toggleTx := false);
          txConfig, state := ConfigOf(mr.adv), AbilityDetect;
        case AbilityDetect =>
          if matching.ability && rxConfig != 0 {
            state := AckDetectInit;
          }
        case AckDetectInit =>
          txConfig, state := SetAck(txConfig), AckDetect;
          EnterAckDetect();
        case AckDetect =>
          EnterAckDetect();
        case CompleteAckInit =>
          status := AcceptAbility();
        case CompleteAck =>
          status := CompleteAcknowledge();
        case IdleDetectInit =>
          linkTime, state, status := currentTime, IdleDetect, TimerEnabled;
        case IdleDetect =>
          DetectIdle();
        case LinkOk =>
          mr := mr.(anComplete := true, linkOk := true);
          status := Done;
        case _ =>
      }
    }

    /** Autoneg8023z. */
    method Autoneg8023z(rx: Option<Word>) returns (status: Status)
      modifies this
      ensures (View(), status) == Step(old(View()), rx)
    {
      if state == Unknown {
        rxConfig, currentTime, linkTime, matching := 0, 0, 0, NO_MATCH;
      }
      MatchReceived(rx);
      status := SwitchState();
    }
  }
}
