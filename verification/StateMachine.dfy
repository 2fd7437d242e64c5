/** The hysteresis state machine of ddos/detector/statemachine.go. */
module StateMachine {
  import opened Bits

  datatype AnomalyState = Normal | UnderAttack | Recovery

  datatype Config = Config(attackConfirm: nat, recoveryConfirm: nat)

  predicate ValidConfig(c: Config) {
    c.attackConfirm >= 1 && c.recoveryConfirm >= 1
  }

  datatype Machine = Machine(state: AnomalyState, consecutiveAttack: nat, consecutiveRecovery: nat)

  const Fresh := Machine(Normal, 0, 0)

  function Next(c: Config, m: Machine, isAnomaly: bool): Machine {
    match m.state
    case Normal =>
      if isAnomaly then
        if m.consecutiveAttack + 1 >= c.attackConfirm then Machine(UnderAttack, 0, 0)
        else m.(consecutiveAttack := m.consecutiveAttack + 1)
      else m.(consecutiveAttack := 0)
    case UnderAttack =>
      if isAnomaly then m else Machine(Recovery, 0, 1)
    case Recovery =>
      if isAnomaly then Machine(UnderAttack, 0, 0)
      else if m.consecutiveRecovery + 1 >= c.recoveryConfirm
      then m.(state := Normal, consecutiveRecovery := 0)
      else m.(consecutiveRecovery := m.consecutiveRecovery + 1)
  }

  function Forced(s: AnomalyState): Machine {
    Machine(s, 0, 0)
  }

  class AnomalyStateMachine {
    const attackThreshold: real
    const attackConfirm: nat
    const recoveryConfirm: nat
    var state: AnomalyState
    var consecutiveAttack: nat
    var consecutiveRecovery: nat

    ghost predicate Valid() {
      ValidConfig(Cfg()) && attackThreshold > 0.0
    }

    function Cfg(): Config {
      Config(attackConfirm, recoveryConfirm)
    }

    function View(): Machine
      reads this
    {
      Machine(state, consecutiveAttack, consecutiveRecovery)
    }

    /** NewAnomalyStateMachine: out-of-range settings are replaced by the recommended ones. */
    constructor (threshold: real, confirm: int, recovery: int)
      ensures Valid() && View() == Fresh
      ensures attackThreshold == (if threshold <= 0.0 then 0.6 else threshold)
      ensures attackConfirm == (if confirm < 1 then 3 else confirm)
      ensures recoveryConfirm == (if recovery < 1 then 5 else recovery)
    {
      attackThreshold := if threshold <= 0.0 then 0.6 else threshold;
      attackConfirm := if confirm < 1 then 3 else confirm;
      recoveryConfirm := if recovery < 1 then 5 else recovery;
      state, consecutiveAttack, consecutiveRecovery := Normal, 0, 0;
    }

    /** Feeds one score; a score counts as anomalous when it exceeds the threshold. */
    method Transition(score: real) returns (s: AnomalyState)
      modifies this
      ensures View() == Next(Cfg(), old(View()), score > attackThreshold) && s == state
    {
      var isAnomaly := score > attackThreshold;
      match state {
        case Normal =>
          if isAnomaly {
            consecutiveAttack := consecutiveAttack + 1;
            if consecutiveAttack >= attackConfirm {
              state := UnderAttack;
              consecutiveAttack := 0;
              consecutiveRecovery := 0;
            }
          } else {
            consecutiveAttack := 0;
          }
        case UnderAttack =>
          if !isAnomaly {
            state := Recovery;
            consecutiveRecovery := 1;
            consecutiveAttack := 0;
          }
        case Recovery =>
          if isAnomaly {
            state := UnderAttack;
            consecutiveRecovery := 0;
            consecutiveAttack := 0;
          } else {
            consecutiveRecovery := consecutiveRecovery + 1;
            if consecutiveRecovery >= recoveryConfirm {
              state := Normal;
              consecutiveRecovery := 0;
            }
          }
      }
      return state;
    }

    method ForceState(s: AnomalyState)
      modifies this
      ensures View() == Forced(s)
    {
      state := s;
      consecutiveAttack := 0;
      consecutiveRecovery := 0;
    }
  }

  // ----- runs: a history is the sequence of verdicts "this score was anomalous" -----

  function Run(c: Config, h: seq<bool>): Machine {
    if h == [] then Fresh else Next(c, Run(c, h[..|h| - 1]), h[|h| - 1])
  }

  /** The length of the longest suffix of verdicts equal to `b`. */
  function Suffix(h: seq<bool>, b: bool): (n: nat)
    ensures n <= |h| && forall i | |h| - n <= i < |h| :: h[i] == b
  {
    if h == [] || h[|h| - 1] != b then 0 else 1 + Suffix(h[..|h| - 1], b)
  }

  /** What the two counters count: in NORMAL the anomalous verdicts in a row so far, in RECOVERY the
      clean ones; both stay below their limits, and outside those states they are zero. */
  lemma {:induction false} CountersAreSuffixes(c: Config, h: seq<bool>)
    requires ValidConfig(c)
    ensures var m := Run(c, h);
      match m.state
      case Normal => m.consecutiveAttack == Suffix(h, true) < c.attackConfirm && m.consecutiveRecovery == 0
      case UnderAttack => m.consecutiveAttack == m.consecutiveRecovery == 0 && h != [] && h[|h| - 1]
      case Recovery => m.consecutiveRecovery == Suffix(h, false) && m.consecutiveAttack == 0
                       && 1 <= m.consecutiveRecovery < Max(2, c.recoveryConfirm)
  {
    if h != [] {
      CountersAreSuffixes(c, h[..|h| - 1]);
    }
  }

  /** The state read off the history alone, without counters: an attack is confirmed by `confirm`
      anomalous verdicts in a row, a recovery by `quiet` clean ones. */
  function StateByRule(confirm: nat, quiet: nat, h: seq<bool>): AnomalyState {
    if h == [] then Normal
    else
      var before, last := StateByRule(confirm, quiet, h[..|h| - 1]), h[|h| - 1];
      if before.Normal? then (if Suffix(h, true) >= confirm then UnderAttack else Normal)
      else if last then UnderAttack
      else if Suffix(h, false) >= quiet then Normal
      else Recovery
  }

  /** The rule the code follows: leaving UNDER_ATTACK and leaving RECOVERY take a verdict each, so a
      recovery needs at least two clean ones. */
  function StateByHistory(c: Config, h: seq<bool>): AnomalyState {
    StateByRule(c.attackConfirm, Max(2, c.recoveryConfirm), h)
  }

  /** The documented rule: recoveryConfirm clean verdicts in a row return the machine to NORMAL. */
  function Documented(c: Config, h: seq<bool>): AnomalyState {
    StateByRule(c.attackConfirm, c.recoveryConfirm, h)
  }

  lemma {:induction false} CountersRefineHistory(c: Config, h: seq<bool>)
    requires ValidConfig(c)
    ensures Run(c, h).state == StateByHistory(c, h)
  {
    if h != [] {
      CountersRefineHistory(c, h[..|h| - 1]);
      CountersAreSuffixes(c, h[..|h| - 1]);
      CountersAreSuffixes(c, h);
    }
  }

  /** How often the machine has gone from NORMAL to UNDER_ATTACK. */
  function Entries(c: Config, h: seq<bool>): nat {
    if h == [] then 0
    else Entries(c, h[..|h| - 1]) +
         if Run(c, h[..|h| - 1]).state.Normal? && Run(c, h).state.UnderAttack? then 1 else 0
  }

  function RecoveryTime(c: Config): nat {
    Max(2, c.recoveryConfirm)
  }

  /** k attack confirmations with a full recovery before each but the first. */
  function Bound(c: Config, k: nat): int {
    if k == 0 then 0 - RecoveryTime(c) else Bound(c, k - 1) + RecoveryTime(c) + c.attackConfirm
  }

  lemma {:induction false} BoundClosed(c: Config, k: nat)
    ensures Bound(c, k) == k * c.attackConfirm + (k - 1) * RecoveryTime(c)
  {
    if k != 0 {
      BoundClosed(c, k - 1);
      assert k * c.attackConfirm == (k - 1) * c.attackConfirm + c.attackConfirm;
      assert (k - 1) * RecoveryTime(c) == (k - 2) * RecoveryTime(c) + RecoveryTime(c);
    }
  }

  /** How far into the next cycle the machine is. */
  function Progress(c: Config, m: Machine): nat {
    match m.state
    case Normal => RecoveryTime(c) + m.consecutiveAttack
    case UnderAttack => 0
    case Recovery => m.consecutiveRecovery
  }

  lemma {:induction false} CallsCoverProgress(c: Config, h: seq<bool>)
    requires ValidConfig(c)
    ensures |h| >= Bound(c, Entries(c, h)) + Progress(c, Run(c, h))
  {
    if h != [] {
      CallsCoverProgress(c, h[..|h| - 1]);
      CountersAreSuffixes(c, h[..|h| - 1]);
    }
  }

  /** Anti-flapping: k entries into UNDER_ATTACK take at least k*attackConfirm scores and, between
      them, k-1 full recoveries of max(2, recoveryConfirm) scores. */
  lemma {:induction false} EntriesTakeTime(c: Config, h: seq<bool>)
    requires ValidConfig(c)
    ensures |h| >= Entries(c, h) * c.attackConfirm + (Entries(c, h) - 1) * Max(2, c.recoveryConfirm)
  {
    CallsCoverProgress(c, h);
    BoundClosed(c, Entries(c, h));
  }

  // ----- the bound is attained -----

  function Repeat(b: bool, n: nat): (h: seq<bool>)
    ensures |h| == n && forall i | 0 <= i < n :: h[i] == b
  {
    if n == 0 then [] else Repeat(b, n - 1) + [b]
  }

  lemma {:induction false} Append(c: Config, h: seq<bool>, b: bool, n: nat)
    requires n > 0
    ensures Run(c, h + Repeat(b, n)) == Next(c, Run(c, h + Repeat(b, n - 1)), b)
    ensures Entries(c, h + Repeat(b, n)) == Entries(c, h + Repeat(b, n - 1)) +
            if Run(c, h + Repeat(b, n - 1)).state.Normal? && Run(c, h + Repeat(b, n)).state.UnderAttack? then 1 else 0
  {
    var g := h + Repeat(b, n);
    assert g[..|g| - 1] == h + Repeat(b, n - 1) && g[|g| - 1] == b;
  }

  lemma {:induction false} Attack(c: Config, h: seq<bool>, n: nat)
    requires ValidConfig(c) && Run(c, h) == Fresh && n <= c.attackConfirm
    ensures Run(c, h + Repeat(true, n)) == if n < c.attackConfirm then Machine(Normal, n, 0) else Forced(UnderAttack)
    ensures Entries(c, h + Repeat(true, n)) == Entries(c, h) + if n < c.attackConfirm then 0 else 1
    decreases n
  {
    if n == 0 {
      assert h + Repeat(true, 0) == h;
    } else {
      Attack(c, h, n - 1);
      Append(c, h, true, n);
    }
  }

  lemma {:induction false} Recover(c: Config, h: seq<bool>, n: nat)
    requires ValidConfig(c) && Run(c, h) == Forced(UnderAttack) && n <= RecoveryTime(c)
    ensures Run(c, h + Repeat(false, n)) ==
            if n == 0 then Forced(UnderAttack) else if n < RecoveryTime(c) then Machine(Recovery, 0, n) else Fresh
    ensures Entries(c, h + Repeat(false, n)) == Entries(c, h)
    decreases n
  {
    if n == 0 {
      assert h + Repeat(false, 0) == h;
    } else {
      Recover(c, h, n - 1);
      Append(c, h, false, n);
    }
  }

  /** A history that enters UNDER_ATTACK k times as fast as possible. */
  lemma {:induction false} BoundAttained(c: Config, k: nat) returns (h: seq<bool>)
    requires ValidConfig(c) && k >= 1
    ensures Entries(c, h) == k && Run(c, h) == Forced(UnderAttack)
    ensures |h| == k * c.attackConfirm + (k - 1) * Max(2, c.recoveryConfirm)
    decreases k
  {
    BoundClosed(c, k);
    NothingYet(c);
    hide Run, Entries, Repeat, Next;
    if k == 1 {
      Attack(c, [], c.attackConfirm);
      h := [] + Repeat(true, c.attackConfirm);
    } else {
      var g := BoundAttained(c, k - 1);
      BoundClosed(c, k - 1);
      Recover(c, g, RecoveryTime(c));
      g := g + Repeat(false, RecoveryTime(c));
      Attack(c, g, c.attackConfirm);
      h := g + Repeat(true, c.attackConfirm);
    }
  }

  lemma {:induction false} NothingYet(c: Config)
    ensures Run(c, []) == Fresh && Entries(c, []) == 0
  {}

  // ----- when the documented rule is kept -----

  /** With recoveryConfirm 1, one clean verdict after an attack leaves the machine in RECOVERY, where
      the documentation promises NORMAL. */
  lemma {:induction false} OneCleanVerdictIsNotEnough()
    ensures Run(Config(1, 1), [true, false]).state == Recovery
    ensures Documented(Config(1, 1), [true, false]) == Normal
  {
    assert [true, false][..1] == [true] && [true][..0] == [];
    assert Documented(Config(1, 1), [true]) == UnderAttack;
  }

  /** The same for every attackConfirm: the first clean verdict after the first confirmed attack. */
  lemma {:induction false} DocumentedBroken(c: Config) returns (h: seq<bool>)
    requires ValidConfig(c) && c.recoveryConfirm == 1
    ensures Run(c, h).state == Recovery && Documented(c, h) == Normal
  {
    NothingYet(c);
    Attack(c, [], c.attackConfirm);
    var g := [] + Repeat(true, c.attackConfirm);
    h := g + [false];
    assert h[..|h| - 1] == g;
    CountersRefineHistory(c, g);
    OnlyAttacks(c.attackConfirm, 1, 2, g);
  }

  /** How long a recovery takes does not matter before the first clean verdict. */
  lemma {:induction false} OnlyAttacks(confirm: nat, quiet: nat, other: nat, h: seq<bool>)
    requires forall i | 0 <= i < |h| :: h[i] == true
    ensures StateByRule(confirm, quiet, h) == StateByRule(confirm, other, h)
    ensures h == [] || StateByRule(confirm, quiet, h) != Recovery
  {
    if h != [] {
      OnlyAttacks(confirm, quiet, other, h[..|h| - 1]);
    }
  }

  /** The documented return to NORMAL is kept on every history exactly when recoveryConfirm is at
      least 2. */
  lemma {:induction false} DocumentedIff(c: Config)
    requires ValidConfig(c)
    ensures (forall h :: Run(c, h).state == Documented(c, h)) <==> c.recoveryConfirm >= 2
  {
    if c.recoveryConfirm >= 2 {
      forall h ensures Run(c, h).state == Documented(c, h) {
        CountersRefineHistory(c, h);
      }
    } else {
      var h := DocumentedBroken(c);
      assert Run(c, h).state != Documented(c, h);
    }
  }
}
