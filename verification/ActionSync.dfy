/** Load-balanced signing as a protocol among any number of sessions: each session checks a shared marker, takes
    a distributed lock named after the action, signs, unlocks, and writes the marker. A session is one call that
    handles one action; the lock's lease does not lapse while its session is in the signing section. */
module ActionSync {
  import opened ByteStrings

  /** Where a session is. */
  datatype Pc = Fresh | Skipped | Cleared | Refused | Signing | Unlocked | Done

  type Session = nat

  datatype State = State(
    now: int,
    pcs: map<Session, Pc>,
    holders: map<string, Session>,
    markers: map<string, Option<int>>       // when each marker expires, if ever
  )

  datatype Event =
    | Check(s: Session, answered: bool)
    | LockTaken(s: Session)
    | LockRefused(s: Session)
    | Attempt(s: Session, signed: bool)
    | Unlock(s: Session, released: bool)
    | WriteMarker(s: Session)
    | Lapse(id: string)
    | Tick(seconds: nat)

  /** Which action each session handles, and how long a marker lives: for ever, unless for a positive time. */
  datatype Config = Config(actionOf: Session -> string, markerSeconds: int)

  function PcOf(st: State, s: Session): Pc {
    if s in st.pcs then st.pcs[s] else Fresh
  }

  predicate MarkerLive(st: State, id: string) {
    id in st.markers && (st.markers[id] == None || st.now < st.markers[id].value)
  }

  function Initial(now: int): State {
    State(now, map[], map[], map[])
  }

  predicate Enabled(cfg: Config, st: State, e: Event) {
    match e
    case Check(s, _) => PcOf(st, s).Fresh?
    case LockTaken(s) => PcOf(st, s).Cleared? && cfg.actionOf(s) !in st.holders
    case LockRefused(s) => PcOf(st, s).Cleared?
    case Attempt(s, _) => PcOf(st, s).Signing?
    case Unlock(s, _) => PcOf(st, s).Signing?
    case WriteMarker(s) => PcOf(st, s).Unlocked?
    case Lapse(id) => id in st.holders && !PcOf(st, st.holders[id]).Signing?
    case Tick(_) => true
  }

  function Expiry(cfg: Config, now: int): Option<int> {
    if cfg.markerSeconds <= 0 then None else Some(now + cfg.markerSeconds)
  }

  /** A check that the store does not answer counts as not handled; a failed unlock leaves the lock to lapse. */
  function Step(cfg: Config, st: State, e: Event): State {
    match e
    case Check(s, answered) =>
      st.(pcs := st.pcs[s := if answered && MarkerLive(st, cfg.actionOf(s)) then Skipped else Cleared])
    case LockTaken(s) => st.(pcs := st.pcs[s := Signing], holders := st.holders[cfg.actionOf(s) := s])
    case LockRefused(s) => st.(pcs := st.pcs[s := Refused])
    case Attempt(_, _) => st
    case Unlock(s, released) =>
      st.(pcs := st.pcs[s := Unlocked], holders := if released then st.holders - {cfg.actionOf(s)} else st.holders)
    case WriteMarker(s) =>
      st.(pcs := st.pcs[s := Done], markers := st.markers[cfg.actionOf(s) := Expiry(cfg, st.now)])
    case Lapse(id) => st.(holders := st.holders - {id})
    case Tick(seconds) => st.(now := st.now + seconds)
  }

  datatype Trace = Trace(events: seq<Event>, states: seq<State>)

  predicate Next(cfg: Config, st: State, e: Event, st': State) {
    Enabled(cfg, st, e) && st' == Step(cfg, st, e)
  }

  predicate IsRun(cfg: Config, start: int, t: Trace) {
    && |t.states| == |t.events| + 1
    && t.states[0] == Initial(start)
    && forall n :: 0 <= n < |t.events| ==> Next(cfg, t.states[n], t.events[n], t.states[n + 1])
  }

  // ---------- Mutual exclusion ----------

  predicate LocksMatch(cfg: Config, st: State) {
    && (forall s :: s in st.pcs && st.pcs[s].Signing? ==> cfg.actionOf(s) in st.holders && st.holders[cfg.actionOf(s)] == s)
    && (forall id :: id in st.holders ==>
          cfg.actionOf(st.holders[id]) == id &&
          (PcOf(st, st.holders[id]).Signing? || PcOf(st, st.holders[id]).Unlocked? || PcOf(st, st.holders[id]).Done?))
  }

  lemma {:induction false} LocksAlwaysMatch(cfg: Config, start: int, t: Trace, n: nat)
    requires IsRun(cfg, start, t) && n <= |t.events|
    ensures LocksMatch(cfg, t.states[n])
  {
    if n > 0 {
      LocksAlwaysMatch(cfg, start, t, n - 1);
      assert Next(cfg, t.states[n - 1], t.events[n - 1], t.states[n]);
    }
  }

  /** Exclusion: in every run no two sessions are in the signing section for the same action at once. */
  lemma SigningExclusion(cfg: Config, start: int, t: Trace, n: nat, a: Session, b: Session)
    requires IsRun(cfg, start, t) && n <= |t.events|
    requires PcOf(t.states[n], a).Signing? && PcOf(t.states[n], b).Signing? && cfg.actionOf(a) == cfg.actionOf(b)
    ensures a == b
  {
    LocksAlwaysMatch(cfg, start, t, n);
  }

  /** While every unlock succeeds, the lock holders are exactly the sessions between lock and unlock. */
  lemma {:induction false} HoldersAreSigning(cfg: Config, start: int, t: Trace, n: nat, s: Session)
    requires IsRun(cfg, start, t) && n <= |t.events|
    requires forall k :: 0 <= k < n && t.events[k].Unlock? ==> t.events[k].released
    ensures PcOf(t.states[n], s).Signing? <==>
      cfg.actionOf(s) in t.states[n].holders && t.states[n].holders[cfg.actionOf(s)] == s
  {
    LocksAlwaysMatch(cfg, start, t, n);
    if n > 0 {
      LocksAlwaysMatch(cfg, start, t, n - 1);
      HoldersAreSigning(cfg, start, t, n - 1, s);
      assert Next(cfg, t.states[n - 1], t.events[n - 1], t.states[n]);
    }
  }

  // ---------- What a session does ----------

  /** The calls of a session, attempts to sign aside. */
  datatype Call = CallCheck | CallLock(taken: bool) | CallUnlock | CallMark

  function CallsOf(e: Event, s: Session): seq<Call> {
    match e
    case Check(s', _) => if s' == s then [CallCheck] else []
    case LockTaken(s') => if s' == s then [CallLock(true)] else []
    case LockRefused(s') => if s' == s then [CallLock(false)] else []
    case Unlock(s', _) => if s' == s then [CallUnlock] else []
    case WriteMarker(s') => if s' == s then [CallMark] else []
    case _ => []
  }

  /** The calls of session s among the first n events. */
  function Calls(events: seq<Event>, s: Session, n: nat): seq<Call>
    requires n <= |events|
  {
    if n == 0 then [] else Calls(events, s, n - 1) + CallsOf(events[n - 1], s)
  }

  function Script(pc: Pc): seq<Call> {
    match pc
    case Fresh => []
    case Skipped => [CallCheck]
    case Cleared => [CallCheck]
    case Refused => [CallCheck, CallLock(false)]
    case Signing => [CallCheck, CallLock(true)]
    case Unlocked => [CallCheck, CallLock(true), CallUnlock]
    case Done => [CallCheck, CallLock(true), CallUnlock, CallMark]
  }

  lemma ScriptStep(cfg: Config, st: State, e: Event, st': State, s: Session)
    requires Next(cfg, st, e, st')
    ensures Script(PcOf(st', s)) == Script(PcOf(st, s)) + CallsOf(e, s)
  {
    if e.Lapse? || e.Tick? || e.Attempt? || e.s != s {
      assert PcOf(st', s) == PcOf(st, s) && CallsOf(e, s) == [];
    }
  }

  /** In every run a session that took the lock unlocks at most once and writes the marker after that, whatever
      its attempts to sign returned; one that did not take it does neither. */
  lemma {:induction false} SessionFollowsScript(cfg: Config, start: int, t: Trace, s: Session, n: nat, pc: Pc)
    requires IsRun(cfg, start, t) && n <= |t.events| && pc == PcOf(t.states[n], s)
    ensures Calls(t.events, s, n) == Script(pc)
  {
    if n > 0 {
      SessionFollowsScript(cfg, start, t, s, n - 1, PcOf(t.states[n - 1], s));
      ScriptStep(cfg, t.states[n - 1], t.events[n - 1], t.states[n], s);
    }
  }

  // ---------- What the marker prevents ----------

  lemma {:induction false} SkippedStays(cfg: Config, start: int, t: Trace, s: Session, m: nat, n: nat)
    requires IsRun(cfg, start, t) && m <= n <= |t.events| && PcOf(t.states[m], s).Skipped?
    ensures PcOf(t.states[n], s).Skipped?
  {
    if m < n {
      SkippedStays(cfg, start, t, s, m, n - 1);
      assert Next(cfg, t.states[n - 1], t.events[n - 1], t.states[n]);
    }
  }

  /** An answered check made while the marker is live never leads to signing. */
  lemma LiveMarkerStopsSigning(cfg: Config, start: int, t: Trace, s: Session, k: nat, j: nat)
    requires IsRun(cfg, start, t) && k < j < |t.events|
    requires t.events[k] == Check(s, true) && MarkerLive(t.states[k], cfg.actionOf(s))
    ensures !(t.events[j].Attempt? && t.events[j].s == s)
  {
    assert Next(cfg, t.states[k], t.events[k], t.states[k + 1]);
    SkippedStays(cfg, start, t, s, k + 1, j);
    assert Next(cfg, t.states[j], t.events[j], t.states[j + 1]);
  }

  /** The seconds that pass in events m to n. */
  function Elapsed(events: seq<Event>, m: nat, n: nat): nat
    requires m <= n <= |events|
    decreases n - m
  {
    if m == n then 0 else Elapsed(events, m, n - 1) + if events[n - 1].Tick? then events[n - 1].seconds else 0
  }

  lemma {:induction false} ClockExactly(cfg: Config, start: int, t: Trace, m: nat, n: nat)
    requires IsRun(cfg, start, t) && m <= n <= |t.events|
    ensures t.states[n].now == t.states[m].now + Elapsed(t.events, m, n)
    decreases n - m
  {
    if m < n {
      ClockExactly(cfg, start, t, m, n - 1);
      assert Next(cfg, t.states[n - 1], t.events[n - 1], t.states[n]);
    }
  }

  /** The event writes this action's marker. */
  predicate Writes(cfg: Config, e: Event, id: string) {
    e.WriteMarker? && cfg.actionOf(e.s) == id
  }

  lemma {:induction false} MarkerKept(cfg: Config, start: int, t: Trace, id: string, m: nat, n: nat)
    requires IsRun(cfg, start, t) && m <= n <= |t.events|
    requires forall k :: m <= k < n ==> !Writes(cfg, t.events[k], id)
    ensures id in t.states[n].markers <==> id in t.states[m].markers
    ensures id in t.states[m].markers ==> t.states[n].markers[id] == t.states[m].markers[id]
    decreases n - m
  {
    if m < n {
      MarkerKept(cfg, start, t, id, m, n - 1);
      assert Next(cfg, t.states[n - 1], t.events[n - 1], t.states[n]);
    }
  }

  /** An action whose marker was never written has none. */
  lemma NoMarkerUnwritten(cfg: Config, start: int, t: Trace, id: string, n: nat)
    requires IsRun(cfg, start, t) && n <= |t.events|
    requires forall k :: 0 <= k < n ==> !Writes(cfg, t.events[k], id)
    ensures !MarkerLive(t.states[n], id)
  {
    MarkerKept(cfg, start, t, id, 0, n);
  }

  /** A marker's life, exactly: after its last write it is live until its time has passed, and for ever if that is
      not positive. */
  lemma MarkerLiveExactly(cfg: Config, start: int, t: Trace, id: string, m: nat, n: nat)
    requires IsRun(cfg, start, t) && m < n <= |t.events| && Writes(cfg, t.events[m], id)
    requires forall k :: m < k < n ==> !Writes(cfg, t.events[k], id)
    ensures MarkerLive(t.states[n], id) <==> cfg.markerSeconds <= 0 || Elapsed(t.events, m, n) < cfg.markerSeconds
  {
    assert Next(cfg, t.states[m], t.events[m], t.states[m + 1]);
    MarkerKept(cfg, start, t, id, m + 1, n);
    ClockExactly(cfg, start, t, m, n);
  }

  /** The last write of a marker before n. */
  lemma {:induction false} LastWrite(cfg: Config, events: seq<Event>, id: string, m: nat, n: nat) returns (last: nat)
    requires m < n <= |events| && Writes(cfg, events[m], id)
    ensures m <= last < n && Writes(cfg, events[last], id)
    ensures forall k :: last < k < n ==> !Writes(cfg, events[k], id)
    decreases n
  {
    if n == m + 1 || Writes(cfg, events[n - 1], id) {
      last := n - 1;
    } else {
      last := LastWrite(cfg, events, id, m, n - 1);
    }
  }

  lemma {:induction false} ElapsedSplits(events: seq<Event>, m: nat, k: nat, n: nat)
    requires m <= k <= n <= |events|
    ensures Elapsed(events, m, n) == Elapsed(events, m, k) + Elapsed(events, k, n)
    decreases n
  {
    if k < n {
      ElapsedSplits(events, m, k, n - 1);
    }
  }

  /** A marker stays live for its whole lifetime, and longer only if it is written again. */
  lemma MarkerLasts(cfg: Config, start: int, t: Trace, id: string, m: nat, n: nat)
    requires IsRun(cfg, start, t) && m < n <= |t.events| && Writes(cfg, t.events[m], id)
    requires cfg.markerSeconds <= 0 || Elapsed(t.events, m, n) < cfg.markerSeconds
    ensures MarkerLive(t.states[n], id)
  {
    var last := LastWrite(cfg, t.events, id, m, n);
    ElapsedSplits(t.events, m, last, n);
    MarkerLiveExactly(cfg, start, t, id, last, n);
  }

  /** If a session tries to sign an action although another session had written the action's marker, then its own
      check came before that write, or was not answered, or came after the marker expired. */
  lemma SecondSignerCheckedEarly(cfg: Config, start: int, t: Trace, a: Session, b: Session, m: nat, k: nat, j: nat)
    requires IsRun(cfg, start, t) && m < |t.events| && k < j < |t.events|
    requires cfg.actionOf(a) == cfg.actionOf(b) && t.events[m] == WriteMarker(a)
    requires t.events[k].Check? && t.events[k].s == b
    requires t.events[j].Attempt? && t.events[j].s == b
    ensures k < m || !t.events[k].answered || (cfg.markerSeconds > 0 && Elapsed(t.events, m, k) >= cfg.markerSeconds)
  {
    if m < k && t.events[k].answered && (cfg.markerSeconds <= 0 || Elapsed(t.events, m, k) < cfg.markerSeconds) {
      MarkerLasts(cfg, start, t, cfg.actionOf(b), m, k);
      LiveMarkerStopsSigning(cfg, start, t, b, k, j);
    }
  }

  // ---------- What stays possible ----------

  /** A run that continues another. */
  predicate Continues(t: Trace, t': Trace) {
    |t.events| <= |t'.events| && t.events == t'.events[..|t.events|]
  }

  lemma Continue(cfg: Config, start: int, t: Trace, st: State, e: Event, st': State) returns (t': Trace)
    requires IsRun(cfg, start, t) && st == t.states[|t.events|] && Next(cfg, st, e, st')
    ensures IsRun(cfg, start, t') && Continues(t, t')
    ensures t'.events == t.events + [e] && t'.states[|t'.events|] == st'
  {
    t' := Trace(t.events + [e], t.states + [st']);
    forall n | 0 <= n < |t'.events|
      ensures Next(cfg, t'.states[n], t'.events[n], t'.states[n + 1])
    {
      if n < |t.events| {
        assert Next(cfg, t.states[n], t.events[n], t.states[n + 1]);
      }
    }
  }

  /** Whoever holds a lock can give it up, without another session moving. */
  lemma FreeLock(cfg: Config, start: int, t: Trace, id: string, b: Session) returns (t': Trace)
    requires IsRun(cfg, start, t) && PcOf(t.states[|t.events|], b).Cleared?
    ensures IsRun(cfg, start, t') && Continues(t, t')
    ensures PcOf(t'.states[|t'.events|], b).Cleared? && id !in t'.states[|t'.events|].holders
  {
    var st := t.states[|t.events|];
    t' := t;
    if id in st.holders {
      LocksAlwaysMatch(cfg, start, t, |t.events|);
      var h := st.holders[id];
      var e := if PcOf(st, h).Signing? then Unlock(h, true) else Lapse(id);
      t' := Continue(cfg, start, t, st, e, Step(cfg, st, e));
    }
  }

  /** A session whose check let it pass can come to sign, whatever happened since. */
  lemma CanSign(cfg: Config, start: int, t: Trace, b: Session) returns (t': Trace)
    requires IsRun(cfg, start, t) && PcOf(t.states[|t.events|], b).Cleared?
    ensures IsRun(cfg, start, t') && Continues(t, t') && |t'.events| > |t.events|
    ensures t'.events[|t'.events| - 1] == Attempt(b, true)
  {
    var free := FreeLock(cfg, start, t, cfg.actionOf(b), b);
    var st := free.states[|free.events|];
    var locked := Step(cfg, st, LockTaken(b));
    var holding := Continue(cfg, start, free, st, LockTaken(b), locked);
    t' := Continue(cfg, start, holding, locked, Attempt(b, true), locked);
  }

  /** Or it may be refused the lock, and is then done with the action. */
  lemma MayBeRefused(cfg: Config, start: int, t: Trace, b: Session) returns (t': Trace)
    requires IsRun(cfg, start, t) && PcOf(t.states[|t.events|], b).Cleared?
    ensures IsRun(cfg, start, t') && t'.events == t.events + [LockRefused(b)]
    ensures PcOf(t'.states[|t'.events|], b).Refused? && !MaySign(cfg, start, t', b)
  {
    var st := t.states[|t.events|];
    t' := Continue(cfg, start, t, st, LockRefused(b), Step(cfg, st, LockRefused(b)));
    forall t'' | IsRun(cfg, start, t'') && Continues(t', t'')
      ensures !Attempts(t'', |t'.events|, b)
    {
      SamePastState(cfg, start, t', t'', |t'.events|);
      forall j | |t'.events| <= j < |t''.events|
        ensures !(t''.events[j].Attempt? && t''.events[j].s == b)
      {
        RefusedStays(cfg, start, t'', b, |t'.events|, j);
        assert Next(cfg, t''.states[j], t''.events[j], t''.states[j + 1]);
      }
    }
  }

  lemma {:induction false} RefusedStays(cfg: Config, start: int, t: Trace, s: Session, m: nat, n: nat)
    requires IsRun(cfg, start, t) && m <= n <= |t.events| && PcOf(t.states[m], s).Refused?
    ensures PcOf(t.states[n], s).Refused?
  {
    if m < n {
      RefusedStays(cfg, start, t, s, m, n - 1);
      assert Next(cfg, t.states[n - 1], t.events[n - 1], t.states[n]);
    }
  }

  /** A run's states are determined by its events. */
  lemma {:induction false} SamePastState(cfg: Config, start: int, t: Trace, t': Trace, n: nat)
    requires IsRun(cfg, start, t) && IsRun(cfg, start, t') && Continues(t, t') && n <= |t.events|
    ensures t'.states[n] == t.states[n]
  {
    if n > 0 {
      SamePastState(cfg, start, t, t', n - 1);
      assert t'.events[n - 1] == t'.events[..|t.events|][n - 1];
      assert Next(cfg, t.states[n - 1], t.events[n - 1], t.states[n]);
      assert Next(cfg, t'.states[n - 1], t'.events[n - 1], t'.states[n]);
    }
  }

  /** The run t continues to one in which b tries to sign. */
  ghost predicate MaySign(cfg: Config, start: int, t: Trace, b: Session) {
    exists t' :: IsRun(cfg, start, t') && Continues(t, t') && Attempts(t', |t.events|, b)
  }

  /** From event n on, b tries to sign. */
  predicate Attempts(t: Trace, n: nat, b: Session) {
    exists j :: n <= j < |t.events| && t.events[j].Attempt? && t.events[j].s == b
  }

  /** Who may sign, exactly: right after its check a session can still come to sign if and only if the check was not
      answered or the action's marker was not live, whoever else was already past its own check or had signed. */
  lemma MaySignExactly(cfg: Config, start: int, t: Trace, k: nat, b: Session, answered: bool)
    requires IsRun(cfg, start, t) && |t.events| == k + 1 && t.events[k] == Check(b, answered)
    ensures MaySign(cfg, start, t, b) <==> !answered || !MarkerLive(t.states[k], cfg.actionOf(b))
  {
    assert Next(cfg, t.states[k], t.events[k], t.states[k + 1]);
    if !answered || !MarkerLive(t.states[k], cfg.actionOf(b)) {
      var t' := CanSign(cfg, start, t, b);
      assert Attempts(t', |t.events|, b);
    } else {
      forall t' | IsRun(cfg, start, t') && Continues(t, t')
        ensures !Attempts(t', |t.events|, b)
      {
        SamePastState(cfg, start, t, t', k);
        assert t'.events[k] == t'.events[..|t.events|][k];
        forall j | |t.events| <= j < |t'.events|
          ensures !(t'.events[j].Attempt? && t'.events[j].s == b)
        {
          LiveMarkerStopsSigning(cfg, start, t', b, k, j);
        }
      }
    }
  }

  /** A marker with a lifetime can run out. */
  lemma MarkerCanExpire(cfg: Config, start: int, t: Trace, id: string, m: nat) returns (t': Trace)
    requires IsRun(cfg, start, t) && m < |t.events| && Writes(cfg, t.events[m], id) && cfg.markerSeconds > 0
    requires forall k :: m < k < |t.events| ==> !Writes(cfg, t.events[k], id)
    ensures IsRun(cfg, start, t') && t'.events == t.events + [Tick(cfg.markerSeconds)]
    ensures !MarkerLive(t'.states[|t'.events|], id)
  {
    var st, tick := t.states[|t.events|], Tick(cfg.markerSeconds);
    t' := Continue(cfg, start, t, st, tick, Step(cfg, st, tick));
    MarkerLiveExactly(cfg, start, t', id, m, |t'.events|);
  }

  /** A session that took the lock can always finish by its own steps alone: it unlocks and then writes the marker. */
  lemma CanFinish(cfg: Config, start: int, t: Trace, s: Session) returns (t': Trace)
    requires IsRun(cfg, start, t) && PcOf(t.states[|t.events|], s).Signing?
    ensures IsRun(cfg, start, t') && t'.events == t.events + [Unlock(s, true), WriteMarker(s)]
    ensures PcOf(t'.states[|t'.events|], s).Done? && cfg.actionOf(s) !in t'.states[|t'.events|].holders
    ensures Calls(t'.events, s, |t'.events|) == Script(Done)
  {
    var st := t.states[|t.events|];
    var unlocked := Step(cfg, st, Unlock(s, true));
    var without := Continue(cfg, start, t, st, Unlock(s, true), unlocked);
    t' := Continue(cfg, start, without, unlocked, WriteMarker(s), Step(cfg, unlocked, WriteMarker(s)));
    SessionFollowsScript(cfg, start, t', s, |t'.events|, Done);
  }

  /** The marker is not checked again under the lock, so two sessions may both sign one action, one after the other. */
  function SignedTwice(): Trace {
    var cfg := Config(_ => "action", 6);
    var s0 := Initial(0);
    var s1 := Step(cfg, s0, Check(0, true));
    var s2 := Step(cfg, s1, Check(1, true));
    var s3 := Step(cfg, s2, LockTaken(0));
    var s4 := Step(cfg, s3, Attempt(0, true));
    var s5 := Step(cfg, s4, Unlock(0, true));
    var s6 := Step(cfg, s5, WriteMarker(0));
    var s7 := Step(cfg, s6, LockTaken(1));
    var s8 := Step(cfg, s7, Attempt(1, true));
    Trace([Check(0, true), Check(1, true), LockTaken(0), Attempt(0, true), Unlock(0, true), WriteMarker(0),
           LockTaken(1), Attempt(1, true)],
          [s0, s1, s2, s3, s4, s5, s6, s7, s8])
  }

  lemma SigningTwiceHappens()
    ensures IsRun(Config(_ => "action", 6), 0, SignedTwice())
    ensures SignedTwice().events[3] == Attempt(0, true) && SignedTwice().events[7] == Attempt(1, true)
  {
    var cfg, t := Config(_ => "action", 6), SignedTwice();
    var st := t.states;
    assert PcOf(st[2], 0).Cleared? && PcOf(st[2], 1).Cleared? && PcOf(st[6], 1).Cleared?;
    assert st[6].holders == map[];
    forall n | 0 <= n < |t.events|
      ensures Next(cfg, st[n], t.events[n], st[n + 1])
    {
    }
  }
}
