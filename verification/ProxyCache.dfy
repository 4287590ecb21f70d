/** The cached list of trusted proxies of one worker: cold reads, background
    refreshes, saves and resets, interleaved at every lock release and database
    call (backend/app/proxies.py). Each step takes one tick of a clock. */
module ProxyCache {
  import opened Basics

  type Networks = seq<string>

  /** A cached list, when it was obtained (read from the database or written to
      it) and when it was put into the cache. */
  datatype Cached = Cached(value: Networks, obtained: nat, remembered: nat)

  /** Where a thread stands. The generation is the one seen under the guard at
      `begun`; a list in hand was read or written at `at`. */
  datatype Phase =
    | Idle
    | ColdRead(generation: nat, begun: nat)
    | ColdHave(generation: nat, begun: nat, value: Networks, at: nat)
    | ColdAnswer
    | RefreshRead(generation: nat, begun: nat)
    | RefreshHave(generation: nat, begun: nat, value: Networks, at: nat)
    | RefreshEnd
    | SaveHave(value: Networks, at: nat)

  type Thread = nat

  datatype State = State(
    cache: Option<Cached>,
    generation: nat,
    refreshing: bool,
    stored: Networks,
    phases: map<Thread, Phase>,
    clock: nat)

  datatype Action =
    | Ask(t: Thread, waitOnCold: bool, ttlOver: bool, refresher: Thread)
    | ReadStored(t: Thread, readable: bool)
    | Remember(t: Thread)
    | End(t: Thread)
    | Save(t: Thread, value: Networks)
    | Reset

  function PhaseOf(s: State, t: Thread): Phase { if t in s.phases then s.phases[t] else Idle }

  predicate Enabled(s: State, a: Action) {
    match a
    case Ask(t, _, _, refresher) => PhaseOf(s, t).Idle? && PhaseOf(s, refresher).Idle? && t != refresher
    case ReadStored(t, _) => PhaseOf(s, t).ColdRead? || PhaseOf(s, t).RefreshRead?
    case Remember(t) => PhaseOf(s, t).ColdHave? || PhaseOf(s, t).RefreshHave? || PhaseOf(s, t).SaveHave?
    case End(t) => PhaseOf(s, t).ColdAnswer? || PhaseOf(s, t).RefreshEnd?
    case Save(t, _) => PhaseOf(s, t).Idle?
    case Reset => true
  }

  function To(s: State, t: Thread, p: Phase): State { s.(phases := s.phases[t := p], clock := s.clock + 1) }

  /** Under the guard: replace, unless the generation moved on. */
  function Put(s: State, value: Networks, at: nat, expected: Option<nat>): State {
    if expected.Some? && expected.value != s.generation then s
    else s.(cache := Some(Cached(value, at, s.clock)), generation := s.generation + 1)
  }

  function Next(s: State, a: Action): State
    requires Enabled(s, a)
  {
    match a
    case Ask(t, waitOnCold, ttlOver, refresher) =>
      var cold := s.cache.None?;
      var sync := cold && waitOnCold;
      var refresh := (cold || ttlOver) && !sync && !s.refreshing;
      if sync then To(s, t, ColdRead(s.generation, s.clock))
      else if refresh then To(s, refresher, RefreshRead(s.generation, s.clock)).(refreshing := true)
      else s.(clock := s.clock + 1)
    case ReadStored(t, readable) =>
      var value := if readable then s.stored else [];
      var p := PhaseOf(s, t);
      if p.ColdRead? then To(s, t, ColdHave(p.generation, p.begun, value, s.clock))
      else To(s, t, RefreshHave(p.generation, p.begun, value, s.clock))
    case Remember(t) =>
      var p := PhaseOf(s, t);
      if p.ColdHave? then To(Put(s, p.value, p.at, Some(p.generation)), t, ColdAnswer)
      else if p.RefreshHave? then To(Put(s, p.value, p.at, Some(p.generation)), t, RefreshEnd)
      else To(Put(s, p.value, p.at, None), t, Idle)
    case End(t) =>
      if PhaseOf(s, t).RefreshEnd? then To(s, t, Idle).(refreshing := false) else To(s, t, Idle)
    case Save(t, value) => To(s, t, SaveHave(value, s.clock)).(stored := value)
    case Reset => s.(cache := None, generation := s.generation + 1, clock := s.clock + 1)
  }

  // ---- the invariant -----------------------------------------------------

  predicate Refreshing(p: Phase) { p.RefreshRead? || p.RefreshHave? || p.RefreshEnd? }

  predicate Reading(p: Phase) { p.ColdRead? || p.ColdHave? || p.RefreshRead? || p.RefreshHave? }

  predicate InHand(p: Phase) { p.ColdHave? || p.RefreshHave? || p.SaveHave? }

  /** At most one refresh is in flight, exactly when the flag says so. */
  ghost predicate OneRefresh(s: State) {
    && (forall t, u :: Refreshing(PhaseOf(s, t)) && Refreshing(PhaseOf(s, u)) ==> t == u)
    && (s.refreshing <==> exists t :: Refreshing(PhaseOf(s, t)))
  }

  /** While the generation a reader saw is still current, the cached list has
      not been replaced since the reader looked. */
  ghost predicate GenerationsTell(s: State) {
    forall t :: Reading(PhaseOf(s, t)) ==>
      var p := PhaseOf(s, t);
      && p.generation <= s.generation && p.begun < s.clock
      && (p.generation == s.generation && s.cache.Some? ==> s.cache.value.remembered < p.begun)
  }

  ghost predicate TimesOrdered(s: State) {
    && (s.cache.Some? ==> s.cache.value.obtained < s.cache.value.remembered < s.clock)
    && (forall t :: InHand(PhaseOf(s, t)) ==> PhaseOf(s, t).at < s.clock)
    && (forall t :: PhaseOf(s, t).ColdHave? || PhaseOf(s, t).RefreshHave? ==> PhaseOf(s, t).begun < PhaseOf(s, t).at)
  }

  ghost predicate Inv(s: State) { OneRefresh(s) && GenerationsTell(s) && TimesOrdered(s) }

  function Start(stored: Networks): State { State(None, 0, false, stored, map[], 0) }

  /** The thread a step moves, if it moves one. */
  predicate Moves(a: Action, t: Thread) {
    match a
    case Ask(u, _, _, refresher) => t == u || t == refresher
    case ReadStored(u, _) => t == u
    case Remember(u) => t == u
    case End(u) => t == u
    case Save(u, _) => t == u
    case Reset => false
  }

  lemma OthersStay(s: State, a: Action, t: Thread)
    requires Enabled(s, a) && !Moves(a, t)
    ensures PhaseOf(Next(s, a), t) == PhaseOf(s, t)
  {
  }

  /** What a step does to the refreshes: the flag turns on with the one that
      starts, and off with the one that ends. */
  lemma RefreshFollows(s: State, a: Action)
    requires OneRefresh(s) && Enabled(s, a)
    ensures var s' := Next(s, a);
            && (s'.refreshing && !s.refreshing ==> a.Ask? && Refreshing(PhaseOf(s', a.refresher)))
            && (!s'.refreshing && s.refreshing ==> a.End? && Refreshing(PhaseOf(s, a.t)) && !Refreshing(PhaseOf(s', a.t)))
            && (s'.refreshing == s.refreshing ==>
                  forall t :: Moves(a, t) ==> Refreshing(PhaseOf(s', t)) == Refreshing(PhaseOf(s, t)))
            && (forall t :: Moves(a, t) && Refreshing(PhaseOf(s', t)) && !Refreshing(PhaseOf(s, t)) ==>
                  s'.refreshing && !s.refreshing && a.Ask? && t == a.refresher)
  {
  }

  lemma StepRefresh(s: State, a: Action)
    requires Inv(s) && Enabled(s, a)
    ensures OneRefresh(Next(s, a))
  {
    var s' := Next(s, a);
    forall t ensures !Moves(a, t) ==> PhaseOf(s', t) == PhaseOf(s, t) {
      if !Moves(a, t) {
        OthersStay(s, a, t);
      }
    }
    RefreshFollows(s, a);
    if s.refreshing {
      var u :| Refreshing(PhaseOf(s, u));
      assert s'.refreshing ==> Refreshing(PhaseOf(s', u));
    }
  }

  /** A generation names one content of the cache. */
  lemma GenerationGrows(s: State, a: Action)
    requires Enabled(s, a)
    ensures var s' := Next(s, a);
            && s'.clock == s.clock + 1 && s.generation <= s'.generation
            && (s'.generation == s.generation ==> s'.cache == s.cache)
            && (s'.cache.Some? && s'.cache != s.cache ==> s'.cache.value.remembered == s.clock)
  {
  }

  predicate Timely(s: State, p: Phase) {
    && (Reading(p) ==>
          && p.generation <= s.generation && p.begun < s.clock
          && (p.generation == s.generation && s.cache.Some? ==> s.cache.value.remembered < p.begun))
    && (InHand(p) ==> p.at < s.clock)
    && (p.ColdHave? || p.RefreshHave? ==> p.begun < p.at)
  }

  lemma MovedTimely(s: State, a: Action, t: Thread)
    requires Inv(s) && Enabled(s, a) && Moves(a, t)
    ensures Timely(Next(s, a), PhaseOf(Next(s, a), t))
  {
    assert Timely(s, PhaseOf(s, t));
  }

  lemma StepTimes(s: State, a: Action)
    requires Inv(s) && Enabled(s, a)
    ensures GenerationsTell(Next(s, a)) && TimesOrdered(Next(s, a))
  {
    var s' := Next(s, a);
    GenerationGrows(s, a);
    forall t ensures Timely(s', PhaseOf(s', t)) {
      assert Timely(s, PhaseOf(s, t));
      if Moves(a, t) {
        MovedTimely(s, a, t);
      } else {
        OthersStay(s, a, t);
      }
    }
    assert s'.cache.Some? ==> s'.cache.value.obtained < s'.cache.value.remembered;
  }

  lemma StepInv(s: State, a: Action)
    requires Inv(s) && Enabled(s, a)
    ensures Inv(Next(s, a))
  {
    StepRefresh(s, a);
    StepTimes(s, a);
  }

  /** A read replaces the cached list only if it read the database after that
      list was put into the cache. */
  lemma ReadsReplaceOnlyOlder(s: State, t: Thread)
    requires Inv(s) && Enabled(s, Remember(t)) && !PhaseOf(s, t).SaveHave?
    requires s.cache.Some? && Next(s, Remember(t)).cache != s.cache
    ensures s.cache.value.remembered < PhaseOf(s, t).begun < PhaseOf(s, t).at
    ensures Next(s, Remember(t)).cache.value.obtained == PhaseOf(s, t).at
  {
  }

  // ---- what a request gets, and who is woken for it ----------------------

  /** What a request is answered that does not wait, or has waited. */
  function Answer(s: State): Networks { if s.cache.Some? then s.cache.value.value else [] }

  /** A request waits for the database exactly when the cache is empty and it is
      one that may wait; a refresh is started exactly when the list is missing
      or too old, none is in flight, and the request does not wait itself. A
      request that does not wait is answered from memory, with nobody to trust
      when that is empty. */
  lemma AskDecides(s: State, t: Thread, waitOnCold: bool, ttlOver: bool, refresher: Thread)
    requires Enabled(s, Ask(t, waitOnCold, ttlOver, refresher))
    ensures var s' := Next(s, Ask(t, waitOnCold, ttlOver, refresher));
            var waits := s.cache == None && waitOnCold;
            var refreshes := (s.cache == None || ttlOver) && !waits && !s.refreshing;
            && s'.cache == s.cache && s'.generation == s.generation && s'.stored == s.stored
            && PhaseOf(s', t) == (if waits then ColdRead(s.generation, s.clock) else Idle)
            && PhaseOf(s', refresher) == (if refreshes then RefreshRead(s.generation, s.clock) else Idle)
            && s'.refreshing == (s.refreshing || refreshes)
  {
  }

  /** How many steps of its own a thread is from being idle. */
  function StepsLeft(p: Phase): nat {
    match p
    case Idle => 0
    case ColdRead(_, _) => 3
    case ColdHave(_, _, _, _) => 2
    case ColdAnswer => 1
    case RefreshRead(_, _) => 3
    case RefreshHave(_, _, _, _) => 2
    case RefreshEnd => 1
    case SaveHave(_, _) => 1
  }

  /** Nothing others do can hold a thread up: a busy one always has a step that
      brings it nearer to idle, an idle one can ask or save. So every refresh
      ends, and with it the flag that keeps others from starting. */
  lemma ThreadsProceed(s: State, t: Thread, value: Networks) returns (a: Action)
    ensures Enabled(s, a) && Moves(a, t)
    ensures PhaseOf(s, t) == Idle ==> a == Save(t, value) && PhaseOf(Next(s, a), t) == SaveHave(value, s.clock)
    ensures PhaseOf(s, t) != Idle ==> StepsLeft(PhaseOf(Next(s, a), t)) + 1 == StepsLeft(PhaseOf(s, t))
    ensures PhaseOf(s, t) == RefreshEnd ==> !Next(s, a).refreshing
  {
    a := match PhaseOf(s, t)
      case Idle => Save(t, value)
      case ColdRead(_, _) => ReadStored(t, true)
      case RefreshRead(_, _) => ReadStored(t, true)
      case ColdAnswer => End(t)
      case RefreshEnd => End(t)
      case _ => Remember(t);
  }

  lemma IdleMayAsk(s: State, t: Thread, refresher: Thread)
    requires PhaseOf(s, t) == Idle && PhaseOf(s, refresher) == Idle && t != refresher
    ensures forall waits, expired :: Enabled(s, Ask(t, waits, expired, refresher))
    ensures Enabled(s, Reset)
  {
  }

  /** A read is given what is stored, or nobody when the database fails; it is
      remembered exactly if no one remembered or reset since it began. A save
      is stored at once and remembered always; each of these and a reset makes
      a new generation. */
  lemma ReadsAndSaves(s: State, a: Action)
    requires Enabled(s, a) && !a.Ask?
    ensures var s' := Next(s, a);
            match a
            case ReadStored(t, readable) =>
              && s'.cache == s.cache && s'.generation == s.generation && s'.stored == s.stored && InHand(PhaseOf(s', t))
              && PhaseOf(s', t).value == (if readable then s.stored else []) && PhaseOf(s', t).at == s.clock
              && PhaseOf(s', t).generation == PhaseOf(s, t).generation
            case Remember(t) =>
              var p := PhaseOf(s, t);
              var kept := p.SaveHave? || p.generation == s.generation;
              && s'.stored == s.stored && s'.refreshing == s.refreshing
              && s'.generation == (if kept then s.generation + 1 else s.generation)
              && (if kept then s'.cache == Some(Cached(p.value, p.at, s.clock)) else s'.cache == s.cache)
            case End(t) => s'.cache == s.cache && s'.generation == s.generation && s'.stored == s.stored
            case Save(t, value) =>
              s'.stored == value && s'.cache == s.cache && s'.generation == s.generation && PhaseOf(s', t).value == value
            case Reset => s'.cache == None && s'.generation == s.generation + 1 && s'.stored == s.stored && s'.phases == s.phases
            case _ => true
  {
  }

  // ---- executions --------------------------------------------------------

  ghost predicate Execution(states: seq<State>, actions: seq<Action>) {
    && |states| == |actions| + 1 && (exists stored :: states[0] == Start(stored))
    && forall i :: 0 <= i < |actions| ==> Enabled(states[i], actions[i]) && states[i + 1] == Next(states[i], actions[i])
  }

  lemma {:induction false} InvHolds(states: seq<State>, actions: seq<Action>, i: nat)
    requires Execution(states, actions) && i < |states|
    ensures Inv(states[i]) && states[i].clock == i
    decreases i
  {
    if i > 0 {
      InvHolds(states, actions, i - 1);
      StepInv(states[i - 1], actions[i - 1]);
    }
  }

  predicate Saves(states: seq<State>, actions: seq<Action>, i: nat)
    requires i < |actions| && i < |states|
  {
    actions[i].Remember? && PhaseOf(states[i], actions[i].t).SaveHave?
  }

  /** Remembering a save replaces the cache, whatever the generation. */
  lemma SaveIsCached(s: State, t: Thread)
    requires PhaseOf(s, t).SaveHave?
    ensures var p := PhaseOf(s, t); Next(s, Remember(t)).cache == Some(Cached(p.value, p.at, s.clock))
  {
  }

  /** Only a reset empties the cache; what replaces its content is remembered
      now, by a thread that had a list in hand. */
  lemma StepCaches(s: State, a: Action)
    requires Enabled(s, a) && s.cache.Some? && !a.Reset?
    ensures Next(s, a).cache.Some?
    ensures Next(s, a).cache != s.cache ==> a.Remember? && Next(s, a).cache.value.remembered == s.clock
  {
  }

  lemma StepKeepsSave(s: State, a: Action, value: Networks, i: nat)
    requires Inv(s) && Enabled(s, a) && !a.Reset? && !(a.Remember? && PhaseOf(s, a.t).SaveHave?)
    requires s.cache.Some? && i <= s.cache.value.remembered
    requires s.cache.value.value == value || i < s.cache.value.obtained
    ensures var cache := Next(s, a).cache; cache.Some? && (cache.value.value == value || i < cache.value.obtained)
  {
    StepCaches(s, a);
    if Next(s, a).cache != s.cache {
      ReadsReplaceOnlyOlder(s, a.t);
    }
  }

  /** A save is never undone by a read that began before the save reached the
      cache: until another save or a reset, the cache holds the saved list or
      one read from the database after the save was remembered. */
  lemma {:induction false} SavesAreNotUndone(states: seq<State>, actions: seq<Action>, i: nat, j: nat)
    requires Execution(states, actions) && i < j < |states| && Saves(states, actions, i)
    requires forall k :: i < k < j ==> !actions[k].Reset? && !Saves(states, actions, k)
    ensures states[j].cache.Some?
    ensures var c := states[j].cache.value; c.value == PhaseOf(states[i], actions[i].t).value || i < c.obtained
    decreases j
  {
    if j == i + 1 {
      SaveIsCached(states[i], actions[i].t);
    } else {
      InvHolds(states, actions, j - 1);
      SavesAreNotUndone(states, actions, i, j - 1);
      CacheAge(states, actions, i, j - 1);
      assert !Saves(states, actions, j - 1);
      StepKeepsSave(states[j - 1], actions[j - 1], PhaseOf(states[i], actions[i].t).value, i);
    }
  }

  /** After a save was remembered at step i, what is cached was remembered no
      earlier, until a reset. */
  lemma {:induction false} CacheAge(states: seq<State>, actions: seq<Action>, i: nat, j: nat)
    requires Execution(states, actions) && i < j < |states| && Saves(states, actions, i)
    requires forall k :: i < k < j ==> !actions[k].Reset?
    ensures states[j].cache.Some? && i <= states[j].cache.value.remembered
    decreases j
  {
    InvHolds(states, actions, j - 1);
    if j == i + 1 {
      SaveIsCached(states[i], actions[i].t);
    } else {
      CacheAge(states, actions, i, j - 1);
      StepCaches(states[j - 1], actions[j - 1]);
    }
  }

  /** At most one background refresh is in flight at any moment. */
  lemma OneRefreshAtATime(states: seq<State>, actions: seq<Action>, i: nat, t: Thread, u: Thread)
    requires Execution(states, actions) && i < |states|
    requires Refreshing(PhaseOf(states[i], t)) && Refreshing(PhaseOf(states[i], u))
    ensures t == u
  {
    InvHolds(states, actions, i);
  }

  /** Whatever interleaving: an answer is a list that a save wrote or a read got
      from the database, or nobody when nothing is cached. */
  lemma AnswersAreStored(states: seq<State>, actions: seq<Action>, i: nat)
    requires Execution(states, actions) && i < |states|
    ensures states[i].cache == None ==> Answer(states[i]) == []
    ensures states[i].cache != None ==> exists k: nat :: k < i && Obtains(states, actions, k, Answer(states[i]))
  {
    if states[i].cache.Some? {
      CacheOrigin(states, actions, i);
      var k := states[i].cache.value.obtained;
      assert k < i && Obtains(states, actions, k, Answer(states[i]));
    }
  }

  // ---- when the cache agrees with the database ---------------------------

  /** What a step obtains from, or writes to, the database. */
  ghost predicate Obtains(states: seq<State>, actions: seq<Action>, k: nat, value: Networks)
    requires k < |actions| && k < |states|
  {
    match actions[k]
    case Save(_, saved) => value == saved
    case ReadStored(_, readable) => value == if readable then states[k].stored else []
    case _ => false
  }

  lemma NewInHand(s: State, a: Action, t: Thread)
    requires Enabled(s, a) && InHand(PhaseOf(Next(s, a), t)) && PhaseOf(Next(s, a), t) != PhaseOf(s, t)
    ensures var p := PhaseOf(Next(s, a), t);
            && p.at == s.clock
            && (p.SaveHave? ==> a == Save(t, p.value))
            && (!p.SaveHave? ==> a.ReadStored? && p.value == if a.readable then s.stored else [])
  {
  }

  /** A list in hand was obtained by the step whose time it carries. */
  lemma {:induction false} HandOrigin(states: seq<State>, actions: seq<Action>, j: nat, t: Thread)
    requires Execution(states, actions) && j < |states| && InHand(PhaseOf(states[j], t))
    ensures var p := PhaseOf(states[j], t); p.at < j && Obtains(states, actions, p.at, p.value)
    ensures var p := PhaseOf(states[j], t); p.SaveHave? ==> actions[p.at] == Save(t, p.value)
    decreases j
  {
    InvHolds(states, actions, j - 1);
    if PhaseOf(states[j], t) == PhaseOf(states[j - 1], t) {
      HandOrigin(states, actions, j - 1, t);
    } else {
      NewInHand(states[j - 1], actions[j - 1], t);
    }
  }

  /** And so was the cached one. */
  lemma {:induction false} CacheOrigin(states: seq<State>, actions: seq<Action>, j: nat)
    requires Execution(states, actions) && j < |states| && states[j].cache.Some?
    ensures var c := states[j].cache.value; c.obtained < j && Obtains(states, actions, c.obtained, c.value)
    decreases j
  {
    var s, a := states[j - 1], actions[j - 1];
    if states[j].cache == s.cache {
      CacheOrigin(states, actions, j - 1);
    } else {
      HandOrigin(states, actions, j - 1, a.t);
    }
  }

  /** The last step before i that writes the stored list. */
  predicate LastWrite(actions: seq<Action>, k: nat, i: nat) {
    k < i <= |actions| && actions[k].Save? && forall m :: k < m < i ==> !actions[m].Save?
  }

  lemma {:induction false} StoredStays(states: seq<State>, actions: seq<Action>, i: nat, j: nat)
    requires Execution(states, actions) && i <= j < |states|
    requires forall k :: i <= k < j ==> !actions[k].Save?
    ensures states[j].stored == states[i].stored
    decreases j
  {
    if i < j {
      StoredStays(states, actions, i, j - 1);
    }
  }

  /** Right after a save is remembered, the cached list is the stored one exactly
      when the last write to the database wrote the list that was saved. */
  lemma SaveAgreesExactly(states: seq<State>, actions: seq<Action>, i: nat, k: nat)
    requires Execution(states, actions) && i < |actions| && Saves(states, actions, i) && LastWrite(actions, k, i)
    ensures states[i + 1].cache.Some?
    ensures states[i + 1].cache.value.value == states[i + 1].stored <==>
            actions[k].value == PhaseOf(states[i], actions[i].t).value
  {
    SaveIsCached(states[i], actions[i].t);
    StoredStays(states, actions, k + 1, i + 1);
  }

  /** So it is when no other save began between this save's write and its
      remember step: the write is then the last one. */
  lemma LoneSaveAgrees(states: seq<State>, actions: seq<Action>, i: nat)
    requires Execution(states, actions) && i < |actions| && Saves(states, actions, i)
    requires var m := PhaseOf(states[i], actions[i].t).at; forall k :: m < k < i ==> !actions[k].Save?
    ensures states[i + 1].cache.Some? && states[i + 1].cache.value.value == states[i + 1].stored
  {
    var t := actions[i].t;
    HandOrigin(states, actions, i, t);
    SaveAgreesExactly(states, actions, i, PhaseOf(states[i], t).at);
  }

  /** And the agreement lasts until another save or a reset, as long as the
      database can be read. */
  lemma AgreementLasts(states: seq<State>, actions: seq<Action>, i: nat, j: nat)
    requires Execution(states, actions) && i < j < |states| && Saves(states, actions, i)
    requires states[i + 1].cache.Some? && states[i + 1].cache.value.value == states[i + 1].stored
    requires forall k :: i < k < j ==>
               && !actions[k].Reset? && !actions[k].Save? && !Saves(states, actions, k)
               && (actions[k].ReadStored? ==> actions[k].readable)
    ensures states[j].cache.Some? && states[j].cache.value.value == states[j].stored
  {
    SaveIsCached(states[i], actions[i].t);
    SavesAreNotUndone(states, actions, i, j);
    CacheOrigin(states, actions, j);
    StoredStays(states, actions, i + 1, j);
    var c := states[j].cache.value;
    if i < c.obtained {
      StoredStays(states, actions, i + 1, c.obtained);
    }
  }

  /** Two overlapping saves can leave the cache behind the database: the save
      that wrote first may be remembered last. */
  lemma OverlappingSavesDiffer(a: Networks, b: Networks)
    requires a != b
    ensures var s1 := Next(Start([]), Save(0, a));
            var s2 := Next(s1, Save(1, b));
            var s3 := Next(s2, Remember(1));
            var s4 := Next(s3, Remember(0));
            s4.stored == b && s4.cache.Some? && s4.cache.value.value == a
  {
  }
}
