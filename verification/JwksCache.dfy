/** `jwksCache.get` (pkg/middleware/auth.go) under every interleaving of its callers: the map is
    checked under the read lock, and checked again under the write lock that is then held over
    the fetch.  Times are in nanoseconds. */
module JwksCache {
  import opened Text
  import opened Clock

  const TTL := 6 * HOUR

  datatype Entry = Entry(keys: string, expires: int)

  /** Where a call is: before the read lock, holding it, before the write lock, holding it, and
      fetching with the write lock held */
  datatype Place = AtRead | Reading | AtWrite | Writing | Fetching(since: int)

  datatype Call = Call(url: string, place: Place)

  /** A fetch that succeeded */
  datatype Fetch = Fetch(url: string, keys: string, started: int, stored: int)

  datatype State = State(sets: map<string, Entry>, clock: int, writer: Option<nat>, readers: set<nat>,
                         calls: map<nat, Call>, fetches: seq<Fetch>)

  datatype Event =
    | Tick(to: int)
    | Begin(g: nat, url: string)
    | RLock(g: nat)
    | ReadCheck(g: nat)
    | Lock(g: nat)
    | WriteCheck(g: nat)
    | FetchFails(g: nat)
    | FetchSucceeds(g: nat, keys: string)

  predicate Live(s: State, url: string) { url in s.sets && s.clock < s.sets[url].expires }

  predicate IsAt(s: State, g: nat, p: Place) { g in s.calls && s.calls[g].place == p }

  predicate IsFetching(s: State, g: nat) { g in s.calls && s.calls[g].place.Fetching? }

  predicate Enabled(s: State, e: Event) {
    match e
    case Tick(to) => to >= s.clock
    case Begin(g, _) => g !in s.calls
    case RLock(g) => IsAt(s, g, AtRead) && s.writer.None?
    case ReadCheck(g) => IsAt(s, g, Reading)
    case Lock(g) => IsAt(s, g, AtWrite) && s.writer.None? && s.readers == {}
    case WriteCheck(g) => IsAt(s, g, Writing)
    case FetchFails(g) => IsFetching(s, g)
    case FetchSucceeds(g, _) => IsFetching(s, g)
  }

  function MoveTo(s: State, g: nat, p: Place): State
    requires g in s.calls
  {
    s.(calls := s.calls[g := s.calls[g].(place := p)])
  }

  /** The call returns and gives up whatever lock it holds. */
  function Leave(s: State, g: nat): State {
    s.(calls := s.calls - {g}, readers := s.readers - {g}, writer := if s.writer == Some(g) then None else s.writer)
  }

  function Step(s: State, e: Event): State
    requires Enabled(s, e)
  {
    match e
    case Tick(to) => s.(clock := to)
    case Begin(g, url) => s.(calls := s.calls[g := Call(url, AtRead)])
    case RLock(g) => MoveTo(s, g, Reading).(readers := s.readers + {g})
    case ReadCheck(g) =>
      if Live(s, s.calls[g].url) then Leave(s, g) else MoveTo(s, g, AtWrite).(readers := s.readers - {g})
    case Lock(g) => MoveTo(s, g, Writing).(writer := Some(g))
    case WriteCheck(g) =>
      if Live(s, s.calls[g].url) then Leave(s, g) else MoveTo(s, g, Fetching(s.clock))
    case FetchFails(g) => Leave(s, g)
    case FetchSucceeds(g, keys) =>
      var c := s.calls[g];
      Leave(s, g).(sets := s.sets[c.url := Entry(keys, s.clock + TTL)],
                   fetches := s.fetches + [Fetch(c.url, keys, c.place.since, s.clock)])
  }

  /** What a step hands back to its caller: the URL asked for and the key set */
  function Returned(s: State, e: Event): Option<(string, string)>
    requires Enabled(s, e)
  {
    match e
    case ReadCheck(g) => if Live(s, s.calls[g].url) then Some((s.calls[g].url, s.sets[s.calls[g].url].keys)) else None
    case WriteCheck(g) => if Live(s, s.calls[g].url) then Some((s.calls[g].url, s.sets[s.calls[g].url].keys)) else None
    case FetchSucceeds(g, keys) => Some((s.calls[g].url, keys))
    case _ => None
  }

  predicate Initial(s: State) {
    s.sets == map[] && s.writer.None? && s.readers == {} && s.calls == map[] && s.fetches == []
  }

  ghost predicate IsRun(es: seq<Event>, ss: seq<State>) {
    && |ss| == |es| + 1 && Initial(ss[0])
    && (forall i :: 0 <= i < |es| ==> Enabled(ss[i], es[i]))
    && (forall i :: 0 <= i < |es| ==> ss[i + 1] == Step(ss[i], es[i]))
  }

  // ---------------------------------------------------------------- what every step keeps

  /** The locks are held exactly by the calls inside the two critical sections. */
  ghost predicate LocksOk(s: State) {
    && (forall g :: g in s.calls ==> (s.calls[g].place == Reading <==> g in s.readers))
    && (forall g :: g in s.calls ==>
          (s.calls[g].place == Writing || s.calls[g].place.Fetching? <==> s.writer == Some(g)))
    && s.readers <= s.calls.Keys && (s.writer.Some? ==> s.writer.value in s.calls && s.readers == {})
  }

  /** The entry of a URL lasts one TTL beyond every fetch of it. */
  ghost predicate Covered(s: State) {
    forall i :: 0 <= i < |s.fetches| ==> CoveredBy(s, s.fetches[i])
  }

  predicate CoveredBy(s: State, f: Fetch) {
    f.stored <= s.clock && f.url in s.sets && f.stored + TTL <= s.sets[f.url].expires
  }

  /** An entry is the result of a fetch of its URL, and expires one TTL after it. */
  ghost predicate EntriesOk(s: State) {
    forall url :: url in s.sets ==> exists i :: 0 <= i < |s.fetches| && Made(s.fetches[i], url, s.sets[url])
  }

  predicate Made(f: Fetch, url: string, e: Entry) { f.url == url && f.keys == e.keys && f.stored + TTL == e.expires }

  /** A call that fetches found no live entry when it began. */
  ghost predicate FetchersOk(s: State) {
    forall g :: IsFetching(s, g) ==>
      var c := s.calls[g];
      c.place.since <= s.clock && (c.url in s.sets ==> s.sets[c.url].expires <= c.place.since)
  }

  ghost predicate Spaced(s: State) {
    forall i, j :: 0 <= i < j < |s.fetches| && s.fetches[i].url == s.fetches[j].url ==>
      s.fetches[j].started >= s.fetches[i].stored + TTL
  }

  ghost predicate Inv(s: State) { LocksOk(s) && Covered(s) && EntriesOk(s) && FetchersOk(s) && Spaced(s) }

  lemma StepKeepsLocks(s: State, e: Event)
    requires LocksOk(s) && Enabled(s, e)
    ensures LocksOk(Step(s, e))
  {
  }

  lemma StepKeepsFetchers(s: State, e: Event)
    requires LocksOk(s) && FetchersOk(s) && Enabled(s, e)
    ensures FetchersOk(Step(s, e))
  {
  }

  /** What a step does to the cache and the record of fetches */
  lemma StepEffect(s: State, e: Event)
    requires Enabled(s, e)
    ensures var s' := Step(s, e);
            if e.FetchSucceeds? then
              var c := s.calls[e.g];
              && IsFetching(s, e.g) && s'.clock == s.clock
              && s'.sets == s.sets[c.url := Entry(e.keys, s.clock + TTL)]
              && s'.fetches == s.fetches + [Fetch(c.url, e.keys, c.place.since, s.clock)]
            else s'.sets == s.sets && s'.fetches == s.fetches && s'.clock >= s.clock
  {
  }

  lemma StepKeepsEntries(s: State, e: Event)
    requires EntriesOk(s) && Enabled(s, e)
    ensures EntriesOk(Step(s, e))
  {
    StepEffect(s, e);
    hide Step, Enabled;
    var s' := Step(s, e);
    if e.FetchSucceeds? {
      var url := s.calls[e.g].url;
      assert Made(s'.fetches[|s.fetches|], url, s'.sets[url]);
      forall u | u in s'.sets && u != url
        ensures exists i :: 0 <= i < |s'.fetches| && Made(s'.fetches[i], u, s'.sets[u]) {
        var i :| 0 <= i < |s.fetches| && Made(s.fetches[i], u, s.sets[u]);
        assert s'.fetches[i] == s.fetches[i];
      }
    }
  }

  lemma StepKeepsCover(s: State, e: Event)
    requires Covered(s) && FetchersOk(s) && Enabled(s, e)
    ensures Covered(Step(s, e))
  {
    StepEffect(s, e);
    hide Step, Enabled;
    var s' := Step(s, e);
    forall i | 0 <= i < |s'.fetches| ensures CoveredBy(s', s'.fetches[i]) {
      if i < |s.fetches| {
        assert s'.fetches[i] == s.fetches[i];
        assert CoveredBy(s, s.fetches[i]);
      }
    }
  }

  lemma StepKeepsSpacing(s: State, e: Event)
    requires Covered(s) && FetchersOk(s) && Spaced(s) && Enabled(s, e)
    ensures Spaced(Step(s, e))
  {
    StepEffect(s, e);
    hide Step, Enabled;
    if e.FetchSucceeds? {
      var c := s.calls[e.g];
      forall i | 0 <= i < |s.fetches| && s.fetches[i].url == c.url ensures s.fetches[i].stored + TTL <= c.place.since {
        assert CoveredBy(s, s.fetches[i]);
      }
      hide Covered, FetchersOk;
    }
  }

  lemma {:induction false} InvAlways(es: seq<Event>, ss: seq<State>, n: nat)
    requires IsRun(es, ss) && n < |ss|
    ensures Inv(ss[n])
  {
    hide Step, Enabled, LocksOk, EntriesOk, FetchersOk, Spaced, Covered;
    if n == 0 {
      InitialInv(ss[0]);
    } else {
      InvAlways(es, ss, n - 1);
      var s, e := ss[n - 1], es[n - 1];
      assert Enabled(s, e) && ss[n - 1 + 1] == Step(s, e);
      StepKeepsLocks(s, e);
      StepKeepsFetchers(s, e);
      StepKeepsEntries(s, e);
      StepKeepsCover(s, e);
      StepKeepsSpacing(s, e);
    }
  }

  lemma InitialInv(s: State)
    requires Initial(s)
    ensures Inv(s)
  {
  }

  // ---------------------------------------------------------------- main results

  /** In every interleaving at most one fetch is in progress, whatever its URL. */
  lemma SingleFlight(es: seq<Event>, ss: seq<State>, n: nat, g: nat, h: nat)
    requires IsRun(es, ss) && n < |ss| && IsFetching(ss[n], g) && IsFetching(ss[n], h)
    ensures g == h
  {
    hide IsRun;
    InvAlways(es, ss, n);
  }

  /** A successful fetch of a URL starts at least six hours after that URL's previous result was
      stored. */
  lemma FetchesAreSpaced(es: seq<Event>, ss: seq<State>, n: nat, i: nat, j: nat)
    requires IsRun(es, ss) && n < |ss| && i < j < |ss[n].fetches|
    requires ss[n].fetches[i].url == ss[n].fetches[j].url
    ensures ss[n].fetches[j].started >= ss[n].fetches[i].stored + 21_600_000_000_000
  {
    hide IsRun;
    InvAlways(es, ss, n);
  }

  /** A recorded fetch of this URL with this result, stored less than a TTL before `now` */
  predicate Supplies(f: Fetch, url: string, keys: string, now: int) {
    f.url == url && f.keys == keys && now < f.stored + TTL
  }

  ghost predicate WasFetched(s: State, url: string, keys: string, now: int) {
    exists i :: 0 <= i < |s.fetches| && Supplies(s.fetches[i], url, keys, now)
  }

  lemma ReturnIsLive(s: State, e: Event)
    requires Enabled(s, e) && Returned(s, e).Some? && !e.FetchSucceeds?
    ensures var (url, keys) := Returned(s, e).value; Live(s, url) && s.sets[url].keys == keys
  {
  }

  /** Every key set returned was fetched for the URL asked for, just now or less than six hours ago. */
  lemma ReturnedWasFetched(es: seq<Event>, ss: seq<State>, n: nat)
    requires IsRun(es, ss) && n < |es| && Returned(ss[n], es[n]).Some?
    ensures var (url, keys) := Returned(ss[n], es[n]).value;
            exists f :: f in ss[n + 1].fetches && f.url == url && f.keys == keys
                        && ss[n].clock < f.stored + 21_600_000_000_000
  {
    assert Enabled(ss[n], es[n]) && ss[n + 1] == Step(ss[n], es[n]);
    InvAlways(es, ss, n);
    ReturnSupplied(ss[n], es[n]);
    var (url, keys) := Returned(ss[n], es[n]).value;
    var i :| 0 <= i < |ss[n + 1].fetches| && Supplies(ss[n + 1].fetches[i], url, keys, ss[n].clock);
    assert ss[n + 1].fetches[i] in ss[n + 1].fetches;
  }

  lemma ReturnSupplied(s: State, e: Event)
    requires EntriesOk(s) && Enabled(s, e) && Returned(s, e).Some?
    ensures var (url, keys) := Returned(s, e).value; WasFetched(Step(s, e), url, keys, s.clock)
  {
    StepEffect(s, e);
    var s' := Step(s, e);
    var (url, keys) := Returned(s, e).value;
    if e.FetchSucceeds? {
      assert s.calls[e.g].url == url && e.keys == keys;
      hide Step, Enabled, EntriesOk, Returned;
      assert Supplies(s'.fetches[|s.fetches|], url, keys, s.clock);
    } else {
      ReturnIsLive(s, e);
      hide Step, Enabled, Returned;
      var i :| 0 <= i < |s.fetches| && Made(s.fetches[i], url, s.sets[url]);
      assert Supplies(s'.fetches[i], url, keys, s.clock);
    }
  }

  /** Only a successful fetch changes the cache, and only the entry of its own URL. */
  lemma OnlySuccessStores(s: State, e: Event, url: string)
    requires Enabled(s, e) && !(e.FetchSucceeds? && s.calls[e.g].url == url)
    ensures url in Step(s, e).sets <==> url in s.sets
    ensures url in s.sets ==> Step(s, e).sets[url] == s.sets[url]
  {
  }

  // ---------------------------------------------------------------- one caller alone

  /** The event if it can happen, nothing otherwise */
  function Then(s: State, e: Event): State { if Enabled(s, e) then Step(s, e) else s }

  /** The steps of one call, which begins at `now`, takes the write lock at `again` and is over at
      `later`; steps that the call does not come to cannot happen. */
  function BothChecks(s: State, g: nat, url: string, now: int, again: int): State {
    var s := Then(Then(Then(Then(s, Tick(now)), Begin(g, url)), RLock(g)), ReadCheck(g));
    Then(Then(Then(s, Tick(again)), Lock(g)), WriteCheck(g))
  }

  function CallSteps(s: State, g: nat, url: string, now: int, again: int, fetched: Option<string>, later: int): State {
    var s := Then(BothChecks(s, g, url, now, again), Tick(later));
    match fetched case Some(keys) => Then(s, FetchSucceeds(g, keys)) case None => Then(s, FetchFails(g))
  }

  predicate Idle(s: State) { s.calls == map[] && s.readers == {} && s.writer.None? }

  predicate Expired(s: State, url: string, now: int) { url in s.sets ==> s.sets[url].expires <= now }

  /** Alone, a call comes to its fetch exactly when there was no live entry when it began: the second
      check then finds none either. */
  lemma SoloChecks(s: State, g: nat, url: string, now: int, again: int)
    requires Idle(s) && s.clock <= now <= again
    ensures BothChecks(s, g, url, now, again)
         == if Expired(s, url, now)
            then s.(clock := again, writer := Some(g), calls := map[g := Call(url, Fetching(again))])
            else s.(clock := again)
  {
    var s1 := Then(Then(s, Tick(now)), Begin(g, url));
    assert s1 == s.(clock := now, calls := map[g := Call(url, AtRead)]);
    var s2 := Then(s1, RLock(g));
    assert s2 == s.(clock := now, calls := map[g := Call(url, Reading)], readers := {g});
    var s3 := Then(Then(s2, ReadCheck(g)), Tick(again));
    if Expired(s, url, now) {
      assert s3 == s.(clock := again, calls := map[g := Call(url, AtWrite)]);
      var s4 := Then(s3, Lock(g));
      assert s4 == s.(clock := again, calls := map[g := Call(url, Writing)], writer := Some(g));
    } else {
      assert s3 == s.(clock := again);
    }
  }

  lemma SoloCall(s: State, g: nat, url: string, now: int, again: int, fetched: Option<string>, later: int)
    requires Idle(s) && s.clock <= now <= again <= later
    ensures CallSteps(s, g, url, now, again, fetched, later)
         == if Expired(s, url, now) && fetched.Some?
            then s.(clock := later, sets := s.sets[url := Entry(fetched.value, later + TTL)],
                    fetches := s.fetches + [Fetch(url, fetched.value, again, later)])
            else s.(clock := later)
  {
    SoloChecks(s, g, url, now, again);
    var mid := BothChecks(s, g, url, now, again);
    hide BothChecks;
    if Expired(s, url, now) {
      assert Then(mid, Tick(later))
          == s.(clock := later, writer := Some(g), calls := map[g := Call(url, Fetching(again))]);
      hide Then;
      FetchEnds(s.(clock := later), g, url, again, fetched);
    } else {
      assert Then(mid, Tick(later)) == s.(clock := later);
    }
  }

  lemma FetchEnds(s: State, g: nat, url: string, since: int, fetched: Option<string>)
    requires Idle(s)
    ensures var s' := s.(writer := Some(g), calls := map[g := Call(url, Fetching(since))]);
            && Then(s', FetchFails(g)) == s
            && (fetched.Some? ==>
                  Then(s', FetchSucceeds(g, fetched.value))
                  == s.(sets := s.sets[url := Entry(fetched.value, s.clock + TTL)],
                        fetches := s.fetches + [Fetch(url, fetched.value, since, s.clock)]))
  {
    assert map[g := Call(url, Fetching(since))] - {g} == map[];
  }

  lemma ThenKeepsInv(s: State, e: Event)
    requires Inv(s)
    ensures Inv(Then(s, e))
  {
    hide Step, Enabled, LocksOk, EntriesOk, FetchersOk, Spaced, Covered;
    if Enabled(s, e) {
      StepKeepsLocks(s, e);
      StepKeepsFetchers(s, e);
      StepKeepsEntries(s, e);
      StepKeepsCover(s, e);
      StepKeepsSpacing(s, e);
    }
  }

  lemma CallKeepsInv(s: State, g: nat, url: string, now: int, again: int, fetched: Option<string>, later: int)
    requires Inv(s)
    ensures Inv(CallSteps(s, g, url, now, again, fetched, later))
  {
    hide Inv, Then;
    forall s: State, e: Event | Inv(s) ensures Inv(Then(s, e)) {
      ThenKeepsInv(s, e);
    }
  }

  /** An entry that is live was fetched for its URL less than a TTL ago. */
  lemma LiveWasFetched(s: State, url: string, now: int)
    requires Inv(s) && !Expired(s, url, now)
    ensures WasFetched(s, url, s.sets[url].keys, now)
  {
    var i :| 0 <= i < |s.fetches| && Made(s.fetches[i], url, s.sets[url]);
    assert Supplies(s.fetches[i], url, s.sets[url].keys, now);
  }

  class Cache {
    var sets: map<string, Entry>
    ghost var clock: int
    ghost var fetches: seq<Fetch>

    /** The cache between two calls */
    ghost function Alone(): State
      reads this
    {
      State(sets, clock, None, {}, map[], fetches)
    }

    constructor (ghost now: int)
      ensures Initial(Alone()) && Inv(Alone())
    {
      sets := map[];
      clock, fetches := now, [];
    }

    /** `get` by a single caller is the sequence of its steps under both locks; a set it returns was
        fetched for the URL asked for, less than a TTL before the call began or during it. */
    method Get(ghost g: nat, url: string, now: int, ghost again: int, fetched: Option<string>, later: int)
      returns (r: Option<string>)
      requires clock <= now <= again <= later && Inv(Alone())
      modifies this
      ensures Alone() == CallSteps(old(Alone()), g, url, now, again, fetched, later) && Inv(Alone())
      ensures r.Some? ==> WasFetched(Alone(), url, r.value, now)
      ensures r.None? ==> fetched.None? && sets == old(sets) && fetches == old(fetches)
    {
      hide Inv, WasFetched, CallSteps;
      SoloCall(Alone(), g, url, now, again, fetched, later);
      CallKeepsInv(Alone(), g, url, now, again, fetched, later);
      clock := later;
      if url in sets && now < sets[url].expires {
        LiveWasFetched(Alone(), url, now);
        return Some(sets[url].keys);
      }
      if fetched.None? {
        return None;
      }
      sets := sets[url := Entry(fetched.value, later + TTL)];
      fetches := fetches + [Fetch(url, fetched.value, again, later)];
      LiveWasFetched(Alone(), url, now);
      return fetched;
    }
  }
}
