/**
 The response cache of one contract: a Redis hash whose fields are cached responses and whose
 expiry is set by a separate call after a response was stored. Requests, workers that commit and
 invalidate, and the clock interleave between the calls.
 */
module ResponseCache {
  import opened Wrappers
  import opened Runs

  const EXPIRE: nat := 60

  /** A response, known by when its handler first read the database, and by how many commits had
      changed the rows by then. */
  datatype Entry = Entry(readAt: nat, version: nat)

  /** The hash. `expireCalledAt` is the time of the last `expire` call, if there was one; `bornAt`
      is when the first field was stored. */
  datatype Hash = Hash(fields: map<string, Entry>, expireCalledAt: Option<nat>, bornAt: nat)

  /** The handler reads the page and then the count. A hit records when it was served, and how many
      invalidations there had been. */
  datatype Phase =
    | Asking
    | Computing
    | Counting(entry: Entry)
    | Storing(entry: Entry)
    | CheckingTtl(entry: Entry)
    | SettingExpiry(entry: Entry)
    | Computed(entry: Entry)
    | Hit(entry: Entry, at: nat, unlinks: nat)

  datatype Request = Request(field: string, phase: Phase)

  /** `version` counts the commits to the contract's rows, `unlinks` the invalidations. */
  datatype State = State(now: nat, hash: Option<Hash>, requests: seq<Request>, version: nat, unlinks: nat)

  datatype Step = Arrive(field: string) | Advance(i: nat) | Commit | Invalidate | Tick | Crash(i: nat)

  /******* The Redis calls *******/

  function Stored(hash: Option<Hash>, field: string, entry: Entry, now: nat): Hash {
    match hash
    case None => Hash(map[field := entry], None, now)
    case Some(h) => h.(fields := h.fields[field := entry])
  }

  /** `ttl` answers -1: the key exists and has no expiry. */
  predicate HasNoExpiry(hash: Option<Hash>) {
    hash.Some? && hash.value.expireCalledAt.None?
  }

  function Expiring(hash: Option<Hash>, now: nat): Option<Hash> {
    match hash
    case None => None
    case Some(h) => Some(h.(expireCalledAt := Some(now)))
  }

  /** Redis drops the key when its time is over. */
  function AtTime(hash: Option<Hash>, now: nat): Option<Hash> {
    if hash.Some? && hash.value.expireCalledAt.Some? && hash.value.expireCalledAt.value + EXPIRE <= now then None
    else hash
  }

  /******* The wrapper, call by call *******/

  predicate Finished(phase: Phase) {
    phase.Computed? || phase.Hit?
  }

  function NextPhase(s: State, r: Request): Phase
    requires !Finished(r.phase)
  {
    match r.phase
    case Asking =>
      if s.hash.Some? && r.field in s.hash.value.fields then Hit(s.hash.value.fields[r.field], s.now, s.unlinks)
      else Computing
    case Computing => Counting(Entry(s.now, s.version))
    case Counting(entry) => Storing(entry)
    case Storing(entry) => CheckingTtl(entry)
    case CheckingTtl(entry) => if HasNoExpiry(s.hash) then SettingExpiry(entry) else Computed(entry)
    case SettingExpiry(entry) => Computed(entry)
  }

  function NextHash(s: State, r: Request): Option<Hash> {
    match r.phase
    case Storing(entry) => Some(Stored(s.hash, r.field, entry, s.now))
    case SettingExpiry(_) => Expiring(s.hash, s.now)
    case _ => s.hash
  }

  predicate Enabled(s: State, step: Step) {
    match step
    case Advance(i) => i < |s.requests| && !Finished(s.requests[i].phase)
    case Crash(i) => i < |s.requests|
    case _ => true
  }

  function Apply(s: State, step: Step): State
    requires Enabled(s, step)
  {
    match step
    case Arrive(field) => s.(requests := s.requests + [Request(field, Asking)])
    case Advance(i) =>
      var r := s.requests[i];
      s.(hash := NextHash(s, r), requests := s.requests[i := Request(r.field, NextPhase(s, r))])
    case Commit => s.(version := s.version + 1)
    case Invalidate => s.(hash := None, unlinks := s.unlinks + 1)
    case Tick => s.(now := s.now + 1, hash := AtTime(s.hash, s.now + 1))
    case Crash(i) => s.(requests := s.requests[..i] + s.requests[i + 1..])
  }

  ghost predicate Initial(s: State) {
    s.hash == None && s.requests == []
  }

  /******* Every key gets an expiry *******/

  /** The request has stored its response and not finished the expiry step. */
  predicate ExpiryPending(phase: Phase) {
    phase.CheckingTtl? || phase.SettingExpiry?
  }

  ghost predicate IsPending(s: State, i: int) {
    0 <= i < |s.requests| && ExpiryPending(s.requests[i].phase)
  }

  /** A key without expiry has a writer that still owes it one. */
  ghost predicate Attended(s: State) {
    HasNoExpiry(s.hash) ==> exists i :: IsPending(s, i)
  }

  /** A crash does not take the last writer that owes the key an expiry. */
  ghost predicate LeavesWriter(s: State, step: Step) {
    step.Crash? && HasNoExpiry(s.hash) && IsPending(s, step.i) ==> exists j :: j != step.i && IsPending(s, j)
  }

  lemma PendingAfterCrash(s: State, i: nat, j: int)
    requires i < |s.requests| && j != i
    ensures IsPending(s, j) <==> IsPending(Apply(s, Crash(i)), if j < i then j else j - 1)
  {
  }

  lemma CrashKeepsWriterIff(s: State, i: nat)
    requires Attended(s) && i < |s.requests|
    ensures Attended(Apply(s, Crash(i))) <==> LeavesWriter(s, Crash(i))
  {
    var t := Apply(s, Crash(i));
    if HasNoExpiry(s.hash) {
      if k :| IsPending(t, k) {
        PendingAfterCrash(s, i, if k < i then k else k + 1);
      }
      forall j | j != i && IsPending(s, j) ensures IsPending(t, if j < i then j else j - 1) {
        PendingAfterCrash(s, i, j);
      }
    }
  }

  lemma AdvanceKeepsAttended(s: State, i: nat)
    requires Attended(s) && Enabled(s, Advance(i))
    ensures Attended(Apply(s, Advance(i)))
  {
    var t := Apply(s, Advance(i));
    if HasNoExpiry(t.hash) {
      if HasNoExpiry(s.hash) {
        var j :| IsPending(s, j);
        assert IsPending(t, j);
      } else {
        assert IsPending(t, i);
      }
    }
  }

  /** Of all steps only a crash can leave a key without expiry unattended, and exactly the crash of
      the last writer that owes it one does. */
  lemma StaysAttendedIff(s: State, step: Step)
    requires Attended(s) && Enabled(s, step)
    ensures Attended(Apply(s, step)) <==> LeavesWriter(s, step)
  {
    match step
    case Advance(i) => AdvanceKeepsAttended(s, i);
    case Crash(i) => CrashKeepsWriterIff(s, i);
    case Arrive(field) =>
      if j :| IsPending(s, j) {
        assert IsPending(Apply(s, step), j);
      }
    case Tick =>
      if j :| IsPending(s, j) {
        assert IsPending(Apply(s, step), j);
      }
    case Commit =>
      if j :| IsPending(s, j) {
        assert IsPending(Apply(s, step), j);
      }
    case Invalidate =>
  }

  /** A key with an expiry has time left. */
  predicate HasTimeLeft(s: State) {
    s.hash.Some? && s.hash.value.expireCalledAt.Some? ==>
      s.hash.value.expireCalledAt.value <= s.now < s.hash.value.expireCalledAt.value + EXPIRE
  }

  /** Time drops a key exactly when 60 seconds have passed since its `expire` call, and changes it in no
      other way. */
  lemma TickDropsIff(s: State)
    requires s.hash.Some?
    ensures var hash := s.hash.value;
            if hash.expireCalledAt.Some? && s.now + 1 >= hash.expireCalledAt.value + 60 then Apply(s, Tick).hash == None
            else Apply(s, Tick).hash == s.hash
  {
  }

  /** In every run without such a crash, a key without expiry has a writer that still owes it one;
      once the writers are done every key ends within 60 seconds of the last `expire` call. */
  lemma KeysExpire(s: State, steps: seq<Step>)
    requires Initial(s) && IsRun(Apply, s, steps) && Along(Apply, LeavesWriter, s, steps)
    ensures var t := Final(Apply, s, steps);
            && (HasNoExpiry(t.hash) ==> exists i :: IsPending(t, i))
            && (t.hash.Some? && !(exists i :: IsPending(t, i)) ==>
                  t.hash.value.expireCalledAt.Some? && t.now < t.hash.value.expireCalledAt.value + 60)
  {
    var inv := t => Attended(t) && HasTimeLeft(t);
    forall t, step | inv(t) && Enabled(t, step) && LeavesWriter(t, step) ensures inv(Apply(t, step)) {
      StaysAttendedIff(t, step);
    }
    RunKeeps(Apply, LeavesWriter, inv, s, steps);
  }

  /******* A key left without expiry *******/

  /** The steps that end a key without expiry, or give it one. */
  ghost predicate EndsOrExpires(s: State, step: Step) {
    step.Invalidate? || (step.Advance? && step.i < |s.requests| && s.requests[step.i].phase.SettingExpiry?)
  }

  ghost predicate LeavesKey(s: State, step: Step) {
    !EndsOrExpires(s, step)
  }

  /** No other step does, and in particular no passage of time. */
  lemma KeyStaysIff(s: State, step: Step)
    requires HasNoExpiry(s.hash) && Enabled(s, step)
    ensures HasNoExpiry(Apply(s, step).hash) <==> LeavesKey(s, step)
  {
  }

  ghost predicate HoldsSince(hash: Option<Hash>, fields: set<string>, bornAt: nat) {
    HasNoExpiry(hash) && hash.value.bornAt == bornAt && fields <= hash.value.fields.Keys
  }

  /** A key that a crash left without a writer stays, with all its fields, until an invalidation or
      until a later writer sets the expiry. */
  lemma AbandonedKeyStays(s: State, i: nat, steps: seq<Step>)
    requires Attended(s) && Enabled(s, Crash(i)) && !LeavesWriter(s, Crash(i))
    requires IsRun(Apply, Apply(s, Crash(i)), steps) && Along(Apply, LeavesKey, Apply(s, Crash(i)), steps)
    ensures !Attended(Apply(s, Crash(i)))
    ensures HoldsSince(Final(Apply, Apply(s, Crash(i)), steps).hash, s.hash.value.fields.Keys, s.hash.value.bornAt)
  {
    CrashKeepsWriterIff(s, i);
    var fields, bornAt := s.hash.value.fields.Keys, s.hash.value.bornAt;
    var inv := (t: State) => HoldsSince(t.hash, fields, bornAt);
    forall t, step | inv(t) && Enabled(t, step) && LeavesKey(t, step) ensures inv(Apply(t, step)) {
      KeyStaysIff(t, step);
    }
    RunKeeps(Apply, LeavesKey, inv, Apply(s, Crash(i)), steps);
  }

  /** A writer ends within a second, and a crash leaves another one. */
  ghost predicate Relayed(s: State, step: Step) {
    Prompt(1, s, step) && LeavesWriter(s, step)
  }

  /** A request that misses, up to the point where it has stored its response. */
  lemma StoreMiss(s: State, field: string) returns (steps: seq<Step>)
    requires s.hash.Some? ==> field !in s.hash.value.fields
    ensures IsRun(Apply, s, steps) && Along(Apply, Relayed, s, steps)
    ensures var entry := Entry(s.now, s.version);
            Final(Apply, s, steps)
            == s.(hash := Some(Stored(s.hash, field, entry, s.now)),
                  requests := s.requests + [Request(field, CheckingTtl(entry))])
  {
    var n, entry := |s.requests|, Entry(s.now, s.version);
    var phases := [Asking, Computing, Counting(entry), Storing(entry), CheckingTtl(entry)];
    steps := [Arrive(field)];
    assert Apply(s, Arrive(field)).requests == s.requests + [Request(field, Asking)];
    OneStep(Apply, s, Arrive(field));
    for k := 0 to 4
      invariant IsRun(Apply, s, steps) && Along(Apply, Relayed, s, steps)
      invariant Final(Apply, s, steps)
                == s.(hash := if k < 4 then s.hash else Some(Stored(s.hash, field, entry, s.now)),
                      requests := s.requests + [Request(field, phases[k])])
    {
      var t := Final(Apply, s, steps);
      assert Enabled(t, Advance(n)) && t.requests[n] == Request(field, phases[k]);
      AlongExtend(Apply, Relayed, s, steps, Advance(n));
      steps := steps + [Advance(n)];
    }
  }

  /** The next miss is such a writer: it gives the key an expiry, and with it 60 more seconds to the
      fields that were stored before. */
  lemma NextMissSetsExpiry(s: State, field: string) returns (steps: seq<Step>)
    requires HasNoExpiry(s.hash) && field !in s.hash.value.fields
    ensures IsRun(Apply, s, steps)
    ensures Final(Apply, s, steps).hash
            == Some(Hash(s.hash.value.fields[field := Entry(s.now, s.version)], Some(s.now), s.hash.value.bornAt))
  {
    var n := |s.requests|;
    steps := StoreMiss(s, field);
    var t := Final(Apply, s, steps);
    var t1 := Apply(t, Advance(n));
    var t2 := Apply(t1, Advance(n));
    Unfold(Apply, [t, t1, t2], [Advance(n), Advance(n)]);
    Append(Apply, s, steps, [Advance(n), Advance(n)]);
    steps := steps + [Advance(n), Advance(n)];
  }

  /** Left alone, a request does what the method `Call` of the endpoint promises: a hit changes nothing. */
  lemma HitAlone(s: State, field: string) returns (steps: seq<Step>)
    requires s.hash.Some? && field in s.hash.value.fields
    ensures IsRun(Apply, s, steps)
    ensures Final(Apply, s, steps)
            == s.(requests := s.requests + [Request(field, Hit(s.hash.value.fields[field], s.now, s.unlinks))])
  {
    var n := |s.requests|;
    var s1 := Apply(s, Arrive(field));
    var s2 := Apply(s1, Advance(n));
    steps := [Arrive(field), Advance(n)];
    Unfold(Apply, [s, s1, s2], steps);
  }

  /** A miss stores its response and leaves the key with an expiry: the one it had, else a new one. */
  lemma MissAlone(s: State, field: string) returns (steps: seq<Step>)
    requires s.hash.Some? ==> field !in s.hash.value.fields
    ensures IsRun(Apply, s, steps)
    ensures var entry, hash := Entry(s.now, s.version), Final(Apply, s, steps).hash;
            && Final(Apply, s, steps).requests == s.requests + [Request(field, Computed(entry))]
            && hash.Some?
            && hash.value.fields == (if s.hash.Some? then s.hash.value.fields else map[])[field := entry]
            && hash.value.expireCalledAt
               == (if s.hash.Some? && s.hash.value.expireCalledAt.Some? then s.hash.value.expireCalledAt
                   else Some(s.now))
  {
    var n := |s.requests|;
    steps := StoreMiss(s, field);
    var t := Final(Apply, s, steps);
    assert Enabled(t, Advance(n));
    Extend(Apply, s, steps, Advance(n));
    steps := steps + [Advance(n)];
    if HasNoExpiry(t.hash) {
      var u := Final(Apply, s, steps);
      assert Enabled(u, Advance(n));
      Extend(Apply, s, steps, Advance(n));
      steps := steps + [Advance(n)];
    }
  }

  /** A crash between storing and expiring leaves a key that no passage of time removes. */
  lemma CrashedWriterLeavesKey(ticks: nat) returns (s: State, steps: seq<Step>)
    ensures Initial(s) && IsRun(Apply, s, steps)
    ensures Final(Apply, s, steps).now == ticks && HasNoExpiry(Final(Apply, s, steps).hash)
  {
    s := State(0, None, [], 0, 0);
    steps := StoreMiss(s, "");
    var t := Final(Apply, s, steps);
    assert Apply(t, Crash(0)).requests == [];
    Extend(Apply, s, steps, Crash(0));
    steps := steps + [Crash(0)];
    var rest := Wait(0, Final(Apply, s, steps), ticks);
    Append(Apply, s, steps, rest);
    steps := steps + rest;
  }

  lemma {:induction false} Wait(delay: nat, s: State, ticks: nat) returns (steps: seq<Step>)
    requires HasNoExpiry(s.hash) && s.requests == []
    ensures IsRun(Apply, s, steps) && Final(Apply, s, steps) == s.(now := s.now + ticks)
    ensures Along(Apply, Careful(delay), s, steps)
    decreases ticks
  {
    if ticks == 0 {
      steps := [];
    } else {
      var rest := Wait(delay, Apply(s, Tick), ticks - 1);
      OneStep(Apply, s, Tick);
      AlongAppend(Apply, Careful(delay), s, [Tick], rest);
      steps := [Tick] + rest;
    }
  }

  /******* How old a served response can be *******/

  /** The request has read the database and not yet stored its response. */
  predicate HoldsResponse(phase: Phase) {
    phase.Counting? || phase.Storing?
  }

  predicate IsWriter(phase: Phase) {
    HoldsResponse(phase) || ExpiryPending(phase)
  }

  /** From its first read a request takes at most `delay` to the end. */
  ghost predicate Prompt(delay: nat, s: State, step: Step) {
    step.Tick? ==> forall r | r in s.requests && IsWriter(r.phase) :: s.now + 1 <= r.phase.entry.readAt + delay
  }

  /** The writer read the database no later than the key was born, as the one that created the key
      did. */
  ghost predicate Owes(s: State, i: int) {
    s.hash.Some? && IsPending(s, i) && s.requests[i].phase.entry.readAt <= s.hash.value.bornAt
  }

  ghost predicate Owed(s: State) {
    HasNoExpiry(s.hash) ==> exists i :: Owes(s, i)
  }

  /** A crash does not take the last such writer. */
  ghost predicate LeavesEarlyWriter(s: State, step: Step) {
    step.Crash? && HasNoExpiry(s.hash) && Owes(s, step.i) ==> exists j :: j != step.i && Owes(s, j)
  }

  ghost function Careful(delay: nat): (State, Step) -> bool {
    (s, step) => Prompt(delay, s, step) && LeavesEarlyWriter(s, step)
  }

  ghost predicate RequestTimed(delay: nat, s: State, r: Request) {
    && (IsWriter(r.phase) ==> r.phase.entry.readAt <= s.now <= r.phase.entry.readAt + delay)
    && (r.phase.SettingExpiry? && s.hash.Some? ==> r.phase.entry.readAt <= s.hash.value.bornAt + delay)
    && IsFresh(delay, r)
  }

  predicate IsFresh(delay: nat, r: Request) {
    r.phase.Hit? ==> r.phase.at <= r.phase.entry.readAt + 3 * delay + EXPIRE
  }

  ghost predicate HashTimed(delay: nat, s: State, h: Hash) {
    && h.bornAt <= s.now && (exists field :: field in h.fields)
    && (forall field | field in h.fields :: h.fields[field].readAt <= s.now)
    && (forall field | field in h.fields :: h.bornAt <= h.fields[field].readAt + delay)
    && (h.expireCalledAt.Some? ==> h.expireCalledAt.value <= h.bornAt + 2 * delay)
  }

  ghost predicate Timed(delay: nat, s: State) {
    && Owed(s) && HasTimeLeft(s)
    && (s.hash.Some? ==> HashTimed(delay, s, s.hash.value))
    && forall r | r in s.requests :: RequestTimed(delay, s, r)
  }

  /** A key without expiry is young, because its creator is a writer. */
  lemma KeyWithoutExpiryIsYoung(delay: nat, s: State)
    requires Timed(delay, s) && HasNoExpiry(s.hash)
    ensures s.now <= s.hash.value.bornAt + delay
  {
    var j :| Owes(s, j);
    assert s.requests[j] in s.requests;
  }

  lemma AdvanceKeepsTimed(delay: nat, s: State, i: nat)
    requires Timed(delay, s) && Enabled(s, Advance(i))
    ensures Timed(delay, Apply(s, Advance(i)))
  {
    var s', r := Apply(s, Advance(i)), s.requests[i];
    assert r in s.requests;
    if HasNoExpiry(s.hash) {
      KeyWithoutExpiryIsYoung(delay, s);
    }
    assert RequestTimed(delay, s', s'.requests[i]);
    assert r.phase.Storing? ==> r.field in s'.hash.value.fields;
    forall q | q in s'.requests ensures RequestTimed(delay, s', q) {
      assert q == s'.requests[i] || q in s.requests;
    }
    if HasNoExpiry(s'.hash) {
      if HasNoExpiry(s.hash) {
        var j :| Owes(s, j);
        assert Owes(s', j);
      } else {
        assert Owes(s', i);
      }
    }
  }

  lemma OwedAfterCrashIff(s: State, i: nat)
    requires Owed(s) && i < |s.requests|
    ensures Owed(Apply(s, Crash(i))) <==> LeavesEarlyWriter(s, Crash(i))
  {
    var t := Apply(s, Crash(i));
    if HasNoExpiry(s.hash) {
      if k :| Owes(t, k) {
        assert Owes(s, if k < i then k else k + 1);
      }
      forall j | j != i && Owes(s, j) ensures Owes(t, if j < i then j else j - 1) {
      }
    }
  }

  lemma StepKeepsTimed(delay: nat, s: State, step: Step)
    requires Timed(delay, s) && Enabled(s, step) && Careful(delay)(s, step)
    ensures Timed(delay, Apply(s, step))
  {
    match step
    case Advance(i) => AdvanceKeepsTimed(delay, s, i);
    case Crash(i) =>
      OwedAfterCrashIff(s, i);
      forall r | r in Apply(s, step).requests ensures r in s.requests {
      }
    case Arrive(field) =>
      if j :| Owes(s, j) {
        assert Owes(Apply(s, step), j);
      }
    case Tick =>
      if HasNoExpiry(s.hash) {
        var j :| Owes(s, j);
        assert Owes(Apply(s, step), j);
      }
    case Commit =>
      if j :| Owes(s, j) {
        assert Owes(Apply(s, step), j);
      }
    case Invalidate =>
  }

  lemma CarefulRunKeepsTimed(delay: nat, s: State, steps: seq<Step>)
    requires Timed(delay, s) && IsRun(Apply, s, steps) && Along(Apply, Careful(delay), s, steps)
    ensures Timed(delay, Final(Apply, s, steps))
  {
    var ok, inv := Careful(delay), t => Timed(delay, t);
    forall t, step | inv(t) && Enabled(t, step) && ok(t, step) ensures inv(Apply(t, step)) {
      StepKeepsTimed(delay, t, step);
    }
    RunKeeps(Apply, ok, inv, s, steps);
  }

  /** If a request that does not crash finishes within `delay` of its first read of the database, and
      no crash takes the last early writer of a key without expiry, then nobody is served what was
      read more than 60 seconds and three delays ago, invalidations and racing writers included. */
  lemma StalenessIsBounded(delay: nat, s: State, steps: seq<Step>)
    requires Initial(s) && IsRun(Apply, s, steps) && Along(Apply, Careful(delay), s, steps)
    ensures forall r | r in Final(Apply, s, steps).requests :: IsFresh(delay, r)
  {
    CarefulRunKeepsTimed(delay, s, steps);
  }

  /******* The hypothesis on crashes is exact *******/

  /** The requests under way all crash. */
  lemma {:induction false} AllCrash(delay: nat, s: State) returns (steps: seq<Step>)
    requires HasNoExpiry(s.hash) && !Owed(s)
    ensures IsRun(Apply, s, steps) && Along(Apply, Careful(delay), s, steps)
    ensures Final(Apply, s, steps) == s.(requests := [])
    decreases |s.requests|
  {
    if s.requests == [] {
      steps := [];
    } else {
      var t := Apply(s, Crash(0));
      assert LeavesEarlyWriter(s, Crash(0));
      OwedAfterCrash(s);
      var rest := AllCrash(delay, t);
      OneStep(Apply, s, Crash(0));
      AlongAppend(Apply, Careful(delay), s, [Crash(0)], rest);
      steps := [Crash(0)] + rest;
    }
  }

  lemma OwedAfterCrash(s: State)
    requires HasNoExpiry(s.hash) && !Owed(s) && s.requests != []
    ensures !Owed(Apply(s, Crash(0)))
  {
    var t := Apply(s, Crash(0));
    if k :| Owes(t, k) {
      assert Owes(s, k + 1);
    }
  }

  lemma ServeField(delay: nat, s: State, field: string) returns (steps: seq<Step>)
    requires s.hash.Some? && field in s.hash.value.fields && s.requests == []
    ensures IsRun(Apply, s, steps) && Along(Apply, Careful(delay), s, steps)
    ensures Final(Apply, s, steps).requests == [Request(field, Hit(s.hash.value.fields[field], s.now, s.unlinks))]
  {
    var s1 := Apply(s, Arrive(field));
    var s2 := Apply(s1, Advance(0));
    OneStep(Apply, s, Arrive(field));
    OneStep(Apply, s1, Advance(0));
    AlongAppend(Apply, Careful(delay), s, [Arrive(field)], [Advance(0)]);
    steps := [Arrive(field)] + [Advance(0)];
  }

  /** A key that nobody owes an expiry can be served at any age. */
  lemma OldResponseIsServed(delay: nat, s: State, age: nat) returns (steps: seq<Step>)
    requires HasNoExpiry(s.hash) && !Owed(s) && HashTimed(delay, s, s.hash.value)
    ensures IsRun(Apply, s, steps) && Along(Apply, Careful(delay), s, steps)
    ensures exists r :: r in Final(Apply, s, steps).requests && r.phase.Hit?
                        && r.phase.at >= r.phase.entry.readAt + age
  {
    steps := AllCrash(delay, s);
    var t := Final(Apply, s, steps);
    var wait := Wait(delay, t, age);
    var u := Final(Apply, t, wait);
    var field :| field in u.hash.value.fields;
    var serve := ServeField(delay, u, field);
    AlongAppend(Apply, Careful(delay), t, wait, serve);
    AlongAppend(Apply, Careful(delay), s, steps, wait + serve);
    steps := steps + (wait + serve);
    var last := Final(Apply, s, steps).requests;
    assert last[0] in last;
  }

  /** From any state of a careful run, all careful continuations of a crash serve fresh responses
      only, exactly if the crash does not take the last early writer of a key without expiry. */
  lemma FreshAfterCrashIff(delay: nat, s: State, i: nat)
    requires Timed(delay, s) && i < |s.requests|
    ensures LeavesEarlyWriter(s, Crash(i)) <==>
            forall steps ::
              IsRun(Apply, Apply(s, Crash(i)), steps) && Along(Apply, Careful(delay), Apply(s, Crash(i)), steps) ==>
                forall r | r in Final(Apply, Apply(s, Crash(i)), steps).requests :: IsFresh(delay, r)
  {
    var t := Apply(s, Crash(i));
    OwedAfterCrashIff(s, i);
    if LeavesEarlyWriter(s, Crash(i)) {
      StepKeepsTimed(delay, s, Crash(i));
      forall steps | IsRun(Apply, t, steps) && Along(Apply, Careful(delay), t, steps)
        ensures forall r | r in Final(Apply, t, steps).requests :: IsFresh(delay, r)
      {
        CarefulRunKeepsTimed(delay, t, steps);
      }
    } else {
      var steps := OldResponseIsServed(delay, t, 3 * delay + EXPIRE + 1);
    }
  }

  /******* Crashes one after the other *******/

  function Field(k: nat): (field: string)
    ensures |field| == k
  {
    seq(k, _ => 'x')
  }

  /** At time `k` the key of time 0 has a writer of time `k`. */
  ghost predicate RelayAt(k: nat, s: State) {
    && s.now == k && HasNoExpiry(s.hash)
    && "" in s.hash.value.fields && s.hash.value.fields[""] == Entry(0, 0)
    && (forall field | field in s.hash.value.fields :: |field| <= k)
    && s.requests == [Request(Field(k), CheckingTtl(Entry(k, s.version)))]
  }

  /** At time `k + 1` a second writer has stored its response. */
  ghost predicate RelayJoined(k: nat, s: State) {
    && s.now == k + 1 && HasNoExpiry(s.hash)
    && "" in s.hash.value.fields && s.hash.value.fields[""] == Entry(0, 0)
    && (forall field | field in s.hash.value.fields :: |field| <= k + 1)
    && |s.requests| == 2 && ExpiryPending(s.requests[0].phase)
    && s.requests[1] == Request(Field(k + 1), CheckingTtl(Entry(k + 1, s.version)))
  }

  lemma RelayJoin(k: nat, s: State) returns (steps: seq<Step>)
    requires RelayAt(k, s)
    ensures IsRun(Apply, s, steps) && Along(Apply, Relayed, s, steps)
    ensures RelayJoined(k, Final(Apply, s, steps))
  {
    var t := Apply(s, Tick);
    OneStep(Apply, s, Tick);
    steps := StoreMiss(t, Field(k + 1));
    AlongAppend(Apply, Relayed, s, [Tick], steps);
    steps := [Tick] + steps;
  }

  lemma RelayCrash(k: nat, s: State)
    requires RelayJoined(k, s)
    ensures Relayed(s, Crash(0)) && RelayAt(k + 1, Apply(s, Crash(0)))
  {
    assert IsPending(s, 1);
    assert Apply(s, Crash(0)).requests == [s.requests[1]];
  }

  /** The next writer stores its response, then the one before crashes. */
  lemma RelayOnce(k: nat, s: State) returns (steps: seq<Step>)
    requires RelayAt(k, s)
    ensures IsRun(Apply, s, steps) && Along(Apply, Relayed, s, steps)
    ensures RelayAt(k + 1, Final(Apply, s, steps))
  {
    steps := RelayJoin(k, s);
    var t := Final(Apply, s, steps);
    RelayCrash(k, t);
    assert Enabled(t, Crash(0));
    AlongExtend(Apply, Relayed, s, steps, Crash(0));
    steps := steps + [Crash(0)];
  }

  lemma {:induction false} Relay(k: nat, s: State, rounds: nat) returns (steps: seq<Step>)
    requires RelayAt(k, s)
    ensures IsRun(Apply, s, steps) && Along(Apply, Relayed, s, steps)
    ensures RelayAt(k + rounds, Final(Apply, s, steps))
    decreases rounds
  {
    if rounds == 0 {
      steps := [];
    } else {
      steps := RelayOnce(k, s);
      var rest := Relay(k + 1, Final(Apply, s, steps), rounds - 1);
      AlongAppend(Apply, Relayed, s, steps, rest);
      steps := steps + rest;
    }
  }

  /** That some writer is left is not enough for freshness: writers that crash one after the other,
      each leaving the next, keep a key of any age from expiring, and its first response is served. */
  lemma RelayedCrashesServeOldResponses(age: nat) returns (s: State, steps: seq<Step>)
    ensures Initial(s) && IsRun(Apply, s, steps) && Along(Apply, Relayed, s, steps)
    ensures Attended(Final(Apply, s, steps))
    ensures exists r :: r in Final(Apply, s, steps).requests
                        && r.phase.Hit? && r.phase.entry.readAt == 0 && r.phase.at == age
  {
    s := State(0, None, [], 0, 0);
    steps := StoreMiss(s, "");
    assert Field(0) == "";
    var rest := Relay(0, Final(Apply, s, steps), age);
    AlongAppend(Apply, Relayed, s, steps, rest);
    steps := steps + rest;
    var serve := FirstIsServed(age, Final(Apply, s, steps));
    AlongAppend(Apply, Relayed, s, steps, serve);
    steps := steps + serve;
  }

  lemma FirstIsServed(k: nat, s: State) returns (steps: seq<Step>)
    requires RelayAt(k, s)
    ensures IsRun(Apply, s, steps) && Along(Apply, Relayed, s, steps)
    ensures Attended(Final(Apply, s, steps))
    ensures exists r :: r in Final(Apply, s, steps).requests
                        && r.phase.Hit? && r.phase.entry.readAt == 0 && r.phase.at == k
  {
    var s1 := s.(requests := [s.requests[0], Request("", Asking)]);
    var s2 := s.(requests := [s.requests[0], Request("", Hit(Entry(0, 0), k, s.unlinks))]);
    assert s1 == Apply(s, Arrive("")) && s2 == Apply(s1, Advance(1)) && IsPending(s2, 0);
    steps := [Arrive(""), Advance(1)];
    AlongUnfold(Apply, Relayed, [s, s1, s2], steps);
    assert s2.requests[1] in s2.requests;
  }

  /******* What an invalidation guarantees *******/

  /** No hit is from after an invalidation that is still to come. */
  ghost predicate Counted(s: State) {
    forall r | r in s.requests && r.phase.Hit? :: r.phase.unlinks <= s.unlinks
  }

  lemma RunsAreCounted(s: State, steps: seq<Step>)
    requires Initial(s) && IsRun(Apply, s, steps)
    ensures Counted(Final(Apply, s, steps))
  {
    forall t, step | Counted(t) && Enabled(t, step) ensures Counted(Apply(t, step)) {
      var t' := Apply(t, step);
      forall r | r in t'.requests && r.phase.Hit? ensures r.phase.unlinks <= t'.unlinks {
        assert r in t.requests || (step.Advance? && r == t'.requests[step.i]);
      }
    }
    EveryRunKeeps(Apply, Counted, s, steps);
  }

  /** The request does not hold a response read from rows before `version`. */
  predicate HoldsNothingOlder(version: nat, r: Request) {
    HoldsResponse(r.phase) ==> r.phase.entry.version >= version
  }

  /** After more than `unlinks` invalidations the request was not served rows before `version`. */
  predicate ServedNothingOlder(version: nat, unlinks: nat, r: Request) {
    r.phase.Hit? && r.phase.unlinks > unlinks ==> r.phase.entry.version >= version
  }

  ghost predicate NothingOlder(version: nat, unlinks: nat, s: State) {
    && version <= s.version
    && (s.hash.Some? ==> forall field | field in s.hash.value.fields :: s.hash.value.fields[field].version >= version)
    && forall r | r in s.requests :: HoldsNothingOlder(version, r) && ServedNothingOlder(version, unlinks, r)
  }

  lemma StepKeepsNothingOlder(version: nat, unlinks: nat, s: State, step: Step)
    requires NothingOlder(version, unlinks, s) && Enabled(s, step)
    ensures NothingOlder(version, unlinks, Apply(s, step))
  {
    var t := Apply(s, step);
    if step.Advance? {
      assert s.requests[step.i] in s.requests;
    }
    forall r | r in t.requests ensures HoldsNothingOlder(version, r) && ServedNothingOlder(version, unlinks, r) {
      assert r in s.requests || (step.Advance? && r == t.requests[step.i]) || step.Arrive?;
    }
  }

  /** A request that holds its response stores it now, and the next request is served with it. */
  lemma LateStoreIsServed(s: State, i: nat) returns (steps: seq<Step>)
    requires s.hash == None && i < |s.requests| && HoldsResponse(s.requests[i].phase)
    ensures IsRun(Apply, s, steps)
    ensures exists r :: r in Final(Apply, s, steps).requests
                        && r.phase == Hit(s.requests[i].phase.entry, s.now, s.unlinks)
  {
    var r, n := s.requests[i], |s.requests|;
    steps := [];
    var t := s;
    if r.phase.Counting? {
      t := Apply(s, Advance(i));
      OneStep(Apply, s, Advance(i));
      steps := [Advance(i)];
    }
    assert t == s.(requests := s.requests[i := Request(r.field, Storing(r.phase.entry))]);
    var t1 := Apply(t, Advance(i));
    var t2 := Apply(t1, Arrive(r.field));
    var t3 := Apply(t2, Advance(n));
    var rest := [Advance(i), Arrive(r.field), Advance(n)];
    Unfold(Apply, [t, t1, t2, t3], rest);
    Append(Apply, s, steps, rest);
    steps := steps + rest;
    assert t3.requests[n] in t3.requests;
  }

  /** A worker commits and then invalidates. After an invalidation nobody is served rows from before
      the last commit, in any continuation, exactly if no request held such rows at that moment: read,
      and not yet stored. */
  lemma InvalidationIsFinalIff(s: State)
    requires Counted(s)
    ensures (forall r | r in s.requests :: HoldsNothingOlder(s.version, r)) <==>
            forall steps ::
              IsRun(Apply, Apply(s, Invalidate), steps) ==>
                forall r | r in Final(Apply, Apply(s, Invalidate), steps).requests ::
                  ServedNothingOlder(s.version, s.unlinks, r)
  {
    var t := Apply(s, Invalidate);
    if forall r | r in s.requests :: HoldsNothingOlder(s.version, r) {
      forall steps | IsRun(Apply, t, steps)
        ensures forall r | r in Final(Apply, t, steps).requests :: ServedNothingOlder(s.version, s.unlinks, r)
      {
        var inv := u => NothingOlder(s.version, s.unlinks, u);
        forall u, step | inv(u) && Enabled(u, step) ensures inv(Apply(u, step)) {
          StepKeepsNothingOlder(s.version, s.unlinks, u, step);
        }
        EveryRunKeeps(Apply, inv, t, steps);
      }
    } else {
      var i :| 0 <= i < |s.requests| && !HoldsNothingOlder(s.version, s.requests[i]);
      var steps := LateStoreIsServed(t, i);
      var r :| r in Final(Apply, t, steps).requests && r.phase == Hit(s.requests[i].phase.entry, s.now, s.unlinks + 1);
      assert !ServedNothingOlder(s.version, s.unlinks, r);
    }
  }

  /******* The wrapper without interference *******/

  class CachedEndpoint {
    var now: nat
    var version: nat
    var hash: Option<Hash>

    constructor (now: nat, version: nat)
      ensures this.now == now && this.version == version && hash == None
    {
      this.now := now;
      this.version := version;
      hash := None;
    }

    /** A cached response is returned as it is. A new one is stored, and the key ends with an expiry:
        the one it had, else one that starts now. */
    method Call(field: string) returns (entry: Entry)
      modifies this`hash
      ensures old(hash).Some? && field in old(hash).value.fields ==>
                entry == old(hash).value.fields[field] && hash == old(hash)
      ensures !(old(hash).Some? && field in old(hash).value.fields) ==>
                && entry == Entry(now, version) && hash.Some?
                && hash.value.fields == (if old(hash).Some? then old(hash).value.fields else map[])[field := entry]
                && hash.value.expireCalledAt
                   == (if old(hash).Some? && old(hash).value.expireCalledAt.Some? then old(hash).value.expireCalledAt
                       else Some(now))
    {
      if hash.Some? && field in hash.value.fields {
        return hash.value.fields[field];
      }
      entry := Entry(now, version);
      hash := Some(Stored(hash, field, entry, now));
      if HasNoExpiry(hash) {
        hash := Expiring(hash, now);
      }
    }
  }
}
