/**
 Supervision of the MQTT worker tasks: which tasks run after startup and after
 any sequence of configuration reloads.
 */
module BrokerReload {
  import opened Wrappers

  /** A configured broker; `settings` stands for every field but the name. */
  datatype Broker = Broker(name: string, settings: int)

  /** A task ever spawned, and whether its handle was aborted since. */
  datatype Task = Task(config: Broker, aborted: bool)

  /** The running configuration, the handle kept for each broker name (an index
      into `spawned`), and every task ever spawned. */
  datatype Fleet = Fleet(config: seq<Broker>, handles: map<string, nat>, spawned: seq<Task>) {
    predicate Valid() {
      forall n :: n in handles ==> handles[n] < |spawned|
    }
  }

  ghost predicate UniqueNames(bs: seq<Broker>) {
    forall i, j :: 0 <= i < j < |bs| ==> bs[i].name != bs[j].name
  }

  function Find(bs: seq<Broker>, name: string): (r: Option<Broker>)
    ensures r.Some? ==> r.value in bs && r.value.name == name
    ensures r.None? ==> forall b :: b in bs ==> b.name != name
  {
    if bs == [] then None else if bs[0].name == name then Some(bs[0]) else Find(bs[1..], name)
  }

  /** Of several brokers of one name, the first is found. */
  lemma {:induction false} FindsFirst(bs: seq<Broker>, i: nat)
    requires i < |bs| && forall j :: 0 <= j < i ==> bs[j].name != bs[i].name
    ensures Find(bs, bs[i].name) == Some(bs[i])
  {
    if i > 0 {
      assert bs[1..][i - 1] == bs[i];
      FindsFirst(bs[1..], i - 1);
    }
  }

  lemma {:induction false} FindUnique(bs: seq<Broker>, b: Broker)
    requires UniqueNames(bs) && b in bs
    ensures Find(bs, b.name) == Some(b)
  {
  }

  // ----- the difference between two configurations

  function Added(prior: seq<Broker>, next: seq<Broker>): (r: seq<Broker>)
    ensures forall b :: b in r <==> b in next && Find(prior, b.name).None?
  {
    if next == [] then []
    else
      var b := next[|next| - 1];
      Added(prior, next[..|next| - 1]) + if Find(prior, b.name).None? then [b] else []
  }

  function Changed(prior: seq<Broker>, next: seq<Broker>): (r: seq<Broker>)
    ensures forall b :: b in r <==> b in next && Find(prior, b.name).Some? && Find(prior, b.name).value != b
  {
    if next == [] then []
    else
      var b, was := next[|next| - 1], Find(prior, next[|next| - 1].name);
      Changed(prior, next[..|next| - 1]) + if was.Some? && was.value != b then [b] else []
  }

  function Removed(prior: seq<Broker>, next: seq<Broker>): (r: seq<string>)
    ensures forall n :: n in r <==> Find(next, n).None? && exists b :: b in prior && b.name == n
  {
    if prior == [] then []
    else
      var b := prior[|prior| - 1];
      Removed(prior[..|prior| - 1], next) + if Find(next, b.name).None? then [b.name] else []
  }

  method DiffConfig(prior: seq<Broker>, next: seq<Broker>)
    returns (added: seq<Broker>, changed: seq<Broker>, removed: seq<string>)
    ensures added == Added(prior, next) && changed == Changed(prior, next) && removed == Removed(prior, next)
  {
    added, changed, removed := [], [], [];
    for i := 0 to |next|
      invariant added == Added(prior, next[..i]) && changed == Changed(prior, next[..i])
    {
      assert next[..i + 1][..i] == next[..i];
      match Find(prior, next[i].name)
      case None => added := added + [next[i]];
      case Some(was) =>
        if was != next[i] {
          changed := changed + [next[i]];
        }
    }
    for i := 0 to |prior|
      invariant removed == Removed(prior[..i], next)
    {
      assert prior[..i + 1][..i] == prior[..i];
      if Find(next, prior[i].name).None? {
        removed := removed + [prior[i].name];
      }
    }
    assert next[..|next|] == next && prior[..|prior|] == prior;
  }

  // ----- aborting and spawning, as functions

  function Aborted(f: Fleet, name: string): (f': Fleet)
    requires f.Valid()
    ensures f'.Valid() && f'.config == f.config
  {
    if name in f.handles then
      var id := f.handles[name];
      f.(handles := f.handles - {name}, spawned := f.spawned[id := f.spawned[id].(aborted := true)])
    else f
  }

  function Spawned(f: Fleet, b: Broker): (f': Fleet)
    requires f.Valid()
    ensures f'.Valid() && f'.config == f.config
  {
    f.(handles := f.handles[b.name := |f.spawned|], spawned := f.spawned + [Task(b, false)])
  }

  function AbortedAll(f: Fleet, names: seq<string>): (f': Fleet)
    requires f.Valid()
    ensures f'.Valid() && f'.config == f.config
  {
    if names == [] then f else Aborted(AbortedAll(f, names[..|names| - 1]), names[|names| - 1])
  }

  function RestartedAll(f: Fleet, bs: seq<Broker>): (f': Fleet)
    requires f.Valid()
    ensures f'.Valid() && f'.config == f.config
  {
    if bs == [] then f
    else
      var g, b := RestartedAll(f, bs[..|bs| - 1]), bs[|bs| - 1];
      Spawned(Aborted(g, b.name), b)
  }

  function SpawnedAll(f: Fleet, bs: seq<Broker>): (f': Fleet)
    requires f.Valid()
    ensures f'.Valid() && f'.config == f.config
  {
    if bs == [] then f else Spawned(SpawnedAll(f, bs[..|bs| - 1]), bs[|bs| - 1])
  }

  /** Daemon startup: one task per configured broker. */
  function Started(config: seq<Broker>): (f: Fleet)
    ensures f.Valid()
  {
    SpawnedAll(Fleet(config, map[], []), config)
  }

  /** One reload; `None` is a configuration file that did not load. */
  function Reloaded(f: Fleet, loaded: Option<seq<Broker>>): (f': Fleet)
    requires f.Valid()
    ensures f'.Valid()
    ensures f'.config == if loaded.Some? then loaded.value else f.config
    ensures loaded.None? ==> f' == f
  {
    match loaded
    case None => f
    case Some(next) =>
      var g := AbortedAll(f.(config := next), Removed(f.config, next));
      RestartedAll(g, Changed(f.config, next) + Added(f.config, next))
  }

  function ReloadedAll(f: Fleet, history: seq<Option<seq<Broker>>>): (f': Fleet)
    requires f.Valid()
    ensures f'.Valid()
  {
    if history == [] then f
    else Reloaded(ReloadedAll(f, history[..|history| - 1]), history[|history| - 1])
  }

  // ----- the daemon's state

  class Supervisor {
    var config: seq<Broker>
    var handles: map<string, nat>
    var spawned: seq<Task>

    function State(): Fleet
      reads this
    {
      Fleet(config, handles, spawned)
    }

    constructor (config: seq<Broker>)
      ensures State() == Started(config) && State().Valid()
    {
      this.config := config;
      handles, spawned := map[], [];
      new;
      for i := 0 to |config|
        invariant State().Valid() && State() == SpawnedAll(Fleet(config, map[], []), config[..i])
      {
        assert config[..i + 1][..i] == config[..i];
        Spawn(config[i]);
      }
      assert config[..|config|] == config;
    }

    method Spawn(b: Broker)
      requires State().Valid()
      modifies this
      ensures State() == Spawned(old(State()), b)
    {
      spawned := spawned + [Task(b, false)];
      handles := handles[b.name := |spawned| - 1];
    }

    method Abort(name: string)
      requires State().Valid()
      modifies this
      ensures State() == Aborted(old(State()), name)
    {
      if name in handles {
        var id := handles[name];
        handles := handles - {name};
        spawned := spawned[id := spawned[id].(aborted := true)];
      }
    }

    /** The reload's first loop: brokers no longer configured. */
    method AbortEach(names: seq<string>)
      requires State().Valid()
      modifies this
      ensures State() == AbortedAll(old(State()), names) && State().Valid()
    {
      for i := 0 to |names|
        invariant State().Valid() && State() == AbortedAll(old(State()), names[..i])
      {
        assert names[..i + 1][..i] == names[..i];
        Abort(names[i]);
      }
      assert names[..|names|] == names;
    }

    /** The reload's second loop: brokers changed or new. */
    method RestartEach(bs: seq<Broker>)
      requires State().Valid()
      modifies this
      ensures State() == RestartedAll(old(State()), bs) && State().Valid()
    {
      for i := 0 to |bs|
        invariant State().Valid() && State() == RestartedAll(old(State()), bs[..i])
      {
        assert bs[..i + 1][..i] == bs[..i];
        Abort(bs[i].name);
        Spawn(bs[i]);
      }
      assert bs[..|bs|] == bs;
    }

    method ReloadOnce(loaded: Option<seq<Broker>>)
      requires State().Valid()
      modifies this
      ensures State() == Reloaded(old(State()), loaded) && State().Valid()
      ensures loaded.None? ==> config == old(config) && handles == old(handles) && spawned == old(spawned)
    {
      if loaded.None? {
        return;
      }
      var added, changed, removed := DiffConfig(config, loaded.value);
      config := loaded.value;
      AbortEach(removed);
      RestartEach(changed + added);
    }
  }

  // ----- supervision

  /** Every handle is of a live task for its name, and every live task is held. */
  ghost predicate Tracked(f: Fleet) {
    && f.Valid()
    && (forall n :: n in f.handles ==> f.spawned[f.handles[n]].config.name == n && !f.spawned[f.handles[n]].aborted)
    && (forall id :: 0 <= id < |f.spawned| && !f.spawned[id].aborted ==>
          f.spawned[id].config.name in f.handles && f.handles[f.spawned[id].config.name] == id)
  }

  /** The live task for a name, by its configuration. */
  function Serving(f: Fleet, name: string): Option<Broker>
    requires f.Valid()
  {
    if name in f.handles then Some(f.spawned[f.handles[name]].config) else None
  }

  /** Tracked, and the live tasks are exactly those of the current configuration. */
  ghost predicate Supervised(f: Fleet) {
    Tracked(f) && forall n :: Serving(f, n) == Find(f.config, n)
  }

  lemma AbortTracked(f: Fleet, name: string)
    requires Tracked(f)
    ensures Tracked(Aborted(f, name)) && Aborted(f, name).config == f.config
    ensures forall n :: Serving(Aborted(f, name), n) == if n == name then None else Serving(f, n)
  {
  }

  lemma SpawnTracked(f: Fleet, b: Broker)
    requires Tracked(f) && b.name !in f.handles
    ensures Tracked(Spawned(f, b)) && Spawned(f, b).config == f.config
    ensures forall n :: Serving(Spawned(f, b), n) == if n == b.name then Some(b) else Serving(f, n)
  {
  }

  lemma {:induction false} AbortAllTracked(f: Fleet, names: seq<string>)
    requires Tracked(f)
    ensures var f' := AbortedAll(f, names);
            && Tracked(f') && f'.config == f.config
            && forall n :: Serving(f', n) == if n in names then None else Serving(f, n)
  {
    if names != [] {
      var rest := names[..|names| - 1];
      assert names == rest + [names[|names| - 1]];
      AbortAllTracked(f, rest);
      AbortTracked(AbortedAll(f, rest), names[|names| - 1]);
    }
  }

  /** The last broker of that name. */
  function LastNamed(bs: seq<Broker>, name: string): (r: Option<Broker>)
    ensures r.Some? ==> r.value in bs && r.value.name == name
    ensures r.None? ==> forall b :: b in bs ==> b.name != name
  {
    if bs == [] then None
    else if bs[|bs| - 1].name == name then Some(bs[|bs| - 1])
    else LastNamed(bs[..|bs| - 1], name)
  }

  lemma {:induction false} RestartAllTracked(f: Fleet, bs: seq<Broker>)
    requires Tracked(f)
    ensures var f' := RestartedAll(f, bs);
            && Tracked(f') && f'.config == f.config
            && forall n :: Serving(f', n) == if LastNamed(bs, n).Some? then LastNamed(bs, n) else Serving(f, n)
  {
    if bs != [] {
      var rest, b := bs[..|bs| - 1], bs[|bs| - 1];
      RestartAllTracked(f, rest);
      var g := RestartedAll(f, rest);
      AbortTracked(g, b.name);
      SpawnTracked(Aborted(g, b.name), b);
    }
  }

  lemma {:induction false} FindSnoc(bs: seq<Broker>, b: Broker, n: string)
    ensures Find(bs + [b], n) == if Find(bs, n).Some? then Find(bs, n) else if b.name == n then Some(b) else None
  {
    if bs == [] {
      assert bs + [b] == [b];
    } else {
      assert (bs + [b])[1..] == bs[1..] + [b];
      FindSnoc(bs[1..], b, n);
    }
  }

  /** The last entry of `next` under a name that differs from what was configured
      under it: the one a reload spawns last. None when nothing changed. */
  function LastChange(prior: seq<Broker>, next: seq<Broker>, name: string): (r: Option<Broker>)
    ensures r.Some? ==> r.value in next && r.value.name == name && Find(prior, name) != r
  {
    if next == [] then None
    else
      var b := next[|next| - 1];
      if b.name == name && Find(prior, name) != Some(b) then Some(b)
      else LastChange(prior, next[..|next| - 1], name)
  }

  lemma LastNamedSnoc(bs: seq<Broker>, b: Broker, name: string)
    ensures LastNamed(bs + [b], name) == if b.name == name then Some(b) else LastNamed(bs, name)
  {
    assert (bs + [b])[..|bs|] == bs;
  }

  lemma {:induction false} ChangedLast(prior: seq<Broker>, next: seq<Broker>, name: string)
    ensures LastNamed(Changed(prior, next), name)
         == if Find(prior, name).Some? then LastChange(prior, next, name) else None
  {
    if next != [] {
      var part := Changed(prior, next[..|next| - 1]);
      ChangedLast(prior, next[..|next| - 1], name);
      LastNamedSnoc(part, next[|next| - 1], name);
      assert part + [] == part;
    }
  }

  lemma {:induction false} AddedLast(prior: seq<Broker>, next: seq<Broker>, name: string)
    ensures LastNamed(Added(prior, next), name)
         == if Find(prior, name).None? then LastChange(prior, next, name) else None
  {
    if next != [] {
      var part := Added(prior, next[..|next| - 1]);
      AddedLast(prior, next[..|next| - 1], name);
      LastNamedSnoc(part, next[|next| - 1], name);
      assert part + [] == part;
    }
  }

  lemma RestartedLast(prior: seq<Broker>, next: seq<Broker>, name: string)
    ensures LastNamed(Changed(prior, next) + Added(prior, next), name) == LastChange(prior, next, name)
  {
    ChangedLast(prior, next, name);
    AddedLast(prior, next, name);
    LastNamedConcat(Changed(prior, next), Added(prior, next), name);
  }

  lemma {:induction false} LastNamedConcat(a: seq<Broker>, b: seq<Broker>, name: string)
    ensures LastNamed(a + b, name) == if LastNamed(b, name).Some? then LastNamed(b, name) else LastNamed(a, name)
  {
    if b == [] {
      assert a + b == a;
    } else {
      assert (a + b)[..|a + b| - 1] == a + b[..|b| - 1];
      LastNamedConcat(a, b[..|b| - 1], name);
    }
  }

  /** What a reload serves under each name, for any two configurations: its last
      change; nothing once the name is gone; otherwise what was served before. */
  lemma ReloadServes(f: Fleet, next: seq<Broker>)
    requires Tracked(f)
    ensures var f' := Reloaded(f, Some(next));
            && Tracked(f') && f'.config == next
            && forall n :: Serving(f', n) ==
                 if LastChange(f.config, next, n).Some? then LastChange(f.config, next, n)
                 else if n in Removed(f.config, next) then None
                 else Serving(f, n)
  {
    var f0, changed, added := f.(config := next), Changed(f.config, next), Added(f.config, next);
    assert Tracked(f0) && forall n :: Serving(f0, n) == Serving(f, n);
    AbortAllTracked(f0, Removed(f.config, next));
    RestartAllTracked(AbortedAll(f0, Removed(f.config, next)), changed + added);
    forall n ensures LastNamed(changed + added, n) == LastChange(f.config, next, n) {
      RestartedLast(f.config, next, n);
    }
  }

  /** Whatever a name's first entry in `next` is, that is what the reload leaves
      running: no later entry of the same name changes anything after it. */
  ghost predicate Settles(prior: seq<Broker>, next: seq<Broker>) {
    forall n :: Find(next, n).Some? ==>
      LastChange(prior, next, n) == if Find(next, n) == Find(prior, n) then None else Find(next, n)
  }

  lemma {:induction false} UniqueLastChange(prior: seq<Broker>, next: seq<Broker>, n: string)
    requires UniqueNames(next)
    ensures LastChange(prior, next, n) == if Find(next, n) == Find(prior, n) then None else Find(next, n)
  {
    if next != [] {
      var rest, b := next[..|next| - 1], next[|next| - 1];
      UniqueLastChange(prior, rest, n);
      assert next == rest + [b];
      FindSnoc(rest, b, n);
      assert b.name == n ==> Find(rest, n).None?;
    }
  }

  /** A file that uses every name once always settles. */
  lemma UniqueSettles(prior: seq<Broker>, next: seq<Broker>)
    requires UniqueNames(next)
    ensures Settles(prior, next)
  {
    forall n | Find(next, n).Some?
      ensures LastChange(prior, next, n) == if Find(next, n) == Find(prior, n) then None else Find(next, n)
    {
      UniqueLastChange(prior, next, n);
    }
  }

  /** A reload that loads leaves a supervised daemon supervised under the new
      configuration exactly when that configuration settles, as every one with
      unique names does; one that does not load changes nothing. */
  lemma ReloadSupervised(f: Fleet, loaded: Option<seq<Broker>>)
    requires Supervised(f)
    ensures Supervised(Reloaded(f, loaded)) <==> (loaded.Some? ==> Settles(f.config, loaded.value))
    ensures if loaded.Some? then Reloaded(f, loaded).config == loaded.value else Reloaded(f, loaded) == f
    ensures loaded.Some? && UniqueNames(loaded.value) ==> Settles(f.config, loaded.value)
  {
    if loaded.Some? {
      var next := loaded.value;
      ReloadServes(f, next);
      forall n ensures Serving(Reloaded(f, loaded), n) == Find(next, n) <==>
          (Find(next, n).Some? ==>
            LastChange(f.config, next, n) == if Find(next, n) == Find(f.config, n) then None else Find(next, n))
      {
        ServedIffSettled(f, next, n);
      }
      if UniqueNames(next) {
        UniqueSettles(f.config, next);
      }
    }
  }

  lemma ServedIffSettled(f: Fleet, next: seq<Broker>, n: string)
    requires Supervised(f)
    ensures (if LastChange(f.config, next, n).Some? then LastChange(f.config, next, n)
             else if n in Removed(f.config, next) then None
             else Serving(f, n)) == Find(next, n)
        <==> (Find(next, n).Some? ==>
               LastChange(f.config, next, n) == if Find(next, n) == Find(f.config, n) then None else Find(next, n))
  {
    assert Serving(f, n) == Find(f.config, n);
  }

  /** Nothing a reload does brings an aborted task back or rewrites a task, and a
      broker configured the same before and after keeps its handle. */
  ghost predicate Continues(f: Fleet, f': Fleet) {
    && |f.spawned| <= |f'.spawned|
    && forall id :: 0 <= id < |f.spawned| ==>
         f'.spawned[id].config == f.spawned[id].config && (f.spawned[id].aborted ==> f'.spawned[id].aborted)
  }

  lemma {:induction false} AbortAllContinues(f: Fleet, names: seq<string>)
    requires f.Valid()
    ensures Continues(f, AbortedAll(f, names)) && |AbortedAll(f, names).spawned| == |f.spawned|
    ensures forall n :: n in f.handles && n !in names ==>
              n in AbortedAll(f, names).handles && AbortedAll(f, names).handles[n] == f.handles[n]
    ensures forall n :: n in names || n !in f.handles ==> n !in AbortedAll(f, names).handles
  {
    if names != [] {
      AbortAllContinues(f, names[..|names| - 1]);
    }
  }

  lemma {:induction false} RestartAllContinues(f: Fleet, bs: seq<Broker>)
    requires f.Valid()
    ensures Continues(f, RestartedAll(f, bs))
    ensures forall n :: n in f.handles && LastNamed(bs, n).None? ==>
              n in RestartedAll(f, bs).handles && RestartedAll(f, bs).handles[n] == f.handles[n]
    ensures forall n :: n !in f.handles && LastNamed(bs, n).None? ==> n !in RestartedAll(f, bs).handles
    ensures forall n :: LastNamed(bs, n).Some? ==>
              n in RestartedAll(f, bs).handles && RestartedAll(f, bs).handles[n] >= |f.spawned|
  {
    if bs != [] {
      RestartAllContinues(f, bs[..|bs| - 1]);
    }
  }

  /** The task held for a configured broker survives a reload exactly when its name
      stays configured and no entry under it differs from before; whatever the
      reload does, no task is rewritten and none aborted before comes back. */
  lemma ReloadKeepsUnchanged(f: Fleet, next: seq<Broker>, n: string)
    requires f.Valid() && n in f.handles && Find(f.config, n).Some?
    ensures var f' := Reloaded(f, Some(next));
            && Continues(f, f')
            && ((n in f'.handles && f'.handles[n] == f.handles[n])
                <==> Find(next, n).Some? && LastChange(f.config, next, n).None?)
  {
    RestartedLast(f.config, next, n);
    RemovedIff(f.config, next, n);
    KeepsHandle(f.(config := next), Removed(f.config, next), Changed(f.config, next) + Added(f.config, next), n);
  }

  lemma KeepsHandle(f: Fleet, removed: seq<string>, restart: seq<Broker>, n: string)
    requires f.Valid() && n in f.handles
    ensures var f' := RestartedAll(AbortedAll(f, removed), restart);
            && Continues(f, f')
            && ((n in f'.handles && f'.handles[n] == f.handles[n]) <==> n !in removed && LastNamed(restart, n).None?)
  {
    AbortAllContinues(f, removed);
    RestartAllContinues(AbortedAll(f, removed), restart);
  }

  lemma RemovedIff(prior: seq<Broker>, next: seq<Broker>, n: string)
    requires Find(prior, n).Some?
    ensures n in Removed(prior, next) <==> Find(next, n).None?
    ensures Find(next, n).None? ==> LastChange(prior, next, n).None?
  {
    assert Find(prior, n).value in prior;
  }

  lemma {:induction false} StartTasks(config: seq<Broker>, n: nat)
    requires n <= |config|
    ensures var f := SpawnedAll(Fleet(config, map[], []), config[..n]);
            f.config == config && f.spawned == seq(n, i requires 0 <= i < n => Task(config[i], false))
  {
    if n > 0 {
      assert config[..n][..n - 1] == config[..n - 1];
      StartTasks(config, n - 1);
    }
  }

  lemma {:induction false} StartTracked(config: seq<Broker>, n: nat)
    requires n <= |config| && UniqueNames(config)
    ensures var f := SpawnedAll(Fleet(config, map[], []), config[..n]);
            Tracked(f) && forall m :: Serving(f, m) == Find(config[..n], m)
  {
    if n > 0 {
      var b, before := config[n - 1], SpawnedAll(Fleet(config, map[], []), config[..n - 1]);
      assert config[..n][..n - 1] == config[..n - 1] && config[..n] == config[..n - 1] + [b];
      StartTracked(config, n - 1);
      assert Serving(before, b.name).None?;
      SpawnTracked(before, b);
      forall m ensures Find(config[..n], m) == if m == b.name then Some(b) else Find(config[..n - 1], m) {
        FindSnoc(config[..n - 1], b, m);
      }
    }
  }

  /** Startup tracks every task it spawns exactly when no broker name is used
      twice: a repeated name leaves a running task nobody can abort. */
  lemma StartSupervised(config: seq<Broker>)
    ensures Supervised(Started(config)) <==> UniqueNames(config)
  {
    var f := Started(config);
    assert config[..|config|] == config;
    StartTasks(config, |config|);
    if UniqueNames(config) {
      StartTracked(config, |config|);
    } else {
      var i, j :| 0 <= i < j < |config| && config[i].name == config[j].name;
      assert !f.spawned[i].aborted && !f.spawned[j].aborted;
    }
  }

  /** The configuration after a history: the last one that loaded. */
  function LastLoaded(config: seq<Broker>, history: seq<Option<seq<Broker>>>): seq<Broker> {
    if history == [] then config
    else match history[|history| - 1]
      case Some(c) => c
      case None => LastLoaded(config, history[..|history| - 1])
  }

  /** Every reload of the history that loaded settles on the configuration before it. */
  ghost predicate AllSettle(config: seq<Broker>, history: seq<Option<seq<Broker>>>) {
    history == []
    || var before := history[..|history| - 1];
       && AllSettle(config, before)
       && match history[|history| - 1]
          case None => true
          case Some(next) => Settles(LastLoaded(config, before), next)
  }

  lemma {:induction false} UniqueAllSettle(config: seq<Broker>, history: seq<Option<seq<Broker>>>)
    requires forall i :: 0 <= i < |history| && history[i].Some? ==> UniqueNames(history[i].value)
    ensures AllSettle(config, history)
  {
    if history != [] {
      var n := |history| - 1;
      UniqueAllSettle(config, history[..n]);
      if history[n].Some? {
        UniqueSettles(LastLoaded(config, history[..n]), history[n].value);
      }
    }
  }

  ghost predicate SupervisedAfter(config: seq<Broker>, history: seq<Option<seq<Broker>>>) {
    Supervised(ReloadedAll(Started(config), history))
  }

  /** Supervised now and after every shorter history. */
  ghost predicate SupervisedThroughout(config: seq<Broker>, history: seq<Option<seq<Broker>>>) {
    SupervisedAfter(config, history)
    && (history == [] || SupervisedThroughout(config, history[..|history| - 1]))
  }

  /** Over startup and any history of reloads, successful or not: at every moment
      there is exactly one live task per broker of the last configuration that
      loaded, with its settings, and no other, exactly when startup names no broker
      twice and every reload that loads settles. Unique names always suffice. */
  lemma {:induction false} AlwaysSupervised(config: seq<Broker>, history: seq<Option<seq<Broker>>>)
    ensures SupervisedThroughout(config, history) <==> UniqueNames(config) && AllSettle(config, history)
    ensures (forall i :: 0 <= i < |history| && history[i].Some? ==> UniqueNames(history[i].value))
            ==> AllSettle(config, history)
    ensures ReloadedAll(Started(config), history).config == LastLoaded(config, history)
  {
    if forall i :: 0 <= i < |history| && history[i].Some? ==> UniqueNames(history[i].value) {
      UniqueAllSettle(config, history);
    }
    if history == [] {
      NoReloadYet(config, history);
    } else {
      AlwaysSupervised(config, history[..|history| - 1]);
      OneMoreReload(config, history[..|history| - 1], history[|history| - 1], history);
    }
  }

  lemma NoReloadYet(config: seq<Broker>, history: seq<Option<seq<Broker>>>)
    requires history == []
    ensures SupervisedThroughout(config, history) <==> UniqueNames(config)
    ensures ReloadedAll(Started(config), history).config == config
  {
    StartSupervised(config);
    StartTasks(config, |config|);
    assert config[..|config|] == config;
  }

  lemma OneMoreReload(config: seq<Broker>, before: seq<Option<seq<Broker>>>, last: Option<seq<Broker>>,
                      history: seq<Option<seq<Broker>>>)
    requires history != [] && before == history[..|history| - 1] && last == history[|history| - 1]
    requires ReloadedAll(Started(config), before).config == LastLoaded(config, before)
    ensures SupervisedThroughout(config, history)
        <==> SupervisedThroughout(config, before) && (last.Some? ==> Settles(LastLoaded(config, before), last.value))
    ensures ReloadedAll(Started(config), history).config == LastLoaded(config, history)
  {
    var f := ReloadedAll(Started(config), before);
    assert ReloadedAll(Started(config), history) == Reloaded(f, last);
    if SupervisedThroughout(config, before) {
      ReloadSupervised(f, last);
    }
  }

  // ----- names used twice at startup

  /** Handles are kept under the name of the task they are of. */
  ghost predicate Named(f: Fleet) {
    f.Valid() && forall n :: n in f.handles ==> f.spawned[f.handles[n]].config.name == n
  }

  /** A live task that no handle is of. */
  ghost predicate Orphan(f: Fleet, id: nat) {
    id < |f.spawned| && !f.spawned[id].aborted && forall n :: n in f.handles ==> f.handles[n] != id
  }

  lemma {:induction false} AbortAllKeepsOrphan(f: Fleet, names: seq<string>, id: nat)
    requires f.Valid() && Orphan(f, id)
    ensures Orphan(AbortedAll(f, names), id)
  {
    if names != [] {
      AbortAllKeepsOrphan(f, names[..|names| - 1], id);
    }
  }

  lemma {:induction false} RestartAllKeepsOrphan(f: Fleet, bs: seq<Broker>, id: nat)
    requires f.Valid() && Orphan(f, id)
    ensures Orphan(RestartedAll(f, bs), id)
  {
    if bs != [] {
      RestartAllKeepsOrphan(f, bs[..|bs| - 1], id);
    }
  }

  /** No reload stops a task without a handle. */
  lemma {:induction false} OrphanStays(f: Fleet, history: seq<Option<seq<Broker>>>, id: nat)
    requires f.Valid() && Orphan(f, id)
    ensures Orphan(ReloadedAll(f, history), id)
  {
    if history != [] {
      var g := ReloadedAll(f, history[..|history| - 1]);
      OrphanStays(f, history[..|history| - 1], id);
      match history[|history| - 1]
      case None =>
      case Some(next) =>
        var g0 := g.(config := next);
        AbortAllKeepsOrphan(g0, Removed(g.config, next), id);
        RestartAllKeepsOrphan(AbortedAll(g0, Removed(g.config, next)),
                              Changed(g.config, next) + Added(g.config, next), id);
    }
  }

  lemma {:induction false} ReloadsTracked(f: Fleet, history: seq<Option<seq<Broker>>>)
    requires Tracked(f)
    ensures Tracked(ReloadedAll(f, history))
  {
    if history != [] {
      ReloadsTracked(f, history[..|history| - 1]);
      if history[|history| - 1].Some? {
        ReloadServes(ReloadedAll(f, history[..|history| - 1]), history[|history| - 1].value);
      }
    }
  }

  lemma {:induction false} StartHolds(config: seq<Broker>, n: nat)
    requires n <= |config|
    ensures var f := SpawnedAll(Fleet(config, map[], []), config[..n]);
            && Named(f) && |f.spawned| == n
            && forall i :: 0 <= i < n ==> config[i].name in f.handles && f.handles[config[i].name] >= i
  {
    if n > 0 {
      assert config[..n][..n - 1] == config[..n - 1];
      StartHolds(config, n - 1);
    }
  }

  /** After any history of reloads, whatever their files repeat, every live task has
      its handle and no name has two, exactly when startup names no broker twice: a
      task orphaned at startup stays live for good. */
  lemma AlwaysTracked(config: seq<Broker>, history: seq<Option<seq<Broker>>>)
    ensures Tracked(ReloadedAll(Started(config), history)) <==> UniqueNames(config)
  {
    assert config[..|config|] == config;
    if UniqueNames(config) {
      StartSupervised(config);
      ReloadsTracked(Started(config), history);
    } else {
      var i, j :| 0 <= i < j < |config| && config[i].name == config[j].name;
      StartTasks(config, |config|);
      StartHolds(config, |config|);
      assert Started(config).spawned[i] == Task(config[i], false);
      OrphanStays(Started(config), history, i);
    }
  }

  /** No other live task serves the broker of task `id`. */
  ghost predicate OnlyLive(f: Fleet, id: nat)
    requires id < |f.spawned|
  {
    forall other :: 0 <= other < |f.spawned| && other != id && !f.spawned[other].aborted ==>
      f.spawned[other].config.name != f.spawned[id].config.name
  }

  /** What supervision means task by task. */
  lemma SupervisedTasks(f: Fleet, b: Broker)
    requires Supervised(f) && UniqueNames(f.config) && b in f.config
    ensures exists id :: 0 <= id < |f.spawned| && f.spawned[id] == Task(b, false) && OnlyLive(f, id)
    ensures forall id :: 0 <= id < |f.spawned| && !f.spawned[id].aborted ==> f.spawned[id].config in f.config
  {
    FindUnique(f.config, b);
    assert Serving(f, b.name) == Some(b);
    var id := f.handles[b.name];
    assert f.spawned[id] == Task(b, false);
    forall i | 0 <= i < |f.spawned| && !f.spawned[i].aborted ensures f.spawned[i].config in f.config {
      assert Serving(f, f.spawned[i].config.name) == Some(f.spawned[i].config);
    }
  }
}
