/** keys/local.go: data keys minted by processes that share a directory.

    Wrapping is any function from a file's bytes to a key that may refuse them;
    keys and bytes are strings. */
module Keys {
  import opened Options

  type Unwrap = string -> Option<string>

  // ----- one call

  datatype Result = Obtained(key: string) | Destroyed | Unreadable

  /** The files of a directory, and the names whose key was destroyed. */
  class Directory {
    var files: map<string, string>
    var tombstones: set<string>

    constructor ()
      ensures files == map[] && tombstones == {}
    {
      files, tombstones := map[], {};
    }

    /** Publishes a file unless there is one: the link of `createOnce`. */
    method CreateOnce(name: string, body: string) returns (won: bool)
      modifies this`files
      ensures won <==> name !in old(files)
      ensures files == if won then old(files)[name := body] else old(files)
    {
      won := name !in files;
      if won { files := files[name := body]; }
    }
  }

  class Local {
    var cache: map<string, string>
    var destroyed: set<string>

    /** What is cached is what the directory's file unwraps to. */
    ghost predicate Agrees(unwrap: Unwrap, dir: Directory)
      reads this, dir
    {
      forall n :: n in cache ==> n in dir.files && unwrap(dir.files[n]) == Some(cache[n])
    }

    constructor ()
      ensures cache == map[] && destroyed == {}
    {
      cache, destroyed := map[], {};
    }

    /** `key`. Another process may publish `rival` between the moment this one
        found no file and the moment it tries to publish its own. */
    method Key(unwrap: Unwrap, dir: Directory, name: string, minted: string, wrapped: string, rival: Option<string>)
      returns (r: Result)
      requires Agrees(unwrap, dir) && unwrap(wrapped) == Some(minted)
      modifies this, dir`files
      ensures Agrees(unwrap, dir)
      ensures forall n :: n in old(dir.files) ==> n in dir.files && dir.files[n] == old(dir.files[n])
      ensures forall n :: n in dir.files && n !in old(dir.files) ==>
              n == name && dir.files[n] in {wrapped} + (if rival.Some? then {rival.value} else {})
      ensures r.Obtained? ==>
              cache == old(cache)[name := r.key] && name in dir.files && unwrap(dir.files[name]) == Some(r.key)
      ensures !r.Obtained? ==> cache == old(cache)
      ensures r.Destroyed? <==> name in old(destroyed) || (name !in old(cache) && name in dir.tombstones)
      ensures r.Unreadable? ==> name in dir.files && unwrap(dir.files[name]).None?
      ensures destroyed == if r.Destroyed? then old(destroyed) + {name} else old(destroyed)
    {
      if name in destroyed { return Destroyed; }
      if name in cache { return Obtained(cache[name]); }
      if name in dir.tombstones {
        destroyed := destroyed + {name};
        return Destroyed;
      }
      if name in dir.files {
        var key := unwrap(dir.files[name]);
        if key.None? { return Unreadable; }
        cache := cache[name := key.value];
        return Obtained(key.value);
      }
      if rival.Some? { var first := dir.CreateOnce(name, rival.value); }
      var won := dir.CreateOnce(name, wrapped);
      var key := minted;
      if !won {
        var existing := unwrap(dir.files[name]);
        if existing.None? { return Unreadable; }
        key := existing.value;
      }
      cache := cache[name := key];
      return Obtained(key);
    }
  }

  // ----- every interleaving

  /** Where a process is in a call: it holds its lock from the read to the end. */
  datatype Phase = Idle | Missed(name: string) | Minted(name: string, key: string, wrapped: string) | Lost(name: string)

  datatype Process = Process(cache: map<string, string>, phase: Phase)

  /** A key that a call returned: by which process and under which name. */
  datatype Receipt = Receipt(process: int, name: string, key: string)

  datatype State = State(files: map<string, string>, processes: map<int, Process>, receipts: seq<Receipt>)

  datatype Event =
    | Hit(p: int, name: string)
    | Read(p: int, name: string)
    | Mint(p: int, key: string, wrapped: string)
    | Link(p: int)
    | Reread(p: int)
    | GiveUp(p: int)
    | Restart(p: int)

  function Put(s: State, p: int, q: Process): State
  {
    s.(processes := s.processes[p := q])
  }

  /** A process obtains a key: it caches it and returns it. */
  function Obtain(s: State, p: int, name: string, key: string): State
    requires p in s.processes
  {
    Put(s, p, Process(s.processes[p].cache[name := key], Idle)).(receipts := s.receipts + [Receipt(p, name, key)])
  }

  ghost predicate Step(unwrap: Unwrap, s: State, e: Event, t: State)
  {
    match e
    case Restart(p) =>
      t == Put(s, p, Process(map[], Idle))
    case Hit(p, name) =>
      p in s.processes && name in s.processes[p].cache && s.processes[p].phase.Idle? &&
      t == Obtain(s, p, name, s.processes[p].cache[name])
    case Read(p, name) =>
      p in s.processes && name !in s.processes[p].cache && s.processes[p].phase.Idle? &&
      (if name in s.files then
         if unwrap(s.files[name]).Some? then t == Obtain(s, p, name, unwrap(s.files[name]).value) else t == s
       else t == Put(s, p, s.processes[p].(phase := Missed(name))))
    case Mint(p, key, wrapped) =>
      p in s.processes && s.processes[p].phase.Missed? && unwrap(wrapped) == Some(key) &&
      t == Put(s, p, s.processes[p].(phase := Minted(s.processes[p].phase.name, key, wrapped)))
    case Link(p) =>
      p in s.processes && s.processes[p].phase.Minted? &&
      var m := s.processes[p].phase;
      if m.name in s.files then t == Put(s, p, s.processes[p].(phase := Lost(m.name)))
      else t == Obtain(s.(files := s.files[m.name := m.wrapped]), p, m.name, m.key)
    case Reread(p) =>
      p in s.processes && s.processes[p].phase.Lost? &&
      var name := s.processes[p].phase.name;
      if name in s.files && unwrap(s.files[name]).Some? then t == Obtain(s, p, name, unwrap(s.files[name]).value)
      else t == Put(s, p, s.processes[p].(phase := Idle))
    case GiveUp(p) =>
      p in s.processes && t == Put(s, p, s.processes[p].(phase := Idle))
  }

  /** A key is the one that a name's file unwraps to. */
  predicate Published(unwrap: Unwrap, files: map<string, string>, name: string, key: string)
  {
    name in files && unwrap(files[name]) == Some(key)
  }

  ghost predicate ProcessInv(unwrap: Unwrap, files: map<string, string>, q: Process)
  {
    && (forall n :: n in q.cache ==> Published(unwrap, files, n, q.cache[n]))
    && (q.phase.Minted? ==> unwrap(q.phase.wrapped) == Some(q.phase.key))
    && (q.phase.Lost? ==> q.phase.name in files)
  }

  ghost predicate Inv(unwrap: Unwrap, s: State)
  {
    && (forall p :: p in s.processes ==> ProcessInv(unwrap, s.files, s.processes[p]))
    && (forall r :: r in s.receipts ==> Published(unwrap, s.files, r.name, r.key))
  }

  /** A directory only gains files. */
  ghost predicate Extends(before: map<string, string>, after: map<string, string>)
  {
    forall n :: n in before ==> n in after && after[n] == before[n]
  }

  lemma ProcessStays(unwrap: Unwrap, before: map<string, string>, after: map<string, string>, q: Process)
    requires Extends(before, after) && ProcessInv(unwrap, before, q)
    ensures ProcessInv(unwrap, after, q)
  {
  }

  /** Files added and a process moved, with perhaps one more key returned. */
  lemma MovedKeeps(unwrap: Unwrap, s: State, files: map<string, string>, p: int, q: Process, more: seq<Receipt>)
    requires Inv(unwrap, s) && Extends(s.files, files) && ProcessInv(unwrap, files, q)
    requires forall r :: r in more ==> Published(unwrap, files, r.name, r.key)
    ensures Inv(unwrap, State(files, s.processes[p := q], s.receipts + more))
  {
    hide ProcessInv;
    forall o | o in s.processes && o != p ensures ProcessInv(unwrap, files, s.processes[o]) {
      ProcessStays(unwrap, s.files, files, s.processes[o]);
    }
  }

  lemma ObtainKeeps(unwrap: Unwrap, s: State, files: map<string, string>, p: int, name: string, key: string)
    requires Inv(unwrap, s) && Extends(s.files, files) && p in s.processes && Published(unwrap, files, name, key)
    ensures Inv(unwrap, Obtain(s.(files := files), p, name, key))
  {
    var q := Process(s.processes[p].cache[name := key], Idle);
    ProcessStays(unwrap, s.files, files, s.processes[p]);
    MovedKeeps(unwrap, s, files, p, q, [Receipt(p, name, key)]);
  }

  lemma PutKeeps(unwrap: Unwrap, s: State, p: int, q: Process)
    requires Inv(unwrap, s) && ProcessInv(unwrap, s.files, q)
    ensures Inv(unwrap, Put(s, p, q))
  {
    hide ProcessInv;
    MovedKeeps(unwrap, s, s.files, p, q, []);
    assert s.receipts + [] == s.receipts;
  }

  lemma StepKeeps(unwrap: Unwrap, s: State, e: Event, t: State)
    requires Inv(unwrap, s) && Step(unwrap, s, e, t)
    ensures Inv(unwrap, t) && Extends(s.files, t.files) && s.receipts <= t.receipts
  {
    match e
    case Restart(p) => PutKeeps(unwrap, s, p, Process(map[], Idle));
    case Hit(p, name) => ObtainKeeps(unwrap, s, s.files, p, name, s.processes[p].cache[name]);
    case Read(p, name) =>
      if name !in s.files {
        PutKeeps(unwrap, s, p, s.processes[p].(phase := Missed(name)));
      } else if unwrap(s.files[name]).Some? {
        ObtainKeeps(unwrap, s, s.files, p, name, unwrap(s.files[name]).value);
      }
    case Mint(p, key, wrapped) =>
      PutKeeps(unwrap, s, p, s.processes[p].(phase := Minted(s.processes[p].phase.name, key, wrapped)));
    case Link(p) =>
      var m := s.processes[p].phase;
      if m.name in s.files {
        PutKeeps(unwrap, s, p, s.processes[p].(phase := Lost(m.name)));
      } else {
        ObtainKeeps(unwrap, s, s.files[m.name := m.wrapped], p, m.name, m.key);
      }
    case Reread(p) =>
      var name := s.processes[p].phase.name;
      if name in s.files && unwrap(s.files[name]).Some? {
        ObtainKeeps(unwrap, s, s.files, p, name, unwrap(s.files[name]).value);
      } else {
        PutKeeps(unwrap, s, p, s.processes[p].(phase := Idle));
      }
    case GiveUp(p) => PutKeeps(unwrap, s, p, s.processes[p].(phase := Idle));
  }

  /** Any number of processes, started and restarted over whatever files are
      there. */
  ghost predicate IsRun(unwrap: Unwrap, events: seq<Event>, states: seq<State>)
  {
    && |states| == |events| + 1 && states[0].processes == map[] && states[0].receipts == []
    && forall i :: 0 <= i < |events| ==> Step(unwrap, states[i], events[i], states[i + 1])
  }

  lemma {:induction false} RunKeeps(unwrap: Unwrap, events: seq<Event>, states: seq<State>, i: nat, j: nat)
    requires IsRun(unwrap, events, states) && i <= j <= |events|
    ensures Inv(unwrap, states[j]) && Extends(states[i].files, states[j].files) &&
            states[i].receipts <= states[j].receipts
    decreases j
  {
    hide Step, Inv;
    if i < j {
      RunKeeps(unwrap, events, states, i, j - 1);
      assert Step(unwrap, states[j - 1], events[j - 1], states[j]);
      StepKeeps(unwrap, states[j - 1], events[j - 1], states[j]);
    } else if j > 0 {
      RunKeeps(unwrap, events, states, j - 1, j - 1);
      assert Step(unwrap, states[j - 1], events[j - 1], states[j]);
      StepKeeps(unwrap, states[j - 1], events[j - 1], states[j]);
    } else {
      Begins(unwrap, states[0]);
    }
  }

  lemma Begins(unwrap: Unwrap, s: State)
    requires s.processes == map[] && s.receipts == []
    ensures Inv(unwrap, s)
  {
  }

  /** However the processes interleave, a key that a call returned is what the
      name's file unwraps to from then on. */
  lemma KeyIsTheFiles(unwrap: Unwrap, events: seq<Event>, states: seq<State>, i: nat, j: nat, r: Receipt)
    requires IsRun(unwrap, events, states) && i <= j <= |events| && r in states[i].receipts
    ensures Published(unwrap, states[j].files, r.name, r.key)
  {
    RunKeeps(unwrap, events, states, i, j);
    assert r in states[j].receipts;
  }

  /** So no two calls for a name, by any processes at any moments, differ. */
  lemma OneKeyForAName(unwrap: Unwrap, events: seq<Event>, states: seq<State>, i: nat, j: nat, r: Receipt, q: Receipt)
    requires IsRun(unwrap, events, states) && i <= |events| && j <= |events|
    requires r in states[i].receipts && q in states[j].receipts && r.name == q.name
    ensures r.key == q.key
  {
    KeyIsTheFiles(unwrap, events, states, i, |events|, r);
    KeyIsTheFiles(unwrap, events, states, j, |events|, q);
  }

  /** A process that found no file can, as long as it keeps going, always finish
      with a key: it links its own, or another's is there to be read. */
  lemma NeverStuck(unwrap: Unwrap, s: State, p: int)
    requires Inv(unwrap, s) && p in s.processes && s.processes[p].phase.Minted?
    requires forall n :: n in s.files ==> unwrap(s.files[n]).Some?
    ensures var m := s.processes[p].phase;
            exists t, u :: Step(unwrap, s, Link(p), t) && (t == u || Step(unwrap, t, Reread(p), u)) &&
                           u.processes[p].phase.Idle? && m.name in u.processes[p].cache
  {
    var m := s.processes[p].phase;
    if m.name in s.files {
      var t := Put(s, p, s.processes[p].(phase := Lost(m.name)));
      var u := Obtain(t, p, m.name, unwrap(t.files[m.name]).value);
      assert Step(unwrap, s, Link(p), t) && Step(unwrap, t, Reread(p), u);
    } else {
      var t := Obtain(s.(files := s.files[m.name := m.wrapped]), p, m.name, m.key);
      assert Step(unwrap, s, Link(p), t);
    }
  }
}
