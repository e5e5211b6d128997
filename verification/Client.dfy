/** The client's replication policy: reading from every holder, read-repair, and the master of a swap. */
module Client {
  import opened ByteStrings
  import opened TimedMap
  import opened Checksum

  // A chunk has at most 8 holders; the unused entries are nil.
  const MAX_HOLDERS: nat := 8

  /** A server, known by its address. */
  datatype Server = Server(phy: Bytes)

  function Rank(hash: Hash, key: Bytes, s: Option<Server>): (r: u64)
  {
    if s.None? then 0 else hash(key + s.value.phy)
  }

  /**
   Master selection of `CAS`: of the known servers the first whose address, hashed behind the key, gives the
   highest hash. None is selected if and only if slot 0 is empty and every such hash is 0.
   */
  method SelectMaster(hash: Hash, key: Bytes, servers: seq<Option<Server>>) returns (master: Option<nat>)
    requires |servers| == MAX_HOLDERS
    ensures master.Some? ==>
      && master.value < MAX_HOLDERS && servers[master.value].Some?
      && (forall i | 0 <= i < MAX_HOLDERS && servers[i].Some? ::
            hash(key + servers[i].value.phy) <= hash(key + servers[master.value].value.phy))
      && (forall i | 0 <= i < master.value && servers[i].Some? ::
            hash(key + servers[i].value.phy) < hash(key + servers[master.value].value.phy))
    ensures master.None? <==>
      (servers[0].None? && forall i | 0 <= i < MAX_HOLDERS && servers[i].Some? :: hash(key + servers[i].value.phy) == 0)
  {
    var rank := seq(MAX_HOLDERS, i requires 0 <= i < MAX_HOLDERS => Rank(hash, key, servers[i]));
    assert forall j | 0 <= j < MAX_HOLDERS :: Rank(hash, key, servers[j]) == rank[j];
    var m, masterRank, i := 0, 0, 0;
    while i < MAX_HOLDERS
      invariant 0 <= i <= MAX_HOLDERS && 0 <= m < MAX_HOLDERS
      invariant forall j | 0 <= j < i :: rank[j] <= masterRank
      invariant forall j | 0 <= j < m :: rank[j] < masterRank
      invariant masterRank >= 0 && (masterRank == 0 ==> m == 0)
      invariant masterRank > 0 ==> masterRank == rank[m]
    {
      if rank[i] > masterRank {
        m, masterRank := i, rank[i];
      }
      i := i + 1;
    }
    if servers[m].None? {
      return None;
    }
    master := Some(m);
  }

  ghost predicate IsMaster(hash: Hash, key: Bytes, servers: seq<Option<Server>>, s: Server)
  {
    Some(s) in servers && forall t | Some(t) in servers :: hash(key + t.phy) <= hash(key + s.phy)
  }

  /** No two of the servers have the same hash behind the key. */
  ghost predicate DistinctRanks(hash: Hash, key: Bytes, servers: seq<Option<Server>>)
  {
    forall x, y | Some(x) in servers && Some(y) in servers && hash(key + x.phy) == hash(key + y.phy) :: x == y
  }

  /** The selected server is the master, whatever its index. */
  lemma SelectedIsMaster(hash: Hash, key: Bytes, servers: seq<Option<Server>>, i: nat)
    requires i < |servers| && servers[i].Some?
    requires forall j | 0 <= j < |servers| && servers[j].Some? :: hash(key + servers[j].value.phy) <= hash(key + servers[i].value.phy)
    ensures IsMaster(hash, key, servers, servers[i].value)
  {
    assert Some(servers[i].value) == servers[i];
    forall t | Some(t) in servers ensures hash(key + t.phy) <= hash(key + servers[i].value.phy) {
      var j :| 0 <= j < |servers| && servers[j] == Some(t);
    }
  }

  /** Clients that know the same servers, in any order, agree on the master when the hashes are distinct. */
  lemma MasterIsUnique(hash: Hash, key: Bytes, a: seq<Option<Server>>, b: seq<Option<Server>>, s: Server, t: Server)
    requires forall x :: Some(x) in a <==> Some(x) in b
    requires DistinctRanks(hash, key, a) && IsMaster(hash, key, a, s) && IsMaster(hash, key, b, t)
    ensures s == t
  {}

  /** Both clients select, and select the same server, when the hashes are distinct and nonzero. */
  method AgreeOnMaster(hash: Hash, key: Bytes, a: seq<Option<Server>>, b: seq<Option<Server>>)
    returns (s: Option<Server>, t: Option<Server>)
    requires |a| == |b| == MAX_HOLDERS
    requires forall x :: Some(x) in a <==> Some(x) in b
    requires forall x, y | Some(x) in a && Some(y) in a && hash(key + x.phy) == hash(key + y.phy) :: x == y
    requires forall x | Some(x) in a :: hash(key + x.phy) != 0
    ensures s == t
    ensures s.None? <==> forall x :: Some(x) !in a
    ensures s.Some? ==> s in a && forall x | Some(x) in a :: hash(key + x.phy) <= hash(key + s.value.phy)
  {
    var i := SelectMaster(hash, key, a);
    var j := SelectMaster(hash, key, b);
    if i.Some? {
      assert Some(a[i.value].value) == a[i.value];
      SelectedIsMaster(hash, key, a, i.value);
    }
    if j.Some? {
      assert Some(b[j.value].value) == b[j.value];
      SelectedIsMaster(hash, key, b, j.value);
    }
    NoMasterMeansNoServer(hash, key, a, i);
    NoMasterMeansNoServer(hash, key, b, j);
    s := if i.None? then None else a[i.value];
    t := if j.None? then None else b[j.value];
    if i.Some? && j.Some? {
      MasterIsUnique(hash, key, a, b, a[i.value].value, b[j.value].value);
    }
  }

  lemma NoMasterMeansNoServer(hash: Hash, key: Bytes, a: seq<Option<Server>>, m: Option<nat>)
    requires |a| == MAX_HOLDERS
    requires m.None? ==> forall i | 0 <= i < MAX_HOLDERS && a[i].Some? :: hash(key + a[i].value.phy) == 0
    requires forall x | Some(x) in a :: hash(key + x.phy) != 0
    ensures m.None? ==> forall x :: Some(x) !in a
  {}

  // Get and read-repair.

  /** What came back for one entry of the holder list; an empty value means the key is not there. */
  datatype Response = NoServer | NoAnswer | Answer(value: Bytes)

  /** The time a response counts for. */
  function TimeOf(r: Response): (t: int)
  {
    if r.Answer? && |r.value| >= 8 then Time(r.value) else ZERO_TIME
  }

  predicate Carries(r: Response)
  {
    r.Answer? && |r.value| >= 8
  }

  lemma TimesAreReal(v: Bytes)
    requires |v| >= 8
    ensures Time(v) > ZERO_TIME
  {
    U64Bound(v[..8]);
  }

  /** The newest answer, its time, whether anyone answered, and the holders known to lag behind it. */
  ghost predicate IsResult(rs: seq<Response>, value: Option<Bytes>, lastTime: int, read: bool, repairs: set<nat>)
  {
    && (read <==> exists i :: 0 <= i < |rs| && rs[i].Answer?)
    && (value.None? <==> forall i | 0 <= i < |rs| :: !Carries(rs[i]))
    && (value.Some? ==> Answer(value.value) in rs && |value.value| >= 8 && lastTime == Time(value.value))
    && (forall i | 0 <= i < |rs| :: TimeOf(rs[i]) <= lastTime)
    && (value.None? ==> lastTime == ZERO_TIME && repairs == {})
    && (value.Some? ==>
          forall i :: i in repairs <==> (0 <= i < |rs| && !rs[i].NoServer? && TimeOf(rs[i]) < lastTime))
  }

  /** `Get`: a value of maximal timestamp among the responders, without its header, and with it the repair writes. */
  method Get(rs: seq<Response>)
    returns (value: Option<Bytes>, lastTime: int, read: bool, repairs: set<nat>, newest: Option<Bytes>)
    requires |rs| == MAX_HOLDERS
    ensures IsResult(rs, newest, lastTime, read, repairs)
    ensures value == if newest.None? then None else Some(newest.value[8..])
    ensures newest.Some? ==>
      exists i :: 0 <= i < |rs| && rs[i] == Answer(newest.value) && forall j | 0 <= j < i :: TimeOf(rs[j]) < lastTime
  {
    hide Time;
    value, newest, lastTime, read, repairs := None, None, ZERO_TIME, false, {};
    var i := 0;
    ghost var at := 0;
    while i < |rs|
      invariant 0 <= i <= |rs|
      invariant newest.Some? ==> 0 <= at < i && rs[at] == Answer(newest.value) && forall j | 0 <= j < at :: TimeOf(rs[j]) < lastTime
      invariant read <==> exists j :: 0 <= j < i && rs[j].Answer?
      invariant newest.None? <==> forall j | 0 <= j < i :: !Carries(rs[j])
      invariant newest.None? ==> lastTime == ZERO_TIME
      invariant newest.Some? ==> Answer(newest.value) in rs && |newest.value| >= 8 && lastTime == Time(newest.value)
      invariant forall j | 0 <= j < i :: TimeOf(rs[j]) <= lastTime
      invariant lastTime >= ZERO_TIME
    {
      if rs[i].Answer? {
        var v := rs[i].value;
        read := true;
        if |v| >= 8 {
          var t := Time(v);
          TimesAreReal(v);
          if lastTime < t {
            lastTime := t;
            newest := Some(v);
            at := i;
          }
        }
      }
      i := i + 1;
    }
    if newest.None? {
      return;
    }
    i := 0;
    while i < |rs|
      invariant 0 <= i <= |rs|
      invariant forall j :: j in repairs <==> (0 <= j < i && !rs[j].NoServer? && TimeOf(rs[j]) < lastTime)
    {
      if !rs[i].NoServer? && lastTime > TimeOf(rs[i]) {
        repairs := repairs + {i};
      }
      i := i + 1;
    }
    value := Some(newest.value[8..]);
  }

  // Holders receive Sets in any order; a Get reads each of them at some moment of the run.

  /** A Set that reaches a holder. */
  datatype Delivery = Delivery(holder: nat, key: Bytes, value: Bytes)

  /** The pairs of a holder after the first n deliveries of a run. */
  function Holder(init: Dict, ds: seq<Delivery>, i: nat, n: nat): (m: Dict)
    requires n <= |ds|
  {
    if n == 0 then init
    else
      var m, d := Holder(init, ds, i, n - 1), ds[n - 1];
      if d.holder == i then DictSet(m, d.key, d.value) else m
  }

  ghost predicate Stamped(m: Dict)
  {
    forall k | k in m :: |m[k]| >= 8
  }

  function TimeIn(m: Dict, k: Bytes): (t: int)
  {
    if k in m then Time(m[k]) else ZERO_TIME
  }

  lemma SetRaises(m: Dict, k: Bytes, v: Bytes, k': Bytes)
    requires Stamped(m)
    ensures Stamped(DictSet(m, k, v))
    ensures TimeIn(m, k') <= TimeIn(DictSet(m, k, v), k')
    ensures |v| >= 8 ==> Time(v) <= TimeIn(DictSet(m, k, v), k)
  {
    hide Time;
    if |v| >= 8 { TimesAreReal(v); }
  }

  /** What a holder stores for a key never gets older. */
  lemma {:induction false} HolderMonotone(init: Dict, ds: seq<Delivery>, i: nat, n: nat, n': nat, k: Bytes)
    requires Stamped(init) && n <= n' <= |ds|
    ensures Stamped(Holder(init, ds, i, n'))
    ensures TimeIn(Holder(init, ds, i, n), k) <= TimeIn(Holder(init, ds, i, n'), k)
    decreases n'
  {
    hide TimeIn, DictSet, Stamped;
    if n < n' {
      HolderMonotone(init, ds, i, n, n' - 1, k);
      SetRaises(Holder(init, ds, i, n' - 1), ds[n' - 1].key, ds[n' - 1].value, k);
    } else if n' > 0 {
      HolderMonotone(init, ds, i, n - 1, n' - 1, k);
      SetRaises(Holder(init, ds, i, n' - 1), ds[n' - 1].key, ds[n' - 1].value, k);
    }
  }

  /** Once a write has reached a holder, the holder stores that write or a later one, for ever. */
  lemma Delivered(init: Dict, ds: seq<Delivery>, i: nat, j: nat, n: nat, v: Bytes, k: Bytes)
    requires Stamped(init) && j < n <= |ds| && ds[j] == Delivery(i, k, v) && |v| >= 8
    ensures Time(v) <= TimeIn(Holder(init, ds, i, n), k)
  {
    hide TimeIn, DictSet, Stamped, Time;
    HolderMonotone(init, ds, i, j, j, k);
    SetRaises(Holder(init, ds, i, j), k, v, k);
    HolderMonotone(init, ds, i, j + 1, n, k);
  }

  function AnswerOf(m: Dict, k: Bytes): (r: Response)
  {
    Answer(if k in m then m[k] else [])
  }

  /** Every answer in rs was read from its holder at moment at[i] of the run. */
  ghost predicate ReadAt(inits: seq<Dict>, ds: seq<Delivery>, k: Bytes, rs: seq<Response>, at: seq<nat>)
  {
    && |inits| == |rs| == |at|
    && (forall i | 0 <= i < |rs| :: Stamped(inits[i]) && at[i] <= |ds|)
    && forall i | 0 <= i < |rs| && rs[i].Answer? :: rs[i] == AnswerOf(Holder(inits[i], ds, i, at[i]), k)
  }

  /** By moment q, holders that showed the newest value have been read and all repairs have arrived. */
  ghost predicate Repaired(ds: seq<Delivery>, k: Bytes, rs: seq<Response>, at: seq<nat>, v: Bytes, repairs: set<nat>, q: nat)
  {
    && q <= |ds| && |at| == |rs|
    && (forall i | 0 <= i < |rs| && rs[i].Answer? && i !in repairs :: at[i] <= q)
    && (forall i | i in repairs :: Delivery(i, k, v) in ds[..q])
  }

  lemma AnswerTime(m: Dict, k: Bytes)
    requires Stamped(m)
    ensures TimeOf(AnswerOf(m, k)) == TimeIn(m, k)
  {
    hide Time;
  }

  /** After a repaired read, every holder stores a value at least as new as the one returned. */
  lemma RepairReachesAll(inits: seq<Dict>, ds: seq<Delivery>, k: Bytes, rs: seq<Response>, at: seq<nat>,
                         v: Bytes, t: int, repairs: set<nat>, q: nat, i: nat, n: nat)
    requires ReadAt(inits, ds, k, rs, at) && IsResult(rs, Some(v), t, true, repairs)
    requires Repaired(ds, k, rs, at, v, repairs, q)
    requires i < |rs| && !rs[i].NoServer? && q <= n <= |ds|
    ensures Stamped(Holder(inits[i], ds, i, n)) && t <= TimeIn(Holder(inits[i], ds, i, n), k)
  {
    hide TimeIn, Holder, Stamped, Time;
    HolderMonotone(inits[i], ds, i, n, n, k);
    if i in repairs {
      assert Delivery(i, k, v) in ds[..q];
      var j :| 0 <= j < q && ds[j] == Delivery(i, k, v);
      Delivered(inits[i], ds, i, j, n, v, k);
    } else {
      NotRepaired(rs, v, t, repairs, i);
      HolderMonotone(inits[i], ds, i, at[i], at[i], k);
      AnswerTime(Holder(inits[i], ds, i, at[i]), k);
      HolderMonotone(inits[i], ds, i, at[i], n, k);
    }
  }

  lemma NotRepaired(rs: seq<Response>, v: Bytes, t: int, repairs: set<nat>, i: nat)
    requires IsResult(rs, Some(v), t, true, repairs) && i < |rs| && !rs[i].NoServer? && i !in repairs
    ensures TimeOf(rs[i]) == t && rs[i].Answer?
  {
    hide Time;
    TimesAreReal(v);
  }

  /**
   Later reads never go back: any read made after the repairs arrived, of the same holders and with at
   least one responder, returns a value at least as new. Sets of any client may interleave freely.
   */
  lemma ReadsNeverGoBack(inits: seq<Dict>, ds: seq<Delivery>, k: Bytes,
                         rs: seq<Response>, at: seq<nat>, v: Bytes, t: int, repairs: set<nat>, q: nat,
                         rs': seq<Response>, at': seq<nat>, v': Option<Bytes>, t': int, read': bool, repairs': set<nat>)
    requires ReadAt(inits, ds, k, rs, at) && IsResult(rs, Some(v), t, true, repairs)
    requires Repaired(ds, k, rs, at, v, repairs, q)
    requires ReadAt(inits, ds, k, rs', at') && IsResult(rs', v', t', read', repairs') && read'
    requires forall i | 0 <= i < |rs'| && rs'[i].Answer? :: at'[i] >= q && !rs[i].NoServer?
    ensures v'.Some? && t' >= t
  {
    hide TimeIn, Holder, Stamped, Time, Repaired;
    var i :| 0 <= i < |rs'| && rs'[i].Answer?;
    assert q <= at'[i] <= |ds|;
    RepairReachesAll(inits, ds, k, rs, at, v, t, repairs, q, i, at'[i]);
    AnswerTime(Holder(inits[i], ds, i, at'[i]), k);
    NewestIsReal(rs, v, t, repairs);
    assert TimeOf(rs'[i]) >= t;
  }

  lemma NewestIsReal(rs: seq<Response>, v: Bytes, t: int, repairs: set<nat>)
    requires IsResult(rs, Some(v), t, true, repairs)
    ensures t > ZERO_TIME
  {
    hide Time;
    TimesAreReal(v);
  }

  // The Sets that follow a won swap.

  /** The other holders get the new value by Set: whoever is known and is not the master. */
  method SlaveSets(servers: seq<Option<Server>>, master: nat) returns (targets: set<nat>)
    requires |servers| == MAX_HOLDERS
    ensures forall i :: i in targets <==> (0 <= i < MAX_HOLDERS && servers[i].Some? && i != master)
  {
    targets := {};
    var i := 0;
    while i < |servers|
      invariant 0 <= i <= |servers|
      invariant forall j :: j in targets <==> (0 <= j < i && servers[j].Some? && j != master)
    {
      if servers[i].Some? && i != master {
        targets := targets + {i};
      }
      i := i + 1;
    }
  }

  /** The master holds the value of a swap it accepted; another holder ends with it if and only if it is later than what it stores. */
  lemma SwapSpreadsIff(hash: Hash, master: Dict, slave: Dict, k: Bytes, x: Bytes)
    requires CasVerdict(hash, master, k, x).Ok?
    ensures |x| >= 24 && Lookup(DictCas(hash, master, k, x), k) == Some(x[16..])
    ensures Lookup(DictSet(slave, k, x[16..]), k) == Some(x[16..])
       <==> k !in slave || slave[k] == x[16..] || Time(slave[k]) < Time(x[16..])
  {
    hide Time, FromLE;
  }

  /**
   A swap never compares its time with the one it replaces. If it is earlier, a holder in sync with the
   master keeps the old version, the next read answers that, and its repair undoes the swap on the master.
   */
  lemma EarlierSwapUndone(hash: Hash, m: Dict, k: Bytes, x: Bytes, rs: seq<Response>,
                          newest: Option<Bytes>, t: int, read: bool, repairs: set<nat>)
    requires k in m && |m[k]| >= 8 && CasVerdict(hash, m, k, x).Ok? && Time(x[16..]) < Time(m[k])
    requires rs == [AnswerOf(DictCas(hash, m, k, x), k), AnswerOf(DictSet(m, k, x[16..]), k)]
    requires IsResult(rs, newest, t, read, repairs)
    ensures DictSet(m, k, x[16..]) == m && newest == Some(m[k]) && repairs == {0}
    ensures DictSet(DictCas(hash, m, k, x), k, m[k])[k] == m[k]
  {
    hide FromLE, Stamp, Time;
    SwapSpreadsIff(hash, m, m, k, x);
    var u, v := m[k], x[16..];
    assert rs[0] == Answer(v) && rs[1] == Answer(u);
    assert TimeOf(rs[0]) == Time(v) && TimeOf(rs[1]) == Time(u);
    assert Carries(rs[1]);
    assert newest.Some? && Answer(newest.value) in rs;
  }
}
