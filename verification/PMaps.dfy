/** The persistent map: the operations that work on the index, the store and the checksum in place. */
module PMaps {
  import opened ByteStrings
  import opened RecordLog
  import opened LogStore
  import opened Checksum
  import opened TimedMap
  import opened PMapSpec
  import opened PMapRuns
  import opened PMapHistory
  import opened ProbeTable
  import opened PMapIndex
  import opened MapSums
  import opened Recovery
  import opened Defrag
  import opened PeekBytes
  import opened GetAnswers
  import opened Iteration

  lemma InvSums(c: Config, s: PState, u: Sums)
    requires Inv(c, s)
    ensures Inv(c, s.(sums := u))
  {
    hide GoodLog, Replay, LogLen, MaxStored, Pow2;
    assert Contents(s.(sums := u)) == Contents(s);
  }

  function Zeros(n: nat): (z: seq<nat>)
    ensures |z| == n
  {
    seq(n, _ => 0)
  }

  /** The key is no longer live and its record is counted as deleted. */
  function Removed(s: PState, k: Bytes): (r: PState)
  {
    s.(deleted := s.deleted + RecLen(Record(k, Value(s, k))), live := s.live - {k})
  }

  lemma DroppedIsRemoved(c: Config, s: PState, k: Bytes, t: int)
    ensures Dropped(c, s, k, t) == Removed(Subtracted(c, s, k, t), k)
    ensures Value(Subtracted(c, s, k, t), k) == Value(s, k)
  {
    hide Mix, AddEvent;
  }

  lemma RemovedInv(c: Config, s: PState, k: Bytes)
    requires Inv(c, s) && k in s.live
    ensures Inv(c, Removed(s, k))
  {
    hide Inv, Mix, AddEvent, Value;
    DroppedInv(c, s, k, 0);
    InvSums(c, Dropped(c, s, k, 0), s.sums);
  }

  ghost function KeysOf(log: seq<Record>): (ks: set<Bytes>)
  {
    set i | 0 <= i < |log| :: log[i].key
  }

  lemma KeyInLog(log: seq<Record>, i: nat)
    requires i < |log|
    ensures log[i].key in KeysOf(log)
  {}

  lemma OrdinaryHash(hash: Hash, k: Bytes)
    requires Low32(hash(k)) >= 2
    ensures KeyHash(hash, k) == Low32(hash(k))
  {}

  lemma AliveBelow(hs: seq<u32>, n: nat)
    requires Used(hs) <= n * 7 / 10 && |hs| == n && n > 0
    ensures Used(hs) < |hs|
  {}

  class PMap {
    const hash: Hash
    var hm: HashMap
    var st: Store
    var checksum: SyncChecksum
    ghost const cfg: Config
    ghost var live: map<Bytes, nat>   // live key -> record number
    ghost var rec: seq<nat>           // bucket -> record number
    ghost var pos: map<Bytes, nat>    // live key -> bucket

    ghost function At(): (p: Place)
      reads this, hm
    {
      Place(hm.hs, hm.offs, rec, pos)
    }

    /** The state of the specification this object is in. */
    ghost function View(): (s: PState)
      reads this, hm, st`log, st`deleted, checksum
    {
      PState(st.log, live, st.deleted, hm.sizelog2, hm.numStoredKeys, checksum.View())
    }

    ghost function Repr(): (r: set<object>)
      reads this, hm, st
    {
      {this, hm, hm.mem, st, st.file, checksum}
    }

    /** The index stands for `live`, over the records in the file. */
    ghost predicate Ready()
      reads this, hm, hm.mem, st`file, st`log, st.file
    {
      && hm.mem as object != st.file
      && cfg.hash == hash && cfg.size == st.file.Length && cfg.limit == hm.sizeLimit
      && hm.Valid() && Stores(st.file[..], st.log)
      && Indexes(hash, At(), st.log, live)
      && |live| == Alive(hm.hs)
    }

    ghost predicate Valid()
      reads this, hm, hm.mem, st, st.file, checksum
    {
      Ready() && st.Valid() && Inv(cfg, View())
    }

    /** Puts an empty index, a store and a fresh checksum together. */
    constructor Make(hash: Hash, ghost cfg: Config, hm: HashMap, st: Store, checksum: SyncChecksum)
      requires cfg.hash == hash && cfg.size == st.file.Length && cfg.limit == hm.sizeLimit
      requires hm.Valid() && hm.sizelog2 == cfg.initLog2 && hm.mem as object != st.file
      requires forall i | 0 <= i < |hm.hs| :: hm.hs[i] == EMPTY_BUCKET
      requires Stores(st.file[..], st.log) && st.deleted == 0 && checksum.View() == FRESH
      ensures this.cfg == cfg && this.hash == hash && this.hm == hm && this.st == st && this.checksum == checksum
      ensures Ready() && View() == Empty(cfg).(log := st.log)
    {
      this.hash, this.cfg, this.hm, this.st, this.checksum := hash, cfg, hm, st, checksum;
      live, pos, rec := map[], map[], Zeros(|hm.hs|);
      new;
      hide Used, Indexes, Alive, HashMap.Mirrors, Reachable, Zeros, Stores;
      CountZeros(hm.hs);
      EmptyIndexes(hash, At(), st.log);
    }

    /** An empty index over a zero-filled store. */
    static method New(hash: Hash, size: nat, initLog2: nat, limit: u32) returns (p: PMap)
      requires ValidConfig(Config(size, limit, initLog2, hash))
      ensures p.cfg == Config(size, limit, initLog2, hash) && p.hash == hash
      ensures p.Valid() && fresh(p.Repr()) && p.View() == Empty(p.cfg) && p.st.zeroed
    {
      hide HashMap.Valid, Store.Valid, PMap.Ready, Inv, Contents, Stores;
      var hm := new HashMap(initLog2, limit);
      var st := new Store(size);
      var checksum := new SyncChecksum();
      st.Facts();
      p := new PMap.Make(hash, Config(size, limit, initLog2, hash), hm, st, checksum);
      EmptyInv(p.cfg);
    }

    /** The key of the record a bucket points to. */
    method ReadKey(index: nat) returns (k: Bytes)
      requires Ready() && index < |hm.hs| && hm.hs[index] != EMPTY_BUCKET
      ensures rec[index] < |st.log| && k == st.log[rec[index]].key
    {
      hide Pow2, Used, Alive, Reachable, Matches, HashMap.Mirrors, Offset, LogLen, Image, ZeroFrom, KeyIn, KeyLenIn;
      var stIndex := hm.GetStoreIndex(index);
      ReadAt(st.file[..], st.log, rec[index]);
      k := st.Key(stIndex);
    }

    lemma ProbeFacts()
      requires Ready()
      ensures Pointers(At(), st.log) && hm.Mirrors() && Used(hm.hs) < |hm.hs|
      ensures |hm.hs| == hm.size == Pow2(hm.sizelog2) && hm.sizelog2 <= 32 && hm.sizeMask == hm.size - 1
    {
      hide Pow2, Used, Alive, Reachable, Matches, HashMap.Mirrors, Pointers, Stores;
      AliveBelow(hm.hs, hm.size);
    }

    /** The probe shared by every operation: stops at the first bucket that matches or is empty. */
    method Probe(h: u32, key: Bytes) returns (index: nat, found: bool)
      requires Ready()
      ensures index < |hm.hs|
      ensures found ==> HitAt(At(), st.log, h, key, index)
      ensures !found ==> hm.hs[index] == EMPTY_BUCKET && Passed(At(), st.log, h, key, index)
    {
      hide PMap.Ready, Pow2, Used, HashMap.Mirrors, AndBits, Pointers, Passed;
      ProbeFacts();
      ghost var e := SomeEmpty(hm.hs);
      MaskIsMod(h, hm.sizelog2, 32);
      PassedNone(At(), st.log, h, key);
      index := AndBits(h, hm.sizeMask, 32);
      while hm.GetHash(index) != EMPTY_BUCKET
        invariant index < hm.size && Passed(At(), st.log, h, key, index)
        decreases hm.size - Dist(h % hm.size, index, hm.size)
      {
        if hm.GetHash(index) == h {
          var storedKey := ReadKey(index);
          if storedKey == key {
            return index, true;
          }
        }
        PassedNext(At(), st.log, h, key, index, e);
        MaskNext(index, hm.sizelog2);
        index := AndBits(index + 1, hm.sizeMask, 32);
      }
      found := false;
    }

    /** What Get answers for a key, as the table decides: it probes with the low half of the hash, not remapped. */
    ghost function Answer(key: Bytes): (r: Option<Bytes>)
      requires Pointers(At(), st.log)
      reads this, hm, st`log
    {
      AnswerIn(At(), st.log, Low32(hash(key)), key)
    }

    /** What Get answers for the keys of the log. */
    ghost function Heard(): (a: Dict)
      requires Pointers(At(), st.log)
      reads this, hm, st`log
    {
      map k | k in KeysOf(st.log) && Answer(k).Some? :: Answer(k).value
    }

    /** `Get`: exactly what the table decides, which the specification allows. */
    method Get(h32: u32, key: Bytes) returns (r: Option<Bytes>)
      requires Valid() && h32 == Low32(hash(key))
      ensures r == Answer(key) && GetAllows(cfg, View(), key, r)
    {
      hide Pow2, Used, Alive, Inv, HashMap.Mirrors, Offset, LogLen, Image, ZeroFrom, KeyIn, KeyLenIn, ValIn, TotalLenIn, Contents, Passed, Reachable,
           AnswerIn, GetAllows, Matches;
      AnswerAllowed(key);
      var index, found := Probe(h32, key);
      if !found {
        MissIsNone(At(), st.log, h32, key, index);
        return None;
      }
      HitIsAnswer(At(), st.log, h32, key, index);
      var stIndex := hm.GetStoreIndex(index);
      ReadAt(st.file[..], st.log, rec[index]);
      r := Some(st.Val(stIndex));
    }

    lemma AnswerAllowed(key: Bytes)
      requires Valid()
      ensures GetAllows(cfg, View(), key, Answer(key))
    {
      hide Pow2, Used, Alive, Inv, HashMap.Mirrors, Offset, LogLen, Stores, Contents, Passed, Reachable, Matches, KeyHash, ZeroFrom;
      ValueOf(View(), key);
      var h := Low32(hash(key));
      if i: nat :| HitAt(At(), st.log, h, key, i) {
        HitIsAnswer(At(), st.log, h, key, i);
        assert st.log[rec[i]] == Record(key, st.log[rec[i]].val);
        if h >= 2 {
          FoundIsLive(hash, At(), st.log, live, h, key, i);
        } else if Used(hm.hs) == Alive(hm.hs) {
          AllAlive(hm.hs, i);
        }
      } else if h >= 2 && key in live {
        assert h == KeyHash(hash, key) by { OrdinaryHash(hash, key); }
        LiveIsHit(hash, At(), st.log, live, key);
      }
    }

    lemma HeardAnswers()
      requires Valid()
      ensures Answers(cfg, View(), Heard())
    {
      hide PMap.Ready, Inv, GetAllows, AnswerIn, Store.Valid;
      assert Pointers(At(), st.log) by { ReadyPointers(); }
      forall i | 0 <= i < |st.log| ensures GetAllows(cfg, View(), st.log[i].key, Lookup(Heard(), st.log[i].key)) {
        AnswerAllowed(st.log[i].key);
        KeyInLog(st.log, i);
      }
    }

    lemma ReadyPointers()
      requires Ready()
      ensures Pointers(At(), st.log)
    {
      hide Pointers, HashMap.Valid, Stores, Alive;
    }

    /** The probe of Set, CAS and Del, with the remapped hash: finds the key exactly when it is live. */
    method Find(h64: u64, key: Bytes) returns (index: nat, found: bool)
      requires Ready() && h64 == hash(key)
      ensures index < |hm.hs|
      ensures found <==> key in live
      ensures found ==> key in pos && pos[key] == index && hm.hs[index] == KeyHash(hash, key)
      ensures !found ==> hm.hs[index] == EMPTY_BUCKET && NoGap(hm.hs, KeyHash(hash, key) % |hm.hs|, index)
    {
      hide Pow2, Used, Alive, HashMap.Mirrors, Stores, Matches, Offset, Reachable;
      var h := HashReMap(Low32(h64));
      index, found := Probe(h, key);
      if found {
        FoundIsLive(hash, At(), st.log, live, h, key, index);
        assert key in pos by { LiveHasPlace(hash, At(), st.log, live, key); }
      } else {
        MissIsAbsent(hash, At(), st.log, live, h, key, index);
      }
    }

    /** The value of a live key, read from the store through its bucket. */
    method ReadValue(index: nat, key: Bytes) returns (v: Bytes)
      requires Ready() && key in live && key in pos && pos[key] == index < |hm.hs|
      ensures live[key] < |st.log| && v == st.log[live[key]].val
    {
      hide Pow2, Used, Alive, HashMap.Mirrors, Offset, Reachable, KeyIn, KeyLenIn, ValIn, TotalLenIn, LogLen, Image, KeyHash, ZeroFrom;
      var stIndex := hm.GetStoreIndex(index);
      ReadAt(st.file[..], st.log, rec[index]);
      v := st.Val(stIndex);
    }

    /** Makes sure the index is below its load limit, doubling it if need be. */
    method EnsureRoom() returns (ok: bool)
      requires Ready()
      modifies hm, this`rec, this`pos
      ensures Ready() && (hm.mem == old(hm.mem) || fresh(hm.mem))
      ensures ok <==> HasRoom(cfg, old(View()))
      ensures View() == if ok then Grown(old(View())) else old(View())
      ensures ok ==> hm.numStoredKeys < hm.numKeysToExpand
      ensures old(Valid()) ==> Valid()
      ensures old(hm.numStoredKeys < hm.numKeysToExpand) ==> At() == old(At())
    {
      hide Pow2, Used, Alive, Reachable, Inv, Indexes, HashMap.Mirrors, Moved, Contents, Stores, Store.Valid;
      ghost var s, p := View(), At();
      ok := true;
      if hm.numStoredKeys >= hm.numKeysToExpand {
        ghost var src, dst;
        ok, src, dst := hm.Expand();
        if ok {
          ghost var q := RehashedPlace(hash, p, st.log, live, hm.hs, hm.offs, src, dst);
          rec, pos := q.rec, q.pos;
          if Inv(cfg, s) { GrownInv(cfg, s); }
        }
      }
    }

    /** Points the empty bucket found for a key that is not live at record n. */
    method Link(index: nat, key: Bytes, storeIndex: u32, ghost n: nat)
      requires Ready() && key !in live && hm.numStoredKeys < hm.numKeysToExpand
      requires index < |hm.hs| && hm.hs[index] == EMPTY_BUCKET
      requires NoGap(hm.hs, KeyHash(hash, key) % |hm.hs|, index)
      requires n < |st.log| && st.log[n].key == key && |st.log[n].val| >= 8 && storeIndex == Offset(st.log, n)
      modifies this`live, this`rec, this`pos, hm`hs, hm`offs, hm`numStoredKeys, hm.mem
      ensures Ready() && live == old(live)[key := n] && hm.numStoredKeys == old(hm.numStoredKeys) + 1
      ensures PlacedAt(old(At()), At(), index, KeyHash(hash, key), key, n)
    {
      hide Pow2, Used, Alive, Reachable, Indexes, HashMap.Valid, HashMap.Mirrors, NoGap, Offset, Stores;
      hm.Facts();
      CountPut(hm.hs, index, KeyHash(hash, key));
      PutSize(live, key, n);
      FillPlace(hash, At(), st.log, live, index, storeIndex, key, n);
      hm.Fill(index, HashReMap(Low32(hash(key))), storeIndex);
      live, rec, pos := live[key := n], rec[index := n], pos[key := index];
    }

    /** Points the bucket of a live key at record n. */
    method Relink(index: nat, key: Bytes, storeIndex: u32, ghost n: nat)
      requires Ready() && key in live
      requires key in pos && index == pos[key] < |hm.hs| && hm.hs[index] == KeyHash(hash, key)
      requires n < |st.log| && st.log[n].key == key && |st.log[n].val| >= 8 && storeIndex == Offset(st.log, n)
      modifies this`live, this`rec, this`pos, hm`hs, hm`offs, hm.mem
      ensures Ready() && live == old(live)[key := n]
    {
      hide Pow2, Used, Alive, Reachable, Indexes, HashMap.Valid, HashMap.Mirrors, NoGap, Offset, Stores;
      hm.Facts();
      PutSize(live, key, n);
      FillPlace(hash, At(), st.log, live, index, storeIndex, key, n);
      assert hm.hs[index := KeyHash(hash, key)] == hm.hs;
      hm.Refill(index, HashReMap(Low32(hash(key))), storeIndex);
      live, rec, pos := live[key := n], rec[index := n], pos[key := index];
    }

    /** Marks the bucket of a live key deleted. */
    method Unlink(index: nat, key: Bytes)
      requires Ready() && key in live
      requires key in pos && index == pos[key] < |hm.hs| && hm.hs[index] == KeyHash(hash, key)
      modifies this`live, hm`hs, hm`offs, hm.mem
      ensures Ready() && live == old(live) - {key}
      ensures hm.hs == old(hm.hs)[index := DELETED_BUCKET]
    {
      hide Pow2, Used, Alive, Reachable, Indexes, HashMap.Valid, HashMap.Mirrors, Offset, Stores;
      hm.Facts();
      MarkIndexes(hash, At(), st.log, live, index, key);
      RemoveSize(live, key);
      CountPut(hm.hs, index, DELETED_BUCKET);
      hm.Mark(index);
      live := live - {key};
    }

    /** Appends a record to the store; the index does not change. */
    method PutRecord(key: Bytes, val: Bytes) returns (storeIndex: u32, ok: bool)
      requires Ready() && st.Valid()
      modifies st`log, st`length, st.file
      ensures Ready() && st.Valid()
      ensures ok <==> Fits(cfg, old(View()), Record(key, val))
      ensures st.log == if ok then old(st.log) + [Record(key, val)] else old(st.log)
      ensures ok ==> storeIndex == Offset(st.log, |old(st.log)|)
    {
      hide Indexes, HashMap.Valid, Store.Valid, Alive, LogLen, Stores, Offset;
      ghost var log := st.log;
      st.Facts();
      storeIndex, ok := st.Put(key, val);
      st.Facts();
      if ok {
        AppendIndexes(hash, At(), log, live, Record(key, val));
        AppendRecord(log, Record(key, val));
      }
    }

    /** Appends a pair whose key is not in the map, and points the empty bucket found for it at the record. */
    method Insert(index: nat, key: Bytes, val: Bytes) returns (ok: bool)
      requires Valid() && |val| >= 8 && key !in live && hm.numStoredKeys < hm.numKeysToExpand
      requires index < |hm.hs| && hm.hs[index] == EMPTY_BUCKET
      requires NoGap(hm.hs, KeyHash(hash, key) % |hm.hs|, index)
      modifies this`live, this`rec, this`pos, hm`hs, hm`offs, hm`numStoredKeys, hm.mem, st`log, st`length, st.file
      ensures Valid()
      ensures ok <==> Fits(cfg, old(View()), Record(key, val))
      ensures View() == if ok then Appended(old(View()), key, val) else old(View())
      ensures ok ==> PlacedAt(old(At()), At(), index, KeyHash(hash, key), key, |old(st.log)|)
    {
      hide PMap.Ready, Store.Valid, Inv, HashMap.Valid, NoGap, Offset, LogLen, PlacedAt;
      ghost var s := View();
      LoadLimit();
      var storeIndex: u32;
      storeIndex, ok := PutRecord(key, val);
      if ok {
        AppendedInv(cfg, s, key, val);
        Link(index, key, storeIndex, |s.log|);
      }
    }

    /** Appends a pair whose key is in the map, and points its bucket at the new record. */
    method Replace(index: nat, key: Bytes, val: Bytes) returns (ok: bool)
      requires Valid() && |val| >= 8 && key in live && hm.numStoredKeys < hm.numKeysToExpand
      requires key in pos && index == pos[key] < |hm.hs| && hm.hs[index] == KeyHash(hash, key)
      modifies this`live, this`rec, this`pos, hm`hs, hm`offs, hm.mem, st`log, st`length, st.file
      ensures Valid()
      ensures ok <==> Fits(cfg, old(View()), Record(key, val))
      ensures View() == if ok then Appended(old(View()), key, val) else old(View())
    {
      hide PMap.Ready, Store.Valid, Inv, HashMap.Valid, NoGap, Offset, LogLen;
      ghost var s := View();
      LoadLimit();
      var storeIndex: u32;
      storeIndex, ok := PutRecord(key, val);
      if ok {
        AppendedInv(cfg, s, key, val);
        Relink(index, key, storeIndex, |s.log|);
      }
    }

    lemma LoadLimit()
      requires Ready()
      ensures hm.numKeysToExpand == MaxStored(hm.sizelog2)
    {
      hide HashMap.Valid, Stores, Indexes, Alive;
      hm.Facts();
    }

    lemma Facts()
      requires Valid()
      ensures cfg.hash == hash
      ensures Contents(View()).Keys == live.Keys
      ensures forall k | k in live :: Contents(View())[k] == Value(View(), k) && |Value(View(), k)| >= 8
      ensures forall k | k in live :: live[k] < |st.log| && Value(View(), k) == st.log[live[k]].val
    {
      hide HashMap.Valid, Store.Valid, Indexes, Used, Alive, GoodLog, InReplay, Roomy, Counted, Stores;
    }

    /** `Set`: last writer wins. */
    method Set(h64: u64, key: Bytes, value: Bytes) returns (out: Outcome)
      requires Valid() && h64 == hash(key)
      modifies Repr()
      ensures Valid() && hm == old(hm) && st == old(st) && checksum == old(checksum) && st.file == old(st.file)
      ensures hm.mem == old(hm.mem) || fresh(hm.mem)
      ensures Result(View(), out) == DoSet(cfg, old(View()), key, value)
      ensures old(key !in live && hm.numStoredKeys < hm.numKeysToExpand) && out.Ok? ==>
        Placed(old(At()), At(), KeyHash(hash, key), key, |old(st.log)|)
    {
      hide PMap.Ready, Inv, Store.Valid, HasRoom, Grown, SetIn, PlacedAt, NoGap;
      if |value| < 8 {
        return ShortValue;
      }
      var room := EnsureRoom();
      if !room {
        return IndexFull;
      }
      var index, found := Find(h64, key);
      if found {
        out := SetFound(index, key, value);
      } else {
        out := SetNew(index, key, value);
      }
    }

    method SetNew(index: nat, key: Bytes, value: Bytes) returns (out: Outcome)
      requires Valid() && |value| >= 8 && key !in live && hm.numStoredKeys < hm.numKeysToExpand
      requires index < |hm.hs| && hm.hs[index] == EMPTY_BUCKET
      requires NoGap(hm.hs, KeyHash(hash, key) % |hm.hs|, index)
      modifies this`live, this`rec, this`pos, hm`hs, hm`offs, hm`numStoredKeys, hm.mem, st`log, st`length, st.file, checksum
      ensures Valid() && Result(View(), out) == SetIn(cfg, old(View()), key, value)
      ensures out.Ok? ==> PlacedAt(old(At()), At(), index, KeyHash(hash, key), key, |old(st.log)|)
    {
      hide PMap.Ready, Inv, HashMap.Valid, Store.Valid, NoGap, Mix, AddEvent, Time, LogLen, Value, Neg, Written, Subtracted, Appended, PlacedAt;
      ghost var g := View();
      Facts();
      var ok := Insert(index, key, value);
      if !ok {
        return StoreFull;
      }
      AddPair(key, value);
      WrittenNew(cfg, g, key, value);
      out := Ok;
    }

    method SetFound(index: nat, key: Bytes, value: Bytes) returns (out: Outcome)
      requires Valid() && |value| >= 8 && key in live && hm.numStoredKeys < hm.numKeysToExpand
      requires key in pos && index == pos[key] < |hm.hs| && hm.hs[index] == KeyHash(hash, key)
      modifies this`live, this`rec, this`pos, hm`hs, hm`offs, hm.mem, st`log, st`length, st.file, checksum
      ensures Valid() && Result(View(), out) == SetIn(cfg, old(View()), key, value)
    {
      hide PMap.Ready, Inv, HashMap.Valid, Store.Valid, Mix, AddEvent, Time, LogLen, Value, Neg, Written, Subtracted, Appended;
      ghost var g := View();
      Facts();
      var t := Time(value);
      var v := ReadValue(index, key);
      if Time(v) >= t {
        return Ok;
      }
      var ok := Replace(index, key, value);
      if !ok {
        return StoreFull;
      }
      SubPair(key, v, t);
      AddPair(key, value);
      WrittenOver(cfg, g, key, value);
      out := Ok;
    }

    /** `CAS`: replaces the version named by the caller, or creates the pair. */
    method CAS(h64: u64, key: Bytes, value: Bytes) returns (out: Outcome)
      requires Valid() && h64 == hash(key)
      modifies Repr()
      ensures Valid() && hm == old(hm) && st == old(st) && checksum == old(checksum) && st.file == old(st.file)
      ensures hm.mem == old(hm.mem) || fresh(hm.mem)
      ensures Result(View(), out) == DoCas(cfg, old(View()), key, value)
    {
      hide PMap.Ready, Inv, Store.Valid, HasRoom, Grown, CasIn;
      if |value| < 24 {
        return ShortValue;
      }
      var room := EnsureRoom();
      if !room {
        return IndexFull;
      }
      var index, found := Find(h64, key);
      if found {
        out := CasFound(index, key, value);
      } else {
        out := CasNew(index, key, value);
      }
    }

    method CasNew(index: nat, key: Bytes, value: Bytes) returns (out: Outcome)
      requires Valid() && |value| >= 24 && key !in live && hm.numStoredKeys < hm.numKeysToExpand
      requires index < |hm.hs| && hm.hs[index] == EMPTY_BUCKET
      requires NoGap(hm.hs, KeyHash(hash, key) % |hm.hs|, index)
      modifies this`live, this`rec, this`pos, hm`hs, hm`offs, hm`numStoredKeys, hm.mem, st`log, st`length, st.file, checksum
      ensures Valid() && Result(View(), out) == CasIn(cfg, old(View()), key, value)
    {
      hide PMap.Ready, Inv, HashMap.Valid, Store.Valid, NoGap, Mix, AddEvent, Time, LogLen, Value, Neg, Written, Subtracted, Appended, Contents, FromLE;
      ghost var g := View();
      Facts();
      if Time(value) != 0 && FromLE(value[8..16]) != hash([]) {
        return CasAbsent;
      }
      var ok := Insert(index, key, value[16..]);
      if !ok {
        return StoreFull;
      }
      AddPair(key, value[16..]);
      WrittenNew(cfg, g, key, value[16..]);
      out := Ok;
    }

    method CasFound(index: nat, key: Bytes, value: Bytes) returns (out: Outcome)
      requires Valid() && |value| >= 24 && key in live && hm.numStoredKeys < hm.numKeysToExpand
      requires key in pos && index == pos[key] < |hm.hs| && hm.hs[index] == KeyHash(hash, key)
      modifies this`live, this`rec, this`pos, hm`hs, hm`offs, hm.mem, st`log, st`length, st.file, checksum
      ensures Valid() && Result(View(), out) == CasIn(cfg, old(View()), key, value)
    {
      hide PMap.Ready, Inv, HashMap.Valid, Store.Valid, Mix, AddEvent, Time, LogLen, Value, Neg, Written, Appended, Contents, FromLE;
      ghost var g := View();
      Facts();
      var v := ReadValue(index, key);
      var t := Time(value[16..]);
      if Time(v) != Time(value) {
        return CasTime;
      }
      if FromLE(value[8..16]) != hash(v[8..]) {
        return CasHash;
      }
      SubPair(key, v, t);
      var ok := Replace(index, key, value[16..]);
      if !ok {
        return StoreFull;
      }
      AddPair(key, value[16..]);
      WrittenOver(cfg, g, key, value[16..]);
      out := Ok;
    }

    /** `Del`: the timestamp is read only if the key is found. */
    method Del(h64: u64, key: Bytes, value: Bytes) returns (out: Outcome)
      requires Valid() && h64 == hash(key)
      requires key in live ==> |value| >= 8
      modifies Repr()
      ensures Valid() && hm == old(hm) && st == old(st) && checksum == old(checksum) && Repr() == old(Repr())
      ensures Result(View(), out) == DoDel(cfg, old(View()), key, value)
      ensures rec == old(rec) && (key !in live && key in old(live) && key in old(pos) && old(pos)[key] < |old(hm.hs)| ==>
                                    hm.hs == old(hm.hs)[old(pos)[key] := DELETED_BUCKET])
    {
      hide PMap.Ready, Inv, Store.Valid, Value, Time, Dropped, Buried;
      var index, found := Find(h64, key);
      if !found {
        return Ok;
      }
      Facts();
      var v := ReadValue(index, key);
      var t := Time(value);
      if t < Time(v) {
        return Ok;
      }
      DropKey(index, key, v, t);
      var ok := PutTombstone(key);
      out := if ok then Ok else StoreFull;
    }

    /** Takes the pair out of the checksum, counts its record as deleted and marks its bucket. */
    method DropKey(index: nat, key: Bytes, v: Bytes, t: int)
      requires Valid() && key in live && v == Value(View(), key)
      requires key in pos && index == pos[key] < |hm.hs| && hm.hs[index] == KeyHash(hash, key)
      modifies this`live, hm`hs, hm`offs, hm.mem, st`deleted, checksum
      ensures Valid() && View() == Dropped(cfg, old(View()), key, t)
      ensures key !in live && key in Replay(st.log) && st.log == old(st.log)
      ensures hm.hs == old(hm.hs)[index := DELETED_BUCKET]
    {
      hide PMap.Ready, Inv, Store.Valid, Mix, AddEvent, Value, Neg, Replay, Removed, Dropped;
      ghost var s := View();
      Facts();
      SubPair(key, v, t);
      DroppedIsRemoved(cfg, s, key, t);
      MarkKey(index, key, v);
    }

    method MarkKey(index: nat, key: Bytes, v: Bytes)
      requires Valid() && key in live && v == Value(View(), key)
      requires key in pos && index == pos[key] < |hm.hs| && hm.hs[index] == KeyHash(hash, key)
      modifies this`live, hm`hs, hm`offs, hm.mem, st`deleted
      ensures Valid() && View() == Removed(old(View()), key)
      ensures key !in live && key in Replay(st.log)
      ensures hm.hs == old(hm.hs)[index := DELETED_BUCKET]
    {
      hide PMap.Ready, Inv, Store.Valid, Value, Replay;
      ghost var s := View();
      RemovedInv(cfg, s, key);
      InvReplay(cfg, s, key);
      Unlink(index, key);
      st.deleted := st.deleted + 12 + |key| + |v|;
    }

    method PutTombstone(key: Bytes) returns (ok: bool)
      requires Valid() && key !in live && key in Replay(st.log)
      modifies st`log, st`length, st.file
      ensures Valid()
      ensures ok <==> Fits(cfg, old(View()), Record(key, []))
      ensures View() == if ok then Buried(old(View()), key) else old(View())
    {
      hide PMap.Ready, Inv, Store.Valid, Replay, LogLen, Offset;
      ghost var s := View();
      var storeIndex: u32;
      storeIndex, ok := PutRecord(key, []);
      if ok {
        BuriedInv(cfg, s, key);
      }
    }

    // Reopening.

    /** The state as rebuilt from the first i records. */
    ghost function Rebuilding(i: nat): (s: PState)
      requires i <= |st.log|
      reads this, hm, st`log, st`deleted, checksum
    {
      View().(log := st.log[..i])
    }

    /** `restorePair`, for record i at `storeIndex`; a full index gives up on the pair. */
    method RestorePair(key: Bytes, value: Bytes, storeIndex: u32, ghost i: nat)
      requires Ready() && i < |st.log| && key == st.log[i].key && value == st.log[i].val && storeIndex == Offset(st.log, i)
      requires |value| >= 8 || (value == [] && key in live && Followed(st.file[..], st.log, i))
      requires forall k | k in live :: live[k] < i
      modifies this`live, this`rec, this`pos, hm, hm.mem, st`deleted, checksum
      ensures Ready() && (hm.mem == old(hm.mem) || fresh(hm.mem))
      ensures Rebuilding(i) == if HasRoom(cfg, old(Rebuilding(i)))
                               then Indexed(cfg, Grown(old(Rebuilding(i))), st.log, i) else old(Rebuilding(i))
    {
      hide PMap.Ready, HasRoom, Grown, Indexed, LogLen, Offset, Peek, FromLE, Followed;
      GrownAnyLog(cfg, View(), st.log[..i]);
      var room := EnsureRoom();
      if !room {
        return;
      }
      var h64 := hash(key);
      var index, found := Find(h64, key);
      var word := ReadWord(storeIndex, key, i);
      if found {
        RestoreOver(index, key, value, storeIndex, word, i);
      } else {
        RestoreNew(index, key, storeIndex, word, i);
      }
    }

    /** The first 8 bytes at the value of record i. */
    method ReadWord(storeIndex: u32, key: Bytes, ghost i: nat) returns (word: u64)
      requires Ready() && i < |st.log| && key == st.log[i].key && storeIndex == Offset(st.log, i)
      requires |st.log[i].val| >= 8 || (st.log[i].val == [] && Followed(st.file[..], st.log, i))
      ensures word == Peek(st.log, i)
    {
      hide HashMap.Valid, Indexes, Alive, LogLen, Offset, Peek, FromLE, Stores, Followed;
      PeekAt(st.file[..], st.log, i);
      var from := storeIndex + 8 + |key|;
      U64Bound(st.file[..][from..from + 8]);
      word := FromLE(st.file[..][from..from + 8]);
    }

    method RestoreNew(index: nat, key: Bytes, storeIndex: u32, word: u64, ghost i: nat)
      requires Ready() && i < |st.log| && key == st.log[i].key && storeIndex == Offset(st.log, i) && word == Peek(st.log, i)
      requires |st.log[i].val| >= 8 && key !in live && hm.numStoredKeys < hm.numKeysToExpand
      requires index < |hm.hs| && hm.hs[index] == EMPTY_BUCKET
      requires NoGap(hm.hs, KeyHash(hash, key) % |hm.hs|, index)
      modifies this`live, this`rec, this`pos, hm`hs, hm`offs, hm`numStoredKeys, hm.mem, checksum
      ensures Ready() && Rebuilding(i) == Indexed(cfg, old(Rebuilding(i)), st.log, i)
    {
      hide PMap.Ready, NoGap, LogLen, Offset, Peek, AddEvent, Value;
      ReadyHash();
      Link(index, key, storeIndex, i);
      checksum.Sum(Xor64(hash(key), word), Signed(word));
    }

    method RestoreOver(index: nat, key: Bytes, value: Bytes, storeIndex: u32, word: u64, ghost i: nat)
      requires Ready() && i < |st.log| && key == st.log[i].key && value == st.log[i].val
      requires storeIndex == Offset(st.log, i) && word == Peek(st.log, i)
      requires |value| >= 8 || value == []
      requires key in live && forall k | k in live :: live[k] < i
      requires key in pos && index == pos[key] < |hm.hs| && hm.hs[index] == KeyHash(hash, key)
      modifies this`live, this`rec, this`pos, hm`hs, hm`offs, hm.mem, st`deleted, checksum
      ensures Ready() && Rebuilding(i) == Indexed(cfg, old(Rebuilding(i)), st.log, i)
    {
      hide PMap.Ready, LogLen, Offset, Peek, AddEvent, Mix;
      ReadyHash();
      var v := ReadValue(index, key);
      checksum.Sub(Mix(hash, key, v), Signed(word));
      st.deleted := st.deleted + 12 + |key| + |v|;
      if |value| > 0 {
        Relink(index, key, storeIndex, i);
        checksum.Sum(Xor64(hash(key), word), Signed(word));
      } else {
        Unlink(index, key);
      }
    }

    /** The file that is walked: its log has no empty key, and a key length 0 behind it if there is room for one. */
    ghost predicate Walkable()
      reads this`st, st`file, st`log, st.file
    {
      && GoodLog(st.log) && ValidConfig(cfg) && Ample(cfg) && cfg.size == st.file.Length
      && (st.log == [] || LogLen(st.log) < st.file.Length)
      && (forall j | 0 <= j < |st.log| :: |st.log[j].key| > 0)
      && (LogLen(st.log) + 4 <= st.file.Length ==> EndsAt(st.file[..], st.log))
    }

    /** What `Open` has rebuilt after i records. */
    ghost predicate Opening(i: nat)
      reads this, hm, hm.mem, st, st.file, checksum
    {
      i <= |st.log| && Ready() && Walkable() && Rebuilding(i) == Restored(cfg, st.log, i)
    }

    /** One turn of the loop of `Open`; taking 8 bytes at a last tombstone can run past the end, which is a panic. */
    method OpenStep(index: nat, ghost i: nat) returns (next: nat, ok: bool)
      requires Opening(i) && i < |st.log| && index == Offset(st.log, i)
      modifies this`live, this`rec, this`pos, hm, hm.mem, st`deleted, st`length, checksum
      ensures !ok ==> LogLen(st.log) + 4 > st.file.Length
      ensures hm.mem == old(hm.mem) || fresh(hm.mem)
      ensures ok ==> Opening(i + 1) && next == Offset(st.log, i + 1) == st.length
    {
      hide PMap.Ready, PMap.Rebuilding, PMap.Walkable, LogLen, Offset, Restored, Restore, KeyLenIn, TotalLenIn, KeyIn, ValIn, Stores,
           RecLen, Replay, Followed;
      ghost var log := st.log;
      RebuiltWhileOpening(i);
      OffsetStep(log, i);
      ReadWhileOpening(index, i);
      var key, val, total := st.Key(index), st.Val(index), st.TotalLen(index);
      BytesWhileOpening(i);
      if index + 8 + |key| + 8 > st.file.Length {
        return index, false;
      }
      RestoreAndCount(key, val, index, i);
      next, ok := index + 12 + total, true;
      st.length := next;
    }

    /** Record i while opening: a value, or a tombstone of a live key whose 8 bytes can be read or run past the end. */
    lemma BytesWhileOpening(i: nat)
      requires Opening(i) && i < |st.log|
      ensures |st.log[i].val| >= 8 || (st.log[i].val == [] && st.log[i].key in live)
      ensures var from := Offset(st.log, i) + 8 + |st.log[i].key|;
        && (from + 8 > st.file.Length ==> LogLen(st.log) + 4 > st.file.Length)
        && (from + 8 <= st.file.Length && st.log[i].val == [] ==> Followed(st.file[..], st.log, i))
    {
      hide PMap.Ready, LogLen, Offset, GoodLog, ValidConfig, Ample, Restored, Stores, Replay, KeyLenIn;
      ReadyStores();
      GoodAt(st.log, i);
      LiveWhileOpening(i);
      RestoredBelow(cfg, st.log, i);
      OffsetStep(st.log, i);
      OffsetMonotone(st.log, i + 1, |st.log|);
      OffsetEnd(st.log);
    }

    lemma RebuiltWhileOpening(i: nat)
      requires Opening(i) && i < |st.log|
      ensures forall k | k in live :: live[k] < i
      ensures Restored(cfg, st.log, i + 1) == Restore(cfg, Restored(cfg, st.log, i), st.log, i)
    {
      hide PMap.Ready, LogLen, GoodLog, ValidConfig, Ample, Restored, Restore, Replay, EndsAt;
      LiveWhileOpening(i);
      RestoredBelow(cfg, st.log, i);
      RestoredStep(cfg, st.log, i);
    }

    lemma LiveWhileOpening(i: nat)
      requires i <= |st.log|
      ensures Rebuilding(i).live == live
    {}

    /** Restores a pair and counts a tombstone as deleted. */
    method RestoreAndCount(key: Bytes, val: Bytes, storeIndex: u32, ghost i: nat)
      requires Ready() && i < |st.log| && key == st.log[i].key && val == st.log[i].val && storeIndex == Offset(st.log, i)
      requires |val| >= 8 || (val == [] && key in live && Followed(st.file[..], st.log, i))
      requires forall k | k in live :: live[k] < i
      modifies this`live, this`rec, this`pos, hm, hm.mem, st`deleted, checksum
      ensures Ready() && (hm.mem == old(hm.mem) || fresh(hm.mem))
      ensures Rebuilding(i + 1) == Restore(cfg, old(Rebuilding(i)), st.log, i)
    {
      hide PMap.Ready, LogLen, Offset, HasRoom, Grown, Indexed, Followed;
      RestorePair(key, val, storeIndex, i);
      if |val| > 0 {
      } else {
        st.deleted := st.deleted + 12 + |key|;
      }
    }

    lemma ReadWhileOpening(index: nat, i: nat)
      requires Ready() && i < |st.log| && index == Offset(st.log, i)
      ensures index < TWO32 && index + 8 <= st.file.Length
      ensures st.KeyLen(index) == |st.log[i].key| <= st.TotalLen(index) && index + 8 + st.TotalLen(index) <= st.file.Length
      ensures 12 + st.TotalLen(index) == RecLen(st.log[i])
      ensures st.Key(index) == st.log[i].key && st.Val(index) == st.log[i].val
    {
      hide Indexes, Alive, HashMap.Valid, Offset, LogLen, KeyIn, KeyLenIn, ValIn, TotalLenIn, Image, ZeroFrom;
      ReadAt(st.file[..], st.log, i);
    }

    /**
     `Open`, on the file of a log: the walk stops at the first key length 0, be it the end of the log or
     the header of an empty key. Null stands for the panic of reading past the end of the file.
     */
    static method Open(hash: Hash, image: Bytes, initLog2: nat, limit: u32, ghost log: seq<Record>) returns (p: PMap?)
      requires ValidConfig(Config(|image|, limit, initLog2, hash)) && Ample(Config(|image|, limit, initLog2, hash))
      requires Stores(image, log) && ZeroFrom(image, LogLen(log)) && GoodLog(log) && (log == [] || LogLen(log) < |image|)
      ensures p == null <==> OpenPanics(Config(|image|, limit, initLog2, hash), log)
      ensures p != null ==> p.cfg == Config(|image|, limit, initLog2, hash) && p.hash == hash
      ensures p != null ==> p.Valid() && fresh(p.Repr()) && p.View() == Reopened(p.cfg, log)
    {
      hide PMap.Opening, PMap.Valid, PMap.View, Stores, LogLen, GoodLog, Ample, Offset, ValidConfig, Restored, Stop, ZeroFrom, EndsAt,
           Walked;
      ghost var w := Walked(log);
      WalkedFile(image, log);
      var q := Mapped(hash, image, initLog2, limit, w);
      var ok := q.Walk();
      if ok {
        q.OpenedIsValid();
        p := q;
      } else {
        p := null;
      }
    }

    /** A PMap over an existing file, with nothing indexed yet. */
    static method Mapped(hash: Hash, image: Bytes, initLog2: nat, limit: u32, ghost log: seq<Record>) returns (p: PMap)
      requires ValidConfig(Config(|image|, limit, initLog2, hash)) && Ample(Config(|image|, limit, initLog2, hash))
      requires Stores(image, log) && GoodLog(log) && (log == [] || LogLen(log) < |image|)
      requires forall i | 0 <= i < |log| :: |log[i].key| > 0
      requires LogLen(log) + 4 <= |image| ==> EndsAt(image, log)
      ensures p.cfg == Config(|image|, limit, initLog2, hash) && p.hash == hash && p.st.file.Length == |image|
      ensures p.st.log == log && p.st.length == 0 && p.Opening(0) && fresh(p.Repr())
      ensures p.st.zeroed == ZeroFrom(p.st.file[..], LogLen(log))
    {
      hide HashMap.Valid, PMap.Ready, Stores, LogLen, GoodLog, Ample, Offset, Restored, EndsAt, ZeroFrom;
      var hm := new HashMap(initLog2, limit);
      var st := new Store.Mapped(image, log);
      var checksum := new SyncChecksum();
      p := new PMap.Make(hash, Config(|image|, limit, initLog2, hash), hm, st, checksum);
      RestoredNone(p.cfg, log);
    }

    /** The loop of `Open`. */
    method Walk() returns (ok: bool)
      requires Opening(0) && st.length == 0
      modifies this`live, this`rec, this`pos, hm, hm.mem, st`deleted, st`length, checksum
      ensures ok <==> LogLen(st.log) + 4 <= st.file.Length
      ensures ok ==> Opening(|st.log|) && st.length == Offset(st.log, |st.log|)
      ensures hm.mem == old(hm.mem) || fresh(hm.mem)
    {
      hide PMap.Opening, Offset, KeyLenIn, LogLen;
      OffsetEnd(st.log);
      var index := 0;
      ghost var i := 0;
      while true
        invariant i <= |st.log| && Opening(i) && index == Offset(st.log, i) == st.length
        invariant hm.mem == old(hm.mem) || fresh(hm.mem)
        decreases |st.log| - i
      {
        KeyLenWhileOpening(index, i);
        if index + 4 > st.file.Length {
          return false;
        }
        if st.KeyLen(index) == 0 {
          return true;
        }
        index, ok := OpenStep(index, i);
        if !ok {
          return;
        }
        i := i + 1;
      }
    }

    /** A key length 0 is read at the end of the log and nowhere else. */
    lemma KeyLenWhileOpening(index: nat, i: nat)
      requires Opening(i) && index == Offset(st.log, i)
      ensures index + 4 > st.file.Length ==> LogLen(st.log) + 4 > st.file.Length
      ensures index + 4 <= st.file.Length ==> (st.KeyLen(index) == 0 <==> i == |st.log|)
      ensures i == |st.log| ==> index == LogLen(st.log)
    {
      hide Indexes, Alive, HashMap.Valid, Offset, LogLen, KeyIn, KeyLenIn, ValIn, TotalLenIn, Image, GoodLog, Ample, ValidConfig, Restored;
      if i < |st.log| {
        ReadAt(st.file[..], st.log, i);
      } else {
        OffsetEnd(st.log);
      }
    }

    lemma OpenedIsValid()
      requires Opening(|st.log|) && st.length == Offset(st.log, |st.log|)
      requires st.zeroed ==> ZeroFrom(st.file[..], LogLen(st.log))
      ensures Valid() && View() == Restored(cfg, st.log, |st.log|)
    {
      hide PMap.Ready, Offset, LogLen, GoodLog, Ample, ValidConfig, Restored, Inv, LiveBytes, Replay, Contents, EndsAt, Rebuilt;
      assert st.log[..|st.log|] == st.log;
      OffsetEnd(st.log);
      EmptyLogLen(st.log);
      assert Stores(st.file[..], st.log) by { ReadyStores(); }
      RestoredExact(cfg, st.log, |st.log|);
      RebuiltElim(cfg, View(), st.log, |st.log|);
    }

    lemma ReadyStores()
      requires Ready()
      ensures Stores(st.file[..], st.log) && cfg.size == st.file.Length
    {}

    lemma ReadyHash()
      requires Ready()
      ensures cfg.hash == hash
    {}

    /**
     The presence test of record i stays within the file. Only the test of a last tombstone looks behind the
     log; it only does so if Get finds the deleted key, which takes a low hash half of 1. Then 4 bytes must be
     left there, zero as in every file that was not cut short.
     */
    ghost predicate CanTest(i: nat)
      requires i < |st.log|
      reads this`st, st`file, st`log, st.file
    {
      || EndsAt(st.file[..], st.log) || i + 1 < |st.log| || st.log[i].val != []
      || cfg.hash(st.log[i].key) % TWO32 != 1
    }

    ghost predicate CanTestLast()
      reads this`st, st`file, st`log, st.file
    {
      st.log != [] ==> CanTest(|st.log| - 1)
    }

    /** `isPresent`, for the record at byte offset `index`, which is record i. */
    method IsPresent(index: nat, ghost i: nat) returns (b: bool)
      requires Valid() && i < |st.log| && index == Offset(st.log, i) && CanTest(i)
      ensures b == Present(View(), Heard(), i)
    {
      hide Pow2, Used, Alive, HashMap.Valid, LogLen, Offset, Inv, Matches, Pointers, AnswerIn, Contents, FromLE, KeyIn, KeyLenIn, ValIn, TotalLenIn,
           Image, Peek, PMap.CanTest, ZeroFrom, GoodHash;
      ReadAt(st.file[..], st.log, i);
      KeyInLog(st.log, i);
      var key := st.Key(index);
      var value := Get(Low32(hash(key)), key);
      if value.None? {
        return false;
      }
      TestReads(index, i, value.value);
      var from := index + 8 + |key|;
      var shown := st.file[..][from..from + 8];
      b := value.value[..8] == shown;
      FromLEInjective(value.value[..8], shown);
    }

    /** What the test reads once Get has answered: the 8 bytes are in the file, and are the record's. */
    lemma TestReads(index: nat, i: nat, v: Bytes)
      requires Valid() && i < |st.log| && index == Offset(st.log, i) && CanTest(i)
      requires GetAllows(cfg, View(), st.log[i].key, Some(v))
      ensures var from := index + 8 + |st.log[i].key|;
        from + 8 <= st.file.Length && FromLE(st.file[..][from..from + 8]) == Peek(st.log, i)
    {
      hide Pow2, Used, Alive, HashMap.Valid, LogLen, Offset, Inv, Indexes, FromLE, Image, Peek, Stores, ZeroFrom, EndsAt;
      ShapeOf(i);
      if st.log[i].val == [] && i + 1 == |st.log| {
        LastTombstone(cfg, View(), i);
      }
      assert |st.log[i].val| >= 8 || Followed(st.file[..], st.log, i);
      PeekAt(st.file[..], st.log, i);
    }

    /** `Iterate`: the records that pass the presence test, in log order, up to the one the callback stops at. */
    method Iterate(cont: (Bytes, Bytes) -> bool) returns (visited: seq<Record>)
      requires Valid() && CanTestLast()
      ensures visited == Cut(cont, Visited(View(), Heard(), |st.log|))
    {
      hide Pow2, PMap.Ready, Store.Valid, Inv, Offset, LogLen, Present, Stores, RecLen, Visited, Cut, KeyLenIn, TotalLenIn, KeyIn, ValIn, Picked,
           Continues, PMap.CanTest, PMap.CanTestLast, PMap.Heard, Shown;
      assert Continues(cont, []) by { ContinuesNone(cont); }
      assert Pointers(At(), st.log) by { ReadyPointers(); }
      ghost var s, i := View(), 0;
      ghost var shown := Shown(s, Heard());
      PickedVisited(s, Heard());
      visited := [];
      var index := 0;
      OffsetEnd(st.log);
      st.Facts();
      PickedNone(st.log[..0], shown[..0]);
      while index < st.length
        invariant i <= |st.log| && index == Offset(st.log, i)
        invariant visited == Picked(st.log[..i], shown[..i]) && Continues(cont, visited)
        decreases |st.log| - i
      {
        ReadHere(index, i);
        assert CanTest(i) by { CanTestAny(i); }
        var present := IsPresent(index, i);
        PickedNext(st.log, shown, i);
        if present {
          var key, val := st.Key(index), st.Val(index);
          visited := visited + [Record(key, val)];
          if !cont(key, val) {
            StopsAt(cont, st.log, shown, i);
            return;
          }
          ContinuesSnoc(cont, Picked(st.log[..i], shown[..i]), st.log[i]);
        }
        OffsetStep(st.log, i);
        index := index + 12 + st.TotalLen(index);
        i := i + 1;
      }
      OffsetMonotone(st.log, i, |st.log|);
      assert st.log[..i] == st.log && shown[..i] == shown;
      CutNothing(cont, visited);
    }

    /** `BackwardsIterate`: the exact reverse, found by following the footers. */
    method BackwardsIterate(cont: (Bytes, Bytes) -> bool) returns (visited: seq<Record>)
      requires Valid() && CanTestLast()
      ensures visited == Cut(cont, Reverse(Visited(View(), Heard(), |st.log|)))
    {
      hide Pow2, PMap.Ready, Store.Valid, Inv, Offset, LogLen, Present, Stores, RecLen, Visited, Cut, Reverse, KeyLenIn, TotalLenIn, KeyIn, ValIn,
           PrevIn, Picked, Continues, PMap.CanTest, PMap.CanTestLast, PMap.Heard, Shown;
      assert Continues(cont, []) by { ContinuesNone(cont); }
      assert Pointers(At(), st.log) by { ReadyPointers(); }
      ghost var s, i := View(), |st.log|;
      ghost var shown := Shown(s, Heard());
      PickedVisited(s, Heard());
      st.Facts();
      OffsetEnd(st.log);
      visited := [];
      var index := st.length;
      PickedNone(st.log[i..], shown[i..]);
      ReverseOne([]);
      if index <= 0 {
        OffsetMonotone(st.log, 0, |st.log|);
        assert st.log[i..] == st.log && shown[i..] == shown;
        CutNothing(cont, []);
        return;
      }
      PrevHere(index, i);
      var prev := st.Prev(index);
      index, i := prev, i - 1;
      while true
        invariant 0 <= i < |st.log| && index == Offset(st.log, i)
        invariant visited == Reverse(Picked(st.log[i + 1..], shown[i + 1..])) && Continues(cont, visited)
        decreases i
      {
        OffsetMonotone(st.log, i, |st.log|);
        ReadHere(index, i);
        assert CanTest(i) by { CanTestAny(i); }
        var present := IsPresent(index, i);
        BackwardsStep(st.log, shown, i);
        if present {
          var key, val := st.Key(index), st.Val(index);
          visited := visited + [Record(key, val)];
          if !cont(key, val) {
            BackwardsStopsAt(cont, st.log, shown, i);
            return;
          }
          ContinuesSnoc(cont, Reverse(Picked(st.log[i + 1..], shown[i + 1..])), st.log[i]);
        }
        assert visited == Reverse(Picked(st.log[i..], shown[i..]));
        PrevHere(index, i);
        prev := st.Prev(index);
        if prev < 0 {
          assert st.log[i..] == st.log && shown[i..] == shown;
          CutNothing(cont, visited);
          return;
        }
        index, i := prev, i - 1;
      }
    }

    lemma CanTestAny(i: nat)
      requires CanTestLast() && i < |st.log|
      ensures CanTest(i)
    {
      hide Low32;
    }

    lemma PrevHere(index: nat, i: nat)
      requires Valid() && i <= |st.log| && index == Offset(st.log, i)
      ensures index <= st.file.Length
      ensures st.Prev(index) == if i == 0 then -1 else Offset(st.log, i - 1)
    {
      hide Indexes, Alive, HashMap.Valid, Inv, Offset, LogLen, Image, ZeroFrom, PrevIn;
      st.Facts();
      PrevAt(st.file[..], st.log, i);
    }

    /** Reading at the offset of record i, when it is within the log. */
    lemma ReadHere(index: nat, i: nat)
      requires Valid() && i <= |st.log| && index == Offset(st.log, i) && index < st.length
      ensures i < |st.log| && index + 8 <= st.file.Length
      ensures st.KeyLen(index) <= st.TotalLen(index) && index + 8 + st.TotalLen(index) <= st.file.Length
      ensures 12 + st.TotalLen(index) == RecLen(st.log[i])
      ensures st.Key(index) == st.log[i].key && st.Val(index) == st.log[i].val
    {
      hide Indexes, Alive, HashMap.Valid, Inv, Offset, LogLen, KeyIn, KeyLenIn, ValIn, TotalLenIn, Image, ZeroFrom;
      st.Facts();
      OffsetEnd(st.log);
      ReadAt(st.file[..], st.log, i);
    }

    lemma ShapeOf(i: nat)
      requires Valid() && i < |st.log|
      ensures |st.log[i].val| >= 8 || st.log[i].val == []
    {
      hide PMap.Ready, Store.Valid, Replay, Points, InReplay, Roomy, Counted;
      GoodAt(st.log, i);
    }

    /** `Checksum`: the windows move to the present, the oldest one is reported. */
    method Checksum(now: int) returns (sum: u64)
      requires Valid()
      modifies checksum
      ensures Valid() && View() == old(View()).(sums := AddEvent(old(View()).sums, 0, now))
      ensures sum == View().sums.oldSum
    {
      hide Inv, Indexes, HashMap.Valid, Store.Valid, AddEvent;
      InvSums(cfg, View(), AddEvent(View().sums, 0, now));
      sum := checksum.Read(now);
    }

    method AddPair(key: Bytes, value: Bytes)
      requires Valid()
      modifies checksum
      ensures Valid() && View() == old(View()).(sums := AddEvent(old(View()).sums, Mix(hash, key, value), Time(value)))
    {
      hide Inv, Indexes, HashMap.Valid, Store.Valid, AddEvent, Mix, Time;
      InvSums(cfg, View(), AddEvent(View().sums, Mix(hash, key, value), Time(value)));
      checksum.Sum(Mix(hash, key, value), Time(value));
    }

    method SubPair(key: Bytes, value: Bytes, t: int)
      requires Valid()
      modifies checksum
      ensures Valid() && View() == old(View()).(sums := AddEvent(old(View()).sums, Neg(Mix(hash, key, value)), t))
    {
      hide Inv, Indexes, HashMap.Valid, Store.Valid, AddEvent, Mix;
      InvSums(cfg, View(), AddEvent(View().sums, Neg(Mix(hash, key, value)), t));
      checksum.Sub(Mix(hash, key, value), t);
    }
  }

  /** The key of a last tombstone is not live. */
  lemma LastTombstone(c: Config, s: PState, i: nat)
    requires Inv(c, s) && i + 1 == |s.log| && s.log[i].val == []
    ensures s.log[i].key !in s.live && Lookup(Contents(s), s.log[i].key) == None
  {
    hide Points, GoodLog, Roomy, Counted, Replay;
    assert s.log == s.log[..i] + [s.log[i]];
    ReplayAppend(s.log[..i], s.log[i]);
  }

  lemma FillPlace(hash: Hash, p: Place, log: seq<Record>, live: map<Bytes, nat>, i: nat, off: u32, k: Bytes, n: nat)
    requires Indexes(hash, p, log, live) && i < |p.hs| && n < |log| && log[n].key == k && |log[n].val| >= 8
    requires off == Offset(log, n)
    requires if k in live then p.pos[k] == i else p.hs[i] == EMPTY_BUCKET
    ensures |p.hs| == |p.offs| == |p.rec|
    ensures Indexes(hash, Place(p.hs[i := KeyHash(hash, k)], p.offs[i := off], p.rec[i := n], p.pos[k := i]),
                    log, live[k := n])
  {
    hide Offset, KeyHash, Matches;
    FillIndexes(hash, p, log, live, i, off, k, n);
  }

  /** Growing the table does not look at the log. */
  lemma GrownAnyLog(c: Config, s: PState, l: seq<Record>)
    ensures HasRoom(c, s.(log := l)) <==> HasRoom(c, s)
    ensures Grown(s.(log := l)) == Grown(s).(log := l)
  {
    hide Pow2, MaxStored;
  }

  lemma RestoredNone(c: Config, log: seq<Record>)
    ensures Restored(c, log, 0) == Empty(c).(log := log[..0])
  {}

  lemma RestoredStep(c: Config, log: seq<Record>, i: nat)
    requires i < |log|
    ensures Restored(c, log, i + 1) == Restore(c, Restored(c, log, i), log, i)
  {}

  /** The index never points past the records it was built from. */
  lemma RestoredBelow(c: Config, log: seq<Record>, i: nat)
    requires i <= |log| && ValidConfig(c) && Ample(c) && GoodLog(log) && LogLen(log) < c.size
    ensures forall k | k in Restored(c, log, i).live :: Restored(c, log, i).live[k] < i
    ensures Restored(c, log, i).live == Replay(log[..i])
  {
    hide ValidConfig, Ample, GoodLog, LogLen, Restored, Replay, Inv, Roomy;
    RestoredExact(c, log, i);
    RebuiltParts(c, Restored(c, log, i), log, i);
  }

  /** The part of a file that is walked: it holds the walked records, with a key length 0 or too little behind them. */
  lemma WalkedFile(f: Bytes, log: seq<Record>)
    requires Stores(f, log) && ZeroFrom(f, LogLen(log)) && GoodLog(log) && (log == [] || LogLen(log) < |f|)
    ensures var w := Walked(log);
      && Stores(f, w) && GoodLog(w) && (w == [] || LogLen(w) < |f|)
      && (forall i | 0 <= i < |w| :: |w[i].key| > 0)
      && (LogLen(w) + 4 <= |f| ==> EndsAt(f, w))
      && (LogLen(w) + 4 > |f| <==> Stop(log) == |log| && LogLen(log) + 4 > |f|)
  {
    hide LogLen, Image, GoodLog, Stop, ZeroFrom, KeyLenIn, TotalLenIn, KeyIn, ValIn, Encode;
    var n := Stop(log);
    GoodPrefix(log, n);
    WalkedLen(log);
    WalkedImage(f, log, n);
    if n < |log| {
      ReadAt(f, log, n);
    } else {
      assert Walked(log) == log;
      if LogLen(log) + 4 <= |f| { ZeroWord(f, LogLen(log)); }
    }
  }

  lemma WalkedImage(f: Bytes, log: seq<Record>, n: nat)
    requires Stores(f, log) && n <= |log|
    ensures Stores(f, log[..n])
  {
    hide LogLen, Image;
    ImagePrefix(log, n);
    assert f[..LogLen(log)][..Offset(log, n)] == f[..Offset(log, n)];
  }

  /** The new placement, as a value the caller can take apart. */
  lemma RehashedPlace(hash: Hash, p: Place, log: seq<Record>, live: map<Bytes, nat>,
                      hs: seq<u32>, offs: seq<u32>, src: seq<nat>, dst: seq<nat>) returns (q: Place)
    requires Indexes(hash, p, log, live) && Moved(p.hs, p.offs, hs, offs, src, dst)
    ensures q.hs == hs && q.offs == offs && Indexes(hash, q, log, live)
  {
    hide Offset, KeyHash, Matches;
    q := Rehashed(p, hs, offs, src, dst);
    RehashIndexes(hash, p, log, live, hs, offs, src, dst);
  }

  /** A live record appended, before the checksum is told. */
  function Appended(s: PState, k: Bytes, v: Bytes): (r: PState)
  {
    s.(log := s.log + [Record(k, v)], live := s.live[k := |s.log|],
       stored := s.stored + if k in s.live then 0 else 1)
  }

  /** The append and the checksum update of a new pair, together. */
  lemma WrittenNew(c: Config, s: PState, k: Bytes, v: Bytes)
    ensures Appended(s, k, v).sums == s.sums
    ensures Appended(s, k, v).(sums := AddEvent(s.sums, Mix(c.hash, k, v), Time(v))) == Written(c, s, k, v)
  {
    hide Mix, AddEvent, Time;
  }

  /** The append and the two checksum updates of a replaced pair, in either order. */
  lemma WrittenOver(c: Config, s: PState, k: Bytes, v: Bytes)
    ensures Appended(s, k, v).sums == s.sums
    ensures
      var u := AddEvent(s.sums, Neg(Mix(c.hash, k, Value(s, k))), Time(v));
      && Appended(s, k, v).(sums := AddEvent(u, Mix(c.hash, k, v), Time(v)))
           == Written(c, Subtracted(c, s, k, Time(v)), k, v)
      && Appended(s.(sums := u), k, v) == Appended(s, k, v).(sums := u)
  {
    hide Mix, AddEvent, Time, Neg, Value;
  }

  lemma AppendedInv(c: Config, s: PState, k: Bytes, v: Bytes)
    requires Inv(c, s) && |v| >= 8 && s.stored < MaxStored(s.log2) && Fits(c, s, Record(k, v))
    ensures Inv(c, Appended(s, k, v))
  {
    hide Inv, MaxStored, Mix, AddEvent, LogLen, Time;
    WrittenInv(c, s, k, v);
    InvSums(c, Written(c, s, k, v), s.sums);
  }
}
