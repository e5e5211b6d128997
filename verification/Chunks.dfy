/** One chunk of a core: a PMap behind a presence flag, and the defragmentation step that replaces it. */
module Chunks {
  import opened ByteStrings
  import opened RecordLog
  import opened LogStore
  import opened TimedMap
  import opened PMapSpec
  import opened PMapHistory
  import opened PMapChecksum
  import opened PMapIndex
  import opened Recovery
  import opened Defrag
  import opened PMaps
  import opened GetAnswers
  import opened Iteration
  import opened ChunkRuns
  import opened PeekBytes
  import opened ProbeTable

  /** Sets a sequence of pairs into an empty PMap, until one is refused. */
  function SetAll(c: Config, rs: seq<Record>): (r: Result)
  {
    if rs == [] then Result(Empty(c), Ok)
    else
      var p := SetAll(c, rs[..|rs| - 1]);
      if !p.out.Ok? then p else DoSet(c, p.s, rs[|rs| - 1].key, rs[|rs| - 1].val)
  }

  lemma SetAllSnoc(c: Config, rs: seq<Record>, r: Record)
    ensures SetAll(c, rs + [r]) == if !SetAll(c, rs).out.Ok? then SetAll(c, rs) else DoSet(c, SetAll(c, rs).s, r.key, r.val)
  {
    hide DoSet, Empty;
    assert (rs + [r])[..|rs|] == rs;
  }

  lemma {:induction false} SetAllVisited(c: Config, s: PState, a: Dict, n: nat)
    requires n <= |s.log|
    ensures SetAll(c, Visited(s, a, n)) == Defragged(c, s, a, n)
    decreases n
  {
    hide DoSet, Empty, Present;
    if n > 0 {
      SetAllVisited(c, s, a, n - 1);
      VisitedStep(s, a, n - 1);
      if Present(s, a, n - 1) {
        SetAllSnoc(c, Visited(s, a, n - 1), s.log[n - 1]);
      } else {
        assert Visited(s, a, n) == Visited(s, a, n - 1);
      }
    }
  }

  /** Once a pair is refused the rest does not matter. */
  lemma {:induction false} SetAllStops(c: Config, rs: seq<Record>, i: nat)
    requires i <= |rs| && !SetAll(c, rs[..i]).out.Ok?
    ensures !SetAll(c, rs).out.Ok?
    decreases |rs|
  {
    hide DoSet, Empty;
    if i == |rs| {
      assert rs[..i] == rs;
    } else {
      assert rs[..|rs| - 1][..i] == rs[..i];
      SetAllStops(c, rs[..|rs| - 1], i);
    }
  }

  class MetaChunk {
    const hash: Hash
    const chunkSize: nat
    const initLog2: nat
    const limit: u32
    const disk: bool          // there is a database path
    var pm: PMap?
    var file: Option<nat>     // revision in the name of the file of pm
    var present: bool
    var revision: nat

    /** The configuration of the PMaps this chunk creates; one that was opened has the size of its file. */
    ghost function Cfg(): (c: Config)
    {
      Config(chunkSize, limit, initLog2, hash)
    }

    ghost predicate Valid()
      reads this, pm, (if pm != null then {pm.hm, pm.st, pm.checksum} else {}),
            (if pm != null then {pm.hm.mem} else {}), (if pm != null then {pm.st.file} else {})
    {
      && ValidConfig(Cfg())
      && (present <==> pm != null) && (!present ==> file == None)
      && (present ==> pm.Valid() && pm.cfg == Cfg().(size := pm.cfg.size) && pm.hash == hash)
    }

    ghost function View(): (s: Option<PState>)
      reads this, pm, (if pm != null then {pm.hm, pm.st, pm.checksum} else {})
    {
      if pm == null then None else Some(pm.View())
    }

    /** The chunk with its file and its revision counter. */
    ghost function SlotView(): (ch: Slot)
      reads this, pm, (if pm != null then {pm.hm, pm.st, pm.checksum} else {})
    {
      Slot(View(), file, revision)
    }

    /** A chunk that is not present. */
    constructor (hash: Hash, chunkSize: nat, initLog2: nat, limit: u32, disk: bool)
      requires ValidConfig(Config(chunkSize, limit, initLog2, hash))
      ensures Valid() && Cfg() == Config(chunkSize, limit, initLog2, hash) && this.disk == disk && SlotView() == Slot(None, None, 0)
    {
      this.hash, this.chunkSize, this.initLog2, this.limit, this.disk := hash, chunkSize, initLog2, limit, disk;
      pm, present, file, revision := null, false, None, 0;
    }

    method SetPresent()
      requires Valid()
      modifies this
      ensures Valid() && (old(View()).None? ==> pm != null && pm.cfg == Cfg())
      ensures SlotView() == if old(View()).None? then Slot(Some(Empty(Cfg())), FileOf(disk, 0), old(revision)) else old(SlotView())
    {
      hide PMap.Valid, Empty;
      if !present {
        pm := PMap.New(hash, chunkSize, initLog2, limit);
        file := if disk then Some(0) else None;
        present := true;
      }
    }

    method SetNoPresent()
      requires Valid()
      modifies this
      ensures Valid() && SlotView() == Slot(None, None, old(revision))
    {
      hide PMap.Valid, ValidConfig;
      pm, present, file := null, false, None;
    }

    /** Opens the file of a chunk, of whatever size and revision, on starting up; false is a panic. */
    method Open(image: Bytes, revisionOfFile: nat, ghost log: seq<Record>) returns (ok: bool)
      requires Valid() && ValidConfig(Cfg().(size := |image|)) && Ample(Cfg().(size := |image|))
      requires Stores(image, log) && ZeroFrom(image, LogLen(log)) && GoodLog(log) && (log == [] || LogLen(log) < |image|)
      modifies this
      ensures ok == Restart(Cfg().(size := |image|), log).Some?
      ensures ok ==> Valid() && pm != null && pm.cfg.size == |image|
      ensures ok ==> SlotView() == Slot(Restart(Cfg().(size := |image|), log), Some(revisionOfFile), old(revision))
    {
      hide PMap.Valid, Ample, Stores, ZeroFrom, LogLen, GoodLog, Reopened, Stop;
      assert Cfg().(size := |image|) == Config(|image|, limit, initLog2, hash);
      pm := PMap.Open(hash, image, initLog2, limit, log);
      present, ok := pm != null, pm != null;
      file := Some(revisionOfFile);
    }

    /** `None` stands for the ChunkNotPresent error. */
    method Get(key: Bytes) returns (r: Option<Option<Bytes>>)
      requires Valid()
      ensures r.None? <==> !present
      ensures r.Some? ==> GetAllows(pm.cfg, View().value, key, r.value)
    {
      hide PMap.Valid, GetAllows;
      if !present {
        return None;
      }
      var v := pm.Get(Low32(hash(key)), key);
      r := Some(v);
    }

    method Set(key: Bytes, value: Bytes) returns (out: Option<Outcome>)
      requires Valid()
      modifies pm, if pm != null then pm.Repr() else {}
      ensures Valid() && pm == old(pm)
      ensures out.None? <==> !present
      ensures out.Some? ==> Result(View().value, out.value) == DoSet(pm.cfg, old(View()).value, key, value)
    {
      hide PMap.Valid, DoSet, PMap.View;
      if !present {
        return None;
      }
      var o := pm.Set(hash(key), key, value);
      out := Some(o);
    }

    method CAS(key: Bytes, value: Bytes, synced: bool) returns (out: Option<Outcome>)
      requires Valid()
      modifies pm, if pm != null then pm.Repr() else {}
      ensures Valid() && pm == old(pm)
      ensures out.None? <==> !present || !synced
      ensures out.None? ==> View() == old(View())
      ensures out.Some? ==> Result(View().value, out.value) == DoCas(pm.cfg, old(View()).value, key, value)
    {
      hide PMap.Valid, DoCas, PMap.View;
      if !present {
        return None;
      }
      if !synced {
        return None;
      }
      var o := pm.CAS(hash(key), key, value);
      out := Some(o);
    }

    /** Deletes, and asks for a defragmentation once a tenth of a tenth-full store is deleted. */
    method Delete(key: Bytes, value: Bytes) returns (out: Option<Outcome>, defrag: bool)
      requires Valid()
      requires present && key in pm.live ==> |value| >= 8
      modifies pm, if pm != null then pm.Repr() else {}
      ensures Valid() && pm == old(pm)
      ensures out.None? <==> !present
      ensures out.Some? ==> Result(View().value, out.value) == DoDel(pm.cfg, old(View()).value, key, value)
      ensures defrag <==> (present && 10 * View().value.deleted > LogLen(View().value.log) > 0
                           && 10 * LogLen(View().value.log) > pm.cfg.size)
    {
      hide PMap.Ready, Inv, DoDel, Stores;
      defrag := false;
      if !present {
        return None, false;
      }
      var o := pm.Del(hash(key), key, value);
      out := Some(o);
      assert pm.st.file.Length == pm.cfg.size by { pm.ReadyStores(); }
      defrag := 10 * pm.st.deleted > pm.st.length > 0 && 10 * pm.st.length > pm.st.file.Length;
    }

    /**
     The defragmentation step: every visited pair is set into a new PMap, which replaces the old one; a
     refusal is a panic, reported as !ok. The new PMap truncates the file of its revision, which can be the
     one being copied. Where it is not, no key has a reserved hash and the log is unambiguous, it never
     panics and keeps every pair.
     */
    method Defragment() returns (ok: bool)
      requires Valid() && present && pm.CanTestLast()
      modifies this, pm.st.file
      ensures ok ==> Valid() && present && pm.cfg == Cfg()
      ensures Answers(old(pm.cfg), old(View()).value, old(pm.Heard()))
      ensures DefragAllows(Cfg(), disk, old(SlotView()), old(pm.Heard()), if ok then Some(SlotView()) else None)
      ensures old(Sound()) ==> ok && Contents(View().value) == Contents(old(View()).value)
      ensures old(Sound()) ==> View().value.deleted == 0 && LogLen(View().value.log) == LiveBytes(old(View()).value)
    {
      hide PMap.Valid, PMap.Heard, GoodKeysIn, Unambiguous, Ample, Defragged, ValidConfig, LiveBytes, Contents, LogLen, Inv, PMap.CanTestLast,
           Answers, Empty, DefragAllows;
      var old_ := pm;
      old_.HeardAnswers();
      assert Pointers(old_.At(), old_.st.log) by { ValidPointers(old_); }
      ghost var s, a := old_.View(), old_.Heard();
      revision := revision + 1;
      DefragOutcomes(Cfg(), disk, old(SlotView()), a);
      if file == Some(revision) {
        ok := Overrun(old_);
      } else {
        if old(Sound()) { SoundKeeps(Cfg(), old_, a); }
        ok := CopyAll(old_);
      }
    }

    /** The callback sets every visited pair into the new PMap. */
    method CopyAll(old_: PMap) returns (ok: bool)
      requires old_.Valid() && Pointers(old_.At(), old_.st.log) && old_.CanTestLast() && ValidConfig(Cfg()) && present
      modifies this`pm, this`file
      ensures ok == Defragged(Cfg(), old_.View(), old(old_.Heard()), |old_.st.log|).out.Ok?
      ensures ok ==> Valid() && pm.cfg == Cfg() && file == FileOf(disk, revision)
      ensures ok ==> View() == Some(Defragged(Cfg(), old_.View(), old(old_.Heard()), |old_.st.log|).s)
    {
      hide PMap.Valid, PMap.Heard, Pointers, Visited, Cut, Defragged, ValidConfig, SetAll, PMap.CanTestLast, Empty;
      ghost var s, a := old_.View(), old_.Heard();
      var visited := old_.Iterate((k, v) => true);
      CutNothing((k, v) => true, Visited(s, a, |s.log|));
      SetAllVisited(Cfg(), s, a, |s.log|);
      pm := PMap.New(hash, chunkSize, initLog2, limit);
      file := if disk then Some(revision) else None;
      ok := Refill(visited);
    }

    /** No collision, no reserved hash, no ambiguous record, a store no larger than the new one, and an index ample for that. */
    ghost predicate Sound()
      requires present && pm != null
      reads this, pm, (if pm != null then {pm.hm, pm.st, pm.checksum} else {})
    {
      && file != Some(revision + 1) && Ample(Cfg()) && pm.cfg.size <= chunkSize
      && Unambiguous(pm.View()) && GoodKeysIn(pm.cfg, pm.View().log)
    }

    /** The file being copied is truncated by the new PMap, and deleted in the end. */
    method Overrun(old_: PMap) returns (ok: bool)
      requires old_.Valid() && ValidConfig(Cfg()) && present
      modifies this`pm, this`file, old_.st.file
      ensures ok ==> Valid() && pm.cfg == Cfg() && View() == Some(Empty(Cfg())) && file == None
    {
      hide PMap.Valid, Empty, ZeroFrom, ValidConfig;
      assert old_.hm.Valid() && old_.hm.mem as object != old_.st.file by { ValidTable(old_); }
      var bytes := old_.st.file;
      forall i | 0 <= i < bytes.Length { bytes[i] := 0; }
      assert ZeroFrom(bytes[..], 0) by { AllZero(bytes[..]); }
      ok := IterateZeros(old_.st, old_.hm);
      pm := PMap.New(hash, chunkSize, initLog2, limit);
      file := None;
    }

    /**
     The old PMap reads zeros: every record has an empty key and no value. If Get finds a bucket with the
     hash of the empty key it answers an empty value, whose first 8 bytes are taken: a panic. Otherwise
     nothing is copied.
     */
    method IterateZeros(st: Store, hm: HashMap) returns (ok: bool)
      requires hm.Valid() && ZeroFrom(st.file[..], 0)
      ensures ok ==> st.length == 0 || !exists i :: 0 <= i < |hm.hs| && hm.hs[i] == Low32(hash([])) && hm.hs[i] != EMPTY_BUCKET
                                                    && NoGap(hm.hs, hm.hs[i] % |hm.hs|, i)
    {
      hide Pow2, HashMap.Valid, NoGap, Low32, ZeroFrom, KeyLenIn, TotalLenIn;
      var index := 0;
      ok := true;
      while index < st.length
        invariant ok && (index > 0 ==> !exists i :: 0 <= i < |hm.hs| && hm.hs[i] == Low32(hash([])) && hm.hs[i] != EMPTY_BUCKET
                                                    && NoGap(hm.hs, hm.hs[i] % |hm.hs|, i))
        decreases st.length - index
      {
        if index + 8 > st.file.Length {
          return false;
        }
        ZeroHeader(st.file[..], index);
        var key := st.file[index + 8..index + 8 + st.KeyLen(index)];
        assert key == [];
        var hit := hm.Meets(Low32(hash(key)));
        if hit {
          return false;
        }
        index := index + 12 + st.TotalLen(index);
      }
    }

    /** The callback of the defragmentation, for the visited pairs in turn. */
    method Refill(rs: seq<Record>) returns (ok: bool)
      requires Valid() && present && pm.cfg == Cfg() && View() == Some(Empty(Cfg()))
      modifies pm, pm.Repr()
      ensures Valid() && pm == old(pm)
      ensures ok == SetAll(Cfg(), rs).out.Ok?
      ensures ok ==> View() == Some(SetAll(Cfg(), rs).s)
    {
      hide PMap.Valid, DoSet, Empty, PMap.View, SetAll;
      var i := 0;
      SetAllNone(Cfg());
      assert rs[..0] == [];
      while i < |rs|
        invariant 0 <= i <= |rs| && Valid() && present && pm == old(pm)
        invariant pm.hm == old(pm.hm) && pm.st == old(pm.st) && pm.checksum == old(pm.checksum) && pm.st.file == old(pm.st.file)
        invariant pm.hm.mem == old(pm.hm.mem) || fresh(pm.hm.mem)
        invariant Result(pm.View(), Ok) == SetAll(Cfg(), rs[..i])
      {
        assert rs[..i + 1] == rs[..i] + [rs[i]];
        SetAllSnoc(Cfg(), rs[..i], rs[i]);
        var out := pm.Set(hash(rs[i].key), rs[i].key, rs[i].val);
        if !out.Ok? {
          SetAllStops(Cfg(), rs, i + 1);
          return false;
        }
        i := i + 1;
      }
      assert rs[..i] == rs;
      ok := true;
    }
  }

  lemma SetAllNone(c: Config)
    ensures SetAll(c, []) == Result(Empty(c), Ok)
  {}

  lemma SoundKeeps(c: Config, p: PMap, a: Dict)
    requires p.Valid() && ValidConfig(c) && Ample(c) && p.cfg.size <= c.size && Unambiguous(p.View())
    requires GoodKeysIn(p.cfg, p.View().log) && Answers(p.cfg, p.View(), a)
    ensures var r := Defragged(c, p.View(), a, |p.st.log|);
      r.out.Ok? && Contents(r.s) == Contents(p.View()) && r.s.deleted == 0 && LogLen(r.s.log) == LiveBytes(p.View())
  {
    hide PMap.Valid, ValidConfig, Ample, Unambiguous, GoodKeysIn, Answers, Right, Defragged, Contents, LogLen, LiveBytes, Inv, LiveRecords, PairSum, Replay;
    ValidInv(p);
    GoodIsRight(p.cfg, p.View(), a);
    DefragExact(c, p.cfg, p.View(), a);
  }

  /** The outcomes of a defragmentation, one by one. */
  lemma DefragOutcomes(c: Config, disk: bool, ch: Slot, a: Dict)
    requires ch.pm.Some?
    ensures var s, n := ch.pm.value, ch.counter + 1;
      var r := Defragged(c, s, a, |s.log|);
      && (ch.file == Some(n) ==> DefragAllows(c, disk, ch, a, None) && DefragAllows(c, disk, ch, a, Some(Slot(Some(Empty(c)), None, n))))
      && (ch.file != Some(n) && !r.out.Ok? ==> DefragAllows(c, disk, ch, a, None))
      && (ch.file != Some(n) && r.out.Ok? ==> DefragAllows(c, disk, ch, a, Some(Slot(Some(r.s), FileOf(disk, n), n))))
  {
    hide Defragged, Empty;
  }

  lemma ZeroHeader(f: Bytes, i: nat)
    requires ZeroFrom(f, 0) && i + 8 <= |f|
    ensures KeyLenIn(f, i) == 0 && TotalLenIn(f, i) == 0
  {
    ZeroWord(f, i);
    ZeroWord(f, i + 4);
  }

  lemma AllZero(f: Bytes)
    requires forall i | 0 <= i < |f| :: f[i] == 0
    ensures ZeroFrom(f, 0)
  {}

  lemma ValidTable(p: PMap)
    requires p.Valid()
    ensures p.hm.Valid() && p.hm.mem as object != p.st.file
  {
    hide HashMap.Valid, Stores, Alive, Indexes, Inv, Store.Valid;
  }

  lemma ValidPointers(p: PMap)
    requires p.Valid()
    ensures Pointers(p.At(), p.st.log)
  {
    hide Pointers, HashMap.Valid, Stores, Alive, Inv, Store.Valid;
  }

  lemma ValidInv(p: PMap)
    requires p.Valid()
    ensures Inv(p.cfg, p.View())
  {}
}
