/** What every operation keeps, and what every run of operations means. */
module PMapRuns {
  import opened ByteStrings
  import opened RecordLog
  import opened Checksum
  import opened TimedMap
  import opened PMapSpec

  /** Set keeps the invariant and, unless refused, is the last-writer-wins update of the dictionary. */
  lemma SetStep(c: Config, s: PState, k: Bytes, v: Bytes)
    requires Inv(c, s)
    ensures Inv(c, DoSet(c, s, k, v).s)
    ensures Contents(DoSet(c, s, k, v).s)
         == if DoSet(c, s, k, v).out.Refused() then Contents(s) else DictSet(Contents(s), k, v)
  {
    hide Inv, Contents, Written, Subtracted, Grown, HasRoom, Time, MaxStored, Value, LogLen;
    if |v| >= 8 && HasRoom(c, s) {
      var g := Grown(s);
      GrownInv(c, s);
      ValueOf(g, k);
      if k in g.live {
        SubtractedInv(c, g, k, Time(v));
        SubtractedShape(c, g, k, Time(v));
        if Fits(c, g, Record(k, v)) {
          WrittenInv(c, Subtracted(c, g, k, Time(v)), k, v);
        }
      } else if Fits(c, g, Record(k, v)) {
        WrittenInv(c, g, k, v);
      }
    }
  }

  lemma SubtractedShape(c: Config, s: PState, k: Bytes, t: int)
    ensures var r := Subtracted(c, s, k, t);
      r.log == s.log && r.live == s.live && r.deleted == s.deleted && r.log2 == s.log2 && r.stored == s.stored
  {
    hide Mix, AddEvent;
  }

  lemma CasStep(c: Config, s: PState, k: Bytes, v: Bytes)
    requires Inv(c, s)
    ensures Inv(c, DoCas(c, s, k, v).s)
    ensures Contents(DoCas(c, s, k, v).s)
         == if DoCas(c, s, k, v).out.Refused() then Contents(s) else DictCas(c.hash, Contents(s), k, v)
    ensures !DoCas(c, s, k, v).out.Refused() ==> DoCas(c, s, k, v).out == CasVerdict(c.hash, Contents(s), k, v)
  {
    hide Inv, Contents, Written, Subtracted, Grown, HasRoom, Time, MaxStored, Value, LogLen;
    if |v| >= 24 && HasRoom(c, s) {
      var g := Grown(s);
      GrownInv(c, s);
      var o := CasVerdict(c.hash, Contents(g), k, v);
      if o.Ok? {
        CasWrite(c, g, k, v);
      }
    }
  }

  lemma CasWrite(c: Config, g: PState, k: Bytes, v: Bytes)
    requires Inv(c, g) && |v| >= 24
    requires g.stored < MaxStored(g.log2)
    ensures var b := if k in g.live then Subtracted(c, g, k, Time(v[16..])) else g;
      && Inv(c, b) && Contents(b) == Contents(g)
      && (Fits(c, b, Record(k, v[16..])) ==>
            && Inv(c, Written(c, b, k, v[16..]))
            && Contents(Written(c, b, k, v[16..])) == Contents(g)[k := v[16..]])
  {
    hide Inv, Contents, Written, Subtracted, Time, MaxStored, LogLen;
    var b := if k in g.live then Subtracted(c, g, k, Time(v[16..])) else g;
    if k in g.live {
      SubtractedInv(c, g, k, Time(v[16..]));
      SubtractedShape(c, g, k, Time(v[16..]));
    }
    if Fits(c, b, Record(k, v[16..])) {
      WrittenInv(c, b, k, v[16..]);
    }
  }

  lemma DelStep(c: Config, s: PState, k: Bytes, v: Bytes)
    requires Inv(c, s)
    ensures Inv(c, DoDel(c, s, k, v).s)
    ensures Contents(DoDel(c, s, k, v).s) == DictDel(Contents(s), k, v)
  {
    hide Inv, Contents, Dropped, Buried, Time, Value, LogLen;
    ValueOf(s, k);
    if k in s.live && Time(v) >= Time(Value(s, k)) {
      var d := Dropped(c, s, k, Time(v));
      DroppedInv(c, s, k, Time(v));
      DroppedShape(c, s, k, Time(v));
      if Fits(c, d, Record(k, [])) {
        assert k in Replay(d.log) by { InvReplay(c, s, k); }
        BuriedInv(c, d, k);
      }
    }
  }

  lemma DroppedShape(c: Config, s: PState, k: Bytes, t: int)
    ensures Dropped(c, s, k, t).log == s.log && Dropped(c, s, k, t).live == s.live - {k}
  {
    hide Mix, AddEvent;
  }

  lemma InvReplay(c: Config, s: PState, k: Bytes)
    requires Inv(c, s) && k in s.live
    ensures k in Replay(s.log)
  {
    hide Replay, LogLen;
  }

  /** Every operation is refused or is the dictionary's step; deletion always takes effect. */
  lemma StepRefines(c: Config, s: PState, op: Op)
    requires Inv(c, s)
    ensures Inv(c, Apply(c, s, op).s)
    ensures Contents(Apply(c, s, op).s)
         == if Apply(c, s, op).out.Refused() && !op.Del? then Contents(s) else DictStep(c.hash, Contents(s), op)
  {
    hide Inv, Contents, DoSet, DoCas, DoDel;
    match op
    case Set(k, v) => SetStep(c, s, k, v);
    case Cas(k, v) => CasStep(c, s, k, v);
    case Del(k, v) => DelStep(c, s, k, v);
  }

  function Run(c: Config, ops: seq<Op>): (s: PState)
  {
    if ops == [] then Empty(c) else Apply(c, Run(c, ops[..|ops| - 1]), ops[|ops| - 1]).s
  }

  /** The operations of a run that took effect: all but the writes refused for lack of space. */
  function Accepted(c: Config, ops: seq<Op>): (r: seq<Op>)
  {
    if ops == [] then []
    else
      var init, op := ops[..|ops| - 1], ops[|ops| - 1];
      if Apply(c, Run(c, init), op).out.Refused() && !op.Del? then Accepted(c, init)
      else Accepted(c, init) + [op]
  }

  lemma EmptyInv(c: Config)
    requires ValidConfig(c)
    ensures Inv(c, Empty(c)) && Contents(Empty(c)) == map[]
  {
    assert Contents(Empty(c)) == map[];
    assert Sizes(map[]) == map[];
  }

  lemma DictRunSnoc(hash: Hash, ops: seq<Op>, op: Op)
    ensures DictRun(hash, map[], ops + [op]) == DictStep(hash, DictRun(hash, map[], ops), op)
  {
    assert (ops + [op])[..|ops|] == ops;
  }

  /** Over every run the live pairs are those of a plain dictionary fed with the accepted operations. */
  lemma {:induction false} RunRefines(c: Config, ops: seq<Op>)
    requires ValidConfig(c)
    ensures Inv(c, Run(c, ops))
    ensures Contents(Run(c, ops)) == DictRun(c.hash, map[], Accepted(c, ops))
  {
    hide Inv, Contents, Apply, ValidConfig, DictStep, Empty;
    if ops == [] {
      EmptyInv(c);
    } else {
      var init, op := ops[..|ops| - 1], ops[|ops| - 1];
      RunRefines(c, init);
      StepRefines(c, Run(c, init), op);
      DictRunSnoc(c.hash, Accepted(c, init), op);
    }
  }
}
