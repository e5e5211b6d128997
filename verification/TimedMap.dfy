/** The plain dictionary a PMap promises to be: a map from keys to timestamped values. */
module TimedMap {
  import opened ByteStrings

  type Dict = map<Bytes, Bytes>

  datatype Option<+T> = None | Some(value: T)

  function Lookup(m: Dict, k: Bytes): (r: Option<Bytes>)
  {
    if k in m then Some(m[k]) else None
  }

  /** The 8-byte timestamp header of a value, as a raw 64-bit word. */
  function Stamp(v: Bytes): (n: nat)
  {
    FromLE(if |v| >= 8 then v[..8] else v)
  }

  /** Timestamps compare as signed 64-bit nanoseconds. */
  function Time(v: Bytes): (t: int)
  {
    Signed(Stamp(v))
  }

  datatype Outcome = Ok | ShortValue | IndexFull | StoreFull | CasAbsent | CasTime | CasHash {
    /** Refused for lack of space, in the index or in the store. */
    predicate Refused() { IndexFull? || StoreFull? }
  }

  /** Last writer wins: an older or equally old value is silently dropped. */
  function DictSet(m: Dict, k: Bytes, v: Bytes): (r: Dict)
  {
    if |v| < 8 || (k in m && Time(v) <= Time(m[k])) then m else m[k := v]
  }

  /** A deletion takes effect unless the stored pair is newer. */
  function DictDel(m: Dict, k: Bytes, v: Bytes): (r: Dict)
  {
    if k in m && Time(m[k]) <= Time(v) then m - {k} else m
  }

  /** The two tests of a compare-and-swap; `v` is old time, old hash, new time, new value. */
  function CasVerdict(hash: Hash, m: Dict, k: Bytes, v: Bytes): (o: Outcome)
  {
    if |v| < 24 then ShortValue
    else if k !in m then
      if Time(v) != 0 && FromLE(v[8..16]) != hash([]) then CasAbsent else Ok
    else if Time(m[k]) != Time(v) then CasTime
    else if |m[k]| >= 8 && FromLE(v[8..16]) != hash(m[k][8..]) then CasHash
    else Ok
  }

  function DictCas(hash: Hash, m: Dict, k: Bytes, v: Bytes): (r: Dict)
  {
    if CasVerdict(hash, m, k, v).Ok? then m[k := v[16..]] else m
  }

  datatype Op = Set(key: Bytes, value: Bytes) | Cas(key: Bytes, value: Bytes) | Del(key: Bytes, value: Bytes)

  function DictStep(hash: Hash, m: Dict, op: Op): (r: Dict)
  {
    match op
    case Set(k, v) => DictSet(m, k, v)
    case Cas(k, v) => DictCas(hash, m, k, v)
    case Del(k, v) => DictDel(m, k, v)
  }

  function DictRun(hash: Hash, m: Dict, ops: seq<Op>): (r: Dict)
  {
    if ops == [] then m
    else DictStep(hash, DictRun(hash, m, ops[..|ops| - 1]), ops[|ops| - 1])
  }
}
