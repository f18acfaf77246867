/** The counter store of api/internal/middleware/gcrastore.go that the GCRA
    rate limiter of the `throttled` library reads and updates: an in-memory
    map from rate-limit keys to int64 values. The `ttl` arguments are
    accepted and ignored, as in the source; the clock reading GetWithTime
    returns is passed in. Operations are modelled one at a time. */
module ApiGcraStore {
  import opened Wrappers

  newtype int64 = x: int | -0x8000_0000_0000_0000 <= x < 0x8000_0000_0000_0000

  /** The value GetWithTime reports for a key with no entry. */
  const Absent: int64 := -1

  /** No operation of the store ever produces one; the type stands for Go's
      `error` return. */
  datatype StoreError = StoreError(message: string)

  /** The outcome of a conditional write: whether it happened, and the map
      afterwards. */
  datatype Step = Step(ok: bool, mem: map<string, int64>)

  /** The value a read reports. */
  function Get(mem: map<string, int64>, key: string): int64 {
    if key in mem then mem[key] else Absent
  }

  /** Writes `value` only where `key` has no entry. */
  function SetIfAbsent(mem: map<string, int64>, key: string, value: int64): Step {
    if key !in mem then Step(true, mem[key := value]) else Step(false, mem)
  }

  /** Writes `newValue` only where `key` holds exactly `oldValue`. */
  function CompareAndSwap(mem: map<string, int64>, key: string, oldValue: int64, newValue: int64): Step {
    if key in mem && mem[key] == oldValue then Step(true, mem[key := newValue]) else Step(false, mem)
  }

  class GcraStore {
    var mem: map<string, int64>

    /** NewGcraStore. */
    constructor ()
      ensures mem == map[]
    {
      mem := map[];
    }

    method GetWithTime(key: string, now: int) returns (v: int64, at: int, err: Option<StoreError>)
      ensures key in mem ==> v == mem[key]
      ensures key !in mem ==> v == Absent
      ensures at == now && err == None
    {
      if key !in mem {
        return Absent, now, None;
      }
      return mem[key], now, None;
    }

    method SetIfNotExistsWithTTL(key: string, value: int64, ttl: int) returns (ok: bool, err: Option<StoreError>)
      modifies this
      ensures Step(ok, mem) == SetIfAbsent(old(mem), key, value)
      ensures err == None
    {
      if key !in mem {
        mem := mem[key := value];
        return true, None;
      }
      return false, None;
    }

    method CompareAndSwapWithTTL(key: string, oldValue: int64, newValue: int64, ttl: int) returns (ok: bool, err: Option<StoreError>)
      modifies this
      ensures Step(ok, mem) == CompareAndSwap(old(mem), key, oldValue, newValue)
      ensures err == None
    {
      if key !in mem {
        return false, None;
      }
      var v := mem[key];
      if v == oldValue {
        mem := mem[key := newValue];
        return true, None;
      } else {
        return false, None;
      }
    }
  }

  /** Reading an absent key reports -1, a present one its value. */
  lemma GetReportsStoredValue(mem: map<string, int64>, key: string, value: int64)
    ensures Get(map[], key) == Absent
    ensures Get(mem[key := value], key) == value
  {
  }

  /** SetIfAbsent succeeds exactly on an absent key, and then the key reads as
      the value; otherwise nothing changes. */
  lemma SetIfAbsentCases(mem: map<string, int64>, key: string, value: int64)
    ensures SetIfAbsent(mem, key, value).ok <==> key !in mem
    ensures SetIfAbsent(mem, key, value).ok ==> Get(SetIfAbsent(mem, key, value).mem, key) == value
    ensures !SetIfAbsent(mem, key, value).ok ==> SetIfAbsent(mem, key, value).mem == mem
  {
  }

  /** CompareAndSwap succeeds exactly when the key holds the expected value; on
      an absent key it fails and creates nothing. */
  lemma CompareAndSwapCases(mem: map<string, int64>, key: string, oldValue: int64, newValue: int64)
    ensures CompareAndSwap(mem, key, oldValue, newValue).ok <==> key in mem && mem[key] == oldValue
    ensures CompareAndSwap(mem, key, oldValue, newValue).ok ==>
      Get(CompareAndSwap(mem, key, oldValue, newValue).mem, key) == newValue
    ensures !CompareAndSwap(mem, key, oldValue, newValue).ok ==> CompareAndSwap(mem, key, oldValue, newValue).mem == mem
    ensures key !in mem ==> key !in CompareAndSwap(mem, key, oldValue, newValue).mem
  {
  }

  /** Neither write touches any key but its own, nor adds any other key. */
  lemma WritesAreLocal(mem: map<string, int64>, key: string, a: int64, b: int64, other: string)
    requires other != key
    ensures Get(SetIfAbsent(mem, key, a).mem, other) == Get(mem, other)
    ensures Get(CompareAndSwap(mem, key, a, b).mem, other) == Get(mem, other)
    ensures SetIfAbsent(mem, key, a).mem.Keys <= mem.Keys + {key}
    ensures CompareAndSwap(mem, key, a, b).mem.Keys == mem.Keys
  {
  }

  /** Of two swaps from the same expected value, at most one succeeds: once
      the first has replaced it by a different value, the second fails. */
  lemma SecondSwapFails(mem: map<string, int64>, key: string, oldValue: int64, newValue: int64, x: int64)
    requires CompareAndSwap(mem, key, oldValue, newValue).ok && newValue != oldValue
    ensures !CompareAndSwap(CompareAndSwap(mem, key, oldValue, newValue).mem, key, oldValue, x).ok
  {
  }
}
