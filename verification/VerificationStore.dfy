/** Verification codes for mail addresses and password resets, kept for ten minutes. */
module VerificationStore {
  import opened Basics

  datatype Purpose = EmailVerification | PasswordReset

  function PurposeText(purpose: Purpose): string {
    match purpose
    case EmailVerification => "v"
    case PasswordReset => "r"
  }

  const MAX_SIZE: nat := 10
  const VALID_SECONDS: nat := 10 * 60
  const SECOND: nat := 1_000_000_000

  datatype Value = Value(code: string, time: int)

  type Entries = map<string, Value>

  /** Times are nanoseconds; the elapsed seconds are cut to a whole number. */
  predicate Expired(v: Value, now: int) { (now - v.time) / SECOND >= VALID_SECONDS }

  function Id(purpose: Purpose, key: string): string { PurposeText(purpose) + key }

  // ------------------------------------------------------------- the store

  function Unexpired(entries: Entries, now: int): Entries {
    map id | id in entries && !Expired(entries[id], now) :: entries[id]
  }

  function AfterRegister(entries: Entries, id: string, value: Value, later: int): Entries {
    var more := entries[id := value];
    if |more| > MAX_SIZE then Unexpired(more, later) else more
  }

  predicate Accepts(entries: Entries, id: string, code: string, now: int) {
    id in entries && !Expired(entries[id], now) && code == entries[id].code
  }

  class CodeStore {
    var entries: Entries

    constructor ()
      ensures entries == map[]
    {
      entries := map[];
    }

    /** The clock is read once for the entry and once more, if there are many, for the purge. */
    method Register(key: string, code: string, purpose: Purpose, now: int, later: int)
      modifies this
      ensures entries == AfterRegister(old(entries), Id(purpose, key), Value(code, now), later)
      ensures var more := old(entries)[Id(purpose, key) := Value(code, now)];
        && (|more| <= 10 ==> entries == more)
        && (|more| > 10 ==> forall id :: id in entries <==> id in more && later - more[id].time < 600_000_000_000)
        && (forall id | id in entries :: id in more && entries[id] == more[id])
    {
      entries := entries[Id(purpose, key) := Value(code, now)];
      if |entries| > MAX_SIZE {
        RemoveExpiredPairs(later);
      }
    }

    method Verify(key: string, code: string, purpose: Purpose, now: int) returns (ok: bool)
      ensures ok <==> Accepts(entries, Id(purpose, key), code, now)
      ensures ok <==> Id(purpose, key) in entries && entries[Id(purpose, key)].code == code
                      && now - entries[Id(purpose, key)].time < 600_000_000_000
    {
      var id := Id(purpose, key);
      if id !in entries || (now - entries[id].time) / SECOND >= VALID_SECONDS {
        return false;
      }
      return code == entries[id].code;
    }

    method Delete(key: string, purpose: Purpose)
      modifies this
      ensures entries == old(entries) - {Id(purpose, key)}
    {
      entries := entries - {Id(purpose, key)};
    }

    method RemoveExpiredPairs(now: int)
      modifies this
      ensures entries == Unexpired(old(entries), now)
    {
      hide Expired;
      var ids := entries.Keys;
      while ids != {}
        invariant ids <= entries.Keys <= old(entries).Keys
        invariant forall id :: id in entries ==> entries[id] == old(entries)[id]
        invariant forall id :: id in old(entries) && id !in ids ==> (id in entries <==> !Expired(old(entries)[id], now))
        decreases |ids|
      {
        var id :| id in ids;
        if Expired(entries[id], now) {
          entries := entries - {id};
        }
        ids := ids - {id};
      }
    }
  }

  // ------------------------------------------------------------- every run

  datatype Op =
    | RegisterOp(purpose: Purpose, key: string, code: string, now: int, later: int)
    | VerifyOp(purpose: Purpose, key: string, code: string, now: int)
    | DeleteOp(purpose: Purpose, key: string)

  function After(ops: seq<Op>): Entries {
    if ops == [] then map[]
    else
      var entries := After(ops[..|ops| - 1]);
      match ops[|ops| - 1]
      case RegisterOp(purpose, key, code, now, later) => AfterRegister(entries, Id(purpose, key), Value(code, now), later)
      case VerifyOp(_, _, _, _) => entries
      case DeleteOp(purpose, key) => entries - {Id(purpose, key)}
  }

  /** The last reading of the clock, from a start of the clock. */
  function Clock(ops: seq<Op>, start: int): int {
    if ops == [] then start
    else match ops[|ops| - 1]
      case RegisterOp(_, _, _, _, later) => later
      case VerifyOp(_, _, _, now) => now
      case DeleteOp(_, _) => Clock(ops[..|ops| - 1], start)
  }

  predicate Monotone(ops: seq<Op>, start: int) {
    if ops == [] then true
    else
      var before := ops[..|ops| - 1];
      && Monotone(before, start)
      && match ops[|ops| - 1]
         case RegisterOp(_, _, _, now, later) => Clock(before, start) <= now <= later
         case VerifyOp(_, _, _, now) => Clock(before, start) <= now
         case DeleteOp(_, _) => true
  }

  /** The code last registered for a key and purpose, unless it was deleted since. */
  function Registered(ops: seq<Op>, purpose: Purpose, key: string): Option<Value> {
    if ops == [] then None
    else
      var last := ops[|ops| - 1];
      if last.purpose != purpose || last.key != key || last.VerifyOp? then Registered(ops[..|ops| - 1], purpose, key)
      else if last.DeleteOp? then None
      else Some(Value(last.code, last.now))
  }

  lemma IdsDiffer(p: Purpose, k: string, q: Purpose, l: string)
    ensures Id(p, k) == Id(q, l) <==> p == q && k == l
  {
    assert Id(p, k)[0] == PurposeText(p)[0] && Id(q, l)[0] == PurposeText(q)[0];
    assert Id(p, k)[1..] == k && Id(q, l)[1..] == l;
  }

  lemma StaysExpired(v: Value, now: int, later: int)
    requires now <= later && Expired(v, now)
    ensures Expired(v, later)
  {
  }

  /** What the store may have done with the code last registered under an id. */
  predicate Reflects(entries: Entries, id: string, value: Option<Value>, clock: int) {
    if id in entries then value == Some(entries[id])
    else value.None? || Expired(value.value, clock)
  }

  lemma PurgeReflects(entries: Entries, id: string, value: Option<Value>, clock: int, later: int)
    requires Reflects(entries, id, value, clock) && clock <= later
    ensures Reflects(entries, id, value, later) && Reflects(Unexpired(entries, later), id, value, later)
  {
    hide Expired;
    if id !in entries && value.Some? {
      StaysExpired(value.value, clock, later);
    }
  }

  lemma RegisterReflects(entries: Entries, id: string, value: Option<Value>, clock: int, other: string, added: Value, later: int)
    requires Reflects(entries, id, value, clock) && clock <= later
    ensures Reflects(AfterRegister(entries, other, added, later), id, if id == other then Some(added) else value, later)
  {
    hide Expired;
    PurgeReflects(entries[other := added], id, if id == other then Some(added) else value, clock, later);
  }

  lemma {:induction false} RunReflects(ops: seq<Op>, start: int, purpose: Purpose, key: string)
    requires Monotone(ops, start)
    ensures Reflects(After(ops), Id(purpose, key), Registered(ops, purpose, key), Clock(ops, start))
    decreases |ops|
  {
    hide Expired, AfterRegister, Id;
    if ops != [] {
      var before, last := ops[..|ops| - 1], ops[|ops| - 1];
      var id, value, clock := Id(purpose, key), Registered(before, purpose, key), Clock(before, start);
      RunReflects(before, start, purpose, key);
      IdsDiffer(last.purpose, last.key, purpose, key);
      match last {
        case RegisterOp(p, k, code, now, later) =>
          RegisterReflects(After(before), id, value, clock, Id(p, k), Value(code, now), later);
        case VerifyOp(_, _, _, now) =>
          PurgeReflects(After(before), id, value, clock, now);
        case DeleteOp(_, _) =>
      }
    }
  }

  /** After every run a code is accepted exactly when it was the last one registered for this
      key and purpose, was not deleted since and is younger than ten minutes: neither the
      purge nor the other purpose can be noticed. */
  lemma AcceptsTheLastCode(ops: seq<Op>, start: int, purpose: Purpose, key: string, code: string, now: int)
    requires Monotone(ops, start) && Clock(ops, start) <= now
    ensures Accepts(After(ops), Id(purpose, key), code, now)
         <==> match Registered(ops, purpose, key)
              case None => false
              case Some(v) => v.code == code && now - v.time < 600_000_000_000
  {
    hide After, Registered, Clock, Monotone, Id;
    RunReflects(ops, start, purpose, key);
    var value := Registered(ops, purpose, key);
    if value.Some? {
      ExpiredAfter(value.value, now);
      PurgeReflects(After(ops), Id(purpose, key), value, Clock(ops, start), now);
    }
  }

  lemma ExpiredAfter(v: Value, now: int)
    ensures Expired(v, now) <==> now - v.time >= 600_000_000_000
  {
  }
}
