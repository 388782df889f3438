/** The alarm lifecycle of Timed-alarm-clock.js over its two pieces of shared
    state: the key-value store that keeps one JSON record per alarm under
    `alarm:clock:<unix seconds>:<setter>:<nonce>`, and the scheduler's table of
    armed jobs, named by the same key. */
module Alarms {
  import opened Text
  import Calendar
  import Resolver

  /** The prefix every alarm key starts with; listing scans for `alarm:clock:*`. */
  const KeyPrefix: string := "alarm:clock:"

  /** Seconds a stored record outlives the moment its alarm fires. */
  const GraceSeconds: int := 300

  /** One alarm as stored: who set it, whom to remind, in which group, what to
      say, when (milliseconds since the epoch) and its own store key. */
  datatype AlarmRecord = AlarmRecord(setter: int, target: int, group: int, content: string, time: int, key: string)

  /** A stored value: a record that parses, or text that does not. */
  datatype Payload = Record(rec: AlarmRecord) | Malformed

  /** A stored value and the expiry, in seconds, it was written with. */
  datatype Entry = Entry(payload: Payload, expireSeconds: int)

  /** One reply of a cursor scan: the cursor to continue from (0 when the scan is
      complete) and the keys of this batch. */
  datatype Page = Page(cursor: int, keys: seq<string>)

  /** The reminder a fired alarm sends: to the target, in the group. */
  datatype Reminder = Reminder(group: int, target: int, content: string)

  datatype CreateOutcome = Created(rec: AlarmRecord) | EmptyContent | StoreRejected | TimeRejected(reason: Resolver.Reject)

  datatype CancelOutcome = Cancelled(rec: AlarmRecord) | NoSuchIndex | NotPermitted

  // ------------------------------------------------------------ scanning

  /** How many replies a `do { scan } while (cursor !== 0)` loop consumes: up
      to and including the first whose cursor is 0, or all of them. */
  function ScanLength(pages: seq<Page>): (n: nat)
    ensures n <= |pages| && (pages != [] ==> n > 0)
    ensures forall j :: 0 <= j < n - 1 ==> pages[j].cursor != 0
    ensures n == |pages| || pages[n - 1].cursor == 0
  {
    if pages == [] then 0
    else if pages[0].cursor == 0 then 1
    else 1 + ScanLength(pages[1..])
  }

  /** The keys of the replies, in order. */
  function Keys(pages: seq<Page>): seq<string>
  {
    if pages == [] then [] else Keys(pages[..|pages| - 1]) + pages[|pages| - 1].keys
  }

  /** The keys a complete scan visits. */
  function Scanned(pages: seq<Page>): seq<string>
  {
    Keys(pages[..ScanLength(pages)])
  }

  // ------------------------------------------------------------- listing

  /** The record stored under a key: none when the key is gone or its value
      does not parse. */
  function Lookup(store: map<string, Entry>, k: string): Option<AlarmRecord>
  {
    if k in store && store[k].payload.Record? then Some(store[k].payload.rec) else None
  }

  /** The group filter: none (or the falsy group 0) keeps every record. */
  predicate Keeps(filter: Option<int>, r: AlarmRecord)
  {
    filter.None? || filter.value == 0 || r.group == filter.value
  }

  /** What one visited key adds to the list. */
  function Picked(store: map<string, Entry>, k: string, filter: Option<int>): seq<AlarmRecord>
  {
    match Lookup(store, k)
    case Some(r) => if Keeps(filter, r) then [r] else []
    case None => []
  }

  /** The records the scan loop collects, in visiting order. */
  function Gathered(store: map<string, Entry>, keys: seq<string>, filter: Option<int>): seq<AlarmRecord>
  {
    if keys == [] then []
    else Gathered(store, keys[..|keys| - 1], filter) + Picked(store, keys[|keys| - 1], filter)
  }

  predicate SortedByTime(s: seq<AlarmRecord>)
  {
    forall i, j :: 0 <= i < j < |s| ==> s[i].time <= s[j].time
  }

  /** `x` placed after every record not later than it. */
  function Insert(x: AlarmRecord, s: seq<AlarmRecord>): seq<AlarmRecord>
  {
    if s == [] then [x]
    else if x.time < s[0].time then [x] + s
    else [s[0]] + Insert(x, s[1..])
  }

  /** Inserting adds the record and loses none. */
  lemma {:induction false} InsertPermutes(x: AlarmRecord, s: seq<AlarmRecord>)
    ensures multiset(Insert(x, s)) == multiset(s) + multiset{x}
  {
    if s != [] && x.time >= s[0].time {
      InsertPermutes(x, s[1..]);
      assert s == [s[0]] + s[1..];
    }
  }

  /** Inserting into a sorted list keeps it sorted. */
  lemma {:induction false} InsertSorted(x: AlarmRecord, s: seq<AlarmRecord>)
    requires SortedByTime(s)
    ensures SortedByTime(Insert(x, s))
  {
    if s != [] && x.time >= s[0].time {
      var rest := Insert(x, s[1..]);
      InsertSorted(x, s[1..]);
      InsertPermutes(x, s[1..]);
      forall y | y in rest ensures s[0].time <= y.time {
        assert y in multiset(rest);
        if y != x {
          assert y in multiset(s[1..]);
        }
      }
    }
  }

  /** The stable ascending sort by time that `Array.prototype.sort` performs with
      a time-difference comparator. */
  function SortByTime(s: seq<AlarmRecord>): (r: seq<AlarmRecord>)
    ensures SortedByTime(r) && multiset(r) == multiset(s)
  {
    if s == [] then []
    else
      assert s == s[..|s| - 1] + [s[|s| - 1]];
      var sorted := SortByTime(s[..|s| - 1]);
      InsertSorted(s[|s| - 1], sorted);
      InsertPermutes(s[|s| - 1], sorted);
      Insert(s[|s| - 1], sorted)
  }

  /** The records with time `t`, in order. */
  function AtTime(s: seq<AlarmRecord>, t: int): seq<AlarmRecord>
  {
    if s == [] then [] else (if s[0].time == t then [s[0]] else []) + AtTime(s[1..], t)
  }

  /** What `getAlarms(filter)` returns for a store and a scan. */
  function Listing(store: map<string, Entry>, pages: seq<Page>, filter: Option<int>): seq<AlarmRecord>
  {
    SortByTime(Gathered(store, Scanned(pages), filter))
  }

  // ------------------------------------------------------------ creation

  /** `moment(a).diff(b, 'seconds')`: the difference in whole seconds, the
      fraction truncated toward zero. */
  function DiffSeconds(later: int, earlier: int): int
  {
    var d := later - earlier;
    if d >= 0 then d / 1000 else -((-d) / 1000)
  }

  /** The expiry a new record is written with: the seconds until it fires, plus the grace. */
  function ExpireSeconds(time: int, now: int): int
  {
    DiffSeconds(time, now) + GraceSeconds
  }

  /** `alarm:clock:<unix seconds>:<setter>:<nonce>`, the seconds rounded down;
      it starts with the prefix the listing scan matches, and ends with the nonce. */
  function AlarmKey(time: int, setter: int, nonce: string): (k: string)
    ensures |k| > |KeyPrefix| + |nonce| && k[..|KeyPrefix|] == KeyPrefix
    ensures k[|k| - |nonce| - 1..] == ":" + nonce
  {
    KeyPrefix + IntToString(time / 1000) + ":" + IntToString(setter) + ":" + nonce
  }

  /** The record the second step of the command builds. */
  function NewAlarm(setter: int, target: int, group: int, content: string, time: int, nonce: string): AlarmRecord
  {
    AlarmRecord(setter, target, group, content, time, AlarmKey(time, setter, nonce))
  }

  // ---------------------------------------------------------- restoring

  predicate Pending(e: Entry, now: int)
  {
    e.payload.Record? && e.payload.rec.time > now
  }

  predicate Expired(e: Entry, now: int)
  {
    e.payload.Record? && e.payload.rec.time <= now
  }

  /** The visited keys whose records are not in the future. */
  function ExpiredAmong(store: map<string, Entry>, keys: seq<string>, now: int): set<string>
  {
    set k | k in keys && k in store && Expired(store[k], now)
  }

  /** The visited keys whose records are in the future, each with its record. */
  function PendingAmong(store: map<string, Entry>, keys: seq<string>, now: int): map<string, AlarmRecord>
  {
    map k | k in keys && k in store && Pending(store[k], now) :: store[k].payload.rec
  }

  /** Every record is stored under its own key. */
  predicate WellKeyed(store: map<string, Entry>)
  {
    forall k :: k in store && store[k].payload.Record? ==> store[k].payload.rec.key == k
  }

  // ------------------------------------------------------------ the state

  class AlarmClock {
    /** The key-value store. */
    var store: map<string, Entry>
    /** The scheduler's armed jobs, by name, each with the record its callback holds. */
    var timers: map<string, AlarmRecord>
    /** The process-wide flag that lets only the first plugin load restore. */
    var initialized: bool

    /** Records sit under their own keys; every armed job's record is stored
        under the job's name; nothing is armed before the first load. */
    predicate Valid()
      reads this
    {
      && WellKeyed(store)
      && (forall k :: k in timers ==> k in store && store[k].payload == Record(timers[k]))
      && (!initialized ==> timers == map[])
    }

    /** A fresh process: whatever the store kept, and no job armed yet. */
    constructor (persisted: map<string, Entry>)
      requires WellKeyed(persisted)
      ensures Valid() && store == persisted && timers == map[] && !initialized
    {
      store := persisted;
      timers := map[];
      initialized := false;
    }

    /** `getAlarms`: scan until the cursor returns to 0, keep each record that
        parses and passes the group filter, then sort by time. */
    method ListAlarms(pages: seq<Page>, filter: Option<int>) returns (alarms: seq<AlarmRecord>)
      ensures alarms == Listing(store, pages, filter)
    {
      var found: seq<AlarmRecord> := [];
      var i := 0;
      while i < |pages| && (i == 0 || pages[i - 1].cursor != 0)
        invariant i <= ScanLength(pages)
        invariant found == Gathered(store, Keys(pages[..i]), filter)
        decreases |pages| - i
      {
        found := GatherPage(pages[i].keys, filter, Keys(pages[..i]), found);
        KeysNext(pages, i);
        i := i + 1;
      }
      assert i == ScanLength(pages);
      alarms := SortByTime(found);
    }

    /** The inner loop of `getAlarms` over one reply's keys: each key's record
        is fetched and pushed when it parses and passes the filter. */
    method GatherPage(keys: seq<string>, filter: Option<int>, ghost seen: seq<string>, found0: seq<AlarmRecord>)
      returns (found: seq<AlarmRecord>)
      requires found0 == Gathered(store, seen, filter)
      ensures found == Gathered(store, seen + keys, filter)
    {
      found := found0;
      var j := 0;
      assert seen + keys[..0] == seen;
      while j < |keys|
        invariant j <= |keys|
        invariant found == Gathered(store, seen + keys[..j], filter)
      {
        GatheredNext(store, seen, keys, j, filter);
        var stored := Lookup(store, keys[j]);
        if stored.Some? && Keeps(filter, stored.value) {
          found := found + [stored.value];
        }
        j := j + 1;
      }
      assert keys[..j] == keys;
    }

    /** The plugin's constructor: the first load in a process restores the
        stored alarms; later loads change nothing. */
    method Load(pages: seq<Page>, now: int)
      requires Valid()
      modifies this
      ensures Valid() && initialized
      ensures old(initialized) ==> store == old(store) && timers == old(timers)
      ensures !old(initialized) ==>
        && store == old(store) - ExpiredAmong(old(store), Scanned(pages), now)
        && timers == PendingAmong(old(store), Scanned(pages), now)
    {
      if !initialized {
        Restore(pages, now);
        initialized := true;
        RestoredArmedStored(old(store), Scanned(pages), now);
      }
    }

    /** `restoreAlarmsFromRedis`: scan until the cursor returns to 0; a record
        in the future is armed, one that is not is deleted without delivery, and
        a value that is gone or does not parse is passed over. */
    method Restore(pages: seq<Page>, now: int)
      requires WellKeyed(store) && timers == map[]
      modifies this
      ensures initialized == old(initialized)
      ensures store == old(store) - ExpiredAmong(old(store), Scanned(pages), now)
      ensures timers == PendingAmong(old(store), Scanned(pages), now)
    {
      var i := 0;
      assert Keys(pages[..0]) == [];
      while i < |pages| && (i == 0 || pages[i - 1].cursor != 0)
        invariant i <= ScanLength(pages) && initialized == old(initialized)
        invariant store == old(store) - ExpiredAmong(old(store), Keys(pages[..i]), now)
        invariant timers == PendingAmong(old(store), Keys(pages[..i]), now)
        decreases |pages| - i
      {
        RestorePage(pages[i].keys, now, old(store), Keys(pages[..i]));
        KeysNext(pages, i);
        i := i + 1;
      }
    }

    /** The inner loop of `restoreAlarmsFromRedis` over one reply's keys. */
    method RestorePage(keys: seq<string>, now: int, ghost store0: map<string, Entry>, ghost seen: seq<string>)
      requires WellKeyed(store0)
      requires store == store0 - ExpiredAmong(store0, seen, now)
      requires timers == PendingAmong(store0, seen, now)
      modifies this
      ensures initialized == old(initialized)
      ensures store == store0 - ExpiredAmong(store0, seen + keys, now)
      ensures timers == PendingAmong(store0, seen + keys, now)
    {
      var j := 0;
      assert seen + keys[..0] == seen;
      while j < |keys|
        invariant j <= |keys| && initialized == old(initialized)
        invariant store == store0 - ExpiredAmong(store0, seen + keys[..j], now)
        invariant timers == PendingAmong(store0, seen + keys[..j], now)
      {
        var key := keys[j];
        assert seen + keys[..j] + [key] == seen + keys[..j + 1];
        RestoreStep(store0, seen + keys[..j], key, now);
        if key in store && store[key].payload.Record? {
          var r := store[key].payload.rec;
          if r.time > now {
            timers := timers[r.key := r];
          } else {
            store := store - {key};
          }
        }
        j := j + 1;
      }
      assert keys[..j] == keys;
    }

    /** `cancelAlarm`: the 1-based index into the listing for the requester's
        group; out of range, or a requester who neither set the alarm nor is
        privileged, changes nothing; otherwise the job is disarmed and the
        record deleted, under the listed record's key and no other. */
    method Cancel(pages: seq<Page>, filter: Option<int>, index: int, requester: int, privileged: bool)
      returns (outcome: CancelOutcome)
      requires Valid()
      modifies this
      ensures Valid() && initialized == old(initialized)
      ensures var listed := Listing(old(store), pages, filter);
        outcome == if index <= 0 || index > |listed| then NoSuchIndex
                   else if requester != listed[index - 1].setter && !privileged then NotPermitted
                   else Cancelled(listed[index - 1])
      ensures outcome.Cancelled? ==> store == old(store) - {outcome.rec.key} && timers == old(timers) - {outcome.rec.key}
      ensures !outcome.Cancelled? ==> store == old(store) && timers == old(timers)
    {
      var alarms := ListAlarms(pages, filter);
      if index <= 0 || index > |alarms| {
        return NoSuchIndex;
      }
      var chosen := alarms[index - 1];
      if requester != chosen.setter && !privileged {
        return NotPermitted;
      }
      if chosen.key in timers {
        timers := timers - {chosen.key};
      }
      store := store - {chosen.key};
      outcome := Cancelled(chosen);
    }

    /** The job's callback at its time: the reminder goes to the group when the
        group can be reached, and the record is deleted in any case; the spent
        one-shot job leaves the table. */
    method Fire(key: string, reachable: bool) returns (sent: Option<Reminder>)
      requires Valid() && key in timers
      modifies this
      ensures Valid() && initialized == old(initialized)
      ensures var r := old(timers)[key];
        sent == if reachable then Some(Reminder(r.group, r.target, r.content)) else None
      ensures store == old(store) - {key} && timers == old(timers) - {key}
    {
      var r := timers[key];
      sent := if reachable then Some(Reminder(r.group, r.target, r.content)) else None;
      timers := timers - {key};
      store := store - {r.key};
    }

    /** The create path of `setAlarmStep2`: an empty message is refused; the
        record is written with expiry `seconds until it fires + 300` (a store
        that refuses an expiry not above 0 makes the creation fail with nothing
        changed), then its job is armed, which the scheduler does only for a
        time still in the future. The nonce is fresh. */
    method Create(setter: int, target: int, group: int, message: string, time: int, now: int, nonce: string)
      returns (outcome: CreateOutcome)
      requires Valid() && initialized && AlarmKey(time, setter, nonce) !in store
      modifies this
      ensures Valid() && initialized
      ensures var content := Trim(message);
        outcome == if content == [] then EmptyContent
                   else if ExpireSeconds(time, now) <= 0 then StoreRejected
                   else Created(NewAlarm(setter, target, group, content, time, nonce))
      ensures outcome.Created? ==>
        && store == old(store)[outcome.rec.key := Entry(Record(outcome.rec), ExpireSeconds(time, now))]
        && timers == if time > now then old(timers)[outcome.rec.key := outcome.rec] else old(timers)
      ensures !outcome.Created? ==> store == old(store) && timers == old(timers)
    {
      var content := Trim(message);
      if content == [] {
        return EmptyContent;
      }
      var rec := NewAlarm(setter, target, group, content, time, nonce);
      var expire := ExpireSeconds(time, now);
      if expire <= 0 {
        return StoreRejected;
      }
      store := store[rec.key := Entry(Record(rec), expire)];
      if time > now {
        timers := timers[rec.key := rec];
      }
      outcome := Created(rec);
    }

    /** Both steps of the alarm command: the time phrase is resolved first, and
        a phrase refused as empty, unparseable or past stores and arms nothing;
        otherwise the alarm is created for the resolved instant. */
    method SetAlarm(command: string, clk: Resolver.Clock, setter: int, target: int, group: int,
                    message: string, now: int, nonce: string)
      returns (outcome: CreateOutcome)
      requires Valid() && initialized && Calendar.ValidDate(clk.today)
      requires forall t :: AlarmKey(t, setter, nonce) !in store
      modifies this
      ensures Valid() && initialized
      ensures Resolver.ResolveAlarmTime(command, clk).Rejected? ==>
        && outcome == TimeRejected(Resolver.ResolveAlarmTime(command, clk).reason)
        && store == old(store) && timers == old(timers)
      ensures Resolver.ResolveAlarmTime(command, clk).Resolved? ==>
        var time := Resolver.ResolveAlarmTime(command, clk).instant;
        && time >= clk.now
        && outcome == (if Trim(message) == [] then EmptyContent
                       else if ExpireSeconds(time, now) <= 0 then StoreRejected
                       else Created(NewAlarm(setter, target, group, Trim(message), time, nonce)))
        && (outcome.Created? ==>
              && outcome.rec.time == time
              && store == old(store)[outcome.rec.key := Entry(Record(outcome.rec), ExpireSeconds(time, now))]
              && timers == if time > now then old(timers)[outcome.rec.key := outcome.rec] else old(timers))
        && (!outcome.Created? ==> store == old(store) && timers == old(timers))
    {
      match Resolver.ResolveAlarmTime(command, clk) {
        case Rejected(reason) =>
          outcome := TimeRejected(reason);
        case Resolved(time) =>
          outcome := Create(setter, target, group, message, time, now, nonce);
      }
    }
  }

  // ------------------------------------------------- loop bookkeeping

  /** One more key visited adds what that key picks. */
  lemma GatheredNext(store: map<string, Entry>, before: seq<string>, keys: seq<string>, j: nat, filter: Option<int>)
    requires j < |keys|
    ensures Gathered(store, before + keys[..j + 1], filter)
            == Gathered(store, before + keys[..j], filter) + Picked(store, keys[j], filter)
  {
    var seen := before + keys[..j + 1];
    assert seen[..|seen| - 1] == before + keys[..j];
  }

  /** One more reply consumed adds all its keys. */
  lemma KeysNext(pages: seq<Page>, i: nat)
    requires i < |pages|
    ensures Keys(pages[..i + 1]) == Keys(pages[..i]) + pages[i].keys
    ensures Keys(pages[..i]) + pages[i].keys[..|pages[i].keys|] == Keys(pages[..i + 1])
  {
    assert pages[..i + 1][..i] == pages[..i];
    assert pages[i].keys[..|pages[i].keys|] == pages[i].keys;
  }

  /** One more key visited by the restore: a future record joins the armed
      ones, a past one the deleted ones, and anything else changes neither. */
  lemma RestoreStep(store0: map<string, Entry>, seen: seq<string>, k: string, now: int)
    requires WellKeyed(store0)
    ensures k in store0 && Pending(store0[k], now) ==>
      && ExpiredAmong(store0, seen + [k], now) == ExpiredAmong(store0, seen, now)
      && PendingAmong(store0, seen + [k], now) == PendingAmong(store0, seen, now)[store0[k].payload.rec.key := store0[k].payload.rec]
    ensures k in store0 && Expired(store0[k], now) ==>
      && ExpiredAmong(store0, seen + [k], now) == ExpiredAmong(store0, seen, now) + {k}
      && PendingAmong(store0, seen + [k], now) == PendingAmong(store0, seen, now)
    ensures !(k in store0 && store0[k].payload.Record?) ==>
      && ExpiredAmong(store0, seen + [k], now) == ExpiredAmong(store0, seen, now)
      && PendingAmong(store0, seen + [k], now) == PendingAmong(store0, seen, now)
  {
  }

  /** After a restore every armed job's record is still stored under its name. */
  lemma RestoredArmedStored(store0: map<string, Entry>, keys: seq<string>, now: int)
    requires WellKeyed(store0)
    ensures var store := store0 - ExpiredAmong(store0, keys, now);
      && WellKeyed(store)
      && forall k :: k in PendingAmong(store0, keys, now) ==>
           k in store && store[k].payload == Record(PendingAmong(store0, keys, now)[k])
  {
  }

  // ------------------------------------------------ listing properties

  /** A record in front contributes itself, when it has the time, before the rest. */
  lemma AtTimeCons(x: AlarmRecord, s: seq<AlarmRecord>, t: int)
    ensures AtTime([x] + s, t) == AtTime([x], t) + AtTime(s, t)
  {
    assert ([x] + s)[0] == x && ([x] + s)[1..] == s;
    assert [x][1..] == [];
  }

  lemma {:induction false} AtTimeAppend(a: seq<AlarmRecord>, b: seq<AlarmRecord>, t: int)
    ensures AtTime(a + b, t) == AtTime(a, t) + AtTime(b, t)
  {
    if a == [] {
      assert a + b == b;
    } else {
      assert a == [a[0]] + a[1..];
      assert a + b == [a[0]] + (a[1..] + b);
      AtTimeCons(a[0], a[1..] + b, t);
      AtTimeCons(a[0], a[1..], t);
      AtTimeAppend(a[1..], b, t);
    }
  }

  lemma {:induction false} AtTimeNone(s: seq<AlarmRecord>, t: int)
    requires forall i :: 0 <= i < |s| ==> s[i].time != t
    ensures AtTime(s, t) == []
  {
    if s != [] {
      AtTimeNone(s[1..], t);
    }
  }

  /** A sorted list holds no record earlier than its first. */
  lemma SortedNoneEarlier(s: seq<AlarmRecord>, t: int)
    requires SortedByTime(s) && s != [] && t < s[0].time
    ensures AtTime(s, t) == []
  {
    AtTimeNone(s, t);
  }

  lemma SortedTail(s: seq<AlarmRecord>)
    requires SortedByTime(s) && s != []
    ensures SortedByTime(s[1..])
  {
  }

  /** One step of the insertion past a record not later than the new one. */
  lemma InsertPast(x: AlarmRecord, s: seq<AlarmRecord>)
    requires s != [] && x.time >= s[0].time
    ensures Insert(x, s) == [s[0]] + Insert(x, s[1..])
  {
  }

  /** Inserting places the new record after every record of the same time. */
  lemma {:induction false} InsertStable(x: AlarmRecord, s: seq<AlarmRecord>, t: int)
    requires SortedByTime(s)
    ensures AtTime(Insert(x, s), t) == AtTime(s, t) + AtTime([x], t)
  {
    if s == [] {
      assert AtTime([x], t) == AtTime([x], t) + AtTime([], t);
    } else if x.time < s[0].time {
      AtTimeCons(x, s, t);
      if x.time == t {
        SortedNoneEarlier(s, t);
      }
    } else {
      var rest := Insert(x, s[1..]);
      var h := AtTime([s[0]], t);
      SortedTail(s);
      calc {
        AtTime(Insert(x, s), t);
      == { InsertPast(x, s); }
        AtTime([s[0]] + rest, t);
      == { AtTimeCons(s[0], rest, t); }
        h + AtTime(rest, t);
      == { InsertStable(x, s[1..], t); }
        h + (AtTime(s[1..], t) + AtTime([x], t));
      == { Assoc(h, AtTime(s[1..], t), AtTime([x], t)); }
        h + AtTime(s[1..], t) + AtTime([x], t);
      == { AtTimeCons(s[0], s[1..], t); assert s == [s[0]] + s[1..]; }
        AtTime(s, t) + AtTime([x], t);
      }
    }
  }

  /** The sort is stable: records of the same time keep their scan order. */
  lemma {:induction false} SortStable(s: seq<AlarmRecord>, t: int)
    ensures AtTime(SortByTime(s), t) == AtTime(s, t)
  {
    if s != [] {
      var init, last := s[..|s| - 1], s[|s| - 1];
      SortByTimeLast(s);
      SortStable(init, t);
      InsertStable(last, SortByTime(init), t);
      AtTimeLast(s, t);
    }
  }

  lemma AtTimeLast(s: seq<AlarmRecord>, t: int)
    requires s != []
    ensures AtTime(s, t) == AtTime(s[..|s| - 1], t) + AtTime([s[|s| - 1]], t)
  {
    assert s == s[..|s| - 1] + [s[|s| - 1]];
    AtTimeAppend(s[..|s| - 1], [s[|s| - 1]], t);
  }

  lemma SortByTimeLast(s: seq<AlarmRecord>)
    requires s != []
    ensures SortByTime(s) == Insert(s[|s| - 1], SortByTime(s[..|s| - 1]))
  {
  }

  /** The records gathered are those stored under a visited key that parse and pass the filter. */
  lemma {:induction false} GatheredMembers(store: map<string, Entry>, keys: seq<string>, filter: Option<int>, r: AlarmRecord)
    ensures r in Gathered(store, keys, filter)
            <==> exists k :: k in keys && Lookup(store, k) == Some(r) && Keeps(filter, r)
  {
    if keys != [] {
      var init, last := keys[..|keys| - 1], keys[|keys| - 1];
      GatheredMembers(store, init, filter, r);
      assert keys == init + [last];
      if exists k :: k in keys && Lookup(store, k) == Some(r) && Keeps(filter, r) {
        var k :| k in keys && Lookup(store, k) == Some(r) && Keeps(filter, r);
        if k != last {
          assert k in init;
        }
      }
    }
  }

  /** The listing holds exactly the records that parse, stored under a key the
      scan visits, whose group passes the filter; it is sorted by time and holds
      each as often as the scan gathered it. */
  lemma ListingExact(store: map<string, Entry>, pages: seq<Page>, filter: Option<int>, r: AlarmRecord)
    ensures r in Listing(store, pages, filter)
            <==> exists k :: k in Scanned(pages) && Lookup(store, k) == Some(r) && Keeps(filter, r)
    ensures SortedByTime(Listing(store, pages, filter))
    ensures multiset(Listing(store, pages, filter)) == multiset(Gathered(store, Scanned(pages), filter))
  {
    var g := Gathered(store, Scanned(pages), filter);
    assert r in SortByTime(g) <==> r in multiset(SortByTime(g));
    assert r in g <==> r in multiset(g);
    GatheredMembers(store, Scanned(pages), filter, r);
  }

  /** With records under their own keys, every listed record is the one stored under its key. */
  lemma ListedStored(store: map<string, Entry>, pages: seq<Page>, filter: Option<int>, r: AlarmRecord)
    requires WellKeyed(store) && r in Listing(store, pages, filter)
    ensures r.key in store && store[r.key].payload == Record(r) && Keeps(filter, r)
  {
    ListingExact(store, pages, filter, r);
  }

  /** A created record is listed by any scan that visits its key, when its group passes the filter. */
  lemma CreatedIsListed(store: map<string, Entry>, rec: AlarmRecord, expire: int, pages: seq<Page>, filter: Option<int>)
    requires rec.key in Scanned(pages) && Keeps(filter, rec)
    ensures rec in Listing(store[rec.key := Entry(Record(rec), expire)], pages, filter)
  {
    ListingExact(store[rec.key := Entry(Record(rec), expire)], pages, filter, rec);
  }

  /** Once a key is deleted, no listed record carries it. */
  lemma DeletedIsNotListed(store: map<string, Entry>, key: string, pages: seq<Page>, filter: Option<int>, r: AlarmRecord)
    requires WellKeyed(store) && r in Listing(store - {key}, pages, filter)
    ensures r.key != key
  {
    ListedStored(store - {key}, pages, filter, r);
  }

  // --------------------------------------------------- expiry property

  /** A record is written at all exactly when its alarm is less than 300 s in the
      past; for an alarm not in the past it expires between 299 and 300 seconds
      after the alarm's time. */
  lemma ExpiryOutlivesAlarm(time: int, now: int)
    ensures ExpireSeconds(time, now) > 0 <==> time - now > -GraceSeconds * 1000
    ensures time >= now ==>
      time + (GraceSeconds - 1) * 1000 < now + ExpireSeconds(time, now) * 1000 <= time + GraceSeconds * 1000
  {
    var d := time - now;
    if d >= 0 {
      assert (d / 1000) * 1000 <= d < (d / 1000) * 1000 + 1000;
    } else {
      var q := (-d) / 1000;
      assert q * 1000 <= -d < q * 1000 + 1000;
    }
  }
}
