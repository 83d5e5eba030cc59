/** The in-memory alarm store: alarms by ID, and a deduplication table by (type, object) that must agree with
    them. Save looks at the table under a read lock and again under the write lock. */
module AlarmStore {
  import opened Base

  const DEDUP_WINDOW := 300_000_000_000

  /** An unset event time is None. An empty object turns deduplication off. */
  datatype Alarm = Alarm(id: string, alarmType: string, backupObject: string, problem: string, severity: string,
                         eventTime: Option<int>, acked: bool, ackedBy: string, ackedAt: Option<int>)
  {
    function Key(): DedupKey { DedupKey(alarmType, backupObject) }
  }

  datatype DedupKey = DedupKey(alarmType: string, backupObject: string)

  datatype DedupInfo = DedupInfo(alarmID: string, deadline: int)

  datatype Store = Store(alarms: map<string, Alarm>, dedup: map<DedupKey, DedupInfo>)

  const EMPTY := Store(map[], map[])

  /** An alarm for the same type and non-empty object is still inside its window. */
  predicate Suppressed(st: Store, key: DedupKey, now: int) {
    key.backupObject != "" && key in st.dedup && now < st.dedup[key].deadline
  }

  /** The part of Save under the write lock; also the whole of Save when nobody else runs. */
  function SaveSpec(st: Store, alarm: Alarm, now: int): (Store, string) {
    var key := alarm.Key();
    if Suppressed(st, key, now) then (st, st.dedup[key].alarmID)
    else
      var alarms := if key.backupObject != "" && key in st.dedup then st.alarms - {st.dedup[key].alarmID} else st.alarms;
      var time := if alarm.eventTime.Some? then alarm.eventTime.value else now;
      (Store(alarms[alarm.id := alarm.(eventTime := Some(time))], st.dedup[key := DedupInfo(alarm.id, time + DEDUP_WINDOW)]),
       alarm.id)
  }

  function ClearSpec(st: Store, id: string): Store {
    if id !in st.alarms then st else Store(st.alarms - {id}, st.dedup - {st.alarms[id].Key()})
  }

  function AckSpec(st: Store, id: string, acked: bool, by_: string, now: int): Store {
    if id !in st.alarms then st
    else st.(alarms := st.alarms[id := st.alarms[id].(acked := acked, ackedBy := by_, ackedAt := Some(now))])
  }

  // ---- The two maps agree ----

  /** Every alarm is stored under its own ID and has an event time. */
  ghost predicate Filed(st: Store) {
    forall id | id in st.alarms :: st.alarms[id].id == id && st.alarms[id].eventTime.Some?
  }

  /** Whatever IDs are used, Save, Clear and UpdateAck file every alarm under its own. */
  lemma AlwaysFiled(st: Store, alarm: Alarm, id: string, acked: bool, by_: string, now: int)
    requires Filed(st)
    ensures Filed(SaveSpec(st, alarm, now).0) && Filed(ClearSpec(st, id)) && Filed(AckSpec(st, id, acked, by_, now))
  {
  }

  /** Stored alarms with an object and table entries with an object correspond one to one, by key and by ID,
      and an entry runs out five minutes after its alarm's event time. */
  ghost predicate Inv(st: Store) {
    && Filed(st)
    && (forall id | id in st.alarms && st.alarms[id].backupObject != "" ::
          && st.alarms[id].Key() in st.dedup
          && st.dedup[st.alarms[id].Key()] == DedupInfo(id, st.alarms[id].eventTime.value + DEDUP_WINDOW))
    && (forall key | key in st.dedup && key.backupObject != "" ::
          st.dedup[key].alarmID in st.alarms && st.alarms[st.dedup[key].alarmID].Key() == key)
  }

  /** The ID is new, or belongs to an alarm without an object, or to one with the same key. */
  predicate UsableID(st: Store, alarm: Alarm) {
    alarm.id in st.alarms ==> st.alarms[alarm.id].backupObject == "" || st.alarms[alarm.id].Key() == alarm.Key()
  }

  lemma SaveKeepsInv(st: Store, alarm: Alarm, now: int)
    requires Inv(st) && !Suppressed(st, alarm.Key(), now) && UsableID(st, alarm)
    ensures Inv(SaveSpec(st, alarm, now).0)
  {
  }

  lemma SaveBreaksInv(st: Store, alarm: Alarm, now: int)
    requires Inv(st) && !Suppressed(st, alarm.Key(), now) && !UsableID(st, alarm)
    ensures !Inv(SaveSpec(st, alarm, now).0)
  {
    var st', key := SaveSpec(st, alarm, now).0, st.alarms[alarm.id].Key();
    assert key in st'.dedup && st'.dedup[key].alarmID == alarm.id && st'.alarms[alarm.id].Key() != key;
  }

  /** Save keeps the maps in agreement if and only if it suppresses the alarm or the ID is usable; a fresh ID
      always is. */
  lemma SaveKeepsInvIff(st: Store, alarm: Alarm, now: int)
    requires Inv(st)
    ensures Inv(SaveSpec(st, alarm, now).0) <==> Suppressed(st, alarm.Key(), now) || UsableID(st, alarm)
  {
    if !Suppressed(st, alarm.Key(), now) {
      if UsableID(st, alarm) { SaveKeepsInv(st, alarm, now); } else { SaveBreaksInv(st, alarm, now); }
    }
    hide Inv, UsableID;
  }

  lemma ClearKeepsInv(st: Store, id: string)
    requires Inv(st)
    ensures Inv(ClearSpec(st, id))
  {
  }

  lemma AckKeepsInv(st: Store, id: string, acked: bool, by_: string, now: int)
    requires Inv(st)
    ensures Inv(AckSpec(st, id, acked, by_, now))
    ensures AckSpec(st, id, acked, by_, now).dedup == st.dedup && AckSpec(st, id, acked, by_, now).alarms.Keys == st.alarms.Keys
  {
  }

  /** No key with an object ever has two alarms. */
  lemma OneAlarmPerKey(st: Store, id1: string, id2: string)
    requires Inv(st) && id1 in st.alarms && id2 in st.alarms
    requires st.alarms[id1].Key() == st.alarms[id2].Key() && st.alarms[id1].backupObject != ""
    ensures id1 == id2
  {
    assert st.dedup[st.alarms[id1].Key()].alarmID == id1;
  }

  // ---- Any number of goroutines ----

  datatype Progress = Started | Passed | Returned(id: string)

  datatype Saver = Saver(alarm: Alarm, progress: Progress)

  /** `issued` holds the IDs given to alarms so far. */
  datatype Machine = Machine(store: Store, savers: seq<Saver>, issued: set<string>)

  datatype Step =
    | BeginSave(alarm: Alarm)
    | FastPath(saver: nat, now: int)
    | SlowPath(saver: nat, now: int)
    | Clear(id: string)
    | Ack(id: string, acked: bool, ackedBy: string, now: int)

  predicate Enabled(m: Machine, step: Step) {
    match step
    case BeginSave(a) => a.id !in m.issued
    case FastPath(i, _) => i < |m.savers| && m.savers[i].progress.Started?
    case SlowPath(i, _) => i < |m.savers| && m.savers[i].progress.Passed?
    case _ => true
  }

  function Next(m: Machine, step: Step): Machine
    requires Enabled(m, step)
  {
    match step
    case BeginSave(a) => m.(savers := m.savers + [Saver(a, Started)], issued := m.issued + {a.id})
    case FastPath(i, now) =>
      var a := m.savers[i].alarm;
      m.(savers := m.savers[i := Saver(a, if Suppressed(m.store, a.Key(), now) then Returned(m.store.dedup[a.Key()].alarmID)
                                              else Passed)])
    case SlowPath(i, now) =>
      var a := m.savers[i].alarm;
      var (store, id) := SaveSpec(m.store, a, now);
      m.(store := store, savers := m.savers[i := Saver(a, Returned(id))])
    case Clear(id) => m.(store := ClearSpec(m.store, id))
    case Ack(id, acked, by_, now) => m.(store := AckSpec(m.store, id, acked, by_, now))
  }

  function Run(steps: seq<Step>): Option<Machine> {
    if steps == [] then Some(Machine(EMPTY, [], {}))
    else
      var before := Run(steps[..|steps| - 1]);
      if before.Some? && Enabled(before.value, steps[|steps| - 1])
      then Some(Next(before.value, steps[|steps| - 1])) else None
  }

  ghost predicate MachineInv(m: Machine) {
    && Inv(m.store) && m.store.alarms.Keys <= m.issued
    && (forall i | 0 <= i < |m.savers| :: m.savers[i].alarm.id in m.issued)
    && (forall i, j | 0 <= i < j < |m.savers| :: m.savers[i].alarm.id != m.savers[j].alarm.id)
    && (forall i | 0 <= i < |m.savers| && !m.savers[i].progress.Returned? :: m.savers[i].alarm.id !in m.store.alarms)
  }

  lemma SaveAdds(st: Store, alarm: Alarm, now: int)
    ensures SaveSpec(st, alarm, now).0.alarms.Keys <= st.alarms.Keys + {alarm.id}
  {
  }

  lemma MachineInvStep(m: Machine, step: Step)
    requires MachineInv(m) && Enabled(m, step)
    ensures MachineInv(Next(m, step))
  {
    hide Inv;
    match step {
      case SlowPath(i, now) =>
        SaveKeepsInvIff(m.store, m.savers[i].alarm, now);
        SaveAdds(m.store, m.savers[i].alarm, now);
        hide SaveSpec;
      case Clear(id) => ClearKeepsInv(m.store, id);
      case Ack(id, acked, by_, now) => AckKeepsInv(m.store, id, acked, by_, now);
      case _ =>
    }
  }

  /** Under every interleaving of Save (with IDs never issued twice), Clear and UpdateAck the two maps agree. */
  lemma {:induction false} MapsAgreeInEveryRun(steps: seq<Step>)
    requires Run(steps).Some?
    ensures MachineInv(Run(steps).value)
  {
    if steps != [] {
      MapsAgreeInEveryRun(steps[..|steps| - 1]);
      MachineInvStep(Run(steps[..|steps| - 1]).value, steps[|steps| - 1]);
    }
  }

  /** So two alarms for one type and non-empty object are never left in the store. */
  lemma NoDuplicateInAnyRun(steps: seq<Step>, id1: string, id2: string)
    requires Run(steps).Some?
    requires var alarms := Run(steps).value.store.alarms;
             id1 in alarms && id2 in alarms && alarms[id1].Key() == alarms[id2].Key() && alarms[id1].backupObject != ""
    ensures id1 == id2
  {
    MapsAgreeInEveryRun(steps);
    OneAlarmPerKey(Run(steps).value.store, id1, id2);
  }

  /** A duplicate inside the window changes nothing, in particular not the window, and is answered with the
      alarm already there; the window is that alarm's event time plus five minutes. */
  lemma SuppressedDuplicate(st: Store, alarm: Alarm, now: int)
    requires Inv(st) && Suppressed(st, alarm.Key(), now)
    ensures SaveSpec(st, alarm, now).0 == st
    ensures var id := SaveSpec(st, alarm, now).1;
            id in st.alarms && st.alarms[id].Key() == alarm.Key() && now < st.alarms[id].eventTime.value + DEDUP_WINDOW
  {
    assert st.dedup[alarm.Key()].alarmID in st.alarms;
  }

  /** The sections of one Save in a row, whatever state the others have left: it begins, and ends with what Save alone
      does to the store and the ID that Save alone returns. */
  lemma UninterruptedSave(m: Machine, alarm: Alarm, now: int, later: int)
    requires alarm.id !in m.issued
    ensures Enabled(m, BeginSave(alarm))
    ensures var i, m1 := |m.savers|, Next(m, BeginSave(alarm));
            && Enabled(m1, FastPath(i, now))
            && var m2 := Next(m1, FastPath(i, now));
               if Suppressed(m.store, alarm.Key(), now)
               then m2.store == m.store && m2.savers[i].progress == Returned(SaveSpec(m.store, alarm, now).1)
               else
                 && Enabled(m2, SlowPath(i, later))
                 && var m3 := Next(m2, SlowPath(i, later));
                    (m3.store, m3.savers[i].progress)
                    == (SaveSpec(m.store, alarm, later).0, Returned(SaveSpec(m.store, alarm, later).1))
  {
  }

  /** In every interleaving, a Save that ends in its write-locked section returns the ID of an alarm of its kind that is
      then stored: its own, or the one that suppresses it. */
  lemma SaveReturnsStoredAlarm(steps: seq<Step>, i: nat, now: int)
    requires Run(steps).Some? && Enabled(Run(steps).value, SlowPath(i, now))
    ensures var m := Run(steps).value;
            var a, m' := m.savers[i].alarm, Next(m, SlowPath(i, now));
            && m'.savers[i].progress.Returned?
            && var id := m'.savers[i].progress.id;
               && id in m'.store.alarms && m'.store.alarms[id].Key() == a.Key()
               && (if Suppressed(m.store, a.Key(), now) then m'.store == m.store else id == a.id)
  {
    MapsAgreeInEveryRun(steps);
    var m := Run(steps).value;
    hide Run;
    if Suppressed(m.store, m.savers[i].alarm.Key(), now) {
      SuppressedDuplicate(m.store, m.savers[i].alarm, now);
    } else {
      SavedExactly(m.store, m.savers[i].alarm, now);
    }
    hide Inv, SaveSpec;
  }

  /** Clearing and acknowledging can happen at any moment and do to the store what they do alone. */
  lemma OthersActAtOnce(m: Machine, id: string, acked: bool, by_: string, now: int)
    ensures Enabled(m, Clear(id)) && Next(m, Clear(id)) == m.(store := ClearSpec(m.store, id))
    ensures Enabled(m, Ack(id, acked, by_, now))
    ensures Next(m, Ack(id, acked, by_, now)) == m.(store := AckSpec(m.store, id, acked, by_, now))
  {
  }

  /** An alarm is suppressed exactly when one of the same type and non-empty object is stored whose event is less than
      five minutes old. */
  lemma SuppressedIff(st: Store, key: DedupKey, now: int)
    requires Inv(st)
    ensures Suppressed(st, key, now)
            <==> && key.backupObject != ""
                 && exists id | id in st.alarms :: st.alarms[id].Key() == key && now < st.alarms[id].eventTime.value + DEDUP_WINDOW
  {
    if Suppressed(st, key, now) {
      assert st.dedup[key].alarmID in st.alarms && st.alarms[st.dedup[key].alarmID].Key() == key;
    }
  }

  /** What saving does when it is not suppressed: the alarm is stored under its ID and stays as it was given but for an
      event time, an older alarm of the same type and non-empty object goes, and everything else stays. */
  lemma SavedExactly(st: Store, alarm: Alarm, now: int)
    requires Inv(st) && !Suppressed(st, alarm.Key(), now)
    ensures var (st', id) := SaveSpec(st, alarm, now);
            && id == alarm.id && id in st'.alarms
            && st'.alarms[id] == alarm.(eventTime := if alarm.eventTime.Some? then alarm.eventTime else Some(now))
            && forall x | x != alarm.id ::
                 && (x in st'.alarms <==>
                       x in st.alarms && (st.alarms[x].Key() != alarm.Key() || alarm.backupObject == ""))
                 && (x in st'.alarms ==> st'.alarms[x] == st.alarms[x])
  {
  }

  /** Clearing takes away that alarm and no other; a new alarm of its kind is then no longer suppressed. */
  lemma ClearedExactly(st: Store, id: string)
    requires Inv(st)
    ensures var st' := ClearSpec(st, id);
            && id !in st'.alarms
            && (forall x | x != id :: x in st'.alarms <==> x in st.alarms)
            && (forall x | x in st'.alarms :: st'.alarms[x] == st.alarms[x])
            && (id in st.alarms && st.alarms[id].backupObject != "" ==>
                  forall now :: !Suppressed(st', st.alarms[id].Key(), now))
  {
  }

  /** Acknowledging marks that alarm, with who and when, and changes no other alarm and nothing else about it. */
  lemma AckedExactly(st: Store, id: string, acked: bool, by_: string, now: int)
    ensures var st' := AckSpec(st, id, acked, by_, now);
            && st'.alarms.Keys == st.alarms.Keys
            && (forall x | x in st.alarms && x != id :: st'.alarms[x] == st.alarms[x])
            && (id in st.alarms ==>
                  && (st'.alarms[id].acked, st'.alarms[id].ackedBy, st'.alarms[id].ackedAt) == (acked, by_, Some(now))
                  && st'.alarms[id].Key() == st.alarms[id].Key() && st'.alarms[id].eventTime == st.alarms[id].eventTime
                  && st'.alarms[id].problem == st.alarms[id].problem && st'.alarms[id].severity == st.alarms[id].severity)
  {
  }

  // ---- The store as it runs ----

  class Alarms {
    var alarms: map<string, Alarm>
    var dedup: map<DedupKey, DedupInfo>

    ghost function View(): Store
      reads this
    {
      Store(alarms, dedup)
    }

    constructor ()
      ensures View() == EMPTY
    {
      alarms, dedup := map[], map[];
    }

    /** The look at the table under the read lock. */
    method FindDuplicate(key: DedupKey, now: int) returns (id: Option<string>)
      ensures id == if Suppressed(View(), key, now) then Some(dedup[key].alarmID) else None
    {
      if key.backupObject != "" && key in dedup && now < dedup[key].deadline {
        return Some(dedup[key].alarmID);
      }
      return None;
    }

    /** The part under the write lock, which looks again. */
    method Insert(alarm: Alarm, now: int) returns (id: string)
      modifies this
      ensures (View(), id) == SaveSpec(old(View()), alarm, now)
    {
      var a, key := alarm, alarm.Key();
      if key.backupObject != "" {
        if key in dedup {
          if now < dedup[key].deadline {
            return dedup[key].alarmID;
          }
          var stale := dedup[key].alarmID;
          dedup := dedup - {key};
          alarms := alarms - {stale};
        }
      }
      if a.eventTime.None? {
        a := a.(eventTime := Some(now));
      }
      alarms := alarms[a.id := a];
      dedup := dedup[key := DedupInfo(a.id, a.eventTime.value + DEDUP_WINDOW)];
      assert dedup == old(dedup)[key := dedup[key]];
      return a.id;
    }

    /** Save with the clock readings of its two looks at the table; `uuid` is used when the alarm has no ID. */
    method Save(alarm: Alarm, uuid: string, now: int, later: int) returns (id: string)
      modifies this
      ensures var a := if alarm.id == "" then alarm.(id := uuid) else alarm;
              (View(), id) == if Suppressed(old(View()), a.Key(), now) then (old(View()), old(dedup)[a.Key()].alarmID)
                              else SaveSpec(old(View()), a, later)
    {
      var a := alarm;
      if a.id == "" {
        a := a.(id := uuid);
      }
      var duplicate := FindDuplicate(a.Key(), now);
      if duplicate.Some? {
        return duplicate.value;
      }
      id := Insert(a, later);
    }

    method Clear(id: string) returns (found: bool)
      modifies this
      ensures View() == ClearSpec(old(View()), id) && found == (id in old(alarms))
    {
      if id !in alarms {
        return false;
      }
      var key := alarms[id].Key();
      dedup := dedup - {key};
      alarms := alarms - {id};
      return true;
    }

    method UpdateAck(id: string, acked: bool, ackedBy: string, now: int) returns (found: bool)
      modifies this
      ensures View() == AckSpec(old(View()), id, acked, ackedBy, now) && found == (id in old(alarms))
    {
      if id !in alarms {
        return false;
      }
      alarms := alarms[id := alarms[id].(acked := acked, ackedBy := ackedBy, ackedAt := Some(now))];
      return true;
    }

    /** All alarms, each once, the latest event first. */
    method List() returns (list: seq<Alarm>)
      requires Filed(View())
      ensures |list| == |alarms| && LatestFirst(list)
      ensures forall id | id in alarms :: alarms[id] in list
      ensures forall a | a in list :: a.id in alarms && alarms[a.id] == a
    {
      list := [];
      var todo := alarms.Keys;
      while todo != {}
        invariant todo <= alarms.Keys && |list| + |todo| == |alarms.Keys| && LatestFirst(list)
        invariant forall id | id in alarms && id !in todo :: alarms[id] in list
        invariant forall a | a in list :: a.id in alarms && alarms[a.id] == a
        decreases todo
      {
        var id :| id in todo;
        list := Inserted(list, alarms[id]);
        todo := todo - {id};
      }
    }
  }

  ghost predicate LatestFirst(list: seq<Alarm>) {
    && (forall i | 0 <= i < |list| :: list[i].eventTime.Some?)
    && forall i, j | 0 <= i < j < |list| :: list[i].eventTime.value >= list[j].eventTime.value
  }

  method Inserted(list: seq<Alarm>, a: Alarm) returns (out: seq<Alarm>)
    requires LatestFirst(list) && a.eventTime.Some?
    ensures LatestFirst(out) && |out| == |list| + 1
    ensures forall x :: x in out <==> x in list || x == a
  {
    var k := 0;
    while k < |list| && list[k].eventTime.value >= a.eventTime.value
      invariant 0 <= k <= |list|
      invariant forall i | 0 <= i < k :: list[i].eventTime.value >= a.eventTime.value
    {
      k := k + 1;
    }
    out := list[..k] + [a] + list[k..];
    InsertedSorted(list, a, k);
    assert forall x :: x in list <==> x in list[..k] || x in list[k..];
  }

  lemma InsertedSorted(list: seq<Alarm>, a: Alarm, k: nat)
    requires LatestFirst(list) && a.eventTime.Some? && k <= |list|
    requires forall i | 0 <= i < k :: list[i].eventTime.value >= a.eventTime.value
    requires k < |list| ==> list[k].eventTime.value < a.eventTime.value
    ensures LatestFirst(list[..k] + [a] + list[k..])
  {
    var out := list[..k] + [a] + list[k..];
    assert forall i | 0 <= i < |out| :: out[i] == if i < k then list[i] else if i == k then a else list[i - 1];
  }
}
