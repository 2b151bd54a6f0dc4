/** `NotificationsActivity`: the in-app notification records kept in the "app_notifications"
    preferences, each stored as `"taskId|message"` under the instant it was written, read back
    into a list shown newest first. */
module Notifications {

  import opened Wrappers
  import opened IntMath
  import opened Text
  import opened Lists
  import opened StableSort

  /** A value of the preferences file; the records are strings, anything else is skipped. */
  datatype PrefValue = StringPref(s: string) | OtherPref

  /** The preferences file: its entries in the order `sharedPrefs.all` yields them. */
  type Prefs = seq<(string, PrefValue)>

  predicate UniqueKeys(prefs: Prefs)
  {
    forall i, j :: 0 <= i < j < |prefs| ==> prefs[i].0 != prefs[j].0
  }

  datatype Notification = Notification(id: string, taskId: string, message: string, timestamp: int)

  // ---------------------------------------------------------------------------------------------
  // Writing and removing records

  /** `putString(key, value)`: the value of an existing key is replaced in place, a new key is
      added last. */
  function Put(prefs: Prefs, key: string, value: PrefValue): (r: Prefs)
    ensures UniqueKeys(prefs) ==> UniqueKeys(r)
    ensures (key, value) in r
    ensures forall e :: e in prefs && e.0 != key ==> e in r
    ensures forall e :: e in r && e.0 != key ==> e in prefs
  {
    if prefs == [] then [(key, value)]
    else if prefs[0].0 == key then [(key, value)] + prefs[1..]
    else
      var rest := Put(prefs[1..], key, value);
      assert forall e :: e in prefs[1..] ==> e in prefs;
      [prefs[0]] + rest
  }

  /** `remove(key)`: the entries with other keys, in their order. */
  function Remove(prefs: Prefs, key: string): Prefs
  {
    if prefs == [] then []
    else
      var n := |prefs| - 1;
      Remove(prefs[..n], key) + (if prefs[n].0 == key then [] else [prefs[n]])
  }

  /** The entries left are those with another key. */
  lemma {:induction false} RemoveEntries(prefs: Prefs, key: string)
    ensures forall e :: e in Remove(prefs, key) <==> e in prefs && e.0 != key
  {
    if prefs != [] {
      var n := |prefs| - 1;
      RemoveEntries(prefs[..n], key);
      assert prefs == prefs[..n] + [prefs[n]];
    }
  }

  /** `addInAppNotification` of the alarm receiver: the record `"taskId|message"` stored under the
      printed instant. */
  function AddInAppNotification(prefs: Prefs, now: int, taskId: string, message: string): Prefs
  {
    Put(prefs, IntToString(now), StringPref(taskId + "|" + message))
  }

  // ---------------------------------------------------------------------------------------------
  // Reading records

  /** One entry of `loadNotifications`: kept when its value is a string that splits on '|' into
      at least two parts; the key is the timestamp, or the current instant when it is no Long. */
  function ParseRecord(id: string, value: PrefValue, now: int): (r: Option<Notification>)
    ensures r.Some? ==> r.value.id == id
  {
    if !value.StringPref? then None
    else
      var parts := Split(value.s, '|');
      if |parts| < 2 then None
      else
        var timestamp := match ParseInt64(id) case Some(t) => t case None => now;
        Some(Notification(id, parts[0], parts[1], timestamp))
  }

  /** A record is kept exactly when its value is a string holding a '|'. */
  lemma RecordKept(id: string, value: PrefValue, now: int)
    ensures ParseRecord(id, value, now).Some? <==> value.StringPref? && '|' in value.s
  {
    if value.StringPref? {
      SplitHasSecondPart(value.s, '|');
    }
  }

  /** The task id is the text before the first '|', the message the text up to the next '|';
      anything after a second '|' is dropped. */
  lemma RecordFields(id: string, taskId: string, message: string, rest: string, now: int)
    requires '|' !in taskId && '|' !in message
    ensures var r := ParseRecord(id, StringPref(taskId + "|" + message + rest), now);
      r.Some? && r.value.taskId == taskId &&
      (rest == [] || rest[0] == '|' ==> r.value.message == message)
  {
    var s := taskId + "|" + message + rest;
    assert s == taskId + ['|'] + (message + rest);
    SplitAtFirst(taskId, message + rest, '|');
    if rest == [] {
      SplitPrefix(message, [], '|');
      assert message + [] == message;
    } else if rest[0] == '|' {
      assert message + rest == message + ['|'] + rest[1..];
      SplitAtFirst(message, rest[1..], '|');
    }
  }

  /** The timestamp is the key read as a Long, and the current instant for any other key. */
  lemma RecordTimestamp(id: string, value: PrefValue, now: int)
    requires ParseRecord(id, value, now).Some?
    ensures ParseInt64(id).Some? ==> ParseRecord(id, value, now).value.timestamp == ParseInt64(id).value
    ensures ParseInt64(id).None? ==> ParseRecord(id, value, now).value.timestamp == now
  {
  }

  /** What the receiver writes is read back unchanged: same key, task id, message and instant. */
  lemma WrittenRecordReadBack(now: int, taskId: string, message: string, clock: int)
    requires IsInt64(now) && '|' !in taskId && '|' !in message
    ensures ParseRecord(IntToString(now), StringPref(taskId + "|" + message), clock) ==
      Some(Notification(IntToString(now), taskId, message, now))
  {
    RecordFields(IntToString(now), taskId, message, [], clock);
    assert taskId + "|" + message + [] == taskId + "|" + message;
    ParseOfToString(now, Int64Min, Int64Max);
  }

  /** The record of one entry, when it is kept. */
  function RecordOf(entry: (string, PrefValue), now: int): seq<Notification>
  {
    match ParseRecord(entry.0, entry.1, now) case Some(r) => [r] case None => []
  }

  /** The records of the entries, in store order. */
  function ParseAll(prefs: Prefs, now: int): seq<Notification>
  {
    if prefs == [] then []
    else
      var n := |prefs| - 1;
      ParseAll(prefs[..n], now) + RecordOf(prefs[n], now)
  }

  /** Every kept entry gives a record. */
  lemma {:induction false} ParseAllComplete(prefs: Prefs, now: int, k: nat)
    requires k < |prefs| && ParseRecord(prefs[k].0, prefs[k].1, now).Some?
    ensures ParseRecord(prefs[k].0, prefs[k].1, now).value in ParseAll(prefs, now)
  {
    var n := |prefs| - 1;
    if k < n {
      assert prefs[..n][k] == prefs[k];
      ParseAllComplete(prefs[..n], now, k);
    } else {
      assert RecordOf(prefs[n], now) == [ParseRecord(prefs[k].0, prefs[k].1, now).value];
    }
  }

  /** Every record comes from an entry under its id. */
  lemma {:induction false} ParseAllSound(prefs: Prefs, now: int, r: Notification) returns (k: nat)
    requires r in ParseAll(prefs, now)
    ensures k < |prefs| && ParseRecord(prefs[k].0, prefs[k].1, now) == Some(r) && prefs[k].0 == r.id
  {
    var n := |prefs| - 1;
    if r in ParseAll(prefs[..n], now) {
      k := ParseAllSound(prefs[..n], now, r);
      assert prefs[..n][k] == prefs[k];
    } else {
      k := n;
    }
  }

  /** Removing a key removes exactly its records and keeps the others in order. */
  lemma {:induction false} ParseAllRemove(prefs: Prefs, key: string, now: int)
    ensures ParseAll(Remove(prefs, key), now) == Filter(ParseAll(prefs, now), (r: Notification) => r.id != key)
  {
    var other := (r: Notification) => r.id != key;
    if prefs != [] {
      var n := |prefs| - 1;
      var front := Remove(prefs[..n], key);
      ParseAllRemove(prefs[..n], key, now);
      var last := RecordOf(prefs[n], now);
      FilterAppend(ParseAll(prefs[..n], now), last, other);
      if prefs[n].0 == key {
        assert Remove(prefs, key) == front + [];
        assert front + [] == front;
        FilterNone(last, other);
      } else {
        var kept := front + [prefs[n]];
        assert Remove(prefs, key) == kept;
        assert kept[..|kept| - 1] == front;
        FilterAll(last, other);
      }
    }
  }

  /** `sortByDescending { it.timestamp }`. */
  function NewestFirst(r: Notification): SortKey
  {
    SortKey(-r.timestamp, 0, 0)
  }

  function Loaded(prefs: Prefs, now: int): seq<Notification>
  {
    Sort(ParseAll(prefs, now), NewestFirst)
  }

  /** The list shown holds the parsed records, newest first; records with equal timestamps keep
      their store order. */
  lemma LoadedCorrect(prefs: Prefs, now: int)
    ensures var shown := Loaded(prefs, now);
      multiset(shown) == multiset(ParseAll(prefs, now)) &&
      (forall i, j :: 0 <= i < j < |shown| ==> shown[i].timestamp >= shown[j].timestamp) &&
      forall t :: WithKey(shown, NewestFirst, t) == WithKey(ParseAll(prefs, now), NewestFirst, t)
  {
    var shown := Loaded(prefs, now);
    SortCorrect(ParseAll(prefs, now), NewestFirst);
    forall i, j | 0 <= i < j < |shown|
      ensures shown[i].timestamp >= shown[j].timestamp
    {
      assert KeyLe(NewestFirst(shown[i]), NewestFirst(shown[j]));
    }
  }

  /** After a record is written, loading shows it. */
  lemma WrittenRecordShown(prefs: Prefs, now: int, taskId: string, message: string, clock: int)
    requires IsInt64(now) && '|' !in taskId && '|' !in message
    ensures Notification(IntToString(now), taskId, message, now) in Loaded(AddInAppNotification(prefs, now, taskId, message), clock)
  {
    var p := AddInAppNotification(prefs, now, taskId, message);
    var key, value := IntToString(now), StringPref(taskId + "|" + message);
    WrittenRecordReadBack(now, taskId, message, clock);
    var k :| 0 <= k < |p| && p[k] == (key, value);
    ParseAllComplete(p, clock, k);
    SortCorrect(ParseAll(p, clock), NewestFirst);
    assert Notification(key, taskId, message, now) in multiset(ParseAll(p, clock));
  }

  // ---------------------------------------------------------------------------------------------
  // The activity

  class NotificationsActivity {
    /** The "app_notifications" preferences. */
    var prefs: Prefs
    /** The adapter's list. */
    var shown: seq<Notification>
    var emptyStateVisible: bool

    constructor (prefs: Prefs)
      ensures this.prefs == prefs && shown == [] && !emptyStateVisible
    {
      this.prefs := prefs;
      shown := [];
      emptyStateVisible := false;
    }

    /** `loadNotifications`: the kept records newest first, and the empty state exactly when
        there are none; the preferences are only read. */
    method LoadNotifications(now: int)
      modifies this
      ensures prefs == old(prefs)
      ensures shown == Loaded(prefs, now)
      ensures emptyStateVisible <==> shown == []
    {
      var notifications: seq<Notification> := [];
      for i := 0 to |prefs|
        invariant notifications == ParseAll(prefs[..i], now)
      {
        var (id, value) := prefs[i];
        assert prefs[..i + 1][..i] == prefs[..i];
        if value.StringPref? {
          var parts := Split(value.s, '|');
          if |parts| >= 2 {
            var taskId := parts[0];
            var message := parts[1];
            var timestamp := match ParseInt64(id) case Some(t) => t case None => now;
            notifications := notifications + [Notification(id, taskId, message, timestamp)];
          }
        }
      }
      assert prefs[..|prefs|] == prefs;
      notifications := Sort(notifications, NewestFirst);
      shown := notifications;
      emptyStateVisible := |notifications| == 0;
    }

    /** `clearAllNotifications`: the preferences are emptied and the reload shows nothing. */
    method ClearAllNotifications(now: int)
      modifies this
      ensures prefs == [] && shown == [] && emptyStateVisible
    {
      prefs := [];
      LoadNotifications(now);
    }

    /** A tap on a record: with its task present the task is opened; otherwise just that record
        is removed and the list reloaded. `taskExists` is the result of `getTaskById`. */
    method OnNotificationClick(position: int, taskExists: bool, now: int) returns (openTask: Option<string>)
      requires 0 <= position < |shown|
      modifies this
      ensures taskExists ==> openTask == Some(old(shown[position].taskId))
      ensures taskExists ==> prefs == old(prefs) && shown == old(shown)
      ensures taskExists ==> emptyStateVisible == old(emptyStateVisible)
      ensures !taskExists ==> openTask.None?
      ensures !taskExists ==> prefs == Remove(old(prefs), old(shown[position].id))
      ensures !taskExists ==> shown == Loaded(prefs, now) && (emptyStateVisible <==> shown == [])
    {
      var notification := shown[position];
      if taskExists {
        openTask := Some(notification.taskId);
      } else {
        openTask := None;
        prefs := Remove(prefs, notification.id);
        LoadNotifications(now);
      }
    }
  }

  /** Removing the tapped record's key drops just the records under that key: in a store with
      unique keys, just that one. */
  lemma RemovedRecordOnly(prefs: Prefs, key: string, now: int)
    requires UniqueKeys(prefs)
    ensures ParseAll(Remove(prefs, key), now) == Filter(ParseAll(prefs, now), (r: Notification) => r.id != key)
    ensures forall e :: e in Remove(prefs, key) <==> e in prefs && e.0 != key
    ensures |Remove(prefs, key)| >= |prefs| - 1
    ensures (forall k :: 0 <= k < |prefs| ==> prefs[k].0 != key) ==> Remove(prefs, key) == prefs
  {
    if forall k :: 0 <= k < |prefs| ==> prefs[k].0 != key {
      RemoveAbsent(prefs, key);
    }
    RemoveEntries(prefs, key);
    ParseAllRemove(prefs, key, now);
    RemoveAtMostOne(prefs, key);
  }

  /** Removing a key that no entry has changes nothing. */
  lemma {:induction false} RemoveAbsent(prefs: Prefs, key: string)
    requires forall k :: 0 <= k < |prefs| ==> prefs[k].0 != key
    ensures Remove(prefs, key) == prefs
  {
    if prefs != [] {
      var n := |prefs| - 1;
      assert forall k :: 0 <= k < n ==> prefs[..n][k] == prefs[k];
      RemoveAbsent(prefs[..n], key);
      assert prefs[..n] + [prefs[n]] == prefs;
    }
  }

  /** In a store with unique keys a removal drops at most one entry. */
  lemma {:induction false} RemoveAtMostOne(prefs: Prefs, key: string)
    requires UniqueKeys(prefs)
    ensures |Remove(prefs, key)| >= |prefs| - 1
  {
    if prefs != [] {
      var n := |prefs| - 1;
      assert forall k :: 0 <= k < n ==> prefs[..n][k] == prefs[k];
      if prefs[n].0 == key {
        RemoveAbsent(prefs[..n], key);
      } else {
        RemoveAtMostOne(prefs[..n], key);
      }
    }
  }
}
