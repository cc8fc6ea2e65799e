/**
 Device keys and the session tokens they hold, as files: a token is known by its hash,
 and revoking a device removes every session of its own.
 */
module DeviceSessions {
  import opened Wrappers

  datatype SessionRecord = SessionRecord(deviceId: string, expiresAt: int)

  type Sessions = map<string, SessionRecord>

  /** The digest that names a session file. */
  type Hash = string -> string

  function WithoutDevice(sessions: Sessions, id: string): Sessions {
    map h | h in sessions && sessions[h].deviceId != id :: sessions[h]
  }

  function Checked(sessions: Sessions, hash: Hash, raw: string, now: int): Option<string> {
    if hash(raw) in sessions && now <= sessions[hash(raw)].expiresAt then Some(sessions[hash(raw)].deviceId) else None
  }

  class DeviceFiles {
    /** Authorised devices, by id, with their labels. */
    var devices: map<string, string>
    var sessions: Sessions

    constructor ()
      ensures devices == map[] && sessions == map[]
    {
      devices, sessions := map[], map[];
    }

    method WriteDeviceKey(id: string, caption: string)
      modifies this`devices
      ensures devices == old(devices)[id := caption]
    {
      devices := devices[id := caption];
    }

    /** The authorisation first, then each session file of that device. */
    method RemoveDeviceKey(id: string)
      modifies this
      ensures devices == old(devices) - {id} && sessions == WithoutDevice(old(sessions), id)
    {
      devices := devices - {id};
      var entries := sessions.Keys;
      while entries != {}
        invariant devices == old(devices) - {id} && entries <= old(sessions).Keys
        invariant sessions == map h | h in old(sessions) && (h in entries || old(sessions)[h].deviceId != id) :: old(sessions)[h]
        decreases entries
      {
        var path :| path in entries;
        entries := entries - {path};
        if sessions[path].deviceId == id {
          sessions := sessions - {path};
        }
      }
    }

    method IssueSessionToken(hash: Hash, raw: string, deviceId: string, ttl: int, now: int)
      modifies this`sessions
      ensures sessions == old(sessions)[hash(raw) := SessionRecord(deviceId, now + ttl)]
    {
      sessions := sessions[hash(raw) := SessionRecord(deviceId, now + ttl)];
    }

    /** Expired and unknown are told apart nowhere. */
    method CheckSessionToken(hash: Hash, raw: string, now: int) returns (device: Option<string>)
      ensures device == Checked(sessions, hash, raw, now)
    {
      if hash(raw) !in sessions {
        return None;
      }
      var rec := sessions[hash(raw)];
      device := if now <= rec.expiresAt then Some(rec.deviceId) else None;
    }
  }

  // ---- runs -------------------------------------------------------------------------------------

  datatype Event =
    | Authorise(id: string)
    | Revoke(id: string)
    | Issue(raw: string, deviceId: string, ttl: int, now: int)

  function After(events: seq<Event>, hash: Hash): Sessions {
    if events == [] then map[]
    else
      var sessions := After(events[..|events| - 1], hash);
      match events[|events| - 1]
      case Authorise(_) => sessions
      case Revoke(id) => WithoutDevice(sessions, id)
      case Issue(raw, deviceId, ttl, now) => sessions[hash(raw) := SessionRecord(deviceId, now + ttl)]
  }

  ghost predicate Injective(hash: Hash) {
    forall a, b :: hash(a) == hash(b) ==> a == b
  }

  /** No token is minted twice. */
  ghost predicate Fresh(events: seq<Event>) {
    forall i, j :: 0 <= i < j < |events| && events[i].Issue? && events[j].Issue? ==> events[i].raw != events[j].raw
  }

  /** The i-th event minted this token, and its device has not been revoked since. */
  ghost predicate Holds(events: seq<Event>, i: nat, raw: string, rec: SessionRecord) {
    && i < |events| && events[i].Issue? && events[i].raw == raw
    && rec == SessionRecord(events[i].deviceId, events[i].now + events[i].ttl)
    && forall j :: i < j < |events| && events[j].Revoke? ==> events[j].id != events[i].deviceId
  }

  lemma HoldsSnoc(events: seq<Event>, e: Event, i: nat, raw: string, rec: SessionRecord)
    requires i < |events|
    ensures Holds(events + [e], i, raw, rec) <==> Holds(events, i, raw, rec) && !(e.Revoke? && e.id == rec.deviceId)
  {
    var all := events + [e];
    assert all[i] == events[i] && all[|events|] == e;
    assert forall j :: 0 <= j < |events| ==> all[j] == events[j];
  }

  /** The file says what the history says. */
  lemma {:induction false} FilesTellHistory(events: seq<Event>, hash: Hash, raw: string, rec: SessionRecord)
    requires Injective(hash) && Fresh(events)
    ensures hash(raw) in After(events, hash) && After(events, hash)[hash(raw)] == rec
       <==> exists i: nat :: Holds(events, i, raw, rec)
  {
    if events != [] {
      var init, last := events[..|events| - 1], events[|events| - 1];
      FilesTellHistory(init, hash, raw, rec);
      assert events == init + [last];
      HistoryStep(init, last, raw, rec);
      hide Holds, Fresh;
    }
  }

  lemma HistoryStep(events: seq<Event>, e: Event, raw: string, rec: SessionRecord)
    requires Fresh(events + [e])
    ensures (exists i: nat :: Holds(events + [e], i, raw, rec)) <==>
              if e.Issue? && e.raw == raw then rec == SessionRecord(e.deviceId, e.now + e.ttl)
              else (exists i: nat :: Holds(events, i, raw, rec)) && !(e.Revoke? && e.id == rec.deviceId)
  {
    var all := events + [e];
    assert all[|events|] == e;
    if e.Issue? && e.raw == raw {
      assert rec == SessionRecord(e.deviceId, e.now + e.ttl) ==> Holds(all, |events|, raw, rec);
      forall i: nat | i < |events| ensures !Holds(all, i, raw, rec) {
        assert all[i].Issue? ==> all[i].raw != all[|events|].raw;
      }
    } else {
      forall i: nat | i < |events| ensures Holds(all, i, raw, rec) <==> Holds(events, i, raw, rec) && !(e.Revoke? && e.id == rec.deviceId) {
        HoldsSnoc(events, e, i, raw, rec);
      }
      assert !Holds(all, |events|, raw, rec);
    }
  }

  /**
   A token answers for a device exactly if it was issued to that device, has not
   expired, and the device has not been revoked since.
   */
  lemma TokenChecksExactly(events: seq<Event>, hash: Hash, raw: string, now: int, device: string)
    requires Injective(hash) && Fresh(events)
    ensures Checked(After(events, hash), hash, raw, now) == Some(device) <==>
              exists i: nat, expires: int :: Holds(events, i, raw, SessionRecord(device, expires)) && now <= expires
  {
    var sessions := After(events, hash);
    if hash(raw) in sessions {
      var rec := sessions[hash(raw)];
      FilesTellHistory(events, hash, raw, rec);
      if rec.deviceId == device && now <= rec.expiresAt {
        var i: nat :| Holds(events, i, raw, rec);
        assert Holds(events, i, raw, SessionRecord(device, rec.expiresAt));
      }
    }
    hide Holds, Fresh;
    forall i: nat, expires: int | Holds(events, i, raw, SessionRecord(device, expires))
      ensures hash(raw) in sessions && sessions[hash(raw)] == SessionRecord(device, expires)
    {
      FilesTellHistory(events, hash, raw, SessionRecord(device, expires));
    }
  }
}
