/** The service: one store holding the user table, the device table and the
    count log, and the routes over it. Routes that write go through
    methods that update the store in place; a failed commit is a
    `storageFails` flag that rolls the write back. Routes behind
    `token_required` first run `Sessions.Authenticate` on the request's
    Authorization header and answer with its refusal when it refuses. */
module Service {
  import opened Common
  import opened Credentials
  import opened Sessions
  import opened Devices
  import opened CountLog

  class Backend {
    var users: map<string, User>
    var devices: map<string, Device>
    var counts: seq<Count>
    /** JWT encoding and decoding under the process-wide secret key. */
    const codec: TokenCodec

    /** Rows are keyed by their unique column, usernames are non-empty, and
        count ids (the primary key) are distinct. */
    ghost predicate Valid()
      reads this
    {
      && (forall name :: name in users ==> users[name].username == name && name != "")
      && (forall id :: id in devices ==> devices[id].id == id)
      && (forall i, j :: 0 <= i < j < |counts| ==> counts[i].id != counts[j].id)
    }

    /** `init_db` on a fresh database: all three tables empty. */
    constructor (codec: TokenCodec)
      ensures Valid()
      ensures users == map[] && devices == map[] && counts == []
      ensures this.codec == codec
    {
      users, devices, counts := map[], map[], [];
      this.codec := codec;
    }

    // -------------------------------------------------------------------
    // Users.

    /** `register`: 400 when a field is absent or empty, 400 when the name
        is taken; otherwise exactly one user is added, with the hash of
        the password, unless the commit fails. */
    method Register(username: Option<string>, password: Option<string>, salt: string,
                    now: int, storageFails: bool) returns (r: Reply<()>)
      requires Valid()
      modifies this`users
      ensures Valid()
      ensures !Given(username) || !Given(password) ==> r == Err(MissingCredentials)
      ensures Given(username) && Given(password) && username.value in old(users) ==> r == Err(UserExists)
      ensures Given(username) && Given(password) && username.value !in old(users) ==>
                r == if storageFails then Err(StorageFailure) else Ok(())
      ensures r.Ok? ==> && users == old(users)[username.value := NewUser(username.value, password.value, salt, now)]
                        && |users| == |old(users)| + 1
      ensures r.Err? ==> users == old(users)
    {
      if !Given(username) || !Given(password) {
        return Err(MissingCredentials);
      }
      if username.value in users {
        return Err(UserExists);
      }
      if storageFails {
        return Err(StorageFailure);
      }
      users := users[username.value := NewUser(username.value, password.value, salt, now)];
      r := Ok(());
    }

    /** `verify`: the caller's username, once the guard admits them. */
    method VerifyRoute(header: Option<string>, now: int) returns (r: Reply<string>)
      requires Valid()
      ensures r.Ok? <==> Authenticate(users, codec, header, now).Ok?
      ensures r.Err? ==> r.error == Authenticate(users, codec, header, now).error
      ensures r.Ok? ==> r.value in users && r.value == Authenticate(users, codec, header, now).value.username
    {
      var auth := Authenticate(users, codec, header, now);
      if auth.Err? {
        return Err(auth.error);
      }
      r := Ok(auth.value.username);
    }

    // -------------------------------------------------------------------
    // Counts.

    /** `add_count`: unauthenticated; appends one record with the body's
        fields (defaults for absent ones) stamped with the server's clock.
        The device id is not checked against the device table. Only a
        failed commit refuses the insert: a storage failure, a generated id
        that collides with a stored one, or a count SQLite cannot store. */
    method AddCount(id: string, deviceId: Option<string>, count: Option<int>, animalType: Option<string>,
                    now: int, storageFails: bool) returns (r: Reply<Count>)
      requires Valid()
      modifies this`counts
      ensures Valid()
      ensures r.Ok? <==> && !storageFails
                         && FitsInteger(count.GetOr(0))
                         && forall i :: 0 <= i < |old(counts)| ==> old(counts)[i].id != id
      ensures r.Ok? ==> && r.value == NewCount(id, deviceId, count, animalType, now)
                        && counts == old(counts) + [r.value]
      ensures r.Err? ==> r.error == StorageFailure && counts == old(counts)
    {
      var taken := exists i :: 0 <= i < |counts| && counts[i].id == id;
      if storageFails || taken || !FitsInteger(count.GetOr(0)) {
        return Err(StorageFailure);
      }
      var c := NewCount(id, deviceId, count, animalType, now);
      counts := counts + [c];
      r := Ok(c);
    }

    /** `get_counts`: behind the guard, every record newest first. */
    method GetCounts(header: Option<string>, now: int) returns (r: Reply<CountList>)
      requires Valid()
      ensures r.Err? <==> Authenticate(users, codec, header, now).Err?
      ensures r.Err? ==> r.error == Authenticate(users, codec, header, now).error
      ensures r.Ok? ==> && NewestFirst(r.value.counts)
                        && multiset(r.value.counts) == multiset(counts)
                        && r.value.total == |counts|
    {
      var auth := Authenticate(users, codec, header, now);
      if auth.Err? {
        return Err(auth.error);
      }
      r := Ok(AllCounts(counts));
    }

    /** `get_today_counts`: behind the guard, today's records newest first
        with their total. */
    method GetTodayCounts(header: Option<string>, now: int) returns (r: Reply<TodayList>)
      requires Valid()
      ensures r.Err? <==> Authenticate(users, codec, header, now).Err?
      ensures r.Err? ==> r.error == Authenticate(users, codec, header, now).error
      ensures r.Ok? ==> && NewestFirst(r.value.counts)
                        && (forall c :: c in r.value.counts <==>
                              c in counts && DayStart(now) <= c.timestamp < DayStart(now) + Day)
                        && multiset(r.value.counts) == multiset(Select(counts, TodayWindow(now)))
                        && r.value.totalToday == Sum(r.value.counts)
                        && r.value.records == |r.value.counts|
    {
      var auth := Authenticate(users, codec, header, now);
      if auth.Err? {
        return Err(auth.error);
      }
      r := Ok(TodayCounts(counts, now));
    }

    /** `get_stats`: behind the guard, the totals and the three windows. */
    method GetStats(header: Option<string>, now: int) returns (r: Reply<StatsView>)
      requires Valid()
      ensures r.Err? <==> Authenticate(users, codec, header, now).Err?
      ensures r.Err? ==> r.error == Authenticate(users, codec, header, now).error
      ensures r.Ok? ==> r.value == Stats(counts, now)
      ensures r.Ok? && NonNegative(counts) ==>
                0 <= r.value.today <= r.value.thisWeek <= r.value.thisMonth <= r.value.totalAnimals
    {
      var auth := Authenticate(users, codec, header, now);
      if auth.Err? {
        return Err(auth.error);
      }
      if NonNegative(counts) {
        StatsNested(counts, now);
      }
      r := Ok(Stats(counts, now));
    }

    // -------------------------------------------------------------------
    // Devices.

    /** `get_devices`: behind the guard, every device exactly once (in no
        promised order) and how many there are. */
    method GetDevices(header: Option<string>, now: int) returns (r: Reply<DeviceList>)
      requires Valid()
      ensures r.Err? <==> Authenticate(users, codec, header, now).Err?
      ensures r.Err? ==> r.error == Authenticate(users, codec, header, now).error
      ensures r.Ok? ==> && r.value.total == |r.value.devices| == |devices|
                        && (forall i :: 0 <= i < |r.value.devices| ==>
                              r.value.devices[i].id in devices && devices[r.value.devices[i].id] == r.value.devices[i])
                        && (forall id :: id in devices ==> devices[id] in r.value.devices)
                        && (forall i, j :: 0 <= i < j < |r.value.devices| ==>
                              r.value.devices[i].id != r.value.devices[j].id)
    {
      var auth := Authenticate(users, codec, header, now);
      if auth.Err? {
        return Err(auth.error);
      }
      var listed: seq<Device> := [];
      var left := devices.Keys;
      while left != {}
        invariant left <= devices.Keys
        invariant |listed| + |left| == |devices|
        invariant forall i :: 0 <= i < |listed| ==>
                    listed[i].id in devices.Keys - left && devices[listed[i].id] == listed[i]
        invariant forall id :: id in devices.Keys - left ==> devices[id] in listed
        invariant forall i, j :: 0 <= i < j < |listed| ==> listed[i].id != listed[j].id
        decreases |left|
      {
        var id :| id in left;
        listed := listed + [devices[id]];
        left := left - {id};
      }
      r := Ok(DeviceList(listed, |listed|));
    }

    /** `register_device`: behind the guard; adds a device under the
        freshly generated id with the body's name and location (defaults
        when absent), status active and both times set to now. A failed
        commit, or an id that collides with a stored one, adds nothing. */
    method RegisterDevice(header: Option<string>, now: int, id: string,
                          name: Option<string>, location: Option<string>,
                          storageFails: bool) returns (r: Reply<Device>)
      requires Valid()
      modifies this`devices
      ensures Valid()
      ensures Authenticate(users, codec, header, now).Err? ==>
                r == Err(Authenticate(users, codec, header, now).error)
      ensures Authenticate(users, codec, header, now).Ok? ==>
                (r.Ok? <==> !storageFails && id !in old(devices))
      ensures Authenticate(users, codec, header, now).Ok? && r.Err? ==> r.error == StorageFailure
      ensures r.Ok? ==> && r.value == NewDevice(id, name, location, now)
                        && devices == old(devices)[id := r.value]
                        && |devices| == |old(devices)| + 1
      ensures r.Err? ==> devices == old(devices)
    {
      var auth := Authenticate(users, codec, header, now);
      if auth.Err? {
        return Err(auth.error);
      }
      if storageFails || id in devices {
        return Err(StorageFailure);
      }
      var d := NewDevice(id, name, location, now);
      devices := devices[id := d];
      r := Ok(d);
    }

    /** `device_heartbeat`: unauthenticated; 404 for an unknown id;
        otherwise that device's last-seen time becomes now and its status
        active, and nothing else changes. */
    method Heartbeat(id: string, now: int, storageFails: bool) returns (r: Reply<()>)
      requires Valid()
      modifies this`devices
      ensures Valid()
      ensures id !in old(devices) ==> r == Err(DeviceNotFound)
      ensures id in old(devices) ==> r == if storageFails then Err(StorageFailure) else Ok(())
      ensures r.Ok? ==> && devices.Keys == old(devices).Keys
                        && devices[id] == old(devices)[id].(lastSeen := now, status := Active)
                        && (forall other :: other in devices && other != id ==> devices[other] == old(devices)[other])
      ensures r.Err? ==> devices == old(devices)
    {
      if id !in devices {
        return Err(DeviceNotFound);
      }
      if storageFails {
        return Err(StorageFailure);
      }
      devices := devices[id := devices[id].(lastSeen := now, status := Active)];
      r := Ok(());
    }

    /** `delete_device`: behind the guard; 404 for an unknown id; otherwise
        the device is removed outright. Count records naming it stay. */
    method DeleteDevice(header: Option<string>, now: int, id: string, storageFails: bool)
      returns (r: Reply<()>)
      requires Valid()
      modifies this`devices
      ensures Valid()
      ensures Authenticate(users, codec, header, now).Err? ==>
                r == Err(Authenticate(users, codec, header, now).error)
      ensures Authenticate(users, codec, header, now).Ok? && id !in old(devices) ==> r == Err(DeviceNotFound)
      ensures Authenticate(users, codec, header, now).Ok? && id in old(devices) ==>
                r == if storageFails then Err(StorageFailure) else Ok(())
      ensures r.Ok? ==> devices == old(devices) - {id} && |devices| == |old(devices)| - 1
      ensures r.Err? ==> devices == old(devices)
      ensures counts == old(counts)
    {
      var auth := Authenticate(users, codec, header, now);
      if auth.Err? {
        return Err(auth.error);
      }
      if id !in devices {
        return Err(DeviceNotFound);
      }
      if storageFails {
        return Err(StorageFailure);
      }
      devices := devices - {id};
      r := Ok(());
    }
  }
}
