/** The heartbeat registry `esp32sConectados`: a JavaScript `Map` from the id a
    device announced to the time of its last heartbeat. A `Map` also keeps its
    keys in first-insertion order (`Array.from(map.keys())` lists them in that
    order; `set` on a present key keeps its place, `delete` takes it out), so
    the registry is a `map` together with that order. */
module Registry {
  import opened Messages

  /** A registry key: the `esp32Id` a heartbeat carried, `undefined` included. */
  type DeviceKey = JsString

  /** Five minutes, in milliseconds. */
  const INACTIVITY_TIMEOUT_MS: int := 5 * 60 * 1000

  /** A device whose last heartbeat is strictly more than the timeout ago. */
  predicate Inactive(last: int, now: int) {
    now - last > INACTIVITY_TIMEOUT_MS
  }

  ghost predicate Distinct(s: seq<DeviceKey>) {
    forall i, j :: 0 <= i < j < |s| ==> s[i] != s[j]
  }

  /** The insertion order lists every key of the map exactly once. */
  ghost predicate WellFormed(orden: seq<DeviceKey>, m: map<DeviceKey, int>) {
    Distinct(orden) && forall k :: k in orden <==> k in m
  }

  /** Where `Map.set` leaves the key order: a new key goes last, a present
      key keeps its place. */
  function SetOrden(orden: seq<DeviceKey>, k: DeviceKey): seq<DeviceKey> {
    if k in orden then orden else orden + [k]
  }

  /** The keys whose heartbeat is too old at `now`. */
  function InactiveKeys(m: map<DeviceKey, int>, now: int): set<DeviceKey> {
    set k | k in m && Inactive(m[k], now)
  }

  /** The keys of `s` whose heartbeat is too old at `now`. */
  ghost function InactiveAmong(s: seq<DeviceKey>, m: map<DeviceKey, int>, now: int): set<DeviceKey> {
    set k | k in s && k in m && Inactive(m[k], now)
  }

  /** Visiting the key at place `i` of a well-formed order: it is still in
      the map, it was not deleted before, and it joins the deleted keys
      exactly when it is inactive. */
  lemma InactiveAmongStep(orden: seq<DeviceKey>, i: nat, m: map<DeviceKey, int>, now: int)
    requires WellFormed(orden, m) && i < |orden|
    ensures orden[i] in m && orden[i] !in InactiveAmong(orden[..i], m, now)
    ensures Inactive(m[orden[i]], now) ==>
              InactiveAmong(orden[..i + 1], m, now) == InactiveAmong(orden[..i], m, now) + {orden[i]}
    ensures !Inactive(m[orden[i]], now) ==>
              InactiveAmong(orden[..i + 1], m, now) == InactiveAmong(orden[..i], m, now)
  {
    assert orden[..i + 1] == orden[..i] + [orden[i]];
    DistinctPrefix(orden, i);
  }

  /** One step of the sweep over a well-formed order `o0` of `m0`: with the
      keys before place `i` visited (map `m`, order `o`), the key at `i` is
      still present with its first time, and deleting it when inactive (or
      keeping it) leaves the first `i + 1` keys visited. */
  lemma SweepStep(o0: seq<DeviceKey>, m0: map<DeviceKey, int>, now: int, i: nat,
                  m: map<DeviceKey, int>, o: seq<DeviceKey>)
    requires WellFormed(o0, m0) && i < |o0|
    requires m == m0 - InactiveAmong(o0[..i], m0, now)
    requires o == Drop(o0, InactiveAmong(o0[..i], m0, now))
    ensures o0[i] in m && m[o0[i]] == m0[o0[i]]
    ensures Inactive(m[o0[i]], now) ==>
              && m - {o0[i]} == m0 - InactiveAmong(o0[..i + 1], m0, now)
              && Drop(o, {o0[i]}) == Drop(o0, InactiveAmong(o0[..i + 1], m0, now))
    ensures !Inactive(m[o0[i]], now) ==>
              && m == m0 - InactiveAmong(o0[..i + 1], m0, now)
              && o == Drop(o0, InactiveAmong(o0[..i + 1], m0, now))
  {
    var visited := InactiveAmong(o0[..i], m0, now);
    InactiveAmongStep(o0, i, m0, now);
    DropTwice(o0, visited, {o0[i]});
    if Inactive(m0[o0[i]], now) {
      assert m - {o0[i]} == m0 - (visited + {o0[i]});
    }
  }

  /** Once every key of a well-formed order has been visited, the deleted
      keys are all the inactive ones, and what is left is the sweep. */
  lemma InactiveAmongAll(orden: seq<DeviceKey>, m: map<DeviceKey, int>, now: int)
    requires WellFormed(orden, m)
    ensures InactiveAmong(orden, m, now) == InactiveKeys(m, now)
    ensures m - InactiveAmong(orden, m, now) == Survivors(m, now)
    ensures WellFormed(Drop(orden, InactiveAmong(orden, m, now)), Survivors(m, now))
  {
    SweepWellFormed(orden, m, now);
  }

  /** In an order without repetitions a key does not occur before its own place. */
  lemma DistinctPrefix(s: seq<DeviceKey>, i: nat)
    requires Distinct(s) && i < |s|
    ensures s[i] !in s[..i]
  {
  }

  /** The entries that survive a sweep at `now`. */
  function Survivors(m: map<DeviceKey, int>, now: int): (r: map<DeviceKey, int>)
    ensures forall k :: k in r <==> k in m && now - m[k] <= INACTIVITY_TIMEOUT_MS
    ensures forall k :: k in r ==> r[k] == m[k]
  {
    m - InactiveKeys(m, now)
  }

  /** The order `s` once the keys in `gone` have been deleted. */
  function Drop(s: seq<DeviceKey>, gone: set<DeviceKey>): (r: seq<DeviceKey>)
    ensures forall k :: k in r <==> k in s && k !in gone
    ensures |r| <= |s|
  {
    if s == [] then []
    else if s[0] in gone then Drop(s[1..], gone)
    else [s[0]] + Drop(s[1..], gone)
  }

  /** Deleting keys keeps the survivors in their order: the order of a
      concatenation is filtered piece by piece. */
  lemma {:induction false} DropAppend(s: seq<DeviceKey>, t: seq<DeviceKey>, gone: set<DeviceKey>)
    ensures Drop(s + t, gone) == Drop(s, gone) + Drop(t, gone)
  {
    if s == [] {
      assert s + t == t;
    } else {
      assert (s + t)[0] == s[0] && (s + t)[1..] == s[1..] + t;
      DropAppend(s[1..], t, gone);
    }
  }

  /** Deleting keys never duplicates one. */
  lemma {:induction false} DropDistinct(s: seq<DeviceKey>, gone: set<DeviceKey>)
    requires Distinct(s)
    ensures Distinct(Drop(s, gone))
  {
    if s != [] {
      assert Distinct(s[1..]) by {
        forall i, j | 0 <= i < j < |s[1..]| ensures s[1..][i] != s[1..][j] {
          assert s[1..][i] == s[i + 1] && s[1..][j] == s[j + 1];
        }
      }
      DropDistinct(s[1..], gone);
      if s[0] !in gone {
        var t := Drop(s[1..], gone);
        assert s[0] !in t;
        var r := [s[0]] + t;
        forall i, j | 0 <= i < j < |r| ensures r[i] != r[j] {
          if i == 0 {
            assert r[j] == t[j - 1];
          } else {
            assert r[i] == t[i - 1] && r[j] == t[j - 1];
          }
        }
      }
    }
  }

  /** Deleting keys the order does not hold leaves it as it is. */
  lemma {:induction false} DropAbsent(s: seq<DeviceKey>, gone: set<DeviceKey>)
    requires forall k :: k in s ==> k !in gone
    ensures Drop(s, gone) == s
  {
    if s != [] {
      DropAbsent(s[1..], gone);
      assert s == [s[0]] + s[1..];
    }
  }

  /** Deleting `a` and then `b` is deleting both at once. */
  lemma {:induction false} DropTwice(s: seq<DeviceKey>, a: set<DeviceKey>, b: set<DeviceKey>)
    ensures Drop(Drop(s, a), b) == Drop(s, a + b)
  {
    if s != [] {
      DropTwice(s[1..], a, b);
      if s[0] !in a {
        var t := Drop(s[1..], a);
        assert ([s[0]] + t)[0] == s[0] && ([s[0]] + t)[1..] == t;
      }
    }
  }

  /** An order that lists each key once has as many entries as the map:
      `Array.from(map.keys()).length == map.size`. */
  lemma {:induction false} WellFormedSize(orden: seq<DeviceKey>, m: map<DeviceKey, int>)
    requires WellFormed(orden, m)
    ensures |orden| == |m|
  {
    if orden == [] {
      assert m.Keys == {};
    } else {
      var k := orden[0];
      var rest := orden[1..];
      var m' := m - {k};
      assert k !in rest;
      forall x ensures x in rest <==> x in m' {
        if x in m' {
          assert x in orden && x != k;
          var j :| 0 <= j < |orden| && orden[j] == x;
          assert j != 0 && rest[j - 1] == x;
        }
      }
      assert Distinct(rest) by {
        forall i, j | 0 <= i < j < |rest| ensures rest[i] != rest[j] {
          assert rest[i] == orden[i + 1] && rest[j] == orden[j + 1];
        }
      }
      WellFormedSize(rest, m');
      assert m'.Keys == m.Keys - {k};
    }
  }

  /** `Map.set` keeps the order consistent with the map. */
  lemma SetWellFormed(orden: seq<DeviceKey>, m: map<DeviceKey, int>, k: DeviceKey, v: int)
    requires WellFormed(orden, m)
    ensures WellFormed(SetOrden(orden, k), m[k := v])
  {
    if k !in orden {
      var r := orden + [k];
      forall i, j | 0 <= i < j < |r| ensures r[i] != r[j] {
        if j == |orden| {
          assert r[i] == orden[i];
        } else {
          assert r[i] == orden[i] && r[j] == orden[j];
        }
      }
    }
  }

  /** A sweep keeps the order consistent with the map. */
  lemma SweepWellFormed(orden: seq<DeviceKey>, m: map<DeviceKey, int>, now: int)
    requires WellFormed(orden, m)
    ensures WellFormed(Drop(orden, InactiveKeys(m, now)), Survivors(m, now))
  {
    DropDistinct(orden, InactiveKeys(m, now));
  }

  /** Sweeping again later removes what a sweep at that later time would
      have removed on its own; sweeping twice at once changes nothing. */
  lemma SurvivorsLater(m: map<DeviceKey, int>, t1: int, t2: int)
    requires t1 <= t2
    ensures Survivors(Survivors(m, t1), t2) == Survivors(m, t2)
  {
    var a, b := Survivors(Survivors(m, t1), t2), Survivors(m, t2);
    assert a.Keys == b.Keys;
  }
}
