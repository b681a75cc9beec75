/** The seat's list of per-client data devices, as values: first-match lookup,
    removal of the first entry of a client, and replace-on-request. The seat's
    methods are proved to change the list exactly as these functions say. */
module DataDeviceRegistry {
  import opened SeatTypes

  /** The registry invariant: no client owns two entries. */
  predicate OnePerClient(devs: seq<DataDevice>) {
    forall i, j :: 0 <= i < j < |devs| ==> devs[i].client != devs[j].client
  }

  /** How many entries `c` owns. */
  function ClientCount(devs: seq<DataDevice>, c: ClientId): nat {
    if devs == [] then 0
    else (if devs[0].client == c then 1 else 0) + ClientCount(devs[1..], c)
  }

  /** The position of the first entry owned by `c`, scanning from the front. */
  function FirstIndex(devs: seq<DataDevice>, c: ClientId): (r: Option<nat>)
    ensures r.Some? ==> r.value < |devs| && devs[r.value].client == c
    ensures r.Some? ==> forall j :: 0 <= j < r.value ==> devs[j].client != c
    ensures r.None? <==> forall j :: 0 <= j < |devs| ==> devs[j].client != c
    decreases |devs|
  {
    if devs == [] then None
    else if devs[0].client == c then Some(0)
    else match FirstIndex(devs[1..], c)
      case None => None
      case Some(i) => Some(i + 1)
  }

  /** The entry the seat hands out for `c`: the first one `c` owns, or none. */
  function Lookup(devs: seq<DataDevice>, c: ClientId): (r: Option<DataDevice>)
    ensures r.Some? ==> r.value in devs && r.value.client == c
    ensures r.None? <==> forall d :: d in devs ==> d.client != c
  {
    match FirstIndex(devs, c)
    case None => None
    case Some(i) => Some(devs[i])
  }

  /** The list with the first entry owned by `c` taken out, the rest in order. */
  function RemoveFirst(devs: seq<DataDevice>, c: ClientId): seq<DataDevice> {
    if devs == [] then []
    else if devs[0].client == c then devs[1..]
    else [devs[0]] + RemoveFirst(devs[1..], c)
  }

  /** Replace on request: drop the client's first entry, append the new one. */
  function Replace(devs: seq<DataDevice>, d: DataDevice): seq<DataDevice> {
    RemoveFirst(devs, d.client) + [d]
  }

  /** Removal takes out exactly the entry `Lookup` returns and keeps every
      other entry in its original order; with no match the list is unchanged. */
  lemma {:induction false} RemoveFirstRemovesLookup(devs: seq<DataDevice>, c: ClientId)
    ensures FirstIndex(devs, c).None? ==> RemoveFirst(devs, c) == devs
    ensures FirstIndex(devs, c).Some? ==>
      var i := FirstIndex(devs, c).value;
      RemoveFirst(devs, c) == devs[..i] + devs[i + 1..]
    decreases |devs|
  {
    if devs != [] && devs[0].client != c {
      var tail := devs[1..];
      RemoveFirstRemovesLookup(tail, c);
      assert RemoveFirst(devs, c) == [devs[0]] + RemoveFirst(tail, c);
      match FirstIndex(tail, c)
      case None =>
        assert FirstIndex(devs, c).None?;
        assert [devs[0]] + tail == devs;
      case Some(i) =>
        assert FirstIndex(devs, c) == Some(i + 1);
        assert tail[..i] == devs[1..i + 1];
        assert tail[i + 1..] == devs[i + 2..];
        assert [devs[0]] + devs[1..i + 1] == devs[..i + 1];
    }
  }

  /** Removal drops one of `c`'s entries when there is one, and no other. */
  lemma {:induction false} RemoveFirstCount(devs: seq<DataDevice>, c: ClientId, other: ClientId)
    ensures ClientCount(RemoveFirst(devs, c), c) ==
      if ClientCount(devs, c) == 0 then 0 else ClientCount(devs, c) - 1
    ensures other != c ==> ClientCount(RemoveFirst(devs, c), other) == ClientCount(devs, other)
    decreases |devs|
  {
    if devs != [] && devs[0].client != c {
      RemoveFirstCount(devs[1..], c, other);
      var r := [devs[0]] + RemoveFirst(devs[1..], c);
      assert r[1..] == RemoveFirst(devs[1..], c);
    }
  }

  /** No entry for `c` exactly when `c` owns none. */
  lemma {:induction false} CountZeroIffAbsent(devs: seq<DataDevice>, c: ClientId)
    ensures ClientCount(devs, c) == 0 <==> FirstIndex(devs, c).None?
    decreases |devs|
  {
    if devs != [] {
      CountZeroIffAbsent(devs[1..], c);
    }
  }

  /** Under the registry invariant every client owns at most one entry. */
  lemma {:induction false} OnePerClientCount(devs: seq<DataDevice>, c: ClientId)
    requires OnePerClient(devs)
    ensures ClientCount(devs, c) <= 1
    decreases |devs|
  {
    if devs != [] {
      assert OnePerClient(devs[1..]) by {
        forall i, j | 0 <= i < j < |devs[1..]|
          ensures devs[1..][i].client != devs[1..][j].client
        {
          assert devs[1..][i] == devs[i + 1] && devs[1..][j] == devs[j + 1];
        }
      }
      OnePerClientCount(devs[1..], c);
      if devs[0].client == c {
        CountZeroIffAbsent(devs[1..], c);
        assert forall j :: 0 <= j < |devs[1..]| ==> devs[1..][j].client != c by {
          forall j | 0 <= j < |devs[1..]| ensures devs[1..][j].client != c {
            assert devs[1..][j] == devs[j + 1];
          }
        }
      }
    }
  }

  /** Cleanup followed by lookup finds nothing, when the invariant held. */
  lemma CleanupThenLookupAbsent(devs: seq<DataDevice>, c: ClientId)
    requires OnePerClient(devs)
    ensures Lookup(RemoveFirst(devs, c), c).None?
    ensures ClientCount(RemoveFirst(devs, c), c) == 0
  {
    OnePerClientCount(devs, c);
    RemoveFirstCount(devs, c, c);
    CountZeroIffAbsent(RemoveFirst(devs, c), c);
  }

  /** A second cleanup for the same client changes nothing. */
  lemma CleanupIdempotent(devs: seq<DataDevice>, c: ClientId)
    requires OnePerClient(devs)
    ensures RemoveFirst(RemoveFirst(devs, c), c) == RemoveFirst(devs, c)
  {
    CleanupThenLookupAbsent(devs, c);
    RemoveFirstRemovesLookup(RemoveFirst(devs, c), c);
  }

  /** Removal keeps the invariant. */
  lemma RemoveFirstKeepsOnePerClient(devs: seq<DataDevice>, c: ClientId)
    requires OnePerClient(devs)
    ensures OnePerClient(RemoveFirst(devs, c))
  {
    RemoveFirstRemovesLookup(devs, c);
    match FirstIndex(devs, c)
    case None =>
    case Some(k) =>
      var r := RemoveFirst(devs, c);
      forall i, j | 0 <= i < j < |r| ensures r[i].client != r[j].client {
        var i' := if i < k then i else i + 1;
        var j' := if j < k then j else j + 1;
        assert r[i] == devs[i'] && r[j] == devs[j'];
      }
  }

  /** Removal for `c` leaves what every other client looks up unchanged. */
  lemma CleanupKeepsOtherLookups(devs: seq<DataDevice>, c: ClientId, other: ClientId)
    requires other != c
    ensures Lookup(RemoveFirst(devs, c), other) == Lookup(devs, other)
  {
    RemoveFirstRemovesLookup(devs, c);
    if FirstIndex(devs, c).Some? {
      LookupSkipping(devs, FirstIndex(devs, c).value, RemoveFirst(devs, c), other);
    }
  }

  /** Taking out an entry another client owns does not change a lookup. */
  lemma LookupSkipping(devs: seq<DataDevice>, k: nat, r: seq<DataDevice>, other: ClientId)
    requires k < |devs| && r == devs[..k] + devs[k + 1..]
    requires devs[k].client != other
    ensures Lookup(r, other) == Lookup(devs, other)
  {
    RemovedAt(devs, k, r);
    if FirstIndex(devs, other).Some? {
      var m := FirstIndex(devs, other).value;
      var m' := if m < k then m else m - 1;
      assert r[m'] == devs[m];
      forall j | 0 <= j < m' ensures r[j].client != other {
        assert r[j] == devs[if j < k then j else j + 1];
      }
      FirstIndexIs(r, other, m');
    } else {
      forall j | 0 <= j < |r| ensures r[j].client != other {
        assert r[j] == devs[if j < k then j else j + 1];
      }
      assert FirstIndex(r, other).None?;
    }
  }

  lemma RemovedAt(devs: seq<DataDevice>, k: nat, r: seq<DataDevice>)
    requires k < |devs| && r == devs[..k] + devs[k + 1..]
    ensures |r| == |devs| - 1
    ensures forall j :: 0 <= j < k ==> r[j] == devs[j]
    ensures forall j :: k <= j < |r| ==> r[j] == devs[j + 1]
  {
  }

  /** The first index is the one position that matches with no match before it. */
  lemma FirstIndexIs(devs: seq<DataDevice>, c: ClientId, m: nat)
    requires m < |devs| && devs[m].client == c
    requires forall j :: 0 <= j < m ==> devs[j].client != c
    ensures FirstIndex(devs, c) == Some(m)
  {
  }

  /** After a request, `c` owns exactly as many entries as before, or one if
      it owned none: repeated requests never add a second entry. */
  lemma ReplaceCount(devs: seq<DataDevice>, d: DataDevice, other: ClientId)
    ensures ClientCount(Replace(devs, d), d.client) ==
      if ClientCount(devs, d.client) == 0 then 1 else ClientCount(devs, d.client)
    ensures other != d.client ==> ClientCount(Replace(devs, d), other) == ClientCount(devs, other)
  {
    RemoveFirstCount(devs, d.client, other);
    CountAppend(RemoveFirst(devs, d.client), d, d.client);
    CountAppend(RemoveFirst(devs, d.client), d, other);
  }

  lemma {:induction false} CountAppend(devs: seq<DataDevice>, d: DataDevice, c: ClientId)
    ensures ClientCount(devs + [d], c) == ClientCount(devs, c) + (if d.client == c then 1 else 0)
    decreases |devs|
  {
    if devs == [] {
      assert devs + [d] == [d];
    } else {
      assert (devs + [d])[1..] == devs[1..] + [d];
      CountAppend(devs[1..], d, c);
    }
  }

  /** A request on a registry that holds the invariant keeps it; the new entry
      is last and is what the client now looks up. */
  lemma ReplaceKeepsOnePerClient(devs: seq<DataDevice>, d: DataDevice)
    requires OnePerClient(devs)
    ensures OnePerClient(Replace(devs, d))
    ensures Lookup(Replace(devs, d), d.client) == Some(d)
    ensures ClientCount(Replace(devs, d), d.client) == 1
  {
    var r := RemoveFirst(devs, d.client);
    RemoveFirstKeepsOnePerClient(devs, d.client);
    CleanupThenLookupAbsent(devs, d.client);
    CountZeroIffAbsent(r, d.client);
    CountAppend(r, d, d.client);
    assert FirstIndex(r + [d], d.client) == Some(|r|) by {
      FirstIndexAppend(r, d);
    }
  }

  lemma {:induction false} FirstIndexAppend(devs: seq<DataDevice>, d: DataDevice)
    requires FirstIndex(devs, d.client).None?
    ensures FirstIndex(devs + [d], d.client) == Some(|devs|)
    decreases |devs|
  {
    if devs == [] {
      assert devs + [d] == [d];
    } else {
      assert (devs + [d])[1..] == devs[1..] + [d];
      FirstIndexAppend(devs[1..], d);
    }
  }

  /** Two requests in a row for one client leave it a single entry: the
      later one. */
  lemma RequestTwiceOneEntry(devs: seq<DataDevice>, d1: DataDevice, d2: DataDevice)
    requires d1.client == d2.client
    requires ClientCount(devs, d1.client) <= 1
    ensures ClientCount(Replace(Replace(devs, d1), d2), d2.client) == 1
    ensures Lookup(Replace(Replace(devs, d1), d2), d2.client) == Some(d2)
  {
    var c := d1.client;
    var r1 := Replace(devs, d1);
    ReplaceCount(devs, d1, c);
    ReplaceCount(r1, d2, c);
    RemoveFirstCount(r1, c, c);
    CountZeroIffAbsent(RemoveFirst(r1, c), c);
    FirstIndexAppend(RemoveFirst(r1, c), d2);
  }
}
