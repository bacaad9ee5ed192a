/** The incident store of app.py: the module-level `incidents` list and the
    `id_counter` of the allocator, held as the two fields of one object,
    with the five operations the HTTP handlers call. */
module Store {
  import opened Incidents
  import opened Listing

  class IncidentStore {
    /** The records, in insertion order. */
    var incidents: seq<Incident>
    /** The last id the allocator handed out. */
    var idCounter: int
    /** Every id ever present in the store, including those of records that
        were deleted since. */
    ghost var issued: set<int>

    /** The store invariant: ids are pairwise distinct, every id in the list
        has been issued, and nothing issued is above the counter. */
    ghost predicate Valid()
      reads this
    {
      && DistinctIds(incidents)
      && (forall k :: 0 <= k < |incidents| ==> incidents[k].id in issued)
      && (forall i :: i in issued ==> i <= idCounter)
    }

    /** The store as the process starts: the three seed records, and the
        counter at 3 so that the first id handed out is 4. */
    constructor ()
      ensures Valid()
      ensures incidents == Seed && idCounter == SeedCounter && issued == {1, 2, 3}
    {
      incidents := Seed;
      idCounter := SeedCounter;
      issued := {1, 2, 3};
    }

    /** get_next_id: bump the counter and hand out its new value. */
    method NextId() returns (id: int)
      modifies this`idCounter
      ensures id == old(idCounter) + 1 && idCounter == id
      ensures old(Valid()) ==> Valid()
    {
      idCounter := idCounter + 1;
      id := idCounter;
    }

    /** get_incidents: filter by status and severity, then cut out one page.
        The defaults are those of the query parameters. */
    function List(status: Option<string> := None, severity: Option<string> := None,
                  page: int := 1, perPage: int := 10): (r: PaginatedResponse)
      reads this
      requires perPage != 0
      ensures r.total == |Select(incidents, status, severity)|
      ensures forall x :: x in r.incidents ==> x in incidents && Admits(x, status, severity)
      ensures page >= 1 && perPage >= 1 ==> |r.incidents| <= r.perPage <= MaxPerPage
      ensures page >= 1 && perPage >= 1 ==>
        var selected := Select(incidents, status, severity);
        var start := (page - 1) * r.perPage;
        && 1 <= r.perPage && 0 <= start
        && r.incidents == selected[Min(start, |selected|)..Min(start + r.perPage, |selected|)]
      ensures perPage >= 1 ==>
        && r.totalPages >= 0
        && (r.totalPages - 1) * r.perPage < r.total <= r.totalPages * r.perPage
        && (r.totalPages == 0 <==> r.total == 0)
    {
      var filtered := FilterIncidents(incidents, status, severity);
      FilterIsSelect(incidents, status, severity);
      var r := Paginate(filtered, page, perPage);
      PaginateFacts(filtered, page, perPage);
      r
    }

    /** get_incident: the first record with the id, or NotFound. */
    method Get(id: int) returns (r: Result)
      ensures HasId(incidents, id) ==> r == Ok(incidents[IndexOf(incidents, id)])
      ensures !HasId(incidents, id) ==> r == NotFound(id)
    {
      var i := 0;
      while i < |incidents|
        invariant 0 <= i <= |incidents|
        invariant forall j :: 0 <= j < i ==> incidents[j].id != id
      {
        if incidents[i].id == id {
          assert IndexOf(incidents, id) == i;
          return Ok(incidents[i]);
        }
        i := i + 1;
      }
      return NotFound(id);
    }

    /** create_incident: a record with a fresh id and the request's fields,
        appended at the end and returned. The id was never issued before,
        so it is not the id of any deleted record either. */
    method Create(data: IncidentCreate) returns (r: Incident)
      requires Valid()
      modifies this
      ensures Valid()
      ensures r == Incident(old(idCounter) + 1, data.title, data.status, data.severity)
      ensures idCounter == r.id
      ensures r.id !in old(issued) && issued == old(issued) + {r.id}
      ensures incidents == old(incidents) + [r]
      ensures !HasId(old(incidents), r.id)
      ensures HasId(incidents, r.id) && IndexOf(incidents, r.id) == |old(incidents)|
    {
      var id := NextId();
      r := Incident(id, data.title, data.status, data.severity);
      AppendFresh(incidents, r, id - 1);
      incidents := incidents + [r];
      assert incidents[|old(incidents)|] == r;
      issued := issued + {id};
    }

    /** update_incident: replace the status of the first record with the
        id and return that record, or report NotFound and change nothing. */
    method Update(id: int, data: IncidentUpdate) returns (r: Result)
      requires Valid()
      modifies this`incidents
      ensures Valid()
      ensures incidents == SetStatus(old(incidents), id, data.status)
      ensures HasId(old(incidents), id) ==>
        var k := IndexOf(old(incidents), id);
        r == Ok(old(incidents)[k].(status := data.status)) && incidents[k] == r.value
      ensures !HasId(old(incidents), id) ==> r == NotFound(id) && incidents == old(incidents)
    {
      SetStatusAt(incidents, id, data.status);
      var i := 0;
      while i < |incidents|
        invariant 0 <= i <= |incidents|
        invariant incidents == old(incidents)
        invariant forall j :: 0 <= j < i ==> incidents[j].id != id
      {
        if incidents[i].id == id {
          assert IndexOf(incidents, id) == i;
          incidents := incidents[i := incidents[i].(status := data.status)];
          return Ok(incidents[i]);
        }
        i := i + 1;
      }
      return NotFound(id);
    }

    /** delete_incident: pop the first record with the id and return it, or
        report NotFound and change nothing. The id is gone from the store
        afterwards and, being issued, is never handed out again. */
    method Delete(id: int) returns (r: Result)
      requires Valid()
      modifies this`incidents
      ensures Valid()
      ensures incidents == RemoveFirst(old(incidents), id)
      ensures HasId(old(incidents), id) ==>
        var k := IndexOf(old(incidents), id);
        && r == Ok(old(incidents)[k])
        && incidents == old(incidents)[..k] + old(incidents)[k + 1..]
        && !HasId(incidents, id) && id in issued
      ensures !HasId(old(incidents), id) ==> r == NotFound(id) && incidents == old(incidents)
    {
      var i := 0;
      while i < |incidents|
        invariant 0 <= i <= |incidents|
        invariant incidents == old(incidents)
        invariant forall j :: 0 <= j < i ==> incidents[j].id != id
      {
        if incidents[i].id == id {
          assert IndexOf(incidents, id) == i;
          RemoveFirstAt(incidents, id);
          DropAt(incidents, i);
          r := Ok(incidents[i]);
          var s := incidents;
          incidents := s[..i] + s[i + 1..];
          assert forall k :: 0 <= k < |incidents| ==> incidents[k] == s[if k < i then k else k + 1];
          return;
        }
        i := i + 1;
      }
      RemoveFirstAt(incidents, id);
      return NotFound(id);
    }
  }

  /** Deleting a record and creating another never gives the new record the
      deleted id. */
  method DeleteThenCreate(store: IncidentStore, id: int, data: IncidentCreate)
    returns (deleted: Result, created: Incident)
    requires store.Valid()
    modifies store
    ensures store.Valid()
    ensures deleted.Ok? ==> deleted.value.id == id && created.id != id
  {
    deleted := store.Delete(id);
    created := store.Create(data);
  }

  /** A record just created is what a get of its id returns. */
  method CreateThenGet(store: IncidentStore, data: IncidentCreate)
    returns (created: Incident, got: Result)
    requires store.Valid()
    modifies store
    ensures store.Valid()
    ensures got == Ok(created)
  {
    created := store.Create(data);
    got := store.Get(created.id);
  }

  /** A fresh store hands out ids 4 and then 5, and a create without a
      status gets "open". */
  method CreateScenario()
  {
    var store := new IncidentStore();
    SeedIsValid();
    var x := store.Create(IncidentCreate(title := "X", severity := "low"));
    assert x == Incident(4, "X", "open", "low");
    var y := store.Create(IncidentCreate(title := "Y", status := "closed", severity := "high"));
    assert y == Incident(5, "Y", "closed", "high");
  }

  /** The session that continues from the seed plus one created record:
      update 1, then read it back. */
  method UpdateScenario(store: IncidentStore)
    requires store.Valid()
    requires store.incidents == Seed + [Incident(4, "X", "open", "low")]
    modifies store
  {
    var u := store.Update(1, IncidentUpdate("closed"));
    assert u == Ok(Incident(1, "Phishing Email Campaign Detected", "closed", "high"));
    var g := store.Get(1);
    assert g.Ok? && g.value.status == "closed";
    assert store.incidents == [u.value, Seed[1], Seed[2], Incident(4, "X", "open", "low")];
  }

  /** Deleting 2 returns its record; 2 is then NotFound for get, and
      deleting an id that never existed is NotFound with nothing removed. */
  method DeleteScenario(store: IncidentStore)
    requires store.Valid()
    requires store.incidents == Seed + [Incident(4, "X", "open", "low")]
    modifies store
  {
    var d := store.Delete(2);
    assert d == Ok(Seed[1]);
    var g := store.Get(2);
    assert g == NotFound(2);
    var missing := store.Delete(999);
    assert missing == NotFound(999);
    assert store.incidents == [Seed[0], Seed[2], Incident(4, "X", "open", "low")];
  }

  /** With no filter and the default page, a store of three records lists
      all three. */
  method ListAllScenario(store: IncidentStore)
    requires |store.incidents| == 3
  {
    var listed := store.List();
    assert listed.incidents == store.incidents && listed.total == 3;
  }
}
