/** Incident records and the pure view of the incident list: which record an
    id selects (the first one, as every linear scan in app.py does), and what
    replacing that record's status or removing that record does to the list. */
module Incidents {

  /** One incident record: the `Incident` model of app.py. Ids are Python
      integers, hence unbounded. */
  datatype Incident = Incident(id: int, title: string, status: string, severity: string)

  /** Body of a create request: title and severity are required, status is
      optional and defaults to "open". */
  datatype IncidentCreate = IncidentCreate(title: string, status: string := "open", severity: string)

  /** Body of an update request: the new status, required. */
  datatype IncidentUpdate = IncidentUpdate(status: string)

  /** Outcome of get, update and delete: the record, or NotFound naming the
      id that no record carries (the 404 of the HTTP layer). */
  datatype Result = Ok(value: Incident) | NotFound(id: int)

  /** The three records the store starts with, and the counter value that
      the allocator starts from. */
  const Seed: seq<Incident> := [
    Incident(1, "Phishing Email Campaign Detected", "open", "high"),
    Incident(2, "Malware Detected on Endpoint", "closed", "medium"),
    Incident(3, "Suspicious Login from Foreign IP", "under investigation", "low")
  ]
  const SeedCounter: int := 3

  predicate HasId(s: seq<Incident>, id: int)
  {
    exists k :: 0 <= k < |s| && s[k].id == id
  }

  /** A non-empty list carries `id` when its head or its tail does. */
  lemma HasIdTail(s: seq<Incident>, id: int)
    requires s != []
    ensures HasId(s, id) <==> s[0].id == id || HasId(s[1..], id)
  {
    if HasId(s, id) && s[0].id != id {
      var k :| 0 <= k < |s| && s[k].id == id;
      assert s[1..][k - 1].id == id;
    }
    if HasId(s[1..], id) {
      var k :| 0 <= k < |s[1..]| && s[1..][k].id == id;
      assert s[k + 1].id == id;
    }
  }

  /** Position of the first record carrying `id`: the record a front-to-back
      scan stops at. */
  function IndexOf(s: seq<Incident>, id: int): (k: nat)
    requires HasId(s, id)
    ensures k < |s| && s[k].id == id
    ensures forall j :: 0 <= j < k ==> s[j].id != id
  {
    if s[0].id == id then 0
    else
      HasIdTail(s, id);
      1 + IndexOf(s[1..], id)
  }

  /** No two records share an id. */
  predicate DistinctIds(s: seq<Incident>)
  {
    forall i, j :: 0 <= i < j < |s| ==> s[i].id != s[j].id
  }

  /** Every id in the list is at most `bound`. */
  predicate IdsAtMost(s: seq<Incident>, bound: int)
  {
    forall k :: 0 <= k < |s| ==> s[k].id <= bound
  }

  /** The seed satisfies the store invariant with the seed counter, and its
      ids are exactly 1, 2 and 3. */
  lemma SeedIsValid()
    ensures DistinctIds(Seed) && IdsAtMost(Seed, SeedCounter)
    ensures forall id :: HasId(Seed, id) <==> 1 <= id <= 3
  {
    assert Seed[0].id == 1 && Seed[1].id == 2 && Seed[2].id == 3;
  }

  /** The list after the first record carrying `id` has its status replaced
      (the for-loop of update_incident); the list is unchanged when no record
      carries `id`. */
  function SetStatus(s: seq<Incident>, id: int, status: string): (r: seq<Incident>)
    ensures |r| == |s|
    ensures forall k :: 0 <= k < |s| ==>
      r[k].id == s[k].id && r[k].title == s[k].title && r[k].severity == s[k].severity
  {
    if s == [] then []
    else if s[0].id == id then [s[0].(status := status)] + s[1..]
    else [s[0]] + SetStatus(s[1..], id, status)
  }

  /** SetStatus touches exactly the first record with the id, and only its
      status; without such a record it is the identity. */
  lemma {:induction false} SetStatusAt(s: seq<Incident>, id: int, status: string)
    ensures HasId(s, id) ==>
      SetStatus(s, id, status) == s[IndexOf(s, id) := s[IndexOf(s, id)].(status := status)]
    ensures !HasId(s, id) ==> SetStatus(s, id, status) == s
  {
    if !HasId(s, id) {
      SetStatusAbsent(s, id, status);
    } else if s[0].id != id {
      var x, t := s[0], s[1..];
      assert s == [x] + t;
      HasIdTail(s, id);
      SetStatusAt(t, id, status);
      assert SetStatus(s, id, status) == [x] + SetStatus(t, id, status);
      var k := IndexOf(t, id);
      assert IndexOf(s, id) == k + 1;
      ConsUpdate(x, t, k, t[k].(status := status));
    }
  }

  /** Without a record carrying the id, SetStatus changes nothing. */
  lemma {:induction false} SetStatusAbsent(s: seq<Incident>, id: int, status: string)
    requires !HasId(s, id)
    ensures SetStatus(s, id, status) == s
  {
    if s != [] {
      HasIdTail(s, id);
      SetStatusAbsent(s[1..], id, status);
      assert s == [s[0]] + s[1..];
    }
  }

  /** Replacing position k of the tail is replacing position k + 1 of the whole. */
  lemma ConsUpdate(x: Incident, t: seq<Incident>, k: nat, v: Incident)
    requires k < |t|
    ensures [x] + t[k := v] == ([x] + t)[k + 1 := v]
  {
  }

  /** The list after the first record carrying `id` is popped (the
      enumerate-and-pop loop of delete_incident); unchanged when no record
      carries `id`. */
  function RemoveFirst(s: seq<Incident>, id: int): (r: seq<Incident>)
    ensures |r| == if HasId(s, id) then |s| - 1 else |s|
  {
    if s == [] then []
    else if s[0].id == id then
      assert s == [s[0]] + s[1..];
      s[1..]
    else
      assert s == [s[0]] + s[1..];
      HasIdTail(s, id);
      [s[0]] + RemoveFirst(s[1..], id)
  }

  /** RemoveFirst drops exactly the first record with the id and keeps the
      others in their relative order. */
  lemma {:induction false} RemoveFirstAt(s: seq<Incident>, id: int)
    ensures HasId(s, id) ==>
      RemoveFirst(s, id) == s[..IndexOf(s, id)] + s[IndexOf(s, id) + 1..]
    ensures !HasId(s, id) ==> RemoveFirst(s, id) == s
  {
    if s != [] && s[0].id != id {
      var x, t := s[0], s[1..];
      assert s == [x] + t;
      HasIdTail(s, id);
      RemoveFirstAt(t, id);
      if HasId(t, id) {
        var k := IndexOf(t, id);
        assert IndexOf(s, id) == k + 1;
        ConsSlices(x, t, k);
      }
    }
  }

  /** Dropping position k of the tail is dropping position k + 1 of the whole. */
  lemma ConsSlices(x: Incident, t: seq<Incident>, k: nat)
    requires k < |t|
    ensures [x] + (t[..k] + t[k + 1..]) == ([x] + t)[..k + 1] + ([x] + t)[k + 2..]
  {
    assert ([x] + t)[..k + 1] == [x] + t[..k];
    assert ([x] + t)[k + 2..] == t[k + 1..];
  }

  /** Dropping the element at `k` from a list with distinct ids keeps the
      ids distinct, and the ids left are the others. */
  lemma DropAt(s: seq<Incident>, k: nat)
    requires DistinctIds(s) && k < |s|
    ensures DistinctIds(s[..k] + s[k + 1..])
    ensures forall x :: HasId(s[..k] + s[k + 1..], x) <==> HasId(s, x) && x != s[k].id
  {
    DropAtDistinct(s, k);
    forall x
      ensures HasId(s[..k] + s[k + 1..], x) <==> HasId(s, x) && x != s[k].id
    {
      DropAtHasId(s, k, x);
    }
  }

  lemma DropAtDistinct(s: seq<Incident>, k: nat)
    requires DistinctIds(s) && k < |s|
    ensures DistinctIds(s[..k] + s[k + 1..])
  {
    var r := s[..k] + s[k + 1..];
    forall i, j | 0 <= i < j < |r|
      ensures r[i].id != r[j].id
    {
      var i' := if i < k then i else i + 1;
      var j' := if j < k then j else j + 1;
      assert r[i] == s[i'] && r[j] == s[j'];
    }
  }

  lemma DropAtHasId(s: seq<Incident>, k: nat, x: int)
    requires DistinctIds(s) && k < |s|
    ensures HasId(s[..k] + s[k + 1..], x) <==> HasId(s, x) && x != s[k].id
  {
    var r := s[..k] + s[k + 1..];
    if HasId(s, x) && x != s[k].id {
      var m :| 0 <= m < |s| && s[m].id == x;
      var m' := if m < k then m else m - 1;
      assert r[m'] == s[m];
    }
    if HasId(r, x) {
      var j :| 0 <= j < |r| && r[j].id == x;
      var j' := if j < k then j else j + 1;
      assert r[j] == s[j'];
    }
  }

  /** On a list with distinct ids, removing a record keeps the ids distinct
      and leaves no record with the removed id: a later lookup of that id
      reports NotFound. Every other id stays present. */
  lemma RemoveFirstGone(s: seq<Incident>, id: int)
    requires DistinctIds(s)
    ensures DistinctIds(RemoveFirst(s, id))
    ensures forall x :: HasId(RemoveFirst(s, id), x) <==> HasId(s, x) && x != id
  {
    RemoveFirstAt(s, id);
    if HasId(s, id) {
      DropAt(s, IndexOf(s, id));
    }
  }

  /** Appending a record whose id is one above every id in a list with
      distinct ids keeps the ids distinct and bounded by the new id. */
  lemma AppendFresh(s: seq<Incident>, inc: Incident, bound: int)
    requires DistinctIds(s) && IdsAtMost(s, bound) && inc.id == bound + 1
    ensures !HasId(s, inc.id)
    ensures DistinctIds(s + [inc]) && IdsAtMost(s + [inc], inc.id)
  {
  }
}
