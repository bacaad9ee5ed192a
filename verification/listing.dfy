/** The read side of GET /incidents: the optional case-insensitive filters on
    status and severity, then the page arithmetic and the page slice, with
    Python's floor division and slice bounds written out. */
module Listing {
  import opened Incidents

  datatype Option<T> = None | Some(value: T)

  /** Largest page size the listing hands out. */
  const MaxPerPage: int := 100

  /** The response of the listing operation. */
  datatype PaginatedResponse = PaginatedResponse(
    incidents: seq<Incident>, total: int, page: int, perPage: int, totalPages: int)

  function Min(a: int, b: int): int
  {
    if a <= b then a else b
  }

  // ---------------------------------------------------------------------
  // Filtering

  /** ASCII lower-casing of one character: an upper-case letter becomes the
      lower-case letter at the same place in the alphabet, and every other
      character is left as it is. */
  function LowerChar(c: char): (r: char)
    ensures !('A' <= r <= 'Z')
    ensures 'A' <= c <= 'Z' ==> 'a' <= r <= 'z' && r as int - 'a' as int == c as int - 'A' as int
    ensures !('A' <= c <= 'Z') ==> r == c
  {
    if 'A' <= c <= 'Z' then (c as int + 32) as char else c
  }

  /** ASCII lower-casing of a string, standing for Python's `str.lower`. */
  function Lower(s: string): (r: string)
    ensures |r| == |s|
  {
    if s == [] then [] else [LowerChar(s[0])] + Lower(s[1..])
  }

  /** Lower-casing works character by character. */
  lemma {:induction false} LowerCharwise(s: string)
    ensures forall i :: 0 <= i < |s| ==> Lower(s)[i] == LowerChar(s[i])
  {
    if s != [] {
      LowerCharwise(s[1..]);
      assert forall i :: 1 <= i < |s| ==> Lower(s)[i] == Lower(s[1..])[i - 1];
    }
  }

  /** A query filter constrains the listing only when it is given and
      non-empty: `if status:` is false for None and for "". */
  predicate InForce(q: Option<string>): (b: bool)
    ensures !b <==> q == None || q == Some("")
  {
    q.Some? && q.value != ""
  }

  datatype Field = StatusField | SeverityField

  function FieldOf(inc: Incident, f: Field): string
  {
    match f
    case StatusField => inc.status
    case SeverityField => inc.severity
  }

  /** One list comprehension: the records whose field equals `want` after
      lower-casing both sides. */
  function KeepMatching(s: seq<Incident>, f: Field, want: string): (r: seq<Incident>)
    ensures |r| <= |s|
    ensures forall x {:trigger x in r} :: x in r <==> x in s && Lower(FieldOf(x, f)) == Lower(want)
  {
    if s == [] then []
    else Matched(s[0], f, want) + KeepMatching(s[1..], f, want)
  }

  /** The record as a one-element list when its field equals `want` after
      lower-casing both sides. */
  function Matched(x: Incident, f: Field, want: string): seq<Incident>
  {
    if Lower(FieldOf(x, f)) == Lower(want) then [x] else []
  }

  /** One filter step: the comprehension when the filter is in force,
      the input untouched otherwise. */
  function Pass(s: seq<Incident>, f: Field, q: Option<string>): (r: seq<Incident>)
    ensures |r| <= |s|
    ensures forall x {:trigger x in r} :: x in r <==> x in s && FieldAdmits(x, f, q)
    ensures !InForce(q) ==> r == s
  {
    if InForce(q) then KeepMatching(s, f, q.value) else s
  }

  /** The filtered list: by status first, then by severity. A record is
      listed exactly when it is stored and matches every filter in force,
      and with no filter in force the list is the whole store. */
  function FilterIncidents(s: seq<Incident>, status: Option<string>, severity: Option<string>): (r: seq<Incident>)
    ensures |r| <= |s|
    ensures forall x {:trigger x in r} :: x in r <==> x in s && Admits(x, status, severity)
    ensures !InForce(status) && !InForce(severity) ==> r == s
  {
    Pass(Pass(s, StatusField, status), SeverityField, severity)
  }

  /** Whether a record satisfies one filter. */
  predicate FieldAdmits(inc: Incident, f: Field, q: Option<string>)
  {
    InForce(q) ==> Lower(FieldOf(inc, f)) == Lower(q.value)
  }

  /** Whether a record satisfies both filters. */
  predicate Admits(inc: Incident, status: Option<string>, severity: Option<string>)
  {
    FieldAdmits(inc, StatusField, status) && FieldAdmits(inc, SeverityField, severity)
  }

  /** The record as a one-element list when it satisfies the filters. */
  function Kept(x: Incident, status: Option<string>, severity: Option<string>): seq<Incident>
  {
    if Admits(x, status, severity) then [x] else []
  }

  /** Reference definition of the filtered list, in one pass: the records
      that satisfy both filters, in their original order. */
  function Select(s: seq<Incident>, status: Option<string>, severity: Option<string>): (r: seq<Incident>)
    ensures |r| <= |s|
  {
    if s == [] then []
    else Kept(s[0], status, severity) + Select(s[1..], status, severity)
  }

  /** Select keeps exactly the records of the list that satisfy the filters. */
  lemma {:induction false} SelectMembers(s: seq<Incident>, status: Option<string>, severity: Option<string>)
    ensures forall x :: x in Select(s, status, severity) <==> x in s && Admits(x, status, severity)
  {
    if s != [] {
      SelectMembers(s[1..], status, severity);
      assert s == [s[0]] + s[1..];
    }
  }

  /** Select keeps a single record exactly when it satisfies the filters. */
  lemma SelectSingle(x: Incident, status: Option<string>, severity: Option<string>)
    ensures Select([x], status, severity) == if Admits(x, status, severity) then [x] else []
  {
    assert [x][1..] == [];
  }

  /** Select on a list with a given head. */
  lemma SelectCons(x: Incident, t: seq<Incident>, status: Option<string>, severity: Option<string>)
    ensures Select([x] + t, status, severity)
      == Kept(x, status, severity) + Select(t, status, severity)
  {
    assert ([x] + t)[0] == x && ([x] + t)[1..] == t;
  }

  /** Select distributes over concatenation. With SelectSingle this fixes it
      as the order-preserving subsequence of admitted records. */
  lemma {:induction false} SelectAppend(a: seq<Incident>, b: seq<Incident>, status: Option<string>, severity: Option<string>)
    ensures Select(a + b, status, severity) == Select(a, status, severity) + Select(b, status, severity)
  {
    if a == [] {
      assert a + b == b;
    } else {
      var x, t := a[0], a[1..];
      assert a == [x] + t;
      assert a + b == [x] + (t + b);
      var k := Kept(x, status, severity);
      calc {
        Select(a + b, status, severity);
        { SelectCons(x, t + b, status, severity); }
        k + Select(t + b, status, severity);
        { SelectAppend(t, b, status, severity); }
        k + (Select(t, status, severity) + Select(b, status, severity));
        (k + Select(t, status, severity)) + Select(b, status, severity);
        { SelectCons(x, t, status, severity); }
        Select(a, status, severity) + Select(b, status, severity);
      }
    }
  }

  /** One comprehension distributes over concatenation. */
  lemma {:induction false} KeepMatchingAppend(a: seq<Incident>, b: seq<Incident>, f: Field, want: string)
    ensures KeepMatching(a + b, f, want) == KeepMatching(a, f, want) + KeepMatching(b, f, want)
  {
    if a == [] {
      assert a + b == b;
    } else {
      assert (a + b)[1..] == a[1..] + b;
      KeepMatchingAppend(a[1..], b, f, want);
      var h := Matched(a[0], f, want);
      calc {
        KeepMatching(a + b, f, want);
        h + KeepMatching(a[1..] + b, f, want);
        h + (KeepMatching(a[1..], f, want) + KeepMatching(b, f, want));
        (h + KeepMatching(a[1..], f, want)) + KeepMatching(b, f, want);
      }
    }
  }

  /** The two comprehensions of the listing compute exactly the reference
      filter: the records satisfying every filter in force, in order. */
  lemma {:induction false} FilterIsSelect(s: seq<Incident>, status: Option<string>, severity: Option<string>)
    ensures FilterIncidents(s, status, severity) == Select(s, status, severity)
  {
    if s != [] {
      var x, t := s[0], s[1..];
      assert s == [x] + t;
      FilterIsSelect(t, status, severity);
      var p1 := Pass([x], StatusField, status);
      assert Pass(s, StatusField, status) == p1 + Pass(t, StatusField, status) by {
        if InForce(status) {
          KeepMatchingAppend([x], t, StatusField, status.value);
        }
      }
      assert Pass(p1 + Pass(t, StatusField, status), SeverityField, severity)
          == Pass(p1, SeverityField, severity) + FilterIncidents(t, status, severity) by {
        if InForce(severity) {
          KeepMatchingAppend(p1, Pass(t, StatusField, status), SeverityField, severity.value);
        }
      }
      assert [x][1..] == [];
    }
  }

  // ---------------------------------------------------------------------
  // Python integer division and slicing

  /** Python's `a // b`: the quotient rounded towards minus infinity, so the
      remainder has the sign of the divisor. */
  function FloorDiv(a: int, b: int): (q: int)
    requires b != 0
    ensures b > 0 ==> b * q <= a < b * q + b
    ensures b < 0 ==> b * q + b < a <= b * q
  {
    if b > 0 then a / b else (-a) / (-b)
  }

  /** How a Python slice bound is normalised for a sequence of length n:
      a negative bound counts from the end, and the result is clipped to
      0..n. */
  function SliceBound(i: int, n: nat): (k: nat)
    ensures k <= n
    ensures 0 <= i <= n ==> k == i
    ensures -(n as int) <= i < 0 ==> k == n as int + i
    ensures i > n ==> k == n
    ensures i < -(n as int) ==> k == 0
  {
    if i < 0 then (if i + n < 0 then 0 else i + n)
    else if i > n then n
    else i
  }

  /** Python's `s[start:stop]`: the window between the normalised bounds,
      empty when they cross. */
  function PySlice(s: seq<Incident>, start: int, stop: int): (r: seq<Incident>)
    ensures |r| <= |s|
    ensures 0 <= start <= stop ==> r == s[Min(start, |s|)..Min(stop, |s|)]
  {
    var lo, hi := SliceBound(start, |s|), SliceBound(stop, |s|);
    if lo < hi then s[lo..hi] else []
  }

  // ---------------------------------------------------------------------
  // Pagination

  /** The page arithmetic of the listing: cap per_page at 100, total_pages
      by `(total + per_page - 1) // per_page`, and the slice from
      `(page - 1) * per_page` of length per_page. The only fault is a zero
      per_page, which divides by zero. */
  function Paginate(filtered: seq<Incident>, page: int, perPage: int): (r: PaginatedResponse)
    requires perPage != 0
    ensures r.total == |filtered| && r.page == page
    ensures r.perPage <= MaxPerPage
    ensures perPage <= MaxPerPage ==> r.perPage == perPage
    ensures perPage >= MaxPerPage ==> r.perPage == MaxPerPage
    ensures forall x :: x in r.incidents ==> x in filtered
  {
    var total := |filtered|;
    var pp := Min(perPage, MaxPerPage);
    var totalPages := FloorDiv(total + pp - 1, pp);
    var start := (page - 1) * pp;
    var end := start + pp;
    PaginatedResponse(PySlice(filtered, start, end), total, page, pp, totalPages)
  }

  /** `(n + pp - 1) // pp` is the ceiling of n / pp for n >= 0 and pp >= 1. */
  lemma CeilingDivision(n: int, pp: int)
    requires n >= 0 && pp >= 1
    ensures var q := FloorDiv(n + pp - 1, pp);
      q >= 0 && pp * q - pp < n <= pp * q
  {
    var a := n + pp - 1;
    var q, m := a / pp, a % pp;
    assert a == pp * q + m && 0 <= m < pp;
    if q < 0 {
      MulMonotone(pp, q, -1);
      assert false;
    }
  }

  /** total_pages is the ceiling of total / per_page: enough pages to hold
      every record, the last of them non-empty, and no page at all when no
      record passes the filters. */
  lemma TotalPagesIsCeiling(filtered: seq<Incident>, page: int, perPage: int)
    requires perPage >= 1
    ensures var r := Paginate(filtered, page, perPage);
      && 1 <= r.perPage
      && r.totalPages >= 0
      && (r.totalPages - 1) * r.perPage < r.total <= r.totalPages * r.perPage
      && (r.totalPages == 0 <==> r.total == 0)
  {
    var r := Paginate(filtered, page, perPage);
    var pp, n, tp := r.perPage, r.total, r.totalPages;
    assert 1 <= pp && n == |filtered| && tp == FloorDiv(n + pp - 1, pp);
    CeilingDivision(n, pp);
    CeilingFacts(n, pp, tp);
  }

  lemma CeilingFacts(n: int, pp: int, tp: int)
    requires n >= 0 && pp >= 1 && tp >= 0 && pp * tp - pp < n <= pp * tp
    ensures (tp - 1) * pp < n <= tp * pp
    ensures tp == 0 <==> n == 0
  {
    assert (tp - 1) * pp == pp * tp - pp;
    if tp > 0 {
      MulMonotone(pp, 1, tp);
    }
  }

  /** For pp >= 1, `pp * a <= pp * b` whenever `a <= b`. */
  lemma MulMonotone(pp: int, a: int, b: int)
    requires pp >= 1 && a <= b
    ensures pp * a <= pp * b
  {
    assert pp * b - pp * a == pp * (b - a);
  }

  /** For a page number of at least 1 the page is the window of the filtered
      list from (page - 1) * per_page, cut at the end of the list: at most
      per_page records, and none once the window starts past the end. */
  lemma PageWindow(filtered: seq<Incident>, page: int, perPage: int)
    requires page >= 1 && perPage >= 1
    ensures var r := Paginate(filtered, page, perPage);
      var start := (page - 1) * r.perPage;
      && start >= 0
      && r.incidents == filtered[Min(start, |filtered|)..Min(start + r.perPage, |filtered|)]
      && |r.incidents| <= r.perPage
      && (start >= |filtered| ==> r.incidents == [])
  {
    var pp := Paginate(filtered, page, perPage).perPage;
    MulMonotone(pp, 0, page - 1);
    assert pp * (page - 1) == (page - 1) * pp;
  }

  /** Page 0 is always empty: its window ends at index 0. */
  /** PageWindow and TotalPagesIsCeiling together, each under its own
      condition on page and per_page. */
  lemma PaginateFacts(filtered: seq<Incident>, page: int, perPage: int)
    requires perPage != 0
    ensures var r := Paginate(filtered, page, perPage);
      var start := (page - 1) * r.perPage;
      page >= 1 && perPage >= 1 ==>
        && |r.incidents| <= r.perPage
        && 1 <= r.perPage && 0 <= start
        && r.incidents == filtered[Min(start, |filtered|)..Min(start + r.perPage, |filtered|)]
    ensures var r := Paginate(filtered, page, perPage);
      perPage >= 1 ==>
        && r.totalPages >= 0
        && (r.totalPages - 1) * r.perPage < r.total <= r.totalPages * r.perPage
        && (r.totalPages == 0 <==> r.total == 0)
  {
    if page >= 1 && perPage >= 1 {
      PageWindow(filtered, page, perPage);
    }
    if perPage >= 1 {
      TotalPagesIsCeiling(filtered, page, perPage);
    }
  }

  lemma PageZeroIsEmpty(filtered: seq<Incident>, perPage: int)
    requires perPage >= 1
    ensures Paginate(filtered, 0, perPage).incidents == []
  {
  }

  /** The pages 1..k of the filtered list, in order, put together. */
  function PagesUpTo(filtered: seq<Incident>, perPage: int, k: nat): seq<Incident>
    requires perPage >= 1
  {
    if k == 0 then [] else PagesUpTo(filtered, perPage, k - 1) + Paginate(filtered, k, perPage).incidents
  }

  /** Pages 1..k together are the first k * per_page records. */
  lemma {:induction false} PagesUpToPrefix(filtered: seq<Incident>, perPage: int, k: nat)
    requires perPage >= 1
    ensures var pp := Min(perPage, MaxPerPage);
      PagesUpTo(filtered, perPage, k) == filtered[..Min(k * pp, |filtered|)]
  {
    var pp := Min(perPage, MaxPerPage);
    if k > 0 {
      PagesUpToPrefix(filtered, perPage, k - 1);
      PageWindow(filtered, k, perPage);
      var start := (k - 1) * pp;
      StepDistributes(k, pp);
      AdjacentWindows(filtered, start, start + pp);
    }
  }

  lemma StepDistributes(k: int, pp: int)
    ensures (k - 1) * pp + pp == k * pp
  {
  }

  /** Two adjacent windows, each cut at the end of the list, make a prefix. */
  lemma AdjacentWindows(s: seq<Incident>, a: int, b: int)
    requires 0 <= a <= b
    ensures s[..Min(a, |s|)] + s[Min(a, |s|)..Min(b, |s|)] == s[..Min(b, |s|)]
  {
  }

  /** Reading pages 1..total_pages in order returns the filtered list exactly,
      each record once. */
  lemma PagesReassemble(filtered: seq<Incident>, perPage: int)
    requires perPage >= 1
    ensures PagesUpTo(filtered, perPage, Paginate(filtered, 1, perPage).totalPages) == filtered
  {
    var r := Paginate(filtered, 1, perPage);
    TotalPagesIsCeiling(filtered, 1, perPage);
    PagesUpToPrefix(filtered, perPage, r.totalPages);
  }

  /** Lower-casing is idempotent. */
  lemma {:induction false} LowerIdempotent(s: string)
    ensures Lower(Lower(s)) == Lower(s)
  {
    if s != [] {
      LowerIdempotent(s[1..]);
      assert Lower(s)[1..] == Lower(s[1..]);
    }
  }

  /** Select depends on the filters only through which records they admit. */
  lemma {:induction false} SelectCongruent(s: seq<Incident>, st1: Option<string>, sv1: Option<string>,
                                           st2: Option<string>, sv2: Option<string>)
    requires forall x :: Admits(x, st1, sv1) == Admits(x, st2, sv2)
    ensures Select(s, st1, sv1) == Select(s, st2, sv2)
  {
    if s != [] {
      SelectCongruent(s[1..], st1, sv1, st2, sv2);
    }
  }

  /** The filters ignore case: a filter value and its lower-cased form list
      the same records, for status and for severity. */
  lemma FilterIgnoresCase(s: seq<Incident>, status: Option<string>, severity: Option<string>)
    ensures status.Some? ==>
      FilterIncidents(s, status, severity) == FilterIncidents(s, Some(Lower(status.value)), severity)
    ensures severity.Some? ==>
      FilterIncidents(s, status, severity) == FilterIncidents(s, status, Some(Lower(severity.value)))
  {
    FilterIsSelect(s, status, severity);
    if status.Some? {
      var low := Some(Lower(status.value));
      LowerIdempotent(status.value);
      FilterIsSelect(s, low, severity);
      SelectCongruent(s, status, severity, low, severity);
    }
    if severity.Some? {
      var low := Some(Lower(severity.value));
      LowerIdempotent(severity.value);
      FilterIsSelect(s, status, low);
      SelectCongruent(s, status, severity, status, low);
    }
  }

  /** An empty filter constrains nothing. */
  lemma EmptyFilterIsNoFilter(s: seq<Incident>)
    ensures FilterIncidents(s, Some(""), Some("")) == s
  {
  }

  /** Three records make two pages of two, and per_page is capped at 100. */
  /** On the seed, the status filter OPEN lists the one record stored with
      status "open". */
  lemma SeedStatusOpen()
    ensures FilterIncidents(Seed, Some("OPEN"), None) == [Seed[0]]
  {
    var q := Some("OPEN");
    LowerCharwise("OPEN");
    LowerCharwise("open");
    assert Admits(Seed[0], q, None);
    assert !Admits(Seed[1], q, None) by { assert |Lower("closed")| != |Lower("OPEN")|; }
    assert !Admits(Seed[2], q, None) by { assert |Lower("under investigation")| != |Lower("OPEN")|; }
    assert Seed == [Seed[0], Seed[1], Seed[2]];
    FilterThree(Seed[0], Seed[1], Seed[2], q, None);
  }

  /** On the seed, the severity filter HIGH lists the one record stored
      with severity "high". */
  lemma SeedSeverityHigh()
    ensures FilterIncidents(Seed, None, Some("HIGH")) == [Seed[0]]
  {
    var q := Some("HIGH");
    LowerCharwise("HIGH");
    LowerCharwise("high");
    assert Admits(Seed[0], None, q);
    assert !Admits(Seed[1], None, q) by { assert |Lower("medium")| != |Lower("HIGH")|; }
    assert !Admits(Seed[2], None, q) by { assert |Lower("low")| != |Lower("HIGH")|; }
    assert Seed == [Seed[0], Seed[1], Seed[2]];
    FilterThree(Seed[0], Seed[1], Seed[2], None, q);
  }

  /** The filtered list of three records, record by record. */
  lemma FilterThree(a: Incident, b: Incident, c: Incident, status: Option<string>, severity: Option<string>)
    ensures FilterIncidents([a, b, c], status, severity)
      == Kept(a, status, severity) + Kept(b, status, severity) + Kept(c, status, severity)
  {
    var ka, kb, kc := Kept(a, status, severity), Kept(b, status, severity), Kept(c, status, severity);
    assert [a, b, c] == [a] + [b, c] && [b, c] == [b] + [c];
    calc {
      FilterIncidents([a, b, c], status, severity);
      { FilterIsSelect([a, b, c], status, severity); }
      Select([a] + [b, c], status, severity);
      { SelectCons(a, [b, c], status, severity); }
      ka + Select([b] + [c], status, severity);
      { SelectCons(b, [c], status, severity); }
      ka + (kb + Select([c], status, severity));
      { SelectSingle(c, status, severity); }
      ka + (kb + kc);
      ka + kb + kc;
    }
  }

  lemma SeedPages()
    ensures Paginate(Seed, 1, 2).incidents == Seed[..2] && Paginate(Seed, 1, 2).totalPages == 2
    ensures Paginate(Seed, 2, 2).incidents == [Seed[2]]
    ensures Paginate(Seed, 1, 1000).perPage == 100
  {
  }
}
