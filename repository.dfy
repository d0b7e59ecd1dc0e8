/** `ResourceModel` of `models/resource.ts` over an in-memory `resources`
    table: the rows by id and the AUTOINCREMENT counter. Every method is
    the SQL statement it builds, read as an operation on that table. */
module Repository {
  import opened Wrappers
  import opened JsText
  import opened ResourceTypes

  /** A text filter takes part in the query only when it is truthy:
      present and not the empty string. */
  predicate Truthy(f: Option<string>) {
    f.Some? && f.value != []
  }

  /** The WHERE clause built by `findAll` and `count`. The search is read
      as a plain substring test (see the README on LIKE). */
  predicate Matches(r: Resource, filters: ResourceFilters) {
    && (Truthy(filters.category) ==> r.category == filters.category.value)
    && (Truthy(filters.status) ==> StatusText(r.status) == filters.status.value)
    && (Truthy(filters.search) ==>
          Contains(r.name, filters.search.value) || Contains(r.description, filters.search.value))
  }

  /** With no filter at all every row matches. */
  lemma NoFilterMatchesAll(r: Resource, limit: Option<int>, offset: Option<int>)
    ensures Matches(r, ResourceFilters(None, None, None, limit, offset))
    ensures Matches(r, ResourceFilters(Some([]), Some([]), Some([]), limit, offset))
  {
  }

  /** SQLite's BINARY collation on text compares the UTF-8 bytes, which
      orders strings by code point, a proper prefix first. */
  predicate BinaryBelow(a: string, b: string)
    decreases |a|
  {
    if a == [] then b != []
    else if b == [] then false
    else if a[0] != b[0] then a[0] < b[0]
    else BinaryBelow(a[1..], b[1..])
  }

  /** `a` collates before `b` or is `b`. */
  predicate NotAbove(a: string, b: string) {
    a == b || BinaryBelow(a, b)
  }

  lemma {:induction false} BinaryBelowTransitive(a: string, b: string, c: string)
    requires BinaryBelow(a, b) && BinaryBelow(b, c)
    ensures BinaryBelow(a, c)
  {
    if a != [] && a[0] == b[0] && b[0] == c[0] {
      BinaryBelowTransitive(a[1..], b[1..], c[1..]);
    }
  }

  /** Any two different texts collate one way or the other. */
  lemma {:induction false} BinaryBelowTotal(a: string, b: string)
    requires a != b
    ensures BinaryBelow(a, b) || BinaryBelow(b, a)
  {
    if a != [] && b != [] && a[0] == b[0] {
      assert a == [a[0]] + a[1..] && b == [b[0]] + b[1..];
      BinaryBelowTotal(a[1..], b[1..]);
    }
  }

  /** `ORDER BY createdAt DESC`: creation times never increase. */
  predicate NewestFirst(s: seq<Resource>) {
    forall i, j :: 0 <= i < j < |s| ==> NotAbove(s[j].createdAt, s[i].createdAt)
  }

  lemma NotAboveTransitive(a: string, b: string, c: string)
    requires NotAbove(a, b) && NotAbove(b, c)
    ensures NotAbove(a, c)
  {
    if a != b && b != c {
      BinaryBelowTransitive(a, b, c);
    }
  }

  /** Places `r` before the first row of `s` that is not newer than it. */
  function InsertNewestFirst(r: Resource, s: seq<Resource>): (t: seq<Resource>)
    ensures multiset(t) == multiset(s) + multiset{r}
  {
    if s == [] || NotAbove(s[0].createdAt, r.createdAt) then
      [r] + s
    else
      assert s == [s[0]] + s[1..];
      [s[0]] + InsertNewestFirst(r, s[1..])
  }

  /** Inserting into a newest-first list keeps it newest first. */
  lemma {:induction false} InsertKeepsNewestFirst(r: Resource, s: seq<Resource>)
    requires NewestFirst(s)
    ensures NewestFirst(InsertNewestFirst(r, s))
  {
    if s == [] || NotAbove(s[0].createdAt, r.createdAt) {
      forall k | 0 <= k < |s| ensures NotAbove(s[k].createdAt, r.createdAt) {
        if k > 0 {
          NotAboveTransitive(s[k].createdAt, s[0].createdAt, r.createdAt);
        }
      }
    } else {
      var rest := InsertNewestFirst(r, s[1..]);
      InsertKeepsNewestFirst(r, s[1..]);
      BinaryBelowTotal(s[0].createdAt, r.createdAt);
      forall k | 0 <= k < |rest| ensures NotAbove(rest[k].createdAt, s[0].createdAt) {
        assert rest[k] in multiset(rest);
        if rest[k] != r {
          assert rest[k] in s[1..];
        }
      }
    }
  }

  /** The sort of `ORDER BY createdAt DESC`. Rows with equal creation
      times may come in any order; this one is one of them. */
  function SortNewestFirst(s: seq<Resource>): (t: seq<Resource>)
    ensures NewestFirst(t)
    ensures multiset(t) == multiset(s)
  {
    if s == [] then []
    else
      assert s == [s[0]] + s[1..];
      InsertKeepsNewestFirst(s[0], SortNewestFirst(s[1..]));
      InsertNewestFirst(s[0], SortNewestFirst(s[1..]))
  }

  function Min(a: int, b: int): int {
    if a < b then a else b
  }

  /** `LIMIT ? [OFFSET ?]` as `findAll` appends them: LIMIT only for a
      truthy limit (a negative one means no limit in SQLite), OFFSET only
      when the limit is there too and the offset is truthy (a negative one
      counts as zero). */
  function Window(s: seq<Resource>, limit: Option<int>, offset: Option<int>): (w: seq<Resource>)
    ensures limit.None? || limit.value == 0 ==> w == s
    ensures limit.Some? && limit.value > 0 ==>
      var start := if offset.Some? && offset.value > 0 then Min(offset.value, |s|) else 0;
      |w| == Min(limit.value, |s| - start) && w == s[start..start + |w|]
  {
    if limit.None? || limit.value == 0 then s
    else
      var start := if offset.Some? && offset.value > 0 then Min(offset.value, |s|) else 0;
      var rest := s[start..];
      if limit.value < 0 || limit.value >= |rest| then rest else rest[..limit.value]
  }

  /** With a positive limit and a non-negative offset the page ends before
      the end of the list exactly when `offset + limit < |s|`: that is the
      meaning of `hasMore`. */
  lemma WindowLeavesMore(s: seq<Resource>, limit: int, offset: int)
    requires limit >= 1 && offset >= 0
    ensures offset + |Window(s, Some(limit), Some(offset))| < |s| <==> offset + limit < |s|
  {
  }

  /** The row after `update` with the supplied fields and a new updatedAt;
      the id, createdAt and every field not supplied are kept. */
  function Apply(existing: Resource, input: UpdateResourceInput, now: string): (r: Resource)
    ensures r.id == existing.id && r.createdAt == existing.createdAt && r.updatedAt == now
    ensures r.name == (if input.name.Some? then input.name.value else existing.name)
    ensures r.description == (if input.description.Some? then input.description.value else existing.description)
    ensures r.category == (if input.category.Some? then input.category.value else existing.category)
    ensures r.status == (if input.status.Some? then input.status.value else existing.status)
  {
    var r := existing.(updatedAt := now);
    var r := if input.name.Some? then r.(name := input.name.value) else r;
    var r := if input.description.Some? then r.(description := input.description.value) else r;
    var r := if input.category.Some? then r.(category := input.category.value) else r;
    if input.status.Some? then r.(status := input.status.value) else r
  }

  /** Applying an update twice with the same time is applying it once. */
  lemma ApplyIdempotent(existing: Resource, input: UpdateResourceInput, now: string)
    ensures Apply(Apply(existing, input, now), input, now) == Apply(existing, input, now)
  {
  }

  class ResourceModel {
    /** The table, by primary key. */
    var rows: map<int, Resource>
    /** The next AUTOINCREMENT value: above every id ever handed out. */
    var nextId: int

    ghost predicate Valid()
      reads this
    {
      1 <= nextId && forall id :: id in rows ==> 1 <= id < nextId && rows[id].id == id
    }

    /** The ids of the rows the filters select. */
    ghost function MatchingIds(filters: ResourceFilters): set<int>
      reads this
    {
      set id | id in rows && Matches(rows[id], filters)
    }

    /** `s` lists the selected rows: each stored row that matches exactly
      once, and nothing else. */
    ghost predicate Listing(s: seq<Resource>, filters: ResourceFilters)
      reads this
    {
      && (forall x :: x in s ==> x.id in rows && rows[x.id] == x && Matches(x, filters))
      && (forall id :: id in rows && Matches(rows[id], filters) ==> multiset(s)[rows[id]] == 1)
      && |s| == |MatchingIds(filters)|
    }

    /** An empty table whose first id is 1. */
    constructor ()
      ensures Valid() && rows == map[] && nextId == 1
    {
      rows := map[];
      nextId := 1;
    }

    /** `create`: one INSERT under the next id, with status `active` when
      none is given and both timestamps set to `now`. */
    method Create(input: CreateResourceInput, now: string) returns (r: Resource)
      requires Valid()
      modifies this
      ensures Valid()
      ensures r.id == old(nextId) && nextId == old(nextId) + 1
      ensures forall id :: id in old(rows) ==> id < r.id
      ensures rows == old(rows)[r.id := r]
      ensures r.name == input.name && r.description == input.description && r.category == input.category
      ensures r.status == (if input.status.Some? then input.status.value else Active)
      ensures r.createdAt == now && r.updatedAt == now
    {
      var status := if input.status.Some? then input.status.value else Active;
      r := Resource(nextId, input.name, input.description, input.category, status, now, now);
      rows := rows[nextId := r];
      nextId := nextId + 1;
    }

    /** `findById`: the stored row, or `None` for `null`. */
    method FindById(id: int) returns (r: Option<Resource>)
      requires Valid()
      ensures r.Some? <==> id in rows
      ensures r.Some? ==> r.value == rows[id] && r.value.id == id
    {
      if id in rows {
        r := Some(rows[id]);
      } else {
        r := None;
      }
    }

    /** The selected rows with ids below `n`, in rowid order: what a scan
      of the table has collected when it reaches `n`. */
    ghost function ScannedBelow(n: int, filters: ResourceFilters): seq<Resource>
      reads this
      decreases n
    {
      if n <= 1 then []
      else
        ScannedBelow(n - 1, filters) +
          (if n - 1 in rows && Matches(rows[n - 1], filters) then [rows[n - 1]] else [])
    }

    /** The ids of the selected rows below `n`. */
    ghost function MatchingIdsBelow(n: int, filters: ResourceFilters): set<int>
      reads this
    {
      set id | id in rows && id < n && Matches(rows[id], filters)
    }

    /** A scan up to `n` holds stored matching rows below `n` only. */
    lemma {:induction false} ScannedRows(n: int, filters: ResourceFilters)
      requires Valid()
      ensures forall x :: x in ScannedBelow(n, filters) ==>
        x.id in rows && rows[x.id] == x && x.id < n && Matches(x, filters)
      decreases n
    {
      if n > 1 {
        ScannedRows(n - 1, filters);
      }
    }

    /** A scan up to `n` has one entry per selected id below `n`. */
    lemma {:induction false} ScannedCount(n: int, filters: ResourceFilters)
      requires Valid()
      ensures |ScannedBelow(n, filters)| == |MatchingIdsBelow(n, filters)|
      decreases n
    {
      if n > 1 {
        ScannedCount(n - 1, filters);
        MatchingIdsStep(n, filters);
      } else {
        assert MatchingIdsBelow(n, filters) == {} by {
          forall id | id in rows ensures id >= n { }
        }
      }
    }

    /** Raising the bound from `n - 1` to `n` adds id `n - 1` when it is
      selected, and nothing otherwise. */
    lemma MatchingIdsStep(n: int, filters: ResourceFilters)
      ensures var k := n - 1;
        MatchingIdsBelow(n, filters) ==
          MatchingIdsBelow(k, filters) + (if k in rows && Matches(rows[k], filters) then {k} else {})
    {
    }

    /** A scan up to `n` holds each selected row below `n` exactly once. */
    lemma {:induction false} ScannedOnce(n: int, filters: ResourceFilters)
      requires Valid()
      ensures forall id :: id in MatchingIdsBelow(n, filters) ==>
        multiset(ScannedBelow(n, filters))[rows[id]] == 1
      decreases n
    {
      if n > 1 {
        ScannedOnce(n - 1, filters);
        ScannedRows(n - 1, filters);
        var before := ScannedBelow(n - 1, filters);
        var k := n - 1;
        if k in rows && Matches(rows[k], filters) {
          ScannedOnceStep(n, filters);
        } else {
          assert ScannedBelow(n, filters) == before;
        }
      }
    }

    /** Appending the selected row with id `n - 1`, an id above every row
      scanned so far, to a scan that holds each selected row below it once
      gives a scan that holds each selected row below `n` once. */
    lemma ScannedOnceStep(n: int, filters: ResourceFilters)
      requires Valid() && n > 1
      requires n - 1 in rows && Matches(rows[n - 1], filters)
      requires forall id :: id in MatchingIdsBelow(n - 1, filters) ==>
        multiset(ScannedBelow(n - 1, filters))[rows[id]] == 1
      requires forall x :: x in ScannedBelow(n - 1, filters) ==> x.id < n - 1
      ensures forall id :: id in MatchingIdsBelow(n, filters) ==>
        multiset(ScannedBelow(n, filters))[rows[id]] == 1
    {
      var before := ScannedBelow(n - 1, filters);
      var k := n - 1;
      assert rows[k] !in before;
      assert multiset(ScannedBelow(n, filters)) == multiset(before) + multiset{rows[k]};
      forall id | id in MatchingIdsBelow(n, filters)
        ensures multiset(ScannedBelow(n, filters))[rows[id]] == 1
      {
        if id != k {
          assert rows[id] != rows[k];
        }
      }
    }

    /** The selected rows in rowid order, as SQLite scans the table
      before it sorts. */
    method ScanMatching(filters: ResourceFilters) returns (matched: seq<Resource>)
      requires Valid()
      ensures matched == ScannedBelow(nextId, filters)
      ensures Listing(matched, filters)
    {
      var id := 1;
      matched := [];
      while id < nextId
        invariant 1 <= id <= nextId
        invariant matched == ScannedBelow(id, filters)
      {
        matched := matched + (if id in rows && Matches(rows[id], filters) then [rows[id]] else []);
        id := id + 1;
      }
      ScanIsListing(filters);
    }

    /** A full scan of the table lists exactly the selected rows. */
    lemma ScanIsListing(filters: ResourceFilters)
      requires Valid()
      ensures Listing(ScannedBelow(nextId, filters), filters)
    {
      ScannedRows(nextId, filters);
      ScannedCount(nextId, filters);
      ScannedOnce(nextId, filters);
      assert MatchingIdsBelow(nextId, filters) == MatchingIds(filters);
    }

    /** Reordering a listing keeps it a listing. */
    lemma ListingPermuted(s: seq<Resource>, t: seq<Resource>, filters: ResourceFilters)
      requires Listing(s, filters) && multiset(t) == multiset(s)
      ensures Listing(t, filters)
    {
      assert |t| == |multiset(t)| == |multiset(s)| == |s|;
      forall x | x in t
        ensures x.id in rows && rows[x.id] == x && Matches(x, filters)
      {
        assert x in multiset(t);
        assert x in s;
      }
    }

    /** `findAll`: the selected rows newest first, cut by LIMIT/OFFSET.
      `ordered` is the order the database sorted them in. */
    method FindAll(filters: ResourceFilters) returns (page: seq<Resource>, ghost ordered: seq<Resource>)
      requires Valid()
      ensures Listing(ordered, filters)
      ensures NewestFirst(ordered)
      ensures page == Window(ordered, filters.limit, filters.offset)
    {
      var matched := ScanMatching(filters);
      var sorted := SortNewestFirst(matched);
      ListingPermuted(matched, sorted, filters);
      ordered := sorted;
      page := Window(sorted, filters.limit, filters.offset);
    }

    /** `update`: nothing for an absent id; the row as it is when no field
      is supplied; otherwise the row with the supplied fields and a new
      updatedAt, read back after the UPDATE. */
    method Update(id: int, input: UpdateResourceInput, now: string) returns (r: Option<Resource>)
      requires Valid()
      modifies this
      ensures Valid() && nextId == old(nextId)
      ensures id !in old(rows) ==> r.None? && rows == old(rows)
      ensures id in old(rows) && NoFields(input) ==> r == Some(old(rows)[id]) && rows == old(rows)
      ensures id in old(rows) && !NoFields(input) ==>
        r == Some(Apply(old(rows)[id], input, now)) && rows == old(rows)[id := r.value]
    {
      var existing := FindById(id);
      if existing.None? {
        return None;
      }
      if NoFields(input) {
        return existing;
      }
      rows := rows[id := Apply(existing.value, input, now)];
      r := FindById(id);
    }

    /** `delete`: whether a row was removed; afterwards the id is free but
      AUTOINCREMENT never hands it out again. */
    method Delete(id: int) returns (deleted: bool)
      requires Valid()
      modifies this
      ensures Valid() && nextId == old(nextId)
      ensures deleted <==> id in old(rows)
      ensures rows == old(rows) - {id}
      ensures id !in rows
    {
      deleted := id in rows;
      rows := rows - {id};
    }

    /** `count`: the number of rows `findAll` selects, before LIMIT and
      OFFSET. */
    method Count(filters: ResourceFilters) returns (n: int)
      requires Valid()
      ensures n == |MatchingIds(filters)|
    {
      n := |set id | id in rows && Matches(rows[id], filters)|;
    }
  }
}
